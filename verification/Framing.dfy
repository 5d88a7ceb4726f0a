/** Packets on the wire: the header of src/shared/DiscordPacketHeader.h, and a reader that takes one octet at a time. */
module Framing {
  import opened BitStream

  const HEADER_SIZE: nat := 6
  const NUM_OPCODE_HANDLERS: nat := 8

  datatype Packet = Packet(opcode: nat, payload: seq<Byte>)

  // ReadDataHandlerResult
  datatype Verdict = Ok | WaitingForQuery | Error

  function Be32(b: seq<Byte>): nat
    requires |b| == 4
  {
    b[0] as nat * 0x1000000 + b[1] as nat * 0x10000 + b[2] as nat * 0x100 + b[3]
  }

  function Le16(b: seq<Byte>): nat
    requires |b| == 2
  {
    b[0] + b[1] as nat * 0x100
  }

  predicate IsValidSize(size: nat) { 2 <= size < 10000 }
  predicate IsValidOpcode(cmd: nat) { cmd < NUM_OPCODE_HANDLERS }

  // ---- the writer ----

  // DiscordServerPktHeader: size in network order, opcode in little-endian order.
  function HeaderBytes(size: nat, cmd: nat): (h: seq<Byte>)
    requires size < 0x1_0000_0000 && cmd < 0x10000
    ensures |h| == HEADER_SIZE
  {
    [size / 0x1000000 % 256, size / 0x10000 % 256, size / 0x100 % 256, size % 256, cmd % 256, cmd / 0x100 % 256]
  }

  lemma HeaderBack(size: nat, cmd: nat)
    requires size < 0x1_0000_0000 && cmd < 0x10000
    ensures Be32(HeaderBytes(size, cmd)[..4]) == size && Le16(HeaderBytes(size, cmd)[4..]) == cmd
    // the size with its highest octet first, the opcode with its lowest first
    ensures
      var h := HeaderBytes(size, cmd);
      size == ((h[0] as nat * 256 + h[1]) * 256 + h[2]) * 256 + h[3] && cmd == h[5] as nat * 256 + h[4]
  {
    assert size / 0x10000 == size / 0x100 / 0x100 && size / 0x1000000 == size / 0x10000 / 0x100;
  }

  // What SendPacket puts on the wire; the length is a uint32.
  function Wire(p: Packet): seq<Byte>
    requires p.opcode < 0x10000
  {
    HeaderBytes((|p.payload| + 2) % 0x1_0000_0000, p.opcode) + p.payload
  }

  predicate AllPackets(ps: seq<Packet>) {
    forall i :: 0 <= i < |ps| ==> ps[i].opcode < 0x10000
  }

  function WireAll(ps: seq<Packet>): seq<Byte>
    requires AllPackets(ps)
  {
    if ps == [] then [] else Wire(ps[0]) + WireAll(ps[1..])
  }

  // ---- the reader, octet by octet ----

  datatype Frame =
    | Header(got: seq<Byte>)
    | Body(opcode: nat, size: nat, got: seq<Byte>)
    | Ended(closed: bool)  // malformed, refused, or waiting for a query

  // The frame being received and the packets handed to ReadDataHandler.
  datatype Link = Link(frame: Frame, delivered: seq<Packet>)

  const START: Link := Link(Header([]), [])

  // The handler decides on each packet, knowing all before it.
  type Handler = seq<Packet> -> Verdict

  function Deliver(delivered: seq<Packet>, p: Packet, handler: Handler): Link {
    var all := delivered + [p];
    Link(match handler(all) case Ok => Header([]) case WaitingForQuery => Ended(false) case Error => Ended(true), all)
  }

  // A complete header.
  function Opened(h: seq<Byte>, delivered: seq<Packet>, handler: Handler): Link
    requires |h| == HEADER_SIZE
  {
    var size, cmd := Be32(h[..4]), Le16(h[4..]);
    if !IsValidSize(size) || !IsValidOpcode(cmd) then Link(Ended(true), delivered)
    else if size == 2 then Deliver(delivered, Packet(cmd, []), handler)
    else Link(Body(cmd, size - 2, []), delivered)
  }

  lemma OpenedBad(h: seq<Byte>, delivered: seq<Packet>, handler: Handler)
    requires |h| == HEADER_SIZE
    ensures !IsValidSize(Be32(h[..4])) || !IsValidOpcode(Le16(h[4..])) ==>
      Opened(h, delivered, handler) == Link(Ended(true), delivered)
  {
  }

  function Octet(l: Link, b: Byte, handler: Handler): Link {
    match l.frame
    case Header(got) =>
      var h := got + [b];
      if |h| == HEADER_SIZE then Opened(h, l.delivered, handler) else Link(Header(h), l.delivered)
    case Body(opcode, size, got) =>
      var p := got + [b];
      if |p| == size then Deliver(l.delivered, Packet(opcode, p), handler) else Link(Body(opcode, size, p), l.delivered)
    case Ended(_) => l
  }

  function Fold(l: Link, s: seq<Byte>, handler: Handler): Link
    decreases |s|
  {
    if s == [] then l else Fold(Octet(l, s[0], handler), s[1..], handler)
  }

  lemma {:induction false} FoldConcat(l: Link, a: seq<Byte>, b: seq<Byte>, handler: Handler)
    ensures Fold(l, a + b, handler) == Fold(Fold(l, a, handler), b, handler)
    decreases |a|
  {
    hide Octet;
    if a == [] {
      assert a + b == b;
    } else {
      assert (a + b)[1..] == a[1..] + b;
      FoldConcat(Octet(l, a[0], handler), a[1..], b, handler);
    }
  }

  lemma {:induction false} FoldEnded(l: Link, s: seq<Byte>, handler: Handler)
    requires l.frame.Ended?
    ensures Fold(l, s, handler) == l
    decreases |s|
  {
    if s != [] { FoldEnded(l, s[1..], handler); }
  }

  // Octets of a header at once.
  lemma {:induction false} FoldHeader(l: Link, s: seq<Byte>, handler: Handler)
    requires l.frame.Header? && |l.frame.got| + |s| <= HEADER_SIZE && |l.frame.got| < HEADER_SIZE
    ensures Fold(l, s, handler) ==
      if |l.frame.got| + |s| == HEADER_SIZE then Opened(l.frame.got + s, l.delivered, handler)
      else Link(Header(l.frame.got + s), l.delivered)
    decreases |s|
  {
    hide Opened;
    if s == [] {
      assert l.frame.got + s == l.frame.got;
    } else {
      assert l.frame.got + s == l.frame.got + [s[0]] + s[1..];
      if |s| > 1 {
        FoldHeader(Octet(l, s[0], handler), s[1..], handler);
      } else {
        assert s == [s[0]] && s[1..] == [];
        NoOctets(Octet(l, s[0], handler), handler);
      }
    }
  }

  // Octets of a payload at once.
  lemma {:induction false} FoldBody(l: Link, s: seq<Byte>, handler: Handler)
    requires l.frame.Body? && |l.frame.got| + |s| <= l.frame.size && |l.frame.got| < l.frame.size
    ensures Fold(l, s, handler) ==
      if |l.frame.got| + |s| == l.frame.size then Deliver(l.delivered, Packet(l.frame.opcode, l.frame.got + s), handler)
      else Link(Body(l.frame.opcode, l.frame.size, l.frame.got + s), l.delivered)
    decreases |s|
  {
    hide Deliver;
    if s == [] {
      assert l.frame.got + s == l.frame.got;
    } else {
      assert l.frame.got + s == l.frame.got + [s[0]] + s[1..];
      if |s| > 1 {
        FoldBody(Octet(l, s[0], handler), s[1..], handler);
      } else {
        assert s == [s[0]] && s[1..] == [];
        NoOctets(Octet(l, s[0], handler), handler);
      }
    }
  }

  // ---- what is sent is what is delivered ----

  // The receiver takes the packet.
  predicate Takes(p: Packet) {
    IsValidOpcode(p.opcode) && |p.payload| <= 9997
  }

  // One packet is delivered exactly when opcode and length are in range.
  lemma OnePacket(delivered: seq<Packet>, p: Packet, handler: Handler)
    requires p.opcode < 0x10000 && |p.payload| + 2 < 0x1_0000_0000
    ensures Fold(Link(Header([]), delivered), Wire(p), handler) ==
      if Takes(p) then Deliver(delivered, p, handler) else Link(Ended(true), delivered)
  {
    hide HeaderBytes, Be32, Le16, Deliver, Octet, Fold;
    var size, l := |p.payload| + 2, Link(Header([]), delivered);
    var h := HeaderBytes(size, p.opcode);
    HeaderBack(size, p.opcode);
    FoldConcat(l, h, p.payload, handler);
    FoldHeader(l, h, handler);
    assert [] + h == h;
    var m := Opened(h, delivered, handler);
    if !Takes(p) {
      FoldEnded(m, p.payload, handler);
    } else if size == 2 {
      NoOctets(m, handler);
      assert p == Packet(p.opcode, []);
    } else {
      FoldBody(m, p.payload, handler);
      assert [] + p.payload == p.payload;
    }
  }

  lemma NoOctets(l: Link, handler: Handler)
    ensures Fold(l, [], handler) == l
  {
  }

  // The packets up to the first that is refused or not answered with Ok.
  function Accepted(delivered: seq<Packet>, ps: seq<Packet>, handler: Handler): Link
    decreases |ps|
  {
    if ps == [] then Link(Header([]), delivered)
    else if !Takes(ps[0]) then Link(Ended(true), delivered)
    else
      var l := Deliver(delivered, ps[0], handler);
      if l.frame.Ended? then l else Accepted(l.delivered, ps[1..], handler)
  }

  /** The octets of any packets are read as exactly those packets, in order, up to the first one that is out of range or
      not answered with Ok. */
  lemma {:induction false} PacketsBack(delivered: seq<Packet>, ps: seq<Packet>, handler: Handler)
    requires AllPackets(ps) && forall i :: 0 <= i < |ps| ==> |ps[i].payload| + 2 < 0x1_0000_0000
    ensures Fold(Link(Header([]), delivered), WireAll(ps), handler) == Accepted(delivered, ps, handler)
    decreases |ps|
  {
    hide Wire, Octet;
    var l := Link(Header([]), delivered);
    if ps != [] {
      var rest := WireAll(ps[1..]);
      OnePacket(delivered, ps[0], handler);
      FoldConcat(l, Wire(ps[0]), rest, handler);
      var m := Fold(l, Wire(ps[0]), handler);
      if m.frame.Ended? {
        FoldEnded(m, rest, handler);
      } else {
        PacketsBack(m.delivered, ps[1..], handler);
      }
    }
  }

  // Only packets that were sent are delivered, in their order.
  lemma {:induction false} AcceptedPrefix(delivered: seq<Packet>, ps: seq<Packet>, handler: Handler)
    ensures delivered <= Accepted(delivered, ps, handler).delivered <= delivered + ps
    decreases |ps|
  {
    if ps != [] && Takes(ps[0]) {
      var more := delivered + [ps[0]];
      assert more + ps[1..] == delivered + ps;
      AcceptedPrefix(more, ps[1..], handler);
    }
  }

  // A handler that agrees to everything gets everything.
  lemma {:induction false} AllAccepted(delivered: seq<Packet>, ps: seq<Packet>, handler: Handler)
    requires forall i :: 0 <= i < |ps| ==> Takes(ps[i])
    requires forall k :: 0 < k <= |ps| ==> handler(delivered + ps[..k]) == Ok
    ensures Accepted(delivered, ps, handler) == Link(Header([]), delivered + ps)
    decreases |ps|
  {
    if ps == [] {
      assert delivered + ps == delivered;
    } else {
      assert ps[..1] == [ps[0]];
      var more := delivered + [ps[0]];
      assert handler(delivered + ps[..1]) == Ok;
      forall k | 0 < k <= |ps| - 1 ensures handler(more + ps[1..][..k]) == Ok {
        assert more + ps[1..][..k] == delivered + ps[..k + 1];
      }
      AllAccepted(more, ps[1..], handler);
      assert more + ps[1..] == delivered + ps;
    }
  }
}
