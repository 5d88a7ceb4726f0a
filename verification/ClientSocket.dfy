/** ClientSocket::ReadHandler, ReadHeaderHandler and SendPacket of src/client/Client/ClientSocket.cpp, over the
    MessageBuffer of src/common/Utilities/MessageBuffer.h. */
module ClientSocket {
  import opened BitStream
  import opened Framing

  class MessageBuffer {
    var storage: seq<Byte>
    var wpos: nat
    var rpos: nat

    ghost predicate Valid()
      reads this
    {
      rpos <= wpos <= |storage|
    }

    function Active(): seq<Byte>
      requires Valid()
      reads this
    {
      storage[rpos..wpos]
    }

    function RemainingSpace(): nat
      requires Valid()
      reads this
    {
      |storage| - wpos
    }

    constructor (size: nat)
      ensures Valid() && |storage| == size && wpos == rpos == 0
    {
      storage, wpos, rpos := seq(size, _ => 0), 0, 0;
    }

    method Reset()
      modifies this`wpos, this`rpos
      ensures wpos == rpos == 0
    {
      wpos, rpos := 0, 0;
    }

    // The positions stay where they are.
    method Resize(n: nat)
      requires wpos <= n
      modifies this`storage
      ensures |storage| == n && forall i :: 0 <= i < n && i < |old(storage)| ==> storage[i] == old(storage)[i]
    {
      storage := if n <= |storage| then storage[..n] else storage + seq(n - |storage|, _ => 0);
    }

    method ReadCompleted(n: nat)
      requires Valid() && n <= wpos - rpos
      modifies this`rpos
      ensures Valid() && rpos == old(rpos) + n && Active() == old(Active())[n..]
    {
      rpos := rpos + n;
    }

    method Write(data: seq<Byte>)
      requires Valid() && |data| <= RemainingSpace()
      modifies this`storage, this`wpos
      ensures Valid() && |storage| == old(|storage|) && wpos == old(wpos) + |data|
      ensures storage[..wpos] == old(storage[..wpos]) + data && Active() == old(Active()) + data
    {
      storage := storage[..wpos] + data + storage[wpos + |data|..];
      wpos := wpos + |data|;
      assert storage[rpos..wpos] == old(storage[rpos..wpos]) + data;
    }

    // Discards what has been read.
    method Normalize()
      requires Valid()
      modifies this
      ensures Valid() && rpos == 0 && |storage| == old(|storage|) && Active() == old(Active())
    {
      if rpos > 0 {
        storage := storage[rpos..wpos] + storage[wpos - rpos..];
        wpos, rpos := wpos - rpos, 0;
      }
    }

    method EnsureFreeSpace()
      requires Valid()
      modifies this`storage
      ensures Valid() && |storage| >= old(|storage|) && storage[..wpos] == old(storage[..wpos])
    {
      if RemainingSpace() == 0 { Resize(|storage| * 3 / 2); }
    }

    method Move() returns (data: seq<Byte>)
      modifies this
      ensures data == old(storage) && storage == [] && wpos == rpos == 0
    {
      data := storage;
      storage, wpos, rpos := [], 0, 0;
    }
  }

  // ---- header fields in the order of the machine ----

  function Reversed(b: seq<Byte>): (r: seq<Byte>)
    ensures |r| == |b|
  {
    seq(|b|, i requires 0 <= i < |b| => b[|b| - 1 - i])
  }

  function Host32(b: seq<Byte>, big: bool): nat
    requires |b| == 4
  {
    if big then Be32(b) else b[0] + b[1] as nat * 0x100 + b[2] as nat * 0x10000 + b[3] as nat * 0x1000000
  }

  function Host16(b: seq<Byte>, big: bool): nat
    requires |b| == 2
  {
    if big then b[0] as nat * 0x100 + b[1] else Le16(b)
  }

  function Bytes32(v: nat, big: bool): (b: seq<Byte>)
    requires v < 0x1_0000_0000
    ensures |b| == 4
  {
    var b := HeaderBytes(v, 0)[..4];
    if big then b else Reversed(b)
  }

  // EndianConvertReverse and EndianConvert
  function ConvertReverse(b: seq<Byte>, big: bool): (r: seq<Byte>)
    ensures |r| == |b|
  {
    if big then b else Reversed(b)
  }

  function Convert(b: seq<Byte>, big: bool): (r: seq<Byte>)
    ensures |r| == |b|
  {
    if big then Reversed(b) else b
  }

  // On either machine the size is read in network order and the opcode in little-endian order.
  lemma Converted(h: seq<Byte>, big: bool)
    requires |h| == HEADER_SIZE
    ensures Host32(ConvertReverse(h[..4], big), big) == Be32(h[..4])
      && Host16(Convert(h[4..], big), big) == Le16(h[4..])
  {
  }

  // ---- the socket ----

  class ClientSocket {
    const headerBuffer: MessageBuffer
    const packetBuffer: MessageBuffer
    const readBuffer: MessageBuffer
    const big: bool
    const handler: Handler
    var delivered: seq<Packet>   // what ReadDataHandler was called with
    var closed: bool
    var reading: bool            // a read is outstanding or being handled
    var writeQueue: seq<seq<Byte>>

    ghost predicate Apart()
      reads this
    {
      headerBuffer != packetBuffer && headerBuffer != readBuffer && packetBuffer != readBuffer
    }

    ghost predicate Buffers()
      reads this, headerBuffer, packetBuffer
    {
      && Apart() && headerBuffer.Valid() && packetBuffer.Valid() && headerBuffer.rpos == 0 && packetBuffer.rpos == 0
      && |headerBuffer.storage| == HEADER_SIZE && (headerBuffer.wpos < HEADER_SIZE ==> packetBuffer.wpos == 0)
    }

    // Between two octets of the stream.
    ghost predicate Settled()
      reads this, headerBuffer, packetBuffer
    {
      Buffers() && (Live() && headerBuffer.wpos == HEADER_SIZE ==> packetBuffer.wpos < |packetBuffer.storage|)
    }

    ghost predicate Live()
      reads this
    {
      !closed && reading
    }

    // The opcode in the converted header.
    function Opcode(): nat
      requires |headerBuffer.storage| == HEADER_SIZE
      reads headerBuffer`storage
    {
      Host16(headerBuffer.storage[4..], big)
    }

    // Where the socket stands in the stream.
    ghost function Abs(): Link
      requires Buffers()
      reads this, headerBuffer, packetBuffer
    {
      Link(if !Live() then Ended(closed)
           else if headerBuffer.wpos < HEADER_SIZE then Header(headerBuffer.storage[..headerBuffer.wpos])
           else Body(Opcode(), |packetBuffer.storage|, packetBuffer.storage[..packetBuffer.wpos]), delivered)
    }

    constructor (bigEndian: bool, h: Handler)
      ensures Settled() && readBuffer.Valid() && readBuffer.Active() == [] && |readBuffer.storage| == 4096
        && readBuffer.rpos == 0
      ensures readBuffer !in {headerBuffer, packetBuffer} && fresh(headerBuffer) && fresh(packetBuffer)
        && fresh(readBuffer)
      ensures Abs() == START && handler == h && writeQueue == []
    {
      headerBuffer := new MessageBuffer(HEADER_SIZE);
      packetBuffer := new MessageBuffer(4096);
      readBuffer := new MessageBuffer(4096);
      big, handler, delivered, closed, reading, writeQueue := bigEndian, h, [], false, true, [];
    }

    method CloseSocket()
      modifies this`closed
      ensures closed
    {
      closed := true;
    }

    // Convert the header in place, once, and make room for the payload.
    method ReadHeaderHandler() returns (ok: bool)
      requires Buffers() && headerBuffer.wpos == HEADER_SIZE && packetBuffer.wpos == 0
      modifies headerBuffer`storage, packetBuffer`storage
      ensures Buffers() && headerBuffer.storage[4..] == Convert(old(headerBuffer.storage)[4..], big)
      ensures Opcode() == Le16(old(headerBuffer.storage)[4..])
      ensures ok <==>
        IsValidSize(Be32(old(headerBuffer.storage)[..4])) && IsValidOpcode(Le16(old(headerBuffer.storage)[4..]))
      ensures ok ==> |packetBuffer.storage| == Be32(old(headerBuffer.storage)[..4]) - 2
    {
      hide Convert, ConvertReverse, Host32, Host16, Be32, Le16, Bytes32;
      var h := headerBuffer.storage;
      Converted(h, big);
      var sizeBytes := ConvertReverse(h[..4], big);
      var cmdBytes := Convert(h[4..], big);
      headerBuffer.storage := sizeBytes + cmdBytes;
      var size, cmd := Host32(sizeBytes, big), Host16(cmdBytes, big);
      if !IsValidSize(size) || !IsValidOpcode(cmd) { return false; }
      size := size - 2;
      headerBuffer.storage := Bytes32(size, big) + cmdBytes;
      packetBuffer.Resize(size);
      ok := true;
    }

    // The packet takes the payload out of the buffer; the handler decides.
    method ReadDataHandler() returns (result: Verdict)
      requires Buffers() && headerBuffer.wpos == HEADER_SIZE && packetBuffer.RemainingSpace() == 0
      modifies this`delivered, packetBuffer
      ensures delivered == old(delivered) + [Packet(old(Opcode()), old(packetBuffer.storage))]
        && result == handler(delivered)
      ensures packetBuffer.storage == [] && packetBuffer.wpos == packetBuffer.rpos == 0
    {
      var opcode := Opcode();
      var payload := packetBuffer.Move();
      delivered := delivered + [Packet(opcode, payload)];
      result := handler(delivered);
    }

    // Where the socket stands once a complete packet has been handed over.
    ghost function Due(): Link
      requires Buffers()
      reads this, headerBuffer, packetBuffer
    {
      if headerBuffer.wpos == HEADER_SIZE && packetBuffer.wpos == |packetBuffer.storage| then
        Deliver(delivered, Packet(Opcode(), packetBuffer.storage), handler)
      else Abs()
    }

    ghost predicate Reading()
      reads this, headerBuffer, packetBuffer, readBuffer
    {
      Buffers() && Live() && readBuffer.Valid()
    }

    // What all the octets in the read buffer lead to.
    ghost function Goal(): Link
      requires Reading()
      reads this, headerBuffer, packetBuffer, readBuffer
    {
      Fold(Due(), readBuffer.Active(), handler)
    }

    // Move octets from the read buffer into another one, as many as fit.
    method Fill(to: MessageBuffer) returns (full: bool, ghost n: nat)
      requires readBuffer.Valid() && to.Valid() && to != readBuffer && to.RemainingSpace() > 0
      modifies to, readBuffer`rpos
      ensures readBuffer.Valid() && to.Valid() && to.rpos == old(to.rpos) && |to.storage| == |old(to.storage)|
      ensures n <= |old(readBuffer.Active())| && (|old(readBuffer.Active())| > 0 ==> n > 0)
        && to.wpos == old(to.wpos) + n
      ensures to.storage[..to.wpos] == old(to.storage[..to.wpos]) + old(readBuffer.Active())[..n]
      ensures readBuffer.Active() == old(readBuffer.Active())[n..]
      ensures if full then to.wpos == |to.storage| else to.wpos < |to.storage| && readBuffer.Active() == []
    {
      var a := readBuffer.Active();
      var k := if |a| < to.RemainingSpace() then |a| else to.RemainingSpace();
      n := k;
      to.Write(a[..k]);
      readBuffer.ReadCompleted(k);
      full := to.RemainingSpace() == 0;
    }

    // The first half of the loop: the header, if it is not complete.
    method GetHeader() returns (go: bool)
      requires Settled() && Reading() && headerBuffer.wpos < HEADER_SIZE && readBuffer.Active() != []
      modifies this`closed, headerBuffer, packetBuffer`storage, readBuffer`rpos
      ensures go ==> Reading() && headerBuffer.wpos == HEADER_SIZE && Goal() == old(Goal())
                     && |readBuffer.Active()| < |old(readBuffer.Active())|
      ensures !go ==> Settled() && readBuffer.Valid() && Abs() == old(Goal()) && (Live() ==> readBuffer.Active() == [])
      ensures delivered == old(delivered) && packetBuffer.wpos == 0
    {
      hide Fold, Opened, Host16, Convert, Be32, Le16;
      ghost var l, a := Abs(), readBuffer.Active();
      ghost var n;
      var full;
      full, n := Fill(headerBuffer);
      ghost var h := headerBuffer.storage[..headerBuffer.wpos];
      FoldHeader(l, a[..n], handler);
      FoldConcat(l, a[..n], a[n..], handler);
      assert a == a[..n] + a[n..];
      if !full {
        assert a[..n] == a;
        return false;
      }
      assert headerBuffer.storage == h;
      go := ReadHeaderHandler();
      OpenedBad(h, delivered, handler);
      if !go {
        FoldEnded(Opened(h, delivered, handler), a[n..], handler);
        CloseSocket();
        return false;
      }
      Landed(h);
    }

    // After a good header the socket stands where the header leads.
    lemma Landed(h: seq<Byte>)
      requires Buffers() && Live() && headerBuffer.wpos == HEADER_SIZE && packetBuffer.wpos == 0 && |h| == HEADER_SIZE
      requires IsValidSize(Be32(h[..4])) && IsValidOpcode(Le16(h[4..])) && |packetBuffer.storage| == Be32(h[..4]) - 2
      requires Opcode() == Le16(h[4..])
      ensures Due() == Opened(h, delivered, handler)
    {
      hide Host16, Be32, Le16;
      if |packetBuffer.storage| == 0 { assert packetBuffer.storage == []; }
    }

    // The second half: the payload.
    method GetPayload() returns (go: bool)
      requires Reading() && headerBuffer.wpos == HEADER_SIZE && packetBuffer.wpos < |packetBuffer.storage|
      modifies packetBuffer, readBuffer`rpos
      ensures Reading() && headerBuffer.wpos == HEADER_SIZE && |readBuffer.Active()| <= |old(readBuffer.Active())|
      ensures go ==> packetBuffer.wpos == |packetBuffer.storage| && Goal() == old(Goal())
      ensures go && |old(readBuffer.Active())| > 0 ==> |readBuffer.Active()| < |old(readBuffer.Active())|
      ensures !go ==> Settled() && Abs() == old(Goal()) && readBuffer.Active() == []
    {
      hide Fold, Deliver, Host16;
      ghost var l, a := Abs(), readBuffer.Active();
      ghost var n;
      go, n := Fill(packetBuffer);
      FoldBody(l, a[..n], handler);
      FoldConcat(l, a[..n], a[n..], handler);
      assert a == a[..n] + a[n..];
      if go {
        assert packetBuffer.storage[..packetBuffer.wpos] == packetBuffer.storage;
      } else {
        assert a[..n] == a;
      }
    }

    // The end of the loop: a complete packet.
    method Handle() returns (go: bool)
      requires Reading() && headerBuffer.wpos == HEADER_SIZE && packetBuffer.wpos == |packetBuffer.storage|
      modifies this`delivered, this`closed, this`reading, headerBuffer`wpos, headerBuffer`rpos, packetBuffer
      ensures Settled() && readBuffer.Valid()
      ensures go ==> Reading() && Goal() == old(Goal()) && headerBuffer.wpos == 0
      ensures !go ==> !Live() && Abs() == old(Goal())
    {
      hide Fold, Host16;
      ghost var due := Due();
      var result := ReadDataHandler();
      headerBuffer.Reset();
      go := true;
      if result != Ok {
        if result != WaitingForQuery { CloseSocket(); }
        reading := false;
        FoldEnded(due, readBuffer.Active(), handler);
        go := false;
      }
    }

    method AsyncRead()
      requires readBuffer.Valid()
      modifies readBuffer
      ensures readBuffer.Valid() && |readBuffer.storage| >= |old(readBuffer.storage)|
      ensures Live() ==> readBuffer.Active() == old(readBuffer.Active()) && readBuffer.rpos == 0
    {
      if closed || !reading { return; }
      readBuffer.Normalize();
      readBuffer.EnsureFreeSpace();
    }

    /** ReadHandler: the socket goes on exactly as if the octets had come one by one. */
    method ReadHandler()
      requires Settled() && Reading()
      modifies this`delivered, this`closed, this`reading, headerBuffer, packetBuffer, readBuffer
      ensures Settled() && readBuffer.Valid() && Abs() == Fold(old(Abs()), old(readBuffer.Active()), handler)
      ensures Live() ==> readBuffer.Active() == [] && readBuffer.rpos == 0
      ensures |readBuffer.storage| >= |old(readBuffer.storage)|
    {
      hide Fold, Host16, Opened, Deliver;
      ghost var goal := Goal();
      while |readBuffer.Active()| > 0
        invariant Settled() && Reading() && Goal() == goal && |readBuffer.storage| == |old(readBuffer.storage)|
        decreases |readBuffer.Active()|
      {
        if headerBuffer.RemainingSpace() > 0 {
          var go := GetHeader();
          if !go {
            if closed { return; }
            break;
          }
        }
        if packetBuffer.RemainingSpace() > 0 {
          var go := GetPayload();
          if !go { break; }
        }
        var go := Handle();
        if !go { return; }
      }
      NoOctets(Abs(), handler);
      AsyncRead();
    }

    // ReadHandlerInternal: octets arrive where AsyncRead asked for them.
    method Receive(chunk: seq<Byte>)
      requires Settled() && Reading() && readBuffer.Active() == [] && readBuffer.rpos == 0
        && |chunk| <= |readBuffer.storage|
      modifies this`delivered, this`closed, this`reading, headerBuffer, packetBuffer, readBuffer
      ensures Settled() && readBuffer.Valid() && Abs() == Fold(old(Abs()), chunk, handler)
      ensures Live() ==> readBuffer.Active() == [] && readBuffer.rpos == 0
      ensures |readBuffer.storage| >= |old(readBuffer.storage)|
    {
      hide Fold, Host16;
      readBuffer.Write(chunk);
      assert readBuffer.Active() == chunk;
      ReadHandler();
    }

    // ---- SendPacket ----

    method QueuePacket(buffer: MessageBuffer)
      requires buffer.Valid() && buffer.rpos == 0
      modifies this`writeQueue, buffer
      ensures writeQueue == old(writeQueue) + [old(buffer.Active())] && buffer.storage == []
        && buffer.wpos == buffer.rpos == 0
    {
      writeQueue := writeQueue + [buffer.Active()];
      var storage := buffer.Move();
    }

    /** SendPacket: header and payload go into the queue in one buffer, after an empty one if they need more than 4096
        octets; a closed socket sends nothing. */
    method SendPacket(p: Packet)
      requires p.opcode < 0x10000
      modifies this`writeQueue
      ensures closed ==> writeQueue == old(writeQueue)
      ensures !closed ==> Flat(writeQueue) == Flat(old(writeQueue)) + Wire(p)
      ensures !closed ==> writeQueue == old(writeQueue) + (if |Wire(p)| > 4096 then [[], Wire(p)] else [Wire(p)])
    {
      hide HeaderBytes;
      if closed { return; }
      var buffer := new MessageBuffer(4096);
      var header := HeaderBytes((|p.payload| + 2) % 0x1_0000_0000, p.opcode);
      ghost var w, q := Wire(p), writeQueue;
      FlatSnoc(q, []);
      FlatSnoc(q, w);
      FlatSnoc(q + [[]], w);
      assert Flat(q) + [] == Flat(q);
      if buffer.RemainingSpace() < |p.payload| + HEADER_SIZE { QueuePacket(buffer); }
      if buffer.RemainingSpace() >= |p.payload| + HEADER_SIZE {
        WriteBoth(buffer, header, p.payload);
      } else {
        var packetBuffer := new MessageBuffer(|p.payload| + HEADER_SIZE);
        WriteBoth(packetBuffer, header, p.payload);
        QueuePacket(packetBuffer);
        assert q + [[], w] == q + [[]] + [w];
      }
      if |buffer.Active()| > 0 { QueuePacket(buffer); }
    }
  }

  method WriteBoth(to: MessageBuffer, header: seq<Byte>, payload: seq<Byte>)
    requires to.Valid() && to.wpos == to.rpos == 0 && |header| + |payload| <= |to.storage|
    modifies to
    ensures to.Valid() && to.rpos == 0 && to.Active() == header + payload
  {
    to.Write(header);
    if payload != [] { to.Write(payload); }
  }

  function Flat(queue: seq<seq<Byte>>): seq<Byte> {
    if queue == [] then [] else Flat(queue[..|queue| - 1]) + queue[|queue| - 1]
  }

  lemma FlatSnoc(queue: seq<seq<Byte>>, b: seq<Byte>)
    ensures Flat(queue + [b]) == Flat(queue) + b
  {
    assert (queue + [b])[..|queue|] == queue;
  }

  // ---- whole conversations ----

  /** Any chunks the network may deliver: what is handed to ReadDataHandler depends on the octets alone. */
  method Session(chunks: seq<seq<Byte>>, handler: Handler, big: bool)
    returns (delivered: seq<Packet>, closed: bool, live: bool)
    requires forall i :: 0 <= i < |chunks| ==> |chunks[i]| <= 4096
    ensures
      var l := Fold(START, Flat(chunks), handler);
      delivered == l.delivered && live == !l.frame.Ended? && closed == (l.frame.Ended? && l.frame.closed)
  {
    hide Fold, Host16;
    var c := new ClientSocket(big, handler);
    NoOctets(START, handler);
    for i := 0 to |chunks|
      invariant c.Settled() && c.readBuffer.Valid() && c.readBuffer !in {c.headerBuffer, c.packetBuffer}
        && c.handler == handler
      invariant c.Live() ==> c.readBuffer.Active() == [] && c.readBuffer.rpos == 0
      invariant |c.readBuffer.storage| >= 4096
      invariant fresh(c) && fresh(c.headerBuffer) && fresh(c.packetBuffer) && fresh(c.readBuffer)
      invariant c.Abs() == Fold(START, Flat(chunks[..i]), handler)
    {
      assert chunks[..i + 1] == chunks[..i] + [chunks[i]];
      FlatSnoc(chunks[..i], chunks[i]);
      FoldConcat(START, Flat(chunks[..i]), chunks[i], handler);
      if !c.closed && c.reading {
        c.Receive(chunks[i]);
      } else {
        FoldEnded(c.Abs(), chunks[i], handler);
      }
    }
    assert chunks[..|chunks|] == chunks;
    delivered, closed, live := c.delivered, c.closed, !c.closed && c.reading;
  }

  lemma {:induction false} WireSnoc(ps: seq<Packet>, p: Packet)
    requires AllPackets(ps) && p.opcode < 0x10000
    ensures AllPackets(ps + [p]) && WireAll(ps + [p]) == WireAll(ps) + Wire(p)
    decreases |ps|
  {
    hide Wire;
    if ps == [] {
      assert ps + [p] == [p] && [p][1..] == [];
    } else {
      assert (ps + [p])[1..] == ps[1..] + [p];
      WireSnoc(ps[1..], p);
    }
  }

  // Everything a socket queues for these packets.
  method SendAll(ps: seq<Packet>, handler: Handler, big: bool) returns (octets: seq<Byte>)
    requires AllPackets(ps)
    ensures octets == WireAll(ps)
  {
    hide Wire, Host16;
    var c := new ClientSocket(big, handler);
    for i := 0 to |ps|
      invariant !c.closed && AllPackets(ps[..i]) && Flat(c.writeQueue) == WireAll(ps[..i])
    {
      assert ps[..i + 1] == ps[..i] + [ps[i]];
      WireSnoc(ps[..i], ps[i]);
      c.SendPacket(ps[i]);
    }
    assert ps[..|ps|] == ps;
    octets := Flat(c.writeQueue);
  }

  /** Packets sent by one side and cut into any chunks reach the other side's handler as those packets in order, up to
      the first that is out of range or not answered with Ok. */
  method Converse(ps: seq<Packet>, chunks: seq<seq<Byte>>, handler: Handler, bigFrom: bool, bigTo: bool)
    returns (octets: seq<Byte>, delivered: seq<Packet>, closed: bool)
    requires AllPackets(ps) && forall i :: 0 <= i < |ps| ==> |ps[i].payload| + 2 < 0x1_0000_0000
    requires Flat(chunks) == WireAll(ps) && forall i :: 0 <= i < |chunks| ==> |chunks[i]| <= 4096
    ensures octets == Flat(chunks) && delivered == Accepted([], ps, handler).delivered && delivered <= ps
    ensures (forall i :: 0 <= i < |ps| ==> Takes(ps[i])) && (forall k :: 0 < k <= |ps| ==> handler(ps[..k]) == Ok) ==>
      delivered == ps && !closed
  {
    hide Fold, WireAll;
    octets := SendAll(ps, handler, bigFrom);
    var live;
    delivered, closed, live := Session(chunks, handler, bigTo);
    PacketsBack([], ps, handler);
    AcceptedPrefix([], ps, handler);
    assert [] + ps == ps;
    if (forall i :: 0 <= i < |ps| ==> Takes(ps[i])) && (forall k :: 0 < k <= |ps| ==> handler(ps[..k]) == Ok) {
      forall k | 0 < k <= |ps| ensures handler([] + ps[..k]) == Ok { assert [] + ps[..k] == ps[..k]; }
      AllAccepted([], ps, handler);
    }
  }
}
