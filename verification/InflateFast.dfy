/** The unrolled decoder of deps/zlib/inffast.c: literals and matches are read and copied without
    checking either buffer, as long as six bytes of input and 258 bytes of space remain. */
module InflateFast {
  import opened Bits
  import opened BitStream
  import opened Canon
  import opened DecodeTable
  import opened Rfc1951
  import opened Lookup
  import opened Lz77
  import opened Window
  import opened BitReader
  import opened InflateState
  import opened InflateSteps
  import opened InflateModes

  // ---- copying a match ----

  // The n bytes at index `from` are those written `back` bytes ago.
  ghost predicate Stretch(w: SlidingWindow, back: nat, from: nat, n: nat)
    reads w
  {
    && n <= back <= w.whave <= w.size && from + n <= w.size
    && (from + back == w.wnext || (from + back == w.wnext + w.size && n <= back - w.wnext))
  }

  // Copying bytes that continue the output is copying back.
  lemma ContinuesIsCopy(out: seq<Byte>, dist: nat, bytes: seq<Byte>)
    requires Continues(out, dist, bytes)
    ensures CopyBack(out, dist, |bytes|) == out + bytes
  {
    var text := out + bytes;
    forall i | |out| <= i < |out| + |bytes| ensures text[i] == text[i - dist] {
      assert bytes[i - |out|] == text[|out| + (i - |out|) - dist];
    }
    CopyIsText(text, |out|, dist, |bytes|);
    assert text[..|out|] == out && text[..|out| + |bytes|] == text;
  }

  lemma {:induction false} CopyBackPlus(out: seq<Byte>, dist: nat, a: nat, b: nat)
    requires 0 < dist <= |out|
    ensures CopyBack(CopyBack(out, dist, a), dist, b) == CopyBack(out, dist, a + b)
    decreases a
  {
    if a > 0 { CopyBackPlus(out + [out[|out| - dist]], dist, a - 1, b); }
  }

  // A stretch of the window is a stretch of the output before this call.
  lemma StretchIs(w: SlidingWindow, hist: seq<Byte>, back: nat, from: nat, n: nat)
    requires w.Valid() && w.Holds(hist) && Stretch(w, back, from, n)
    ensures back <= |hist| && back >= n && from + n <= w.data.Length
    ensures w.data[from..from + n] == hist[|hist| - back..|hist| - back + n]
  {
    var bytes, k := w.data[from..from + n], |hist| - back;
    forall i | 0 <= i < n ensures bytes[i] == hist[k..k + n][i] {
      assert from + i == w.Index(back - i);
    }
  }

  method PutWindow(z: Inflater, dist: nat, from: nat, n: nat)
    requires z.WindowOK() && |z.written| < dist && Stretch(z.window, dist - |z.written|, from, n)
    modifies z`written
    ensures |z.written| == |old(z.written)| + n && dist <= |z.hist + old(z.written)|
    ensures z.hist + z.written == CopyBack(z.hist + old(z.written), dist, n)
  {
    hide CopyBack, SlidingWindow.Valid, SlidingWindow.Holds, Stretch;
    StretchCopies(z.window, z.hist, z.written, dist, from, n);
    z.PutFromWindow(from, n);
  }

  lemma StretchCopies(w: SlidingWindow, hist: seq<Byte>, written: seq<Byte>, dist: nat, from: nat, n: nat)
    requires w.Valid() && w.Holds(hist) && |written| < dist && Stretch(w, dist - |written|, from, n)
    ensures from + n <= w.size && from + n <= w.data.Length && dist <= |hist + written|
    ensures hist + (written + w.data[from..from + n]) == CopyBack(hist + written, dist, n)
  {
    hide Continues, CopyBack, SlidingWindow.Valid, SlidingWindow.Holds;
    StretchIs(w, hist, dist - |written|, from, n);
    var bytes := w.data[from..from + n];
    WindowContinues(hist, written, dist, bytes);
    ContinuesIsCopy(hist + written, dist, bytes);
    assert hist + written + bytes == hist + (written + bytes);
  }

  // PUP(out) = PUP(from), with n bytes to go.
  method PutOne(z: Inflater, dist: nat, ghost n: nat)
    requires 0 < dist <= |z.written| && n > 0
    modifies z`written
    ensures |z.written| == |old(z.written)| + 1
    ensures CopyBack(z.written, dist, n - 1) == CopyBack(old(z.written), dist, n)
  {
    z.written := z.written + [z.written[|z.written| - dist]];
  }

  // Copy within the output, three bytes a round.
  method PutOutput(z: Inflater, dist: nat, len: nat)
    requires 0 < dist <= |z.written|
    modifies z`written
    ensures |z.written| == |old(z.written)| + len
    ensures z.hist + z.written == CopyBack(z.hist + old(z.written), dist, len)
  {
    hide CopyBack;
    ghost var was := z.written;
    var n := len;
    while n > 2
      invariant dist <= |z.written| && CopyBack(z.written, dist, n) == CopyBack(was, dist, len)
    {
      PutOne(z, dist, n);
      PutOne(z, dist, n - 1);
      PutOne(z, dist, n - 2);
      n := n - 3;
    }
    if n > 0 {
      PutOne(z, dist, n);
      if n > 1 { PutOne(z, dist, n - 1); }
    }
    NothingToCopy(z.written, dist);
    OutputIsCopy(z.hist, was, dist, len);
  }

  lemma NothingToCopy(out: seq<Byte>, dist: nat)
    requires 0 < dist <= |out|
    ensures CopyBack(out, dist, 0) == out
  {
  }

  // Copying within the output of this call is copying within the whole output.
  lemma OutputIsCopy(hist: seq<Byte>, out: seq<Byte>, dist: nat, len: nat)
    requires 0 < dist <= |out|
    ensures hist + CopyBack(out, dist, len) == CopyBack(hist + out, dist, len)
  {
    hide Continues, CopyBack;
    var r := CopyBack(out, dist, len);
    OutputContinues(hist, out, dist, len);
    ContinuesIsCopy(hist + out, dist, r[|out|..]);
    assert hist + out + r[|out|..] == hist + r;
  }

  // First op bytes from the window, the rest from the output.
  method PutBoth(z: Inflater, dist: nat, from: nat, op: nat, len: nat)
    requires z.WindowOK() && op <= dist && |z.written| + op == dist && 0 < op
    requires Stretch(z.window, op, from, if op < len then op else len)
    modifies z`written
    ensures |z.written| == |old(z.written)| + len && dist <= |z.hist + old(z.written)|
    ensures z.hist + z.written == CopyBack(z.hist + old(z.written), dist, len)
  {
    hide CopyBack;
    ghost var out := z.hist + z.written;
    if op < len {
      PutWindow(z, dist, from, op);
      PutOutput(z, dist, len - op);
      CopyBackPlus(out, dist, op, len - op);
    } else {
      PutWindow(z, dist, from, len);
    }
  }

  // Copy a whole match.
  method FastCopy(z: Inflater, dist: nat, len: nat)
    requires z.WindowOK() && 0 < dist && (dist > |z.written| ==> dist - |z.written| <= z.window.whave)
    modifies z`written
    ensures |z.written| == |old(z.written)| + len && dist <= |z.hist + old(z.written)|
    ensures z.hist + z.written == CopyBack(z.hist + old(z.written), dist, len)
  {
    hide CopyBack;
    var op := |z.written|;
    var w := z.window;
    if dist <= op {
      PutOutput(z, dist, len);
      return;
    }
    op := dist - op;
    if w.wnext == 0 {
      PutBoth(z, dist, w.size - op, op, len);
    } else if w.wnext < op {  // wrap around window
      var from := w.size + w.wnext - op;
      op := op - w.wnext;
      if op < len {
        ghost var out := z.hist + z.written;
        PutWindow(z, dist, from, op);
        PutBoth(z, dist, 0, w.wnext, len - op);
        CopyBackPlus(out, dist, op, len - op);
      } else {
        PutWindow(z, dist, from, len);
      }
    } else {
      PutBoth(z, dist, w.wnext - op, op, len);
    }
  }

  // ---- reading a symbol ----

  // The tests of the fast loop sort entries as the switch of the slow one does.
  lemma LenKind(s: State, e: Entry, sym: Symbol)
    requires Tells(e, LENS, sym)
    ensures NextLen(s, e).mode ==
      if e.op == 0 then LIT else if Bit16(e.op) then LENEXT else if Bit32(e.op) then TYPE else BAD
  {
    hide MakeEntry;
    if sym.Sym? { LenEntry(sym.s, e); }
  }

  lemma DistKind(s: State, e: Entry, sym: Symbol)
    requires Tells(e, DISTS, sym)
    ensures NextDist(s, e).mode == if Bit16(e.op) then DISTEXT else BAD
  {
    hide MakeEntry;
    if sym.Sym? { DistEntry(sym.s, e); }
  }

  // The position of the machine when the state is s.
  ghost function Pos(rd: Reader, s: State, out: seq<Byte>): Config
    requires s.Shape() && rd.Valid()
    reads rd
  {
    Config(s.Abs(), rd.P(), out)
  }

  // A literal/length symbol, read from at least 15 bits.
  method FastLen(rd: Reader, s: State, ghost out: seq<Byte>) returns (here: Entry)
    requires rd.Valid() && s.Shape() && s.Valid() && s.mode == LEN && rd.bits >= 15
    modifies rd`hold, rd`bits
    ensures rd.Valid() && old(rd.bits) - 15 <= rd.bits < old(rd.bits)
      && rd.Left() == old(rd.Left()) - (old(rd.bits) - rd.bits)
    ensures old(rd.bits) - rd.bits == Resolve(s.lencode, s.lenbits, old(rd.hold)).1
    ensures NextLen(s, here).mode ==
      if here.op == 0 then LIT else if Bit16(here.op) then LENEXT else if Bit32(here.op) then TYPE else BAD
    ensures NextLen(s, here).Shape() && NextLen(s, here).Valid()
    ensures Reaches(rd.I(), old(Pos(rd, s, out)), Pos(rd, NextLen(s, here), out))
  {
    hide BytesBits, Val, Pow2, Field, Reaches, Step, Reader.Held, Reader.Valid, Reader.P, Reader.Left, Reader.Seen,
         Small, State.Valid, State.Abs, State.Lean, State.Rank, Resolve, Rfc1951.Decode, NextLen, TableFor, LenMode;
    ghost var c := Pos(rd, s, out);
    AtLen(s);
    rd.HeldFacts();
    ghost var held, rest := rd.Held(), rd.I()[|rd.Seen()|..];
    ghost var n;
    here, n := rd.Symbol(s.lencode, s.lenbits, LENS, s.ll);
    Found(s.lencode, LENS, s.ll, s.lenbits, held, rest);
    LenStep(rd.I(), c);
    ghost var sym := Rfc1951.Decode(s.ll, rd.I()[c.p..]);
    NextLenFacts(s, here, sym);
    LenKind(s, here, sym);
    ReachesStep(rd.I(), c, Pos(rd, NextLen(s, here), out));
  }

  // A distance symbol.
  method FastDist(rd: Reader, s: State, ghost out: seq<Byte>) returns (here: Entry)
    requires rd.Valid() && s.Shape() && s.Valid() && s.mode == DIST && rd.bits >= 15
    modifies rd`hold, rd`bits
    ensures rd.Valid() && old(rd.bits) - 15 <= rd.bits < old(rd.bits)
      && rd.Left() == old(rd.Left()) - (old(rd.bits) - rd.bits)
    ensures NextDist(s, here).mode == if Bit16(here.op) then DISTEXT else BAD
    ensures NextDist(s, here).Shape() && NextDist(s, here).Valid()
    ensures Reaches(rd.I(), old(Pos(rd, s, out)), Pos(rd, NextDist(s, here), out))
  {
    hide BytesBits, Val, Pow2, Field, Reaches, Step, Reader.Held, Reader.Valid, Reader.P, Reader.Left, Reader.Seen,
         Small, State.Valid, State.Abs, State.Lean, State.Rank, Resolve, Rfc1951.Decode, NextDist, TableFor, DistMode;
    ghost var c := Pos(rd, s, out);
    AtDist(s);
    rd.HeldFacts();
    ghost var held, rest := rd.Held(), rd.I()[|rd.Seen()|..];
    ghost var n;
    here, n := rd.Symbol(s.distcode, s.distbits, DISTS, s.dl);
    Found(s.distcode, DISTS, s.dl, s.distbits, held, rest);
    DistStep(rd.I(), c);
    ghost var sym := Rfc1951.Decode(s.dl, rd.I()[c.p..]);
    NextDistFacts(s, here, sym);
    DistKind(s, here, sym);
    ReachesStep(rd.I(), c, Pos(rd, NextDist(s, here), out));
  }

  // The extra bits of a length.
  method FastLenExtra(rd: Reader, s: State, ghost out: seq<Byte>) returns (len: nat)
    requires rd.Valid() && s.Shape() && s.Valid() && s.mode == LENEXT && rd.Left() >= 5
    modifies rd`hold, rd`bits, rd`inpos, rd`totalIn
    ensures rd.Valid() && rd.Left() == old(rd.Left()) - s.extra && s.extra <= 5
    ensures rd.bits == old(rd.bits) + 8 * (rd.inpos - old(rd.inpos)) - s.extra
    ensures rd.inpos == old(rd.inpos) + (if old(rd.bits) < s.extra then 1 else 0)
    ensures s.(length := len, mode := DIST).Shape() && s.(length := len, mode := DIST).Valid()
    ensures Reaches(rd.I(), old(Pos(rd, s, out)), Pos(rd, s.(length := len, mode := DIST), out))
  {
    hide BytesBits, Val, Pow2, Field, Reaches, Step, Reader.Held, Reader.P, Reader.Seen, Reader.Valid, Reader.Left,
         Small, State.Valid, State.Abs, State.Lean, State.Rank, State.InBlock, Resolve;
    ghost var c := Pos(rd, s, out);
    AtLenExt(s);
    LenExtStep(rd.I(), c);
    rd.HeldFacts();
    rd.LeftFacts();
    EmptyField(rd.I(), c.p);
    len := s.length;
    if s.extra != 0 {
      rd.FillExtra(s.extra, false);
      var x := rd.Take(s.extra);
      FieldBound(rd.I(), c.p, s.extra);
      len := len + x;
    }
    rd.LeftFacts();
    ghost var t := s.(length := len, mode := DIST);
    SameTables(s, t);
    AtDist(t);
    ReachesStep(rd.I(), c, Pos(rd, t, out));
  }

  // The extra bits of a distance.
  method FastDistExtra(rd: Reader, s: State, ghost out: seq<Byte>) returns (dist: nat)
    requires rd.Valid() && s.Shape() && s.Valid() && s.mode == DISTEXT && rd.Left() >= 13
    modifies rd`hold, rd`bits, rd`inpos, rd`totalIn
    ensures rd.Valid() && rd.Left() == old(rd.Left()) - s.extra && s.extra <= 13
    ensures rd.bits == old(rd.bits) + 8 * (rd.inpos - old(rd.inpos)) - s.extra
    ensures rd.inpos ==
      old(rd.inpos) + (if old(rd.bits) >= s.extra then 0 else if old(rd.bits) + 8 >= s.extra then 1 else 2)
    ensures s.(offset := dist, mode := MATCH).Shape() && s.(offset := dist, mode := MATCH).Valid()
    ensures Reaches(rd.I(), old(Pos(rd, s, out)), Pos(rd, s.(offset := dist, mode := MATCH), out))
  {
    hide BytesBits, Val, Pow2, Field, Reaches, Step, Reader.Held, Reader.P, Reader.Seen, Reader.Valid, Reader.Left,
         Small, State.Valid, State.Abs, State.Lean, State.Rank, State.InBlock, Resolve;
    ghost var c := Pos(rd, s, out);
    AtDistExt(s);
    DistExtStep(rd.I(), c);
    rd.HeldFacts();
    rd.LeftFacts();
    rd.FillExtra(s.extra, true);
    dist := rd.Take(s.extra);
    FieldBound(rd.I(), c.p, s.extra);
    dist := dist + s.offset;
    rd.LeftFacts();
    ghost var t := s.(offset := dist, mode := MATCH);
    SameTables(s, t);
    AtMatch(t);
    ReachesStep(rd.I(), c, Pos(rd, t, out));
  }

  // The rest of a length/distance pair.  `pre` bytes were loaded for its length code.
  method FastPair(rd: Reader, s: State, ghost out: seq<Byte>, ghost pre: nat) returns (t: State)
    requires rd.Valid() && s.Shape() && s.Valid() && s.mode == LENEXT && rd.Left() >= 33
    requires pre <= 2 && 8 * pre <= rd.bits + 15
    modifies rd`hold, rd`bits, rd`inpos, rd`totalIn
    ensures rd.Valid() && rd.Left() < old(rd.Left())
    ensures rd.inpos >= old(rd.inpos) && pre + (rd.inpos - old(rd.inpos)) <= 6
    ensures rd.bits < old(rd.bits) + 8 * (rd.inpos - old(rd.inpos))
    ensures t.Shape() && t.Valid() && (t.mode == MATCH || t.mode == BAD)
    ensures t == s.(mode := t.mode, length := t.length, offset := t.offset, extra := t.extra)
    ensures t.mode == MATCH ==> 3 <= t.length
    ensures Reaches(rd.I(), old(Pos(rd, s, out)), Pos(rd, t, out))
  {
    hide BytesBits, Val, Pow2, Reaches, Reader.Held, Reader.P, Reader.Seen, Reader.Left, Small, State.Valid, State.Abs,
         Reader.Valid, Step, Resolve, State.InBlock, State.Lean;
    ghost var c := Pos(rd, s, out);
    var len := FastLenExtra(rd, s, out);
    t := s.(length := len, mode := DIST);
    AtDist(t);
    ghost var d := Pos(rd, t, out);
    EnoughInput(rd);
    rd.FillFifteen();
    var here := FastDist(rd, t, out);
    t := NextDist(t, here);
    ghost var e := Pos(rd, t, out);
    ReachesTrans(rd.I(), c, d, e);
    if Bit16(here.op) {
      var dist := FastDistExtra(rd, t, out);
      t := t.(offset := dist, mode := MATCH);
      ReachesTrans(rd.I(), c, e, Pos(rd, t, out));
    }
  }

  // 28 bits still to come are at least two bytes beyond 15 held ones.
  lemma EnoughInput(rd: Reader)
    requires rd.Valid() && rd.Left() >= 28
    ensures rd.bits < 15 ==> rd.inpos + 2 <= |rd.input|
  {
  }

  // What a round of the loop relies on.
  ghost predicate Ready(z: Inflater)
    reads z, z.rd, z.window, z.window.data, z.codes, z.work
  {
    && z.s.Shape() && z.s.Valid() && z.s.mode == LEN && z.rd.Valid() && z.Space() && z.WindowOK()
    && z.rd.inpos + 6 <= |z.rd.input| && |z.written| + 258 <= z.room
  }

  // What a round of the loop ends in.
  ghost predicate Rested(z: Inflater)
    reads z, z.rd, z.window, z.window.data, z.codes, z.work
  {
    && z.s.Shape() && z.s.Valid() && (z.s.mode == LEN || z.s.mode == TYPE || z.s.mode == BAD)
    && z.rd.Valid() && z.Space() && z.WindowOK()
  }

  method FastLiteral(z: Inflater, t: State, ghost c: Config)
    requires Rested(z) && z.s.mode == LEN && |z.written| < z.room
    requires t.Shape() && t.Valid() && t.mode == LIT && t.last == z.s.last && t.ll == z.s.ll && t.dl == z.s.dl
    requires Reaches(z.rd.I(), c, Pos(z.rd, t, z.hist + z.written))
    modifies z`written
    ensures Rested(z) && Reaches(z.rd.I(), c, z.Here()) && |z.written| == |old(z.written)| + 1
  {
    hide BytesBits, Pow2, Reaches, Reader.P, Reader.Valid, Small, State.Valid, State.Abs, Step, State.InBlock, Resolve;
    ghost var d := Pos(z.rd, t, z.hist + z.written);
    AtLit(t);
    AtLen(z.s);
    LitStep(z.rd.I(), d);
    assert z.hist + z.written + [t.length] == z.hist + (z.written + [t.length]);
    z.written := z.written + [t.length];
    ReachesStep(z.rd.I(), d, z.Here());
    ReachesTrans(z.rd.I(), c, d, z.Here());
  }

  method FastMatch(z: Inflater, t: State, ghost c: Config)
    requires Rested(z) && z.s.mode == LEN && |z.written| + 258 <= z.room
    requires t.Shape() && t.Valid() && (t.mode == MATCH || t.mode == BAD)
    requires t.last == z.s.last && t.ll == z.s.ll && t.dl == z.s.dl
    requires Reaches(z.rd.I(), c, Pos(z.rd, t, z.hist + z.written))
    modifies z`s, z`written
    ensures Rested(z) && Reaches(z.rd.I(), c, z.Here())
    ensures z.s.mode == BAD <==> t.mode == BAD || TooFar(t.offset, |old(z.written)|, z.window.whave)
    ensures |old(z.written)| <= |z.written| <= |old(z.written)| + 258 && z.s == old(z.s).(mode := z.s.mode)
  {
    hide BytesBits, Pow2, Reaches, Reader.P, Reader.Valid, Small, State.Valid, State.Abs, Step, State.InBlock, Resolve,
         CopyBack;
    ghost var out := z.hist + z.written;
    ghost var d := Pos(z.rd, t, out);
    if t.mode == BAD {
      z.s := z.s.(mode := BAD);
      AtBad(t);
      AtBad(z.s);
      return;
    }
    AtMatch(t);
    var dist, op := t.offset, |z.written|;
    if TooFar(dist, op, z.window.whave) {
      MatchTooFar(z.rd.I(), d);
      z.s := z.s.(mode := BAD);
      AtBad(z.s);
      ReachesStep(z.rd.I(), d, z.Here());
    } else {
      AtLen(z.s);
      CopyReaches(z.rd.I(), d, t.length);
      FastCopy(z, dist, t.length);
    }
    ReachesTrans(z.rd.I(), c, d, z.Here());
  }

  // A whole match in one go.
  lemma CopyReaches(I: seq<bool>, c: Config, len: nat)
    requires c.mode.Match? && c.mode.length == len > 0 && 0 < c.mode.offset <= |c.out|
    ensures Reaches(I, c, Config(LenCode(c.mode.last, c.mode.codes), c.p, CopyBack(c.out, c.mode.offset, len)))
  {
    hide Reaches, Continues;
    var r := CopyBack(c.out, c.mode.offset, len);
    OutputContinues([], c.out, c.mode.offset, len);
    assert [] + c.out == c.out && c.out + r[|c.out|..] == r;
    MatchRun(I, c, r[|c.out|..]);
  }

  // A code that was not complete yet is longer than what was held.
  lemma StillShort(rd: Reader, s: State, held: seq<bool>)
    requires rd.Valid() && rd.P() >= 0 && rd.totalIn <= |rd.stream| && held <= rd.Held() && rd.hold == Val(rd.Held())
    requires TableFor(s.lencode, LENS, s.ll, s.lenbits)
    ensures Resolve(s.lencode, s.lenbits, Val(held)).1 > |held| ==> Resolve(s.lencode, s.lenbits, rd.hold).1 > |held|
  {
    hide Resolve, Reader.Held, Reader.Valid, Val, TableFor;
    if Resolve(s.lencode, s.lenbits, rd.hold).1 <= |held| {
      assert rd.Held() == held + rd.Held()[|held|..];
      Stable(s.lencode, LENS, s.ll, s.lenbits, held, rd.Held()[|held|..]);
    }
  }

  // Read a literal, a whole pair or an end of block; `t` is the mode it leads to.
  method FastRead(rd: Reader, s: State, ghost out: seq<Byte>) returns (t: State)
    requires s.Shape() && s.Valid() && s.mode == LEN && rd.Valid() && rd.inpos + 6 <= |rd.input|
    modifies rd`hold, rd`bits, rd`inpos, rd`totalIn
    ensures rd.Valid() && t.Shape() && t.Valid() && t.mode in {LIT, MATCH, TYPE, BAD}
    ensures t.last == s.last && t.ll == s.ll && t.dl == s.dl
    ensures Reaches(rd.I(), old(Pos(rd, s, out)), Pos(rd, t, out))
    // at most six bytes are loaded, and some bits are used
    ensures old(rd.inpos) <= rd.inpos <= old(rd.inpos) + 6 && rd.Left() < old(rd.Left())
    ensures rd.bits < old(rd.bits) + 8 * (rd.inpos - old(rd.inpos))
    ensures old(rd.Short(s.lencode, s.lenbits)) ==> rd.bits < 8 * (rd.inpos - old(rd.inpos))
  {
    hide BytesBits, Val, Pow2, Reaches, Reader.Held, Reader.P, Reader.Seen, Small, State.Valid, State.Abs, Resolve,
         TableFor, Reader.Valid;
    ghost var c := Pos(rd, s, out);
    AtLen(s);
    rd.HeldFacts();
    ghost var held := rd.Held();
    EnoughInput(rd);
    rd.FillFifteen();
    rd.HeldFacts();
    ghost var pre := rd.inpos - old(rd.inpos);
    StillShort(rd, s, held);
    var here := FastLen(rd, s, out);
    t := NextLen(s, here);
    if Bit16(here.op) && here.op != 0 {
      ghost var d := Pos(rd, t, out);
      t := FastPair(rd, t, out, pre);
      ReachesTrans(rd.I(), c, d, Pos(rd, t, out));
    }
  }

  // One literal, one match, or the end of the block.
  method FastSymbol(z: Inflater)
    requires Ready(z)
    modifies z`s, z`written, z.rd`hold, z.rd`bits, z.rd`inpos, z.rd`totalIn
    ensures Rested(z) && Reaches(z.rd.I(), old(z.Here()), z.Here())
    // at most six bytes are loaded, and some bits are used
    ensures old(z.rd.inpos) <= z.rd.inpos <= old(z.rd.inpos) + 6 && z.rd.Left() < old(z.rd.Left())
    ensures z.rd.bits < old(z.rd.bits) + 8 * (z.rd.inpos - old(z.rd.inpos))
    ensures old(z.rd.Short(z.s.lencode, z.s.lenbits)) ==> z.rd.bits < 8 * (z.rd.inpos - old(z.rd.inpos))
    ensures |old(z.written)| <= |z.written| <= |old(z.written)| + 258 && z.s == old(z.s).(mode := z.s.mode)
  {
    hide BytesBits, Val, Pow2, Reaches, Reader.Held, Reader.P, Reader.Seen, Small, State.Valid, State.Abs, Resolve,
         NextLen, SlidingWindow.Holds, SlidingWindow.Valid, Reader.Valid, Reader.Left;
    ghost var c := z.Here();
    var t := FastRead(z.rd, z.s, z.hist + z.written);
    if t.mode == LIT {
      FastLiteral(z, t, c);
    } else if t.mode == TYPE {
      z.s := z.s.(mode := TYPE);
      AtType(z.s);
      AtType(t);
    } else {
      FastMatch(z, t, c);
    }
  }

  // Decode until the block ends or one of the buffers runs short.
  method InflateFast(z: Inflater)
    requires z.Core() && z.s.mode == LEN && z.Space() && z.WindowOK()
    requires z.rd.inpos + 6 <= |z.rd.input| && |z.written| + 258 <= z.room
    modifies z`s, z`written, z.rd`hold, z.rd`bits, z.rd`inpos, z.rd`totalIn
    ensures z.Core() && z.Space() && z.s.mode in {LEN, TYPE, BAD} && z.rd.bits < 8
    ensures Reaches(z.rd.I(), old(z.Here()), z.Here()) && z.Fuel() < old(z.Fuel())
  {
    hide BytesBits, Val, Pow2, Reaches, Reader.Held, Reader.P, Reader.Seen, Small, State.Valid, State.Abs, State.Lean,
         Resolve, SlidingWindow.Holds, SlidingWindow.Valid, Reader.Valid, Reader.Left;
    var last, end := |z.rd.input| - 5, z.room - 257;
    ghost var c, start := z.Here(), z.rd.inpos;
    AtLen(z.s);
    FastSymbol(z);
    while z.s.mode == LEN && z.rd.inpos < last && |z.written| < end
      invariant Rested(z) && Reaches(z.rd.I(), c, z.Here())
      invariant z.rd.inpos >= start && z.rd.bits < 8 * (z.rd.inpos - start) + 8
      invariant z.rd.Left() < old(z.rd.Left()) && |z.written| >= |old(z.written)|
      decreases z.rd.Left()
    {
      ghost var d := z.Here();
      FastSymbol(z);
      ReachesTrans(z.rd.I(), c, d, z.Here());
    }
    z.rd.GiveBack();
    if z.s.mode == LEN { AtLen(z.s); } else if z.s.mode == TYPE { AtType(z.s); } else { AtBad(z.s); }
  }
}
