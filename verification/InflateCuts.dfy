/** Cutting a stream and its output space into calls of inflate() does not change what is decoded. */
module InflateCuts {
  import opened Bits
  import opened BitStream
  import opened Canon
  import opened DecodeTable
  import opened InflateTable
  import opened CodeLengthCoding
  import opened Rfc1951
  import opened Lookup
  import opened Window
  import opened BitReader
  import opened InflateState
  import opened InflateModes
  import opened InflateCall

  // ---- the machine on a prefix of the stream ----

  lemma StepAdvances(I: seq<bool>, c: Config)
    requires Step(I, c).Some?
    ensures Step(I, c).value.p >= c.p
  {
    hide Rfc1951.Decode, Field, Val, LengthBase, DecodeTable.LengthExtra, DistBase, DistExtra, Buildable, FixedCodes,
         ByOrder;
  }

  lemma {:induction false} RunAdvances(I: seq<bool>, c: Config, k: nat)
    requires Run(I, c, k).Some?
    ensures Run(I, c, k).value.p >= c.p
    decreases k
  {
    hide Step;
    if k > 0 {
      StepAdvances(I, c);
      RunAdvances(I, Step(I, c).value, k - 1);
    }
  }

  // A symbol not visible in a prefix ends beyond it.
  lemma DecodeBeyond(lens: seq<nat>, b: seq<bool>, n: nat)
    requires n <= |b| && Rfc1951.Decode(lens, b[..n]) == More
    ensures match Rfc1951.Decode(lens, b)
      case Sym(s, k) => k > n
      case NoSymbol => n == 0
      case More => true
  {
    hide Huff, Complete;
    if Rfc1951.Decode(lens, b).Sym? { VisibleSymbol(lens, b, n, Rfc1951.Decode(lens, b).s); }
  }

  lemma VisibleSymbol(lens: seq<nat>, b: seq<bool>, n: nat, s: nat)
    requires n <= |b| && StartsWith(lens, s, b)
    ensures lens[s] <= n ==> Rfc1951.Decode(lens, b[..n]).Sym?
  {
    hide Huff;
    if lens[s] <= n {
      assert b[..n][..lens[s]] == b[..lens[s]];
      assert StartsWith(lens, s, b[..n]);
    }
  }

  lemma DecodePrefix(lens: seq<nat>, b: seq<bool>, n: nat)
    requires NotOverSubscribed(lens) && n <= |b| && Rfc1951.Decode(lens, b[..n]).Sym?
    ensures Rfc1951.Decode(lens, b) == Rfc1951.Decode(lens, b[..n])
  {
    hide Huff, Complete;
    var s := Rfc1951.Decode(lens, b[..n]).s;
    assert StartsWith(lens, s, b[..n]);
    assert b[..n][..lens[s]] == b[..lens[s]];
    DecodeUnique(lens, s, b);
  }

  // A run not visible in a prefix ends beyond it.
  lemma OpBeyond(cl: seq<nat>, b: seq<bool>, n: nat)
    requires NotOverSubscribed(cl) && n <= |b| && ReadOp(cl, b[..n]) == None
    ensures ReadOp(cl, b).Some? ==> ReadOp(cl, b).value.1 > n
  {
    hide Rfc1951.Decode, Val, NotOverSubscribed;
    match Rfc1951.Decode(cl, b[..n])
    case More => DecodeBeyond(cl, b, n);
    case NoSymbol =>
    case Sym(s, k) => DecodePrefix(cl, b, n);
  }

  // The codes the mode reads with are prefix-free.
  ghost predicate Sound(m: Mode) {
    m.CodeLens? ==> NotOverSubscribed(m.cl) && m.nlen > 256 && |m.have| <= m.nlen + m.ndist
  }

  // A step the prefix does not allow goes beyond it, or finds an error.
  lemma StepBeyond(I: seq<bool>, n: nat, c: Config)
    requires c.p <= n <= |I| && Sound(c.mode)
    requires Step(I[..n], c) == None && Step(I, c).Some?
    ensures Step(I, c).value.p > n || Step(I, c).value.mode == Bad
  {
    hide Step, Reaches, NotOverSubscribed, ReadOp, Rfc1951.Decode, Field, LenMode, DistMode, BlockMode, Apply;
    var J := I[..n];
    assert J[c.p..] == I[c.p..][..n - c.p];
    match c.mode
    case Type(_) => TypeStep(J, c); TypeStep(I, c);
    case Stored(_) => StoredStep(J, c); StoredStep(I, c);
    case Copy(_, _) => CopyBeyond(I, n, c);
    case Table(_) => TableStep(J, c); TableStep(I, c);
    case LenLens(_, _, _, _, _) => LenLensStep(J, c); LenLensStep(I, c);
    case CodeLens(_, _, _, _, _) => CodeLensBeyond(I, n, c);
    case LenCode(_, codes) => LenBeyond(I, n, c);
    case LenExt(_, _, _, _) => LenExtStep(J, c); LenExtStep(I, c);
    case Dist(_, codes, _) => DistBeyond(I, n, c);
    case DistExt(_, _, _, _, _) => DistExtStep(J, c); DistExtStep(I, c);
    case _ => OtherBeyond(I, n, c);
  }

  lemma CopyBeyond(I: seq<bool>, n: nat, c: Config)
    requires c.p <= n <= |I| && c.mode.Copy? && Step(I[..n], c) == None && Step(I, c).Some?
    ensures Step(I, c).value.p > n
  {
  }

  lemma OtherBeyond(I: seq<bool>, n: nat, c: Config)
    requires c.mode.Match? || c.mode.Lit? || c.mode.Done? || c.mode.Bad?
    requires n <= |I| && Step(I[..n], c) == None
    ensures Step(I, c) == None
  {
  }

  lemma CodeLensBeyond(I: seq<bool>, n: nat, c: Config)
    requires c.p <= n <= |I| && Sound(c.mode) && c.mode.CodeLens? && Step(I[..n], c) == None && Step(I, c).Some?
    ensures Step(I, c).value.p > n || Step(I, c).value.mode == Bad
  {
    hide Step, NotOverSubscribed, ReadOp, Apply;
    var J := I[..n];
    assert J[c.p..] == I[c.p..][..n - c.p];
    if |c.mode.have| == c.mode.nlen + c.mode.ndist {
      CodeLensEnd(J, c);
    } else {
      CodeLensStep(J, c);
      CodeLensStep(I, c);
      OpBeyond(c.mode.cl, I[c.p..], n - c.p);
    }
  }

  lemma LenBeyond(I: seq<bool>, n: nat, c: Config)
    requires c.p <= n <= |I| && c.mode.LenCode? && Step(I[..n], c) == None && Step(I, c).Some?
    ensures Step(I, c).value.p > n || Step(I, c).value.mode == Bad
  {
    hide Rfc1951.Decode, LengthBase, DecodeTable.LengthExtra;
    assert I[..n][c.p..] == I[c.p..][..n - c.p];
    DecodeBeyondIf(c.mode.codes.ll, I[c.p..], n - c.p);
  }

  lemma DistBeyond(I: seq<bool>, n: nat, c: Config)
    requires c.p <= n <= |I| && c.mode.Dist? && Step(I[..n], c) == None && Step(I, c).Some?
    ensures Step(I, c).value.p > n || Step(I, c).value.mode == Bad
  {
    hide Rfc1951.Decode, DistBase, DistExtra;
    assert I[..n][c.p..] == I[c.p..][..n - c.p];
    DecodeBeyondIf(c.mode.codes.dl, I[c.p..], n - c.p);
  }

  lemma DecodeBeyondIf(lens: seq<nat>, b: seq<bool>, n: nat)
    requires n <= |b|
    ensures Rfc1951.Decode(lens, b[..n]) == More ==>
      match Rfc1951.Decode(lens, b) case Sym(s, k) => k > n case NoSymbol => n == 0 case More => true
  {
    if Rfc1951.Decode(lens, b[..n]) == More { DecodeBeyond(lens, b, n); }
  }

  // ---- where a run must stop ----

  // Modes that write a byte next.
  predicate Writes(m: Mode) {
    m.Match? || m.Lit? || (m.Copy? && m.n > 0)
  }

  // Nothing more can be done with n bits of input and m bytes of output.
  ghost predicate Wall(I: seq<bool>, n: nat, m: nat, c: Config)
    requires n <= |I|
  {
    && c.p <= n && |c.out| <= m && Sound(c.mode)
    && (Step(I[..n], c) == None || (|c.out| == m && Writes(c.mode)))
  }

  lemma WriteStep(I: seq<bool>, c: Config)
    requires Writes(c.mode) && Step(I, c).Some?
    ensures Step(I, c).value == Config(Bad, c.p, c.out) || |Step(I, c).value.out| == |c.out| + 1
  {
  }

  lemma BadKeepsOutput(I: seq<bool>, c: Config)
    requires Step(I, c).Some? && Step(I, c).value.mode == Bad
    ensures Step(I, c).value.out == c.out
  {
    hide Rfc1951.Decode, Field, Val, LengthBase, DecodeTable.LengthExtra, DistBase, DistExtra, Buildable, FixedCodes,
         ByOrder, ReadOp, Apply;
  }

  // From a wall the stream leads nowhere within the limits, except to an error.
  lemma NoWayOn(I: seq<bool>, n: nat, m: nat, c: Config, d: Config)
    requires n <= |I| && Wall(I, n, m, c) && Reaches(I, c, d) && d.p <= n && |d.out| <= m
    ensures d == c || (d.mode == Bad && d.out == c.out)
  {
    hide Step, Sound;
    var k: nat :| Run(I, c, k) == Some(d);
    if k > 0 {
      var e := Step(I, c).value;
      RunAdvances(I, e, k - 1);
      OutputGrows(I, e, k - 1);
      if Step(I[..n], c) == None {
        StepBeyond(I, n, c);
      } else {
        WriteStep(I, c);
      }
      assert e.mode == Bad;
      BadEnds(I, e, k - 1);
      BadKeepsOutput(I, c);
    }
  }

  lemma BadEnds(I: seq<bool>, c: Config, k: nat)
    requires c.mode == Bad && Run(I, c, k).Some?
    ensures k == 0
  {
  }

  // Two runs that stop at the same limits have written the same bytes, and end together.
  lemma OneEnd(I: seq<bool>, n: nat, m: nat, c: Config, d: Config)
    requires n <= |I| && Wall(I, n, m, c) && Wall(I, n, m, d) && Reaches(I, START, c) && Reaches(I, START, d)
    ensures c.out == d.out && (c.mode == Mode.Done || d.mode == Mode.Done ==> c == d)
  {
    hide Step, Reaches, Sound, Wall;
    Linear(I, START, c, d);
    WallFacts(I, n, m, c);
    WallFacts(I, n, m, d);
    if Reaches(I, c, d) {
      NoWayOn(I, n, m, c, d);
      if c.mode == Mode.Done { DoneEnds(I, c, d); }
    } else {
      NoWayOn(I, n, m, d, c);
      if d.mode == Mode.Done { DoneEnds(I, d, c); }
    }
  }

  lemma WallFacts(I: seq<bool>, n: nat, m: nat, c: Config)
    requires n <= |I| && Wall(I, n, m, c)
    ensures c.p <= n && |c.out| <= m
  {
  }

  lemma DoneEnds(I: seq<bool>, c: Config, d: Config)
    requires c.mode == Mode.Done && Reaches(I, c, d)
    ensures d == c
  {
    var k: nat :| Run(I, c, k) == Some(d);
    assert k == 0;
  }

  // ---- decoders ----

  // Bytes of the stream offered so far.
  ghost function Offered(z: Inflater): nat
    requires z.rd.Valid()
    reads z, z.rd
  {
    z.rd.base + |z.rd.input|
  }

  // What every sequence of calls keeps: the decoder stands on the one run of the RFC machine.
  ghost predicate OnTrack(z: Inflater)
    reads z, z.rd, z.window, z.window.data, z.codes, z.work
  {
    Live(z) && z.written == [] && Reaches(z.rd.I(), START, z.At(z.hist))
  }

  lemma StoppedAtWall(z: Inflater, m: nat)
    requires OnTrack(z) && |z.hist| <= m && Stopped(z, m)
    ensures 8 * Offered(z) <= |z.rd.I()| && Wall(z.rd.I(), 8 * Offered(z), m, z.At(z.hist))
  {
    hide Step, Reaches, State.Valid, State.Lean, State.Abs, Small, FixedTables, BytesBits, Val, Reader.Held, Sound;
    var c, n := z.At(z.hist), 8 * Offered(z);
    SoundState(z.s);
    match z.s.mode
    case DONE => AtDone(z.s); NoStep(z.rd.I()[..n], c);
    case BAD => AtBad(z.s); NoStep(z.rd.I()[..n], c);
    case MATCH => AtMatch(z.s);
    case LIT => AtLit(z.s);
    case COPY => AtCopy(z.s);
    case _ =>
  }

  lemma NoStep(I: seq<bool>, c: Config)
    requires c.mode == Mode.Done || c.mode == Bad
    ensures Step(I, c) == None
  {
  }

  lemma SoundState(s: State)
    requires s.Shape() && s.Valid()
    ensures Sound(s.Abs())
  {
    hide Accepted, NotOverSubscribed, Decodes, Rejects;
    if s.mode == CODELENS { AcceptedNotOver(CODES, s.cl); }
  }

  /** Two decoders that were offered the same bytes of one stream and the same output space, in whatever
      pieces, have delivered the same bytes; if one reached the end so did the other, having taken the
      same number of input bytes. */
  lemma SameBytes(y: Inflater, z: Inflater, m: nat)
    requires OnTrack(y) && OnTrack(z) && y.rd.stream == z.rd.stream && Offered(y) == Offered(z)
    requires |y.hist| <= m && |z.hist| <= m && Stopped(y, m) && Stopped(z, m)
    ensures y.hist == z.hist
    ensures y.s.mode == DONE <==> z.s.mode == DONE
    ensures y.s.mode == DONE ==> y.rd.totalIn == z.rd.totalIn
  {
    hide Step, Reaches, State.Valid, State.Lean, State.Abs, Small, FixedTables, BytesBits, Val, Reader.Held, Wall,
         Stopped;
    StoppedAtWall(y, m);
    StoppedAtWall(z, m);
    OneEnd(y.rd.I(), 8 * Offered(y), m, y.At(y.hist), z.At(z.hist));
    DoneMode(y.s);
    DoneMode(z.s);
    if y.s.mode == DONE {
      AtDone(y.s);
      AtDone(z.s);
    }
  }

  /** A decoder that was offered the whole of a well-formed stream, with space enough for what the stream
      stands for, has delivered exactly that and reports the end. */
  lemma Delivers(z: Inflater, m: nat, end: Config)
    requires OnTrack(z) && Offered(z) == |z.rd.stream| && |z.hist| <= m && Stopped(z, m)
    requires Reaches(z.rd.I(), START, end) && end.mode == Mode.Done && end.p <= |z.rd.I()| && |end.out| <= m
    ensures z.hist == end.out && z.s.mode == DONE && 8 * z.rd.totalIn == end.p
  {
    hide Step, Reaches, State.Valid, State.Lean, State.Abs, Small, FixedTables, BytesBits, Val, Reader.Held, Stopped;
    StoppedAtWall(z, m);
    NoStep(z.rd.I()[..8 * Offered(z)], end);
    OneEnd(z.rd.I(), 8 * Offered(z), m, z.At(z.hist), end);
    DoneMode(z.s);
    AtDone(z.s);
  }

  lemma DoneMode(s: State)
    requires s.Shape()
    ensures s.mode == DONE <==> s.Abs() == Mode.Done
  {
  }

  // ---- sequences of calls ----

  // A call may use the stream up to byte `upto` and fill the output up to byte `limit`.
  datatype Cut = Cut(upto: nat, limit: nat)

  ghost predicate Cuts(cuts: seq<Cut>, n: nat) {
    && (forall i :: 0 <= i < |cuts| ==> cuts[i].upto <= n)
    && forall i, j :: 0 <= i < j < |cuts| ==> cuts[i].upto <= cuts[j].upto && cuts[i].limit <= cuts[j].limit
  }

  // One call keeps the decoder on the run.
  method Call(z: Inflater, chunk: seq<Byte>, space: nat) returns (out: seq<Byte>)
    requires OnTrack(z) && z.rd.totalIn + |chunk| <= |z.rd.stream|
      && chunk == z.rd.stream[z.rd.totalIn..z.rd.totalIn + |chunk|]
    modifies z, z.rd, z.window, z.window.data, z.codes, z.work
    ensures OnTrack(z) && z.hist == old(z.hist) + out && |out| <= space && Stopped(z, |old(z.hist)| + space)
    ensures Offered(z) == old(z.rd.totalIn) + |chunk|
  {
    hide Step, Reaches, State.Valid, State.Lean, State.Abs, Small, FixedTables, BytesBits, Val, Reader.Held, Stopped,
         SlidingWindow.Holds, SlidingWindow.Valid, Reader.P;
    ghost var c := z.At(z.hist);
    var ret;
    ret, out := Inflate(z, chunk, space);
    ReachesTrans(z.rd.I(), START, c, z.At(z.hist));
  }

  // A new decoder fed with these cuts.
  method Feed(stream: seq<Byte>, cuts: seq<Cut>) returns (z: Inflater, out: seq<Byte>)
    requires |cuts| > 0 && Cuts(cuts, |stream|)
    ensures OnTrack(z) && z.rd.stream == stream && z.hist == out
    ensures Offered(z) == cuts[|cuts| - 1].upto && |out| <= cuts[|cuts| - 1].limit && Stopped(z, cuts[|cuts| - 1].limit)
  {
    hide Step, Reaches, State.Valid, State.Lean, State.Abs, Small, FixedTables, BytesBits, Val, Reader.Held, Stopped,
         SlidingWindow.Holds, SlidingWindow.Valid, Reader.P, TableFor;
    var lenfix, distfix := BuildFixed();
    z := new Inflater(stream, lenfix, distfix);
    assert z.hist + z.written == z.hist;
    ReachesSelf(z.rd.I(), START);
    out := [];
    var i := 0;
    while i < |cuts|
      invariant i <= |cuts| && OnTrack(z) && z.rd.stream == stream && z.hist == out
      invariant fresh(z) && fresh(z.rd) && fresh(z.window) && fresh(z.window.data) && fresh(z.codes) && fresh(z.work)
      invariant i == 0 ==> z.rd.totalIn == 0 && out == []
      invariant i > 0 ==> Offered(z) == cuts[i - 1].upto && |out| <= cuts[i - 1].limit && Stopped(z, cuts[i - 1].limit)
    {
      var cut, taken := cuts[i], z.rd.totalIn;
      assert i > 0 ==> cuts[i - 1].upto <= cut.upto && cuts[i - 1].limit <= cut.limit;
      var more := Call(z, stream[taken..cut.upto], cut.limit - |out|);
      out := out + more;
      i := i + 1;
    }
  }

  // The same stream in two different sets of pieces.
  method TwoWays(stream: seq<Byte>, a: seq<Cut>, b: seq<Cut>)
    returns (outA: seq<Byte>, outB: seq<Byte>, doneA: bool, doneB: bool, takenA: nat, takenB: nat)
    requires |a| > 0 && |b| > 0 && Cuts(a, |stream|) && Cuts(b, |stream|) && a[|a| - 1] == b[|b| - 1]
    ensures outA == outB && doneA == doneB && (doneA ==> takenA == takenB)
  {
    hide Step, Reaches, Live, Stopped, BytesBits;
    var y, z;
    y, outA := Feed(stream, a);
    z, outB := Feed(stream, b);
    SameBytes(y, z, a[|a| - 1].limit);
    doneA, doneB, takenA, takenB := y.s.mode == DONE, z.s.mode == DONE, y.rd.totalIn, z.rd.totalIn;
  }
}
