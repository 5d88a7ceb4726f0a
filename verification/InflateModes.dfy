/** The resumable decoder of deps/zlib/inflate.c: a switch over modes with a bit accumulator, decoding
    tables and a sliding window, returning whenever its input or its output space runs out.  Every
    round of the switch is a run of the RFC 1951 machine over the whole stream. */
module InflateModes {
  import opened Bits
  import opened BitStream
  import opened Canon
  import opened DecodeTable
  import opened InflateTable
  import opened CodeLengthCoding
  import opened Rfc1951
  import opened Lookup
  import opened Lz77
  import opened Window
  import opened BitReader
  import opened InflateState
  import opened InflateSteps

  class Inflater {
    const rd: Reader
    const window: SlidingWindow
    const lenfix: seq<Entry>     // fixed code tables
    const distfix: seq<Entry>
    const codes: array<Entry>    // space for the tables of a block
    const work: array<nat>
    var s: State
    var written: seq<Byte>       // output of this call
    var room: nat                // output space of this call
    var inUse: bool              // the window was written to: wsize != 0
    ghost var hist: seq<Byte>    // output of earlier calls

    constructor (ghost whole: seq<Byte>, lenfixed: seq<Entry>, distfixed: seq<Entry>)
      requires FixedTables(lenfixed, distfixed)
      ensures Core() && FixedTables(lenfix, distfix) && fresh(rd) && fresh(window) && fresh(window.data) && fresh(codes)
        && fresh(work)
      ensures rd.stream == whole && Here() == START && rd.inpos == |rd.input| && rd.totalIn == 0 && Space()
        && WindowOK() && hist == written == []
    {
      hide FixedTables;
      rd := new Reader(whole);
      window := new SlidingWindow(WINDOW_SIZE);
      lenfix, distfix := lenfixed, distfixed;
      codes := new Entry[ENOUGH_LENS + ENOUGH_DISTS](_ => INVALID);
      work := new nat[288](_ => 0);
      written, room, hist, inUse := [], 0, [], false;
      s := State(TYPE, false, 0, 0, 0, 0, 0, 0, 0, seq(320, _ => 0), [], 0, [], 0, [], [], []);
    }

    // ---- the part of the state that reads bits ----

    ghost predicate Core()
      reads this`s, rd
    {
      s.Shape() && s.Valid() && rd.Valid() && s.Lean(rd.bits, rd.hold)
    }

    // Where the RFC machine stands when `out` has been written.
    ghost function At(out: seq<Byte>): Config
      requires s.Shape() && rd.Valid()
      reads this`s, rd
    {
      Config(s.Abs(), rd.P(), out)
    }

    // The input at hand does not allow another step.
    ghost predicate Starved(out: seq<Byte>)
      requires s.Shape() && rd.Valid()
      reads this`s, rd
    {
      rd.inpos == |rd.input| && Step(rd.Seen(), At(out)) == None
    }

    // One round of the switch: a run of the machine that uses something up, or a standstill.
    ghost predicate Moved(out: seq<Byte>, c: Config, left: nat, rank: nat, go: bool)
      reads this`s, rd
    {
      && Core() && Reaches(rd.I(), c, At(out))
      && (go ==> rd.Left() < left || (rd.Left() == left && s.Rank() < rank))
      && (!go ==> Starved(out) && rd.Left() <= left)
    }

    // ---- the part that writes bytes ----

    ghost predicate Space()
      reads this`written, this`room, codes, work
    {
      |written| <= room && codes.Length == ENOUGH_LENS + ENOUGH_DISTS && work.Length == 288
    }

    // The window holds the output of earlier calls.
    ghost predicate WindowOK()
      reads this`hist, window, window.data
    {
      window.Valid() && window.size == WINDOW_SIZE && window.Holds(hist)
    }

    ghost function Here(): Config
      requires s.Shape() && rd.Valid()
      reads this`s, this`written, this`hist, rd
    {
      At(hist + written)
    }

    // No space for the next byte.
    predicate Full()
      reads this`s, this`written, this`room
    {
      |written| == room && (s.mode == MATCH || s.mode == LIT || (s.mode == COPY && s.length > 0))
    }

    // Input bits and output space not used yet.
    ghost function Fuel(): int
      requires rd.Valid()
      reads this`written, this`room, rd
    {
      rd.Left() + (room - |written|)
    }

    // The same for a round that may write.
    ghost predicate Wrote(c: Config, fuel: int, rank: nat, go: bool)
      reads this, rd, codes, work
    {
      && Core() && Space() && Reaches(rd.I(), c, Here())
      && (go ==> Fuel() < fuel || (Fuel() == fuel && s.Rank() < rank))
      && (!go ==> Starved(hist + written) || Full())
    }

    // ---- block headers ----

    method DoType(ghost out: seq<Byte>) returns (go: bool)
      requires Core() && s.mode == TYPE && FixedTables(lenfix, distfix)
      modifies this`s, rd`hold, rd`bits, rd`inpos, rd`totalIn
      ensures Moved(out, old(At(out)), old(rd.Left()), old(s.Rank()), go)
    {
      hide BytesBits, Val, Pow2, FixedTables, Field, Reaches, Step, BlockMode, EnterBlock, Reader.Held, Reader.Valid,
           Reader.P, Reader.Left, Reader.Seen, Small, State.Valid, State.Abs, State.Lean, State.Rank;
      ghost var c := At(out);
      AtType(s);
      TypeStep(rd.I(), c);
      if s.last {
        rd.ByteBits();
        s := s.(mode := DONE);
        AtDone(s);
        ReachesStep(rd.I(), c, At(out));
        return true;
      }
      var ok := rd.NeedBits(3);
      if !ok {
        ReachesSelf(rd.I(), c);
        TypeStep(rd.Seen(), c);
        return false;
      }
      var l := rd.Take(1);
      OneBit(rd.I(), c.p);
      var t := rd.Take(2);
      EnterBlockFacts(s, l == 1, t, lenfix, distfix);
      s := EnterBlock(s, l == 1, t, lenfix, distfix);
      ReachesStep(rd.I(), c, At(out));
      go := true;
    }

    method DoStored(ghost out: seq<Byte>) returns (go: bool)
      requires Core() && s.mode == STORED
      modifies this`s, rd`hold, rd`bits, rd`inpos, rd`totalIn
      ensures Moved(out, old(At(out)), old(rd.Left()), old(s.Rank()), go)
    {
      hide BytesBits, Val, Pow2, Field, Reaches, Step, Align, Reader.Held, Reader.Valid, Reader.P, Reader.Left,
           Reader.Seen, Small, State.Valid, State.Abs, State.Lean, State.Rank;
      ghost var c := At(out);
      AtStored(s);
      Aligned(c.p);
      StoredStep(rd.I(), c);
      rd.ByteBits();
      ghost var d := At(out);
      StoredStep(rd.I(), d);
      if c.p % 8 == 0 { ReachesSelf(rd.I(), c); } else { ReachesStep(rd.I(), c, d); }
      var ok := rd.NeedBits(32);
      if !ok {
        StoredStep(rd.Seen(), d);
        return false;
      }
      var low, high := rd.PeekHalves();
      // (hold & 0xffff) != ((hold >> 16) ^ 0xffff): the fields are not complements
      if low + high != 0xffff {
        s := s.(mode := BAD);
        AtBad(s);
      } else {
        rd.InitBits();
        s := s.(length := low, mode := COPY);
        AtCopy(s);
      }
      ReachesStep(rd.I(), d, At(out));
      ReachesTrans(rd.I(), c, d, At(out));
      go := true;
    }

    method DoTable(ghost out: seq<Byte>) returns (go: bool)
      requires Core() && s.mode == TABLE
      modifies this`s, rd`hold, rd`bits, rd`inpos, rd`totalIn
      ensures Moved(out, old(At(out)), old(rd.Left()), old(s.Rank()), go)
    {
      hide BytesBits, Val, Pow2, Field, Reaches, Step, ByRank, Reader.Held, Reader.Valid, Reader.P, Reader.Left,
           Reader.Seen, Small, State.Valid, State.Abs, State.Lean, State.Rank;
      ghost var c := At(out);
      AtTable(s);
      TableStep(rd.I(), c);
      var ok := rd.NeedBits(14);
      if !ok {
        ReachesSelf(rd.I(), c);
        TableStep(rd.Seen(), c);
        return false;
      }
      var a := rd.Take(5);
      var b := rd.Take(5);
      var d := rd.Take(4);
      SmallField(rd.I(), c.p + 10, 4);
      s := s.(nlen := a + 257, ndist := b + 1, ncode := d + 4);
      if s.nlen > 286 || s.ndist > 30 {
        s := s.(mode := BAD);
        AtBad(s);
      } else {
        s := s.(have := 0, mode := LENLENS);
        assert ByRank(s.lens, 0) == [];
        AtLenLens(s);
      }
      ReachesStep(rd.I(), c, At(out));
      go := true;
    }

    method DoLenLens(ghost out: seq<Byte>) returns (go: bool)
      requires Core() && s.mode == LENLENS && codes.Length == ENOUGH_LENS + ENOUGH_DISTS && work.Length == 288
      modifies this`s, rd`hold, rd`bits, rd`inpos, rd`totalIn, codes, work
      ensures Moved(out, old(At(out)), old(rd.Left()), old(s.Rank()), go)
    {
      hide BytesBits, Val, Pow2, Field, Reaches, Step, Reader.Held, Reader.Valid, Reader.P, Reader.Left, Reader.Seen,
           Small, State.Valid, State.Abs, State.Lean, State.Rank, ByRank, LowRanks;
      ghost var c := At(out);
      ReachesSelf(rd.I(), c);
      while s.have < s.ncode
        invariant Core() && s.mode == LENLENS && s.ncode == old(s.ncode)
        invariant Reaches(rd.I(), c, At(out)) && rd.Left() <= old(rd.Left()) && s.Rank() == old(s.Rank())
        decreases old(s.ncode) - s.have
      {
        var ok := ReadRank(out, c);
        if !ok { return false; }
      }
      AtLenLens(s);
      BuildLenCode(out, c);
      go := true;
    }

    // One 3-bit length.
    method ReadRank(ghost out: seq<Byte>, ghost c: Config) returns (ok: bool)
      requires Core() && s.mode == LENLENS && s.have < s.ncode && Reaches(rd.I(), c, At(out))
      modifies this`s, rd`hold, rd`bits, rd`inpos, rd`totalIn
      ensures Core() && Reaches(rd.I(), c, At(out)) && rd.Left() <= old(rd.Left()) && s.Rank() == old(s.Rank())
      ensures ok ==> s.mode == LENLENS && s.ncode == old(s.ncode) && s.have == old(s.have) + 1
      ensures !ok ==> Starved(out)
    {
      hide BytesBits, Val, Pow2, Field, Reaches, Step, Reader.Held, Reader.Valid, Reader.P, Reader.Left, Reader.Seen,
           Small, State.Valid, State.Abs, State.Lean, State.Rank, ByRank, LowRanks, Order, Rank;
      ghost var d := At(out);
      AtLenLens(s);
      LenLensStep(rd.I(), d);
      ok := rd.NeedBits(3);
      if !ok {
        LenLensStep(rd.Seen(), d);
        return;
      }
      var v := rd.Take(3);
      ThreeBits(rd.I(), d.p);
      RankNext(s.lens, s.have, v);
      LowRankNext(s.lens, s.have, v);
      s := s.(lens := s.lens[Order(s.have) := v], have := s.have + 1);
      AtLenLens(s);
      ReachesStep(rd.I(), d, At(out));
      ReachesTrans(rd.I(), c, d, At(out));
    }

    // Zero the lengths not sent.
    method ZeroRanks(lens: seq<nat>, n: nat) returns (full: seq<nat>)
      requires |lens| == 320 && n <= 19 && Small(lens) && LowRanks(lens, n)
      ensures |full| == 320 && Small(full) && full[..19] == ByOrder(ByRank(lens, n))
      ensures forall i :: 0 <= i < 19 ==> full[i] <= 7
    {
      hide Order, Rank, ByRank;
      full := lens;
      assert ByRank(full, n) == ByRank(lens, n) + Fill(0, 0);
      for have := n to 19
        invariant |full| == 320 && Small(full)
        invariant ByRank(full, have) == ByRank(lens, n) + Fill(0, have - n)
      {
        RankNext(full, have, 0);
        full := full[Order(have) := 0];
        assert Fill(0, have + 1 - n) == Fill(0, have - n) + [0];
      }
      ZeroFilled(lens, n, full);
      LowOrder(lens, n);
    }

    method BuildLenCode(ghost out: seq<Byte>, ghost c: Config)
      requires Core() && s.mode == LENLENS && s.have == s.ncode && Reaches(rd.I(), c, At(out))
      requires codes.Length == ENOUGH_LENS + ENOUGH_DISTS && work.Length == 288
      modifies this`s, codes, work
      ensures Core() && Reaches(rd.I(), c, At(out)) && s.Rank() < old(s.Rank())
    {
      hide BytesBits, Val, Pow2, Field, Reaches, Step, Reader.Held, Reader.Valid, Reader.P, Reader.Left, Reader.Seen,
           Small, State.Valid, State.Abs, State.Lean, State.Rank, ByRank, LowRanks, TableFor, Decodes, Rejects,
           LinksDropRoot, Flat, Accepted, Buildable;
      ghost var d := At(out);
      AtLenLens(s);
      LenLensStep(rd.I(), d);
      var lens := ZeroRanks(s.lens, s.ncode);
      var ret, used, root;
      SevenBits();
      ValidPart(lens, 0, 19);
      ret, used, root := InflateTable.InflateTable(CODES, lens[0..19], 7, codes, 0, work);
      s := s.(lens := lens, have := 19);
      if ret != TABLE_OK {
        s := s.(mode := BAD);
        AtBad(s);
      } else {
        s := s.(have := 0, mode := CODELENS, lencode := codes[0..used], lenbits := root, cl := lens[0..19]);
        BuiltTable(CODES, s.cl, s.lencode, root, 7);
        AtCodeLens(s);
      }
      ReachesStep(rd.I(), d, At(out));
      ReachesTrans(rd.I(), c, d, At(out));
    }

    method DoCodeLens(ghost out: seq<Byte>) returns (go: bool)
      requires Core() && s.mode == CODELENS && codes.Length == ENOUGH_LENS + ENOUGH_DISTS && work.Length == 288
      modifies this`s, rd`hold, rd`bits, rd`inpos, rd`totalIn, codes, work
      ensures Moved(out, old(At(out)), old(rd.Left()), old(s.Rank()), go)
    {
      hide BytesBits, Val, Pow2, Field, Reaches, Step, Reader.Held, Reader.Valid, Reader.P, Reader.Left, Reader.Seen,
           Small, State.Valid, State.Abs, State.Lean, State.Rank;
      ghost var c := At(out);
      ReachesSelf(rd.I(), c);
      while s.have < s.nlen + s.ndist
        invariant Core() && s.mode == CODELENS && s.nlen + s.ndist == old(s.nlen + s.ndist)
        invariant Reaches(rd.I(), c, At(out)) && rd.Left() <= old(rd.Left()) && s.Rank() == old(s.Rank())
        decreases old(s.nlen + s.ndist) - s.have
      {
        var ok := ReadLens(out, c);
        if !ok { return false; }
        if s.mode == BAD { return true; }
        AtCodeLens(s);
        AtCodeLens(old(s));
      }
      BuildCodes(out, c);
      go := true;
    }

    // One symbol of the code length alphabet and its run.
    method ReadLens(ghost out: seq<Byte>, ghost c: Config) returns (ok: bool)
      requires Core() && s.mode == CODELENS && s.have < s.nlen + s.ndist && Reaches(rd.I(), c, At(out))
      modifies this`s, rd`hold, rd`bits, rd`inpos, rd`totalIn
      ensures Core() && Reaches(rd.I(), c, At(out))
      ensures ok ==> rd.Left() < old(rd.Left())
      ensures ok ==>
        s.mode == BAD || (s.mode == CODELENS && s.nlen + s.ndist == old(s.nlen + s.ndist) && s.have > old(s.have))
      ensures !ok ==> Starved(out) && rd.Left() == old(rd.Left())
    {
      hide BytesBits, Val, Pow2, Field, Reaches, Step, Reader.Held, Reader.Valid, Reader.P, Reader.Left, Reader.Seen,
           Small, State.Valid, State.Abs, State.Lean, State.Rank, TableFor, Flat, Resolve;
      ghost var d := At(out);
      AtCodeLens(s);
      var here;
      ok, here := rd.FindFlat(s.lencode, s.lenbits, CODES, s.cl);
      if !ok {
        Unread(out);
        return;
      }
      rd.HeldFacts();
      ghost var held := rd.Held();
      SecondLevel(s.lencode, CODES, s.cl, s.lenbits, rd.hold);
      ok := rd.NeedBits(here.bits + RunBits(here.val));  // for val < 16 nothing more is needed
      rd.HeldFacts();
      SameEntry(held, here);
      if !ok {
        Unread(out);
        return;
      }
      if here.val < 16 { TakeOne(here, out, c); } else { TakeRun(here, out, c); }
    }

    // Pulling more bytes does not change the entry found.
    lemma SameEntry(held: seq<bool>, here: Entry)
      requires rd.Valid() && TableFor(s.lencode, CODES, s.cl, s.lenbits) && Flat(s.lencode, s.lenbits)
      requires rd.P() >= 0 && rd.totalIn <= |rd.stream| && held <= rd.Held()
      requires here.bits <= |held| && Resolve(s.lencode, s.lenbits, Val(held)) == (here, here.bits)
      ensures Resolve(s.lencode, s.lenbits, rd.hold) == (here, here.bits)
    {
      hide TableFor, Flat, Resolve, Val, Reader.Held, Reader.Valid;
      rd.HeldFacts();
      var c := rd.Held()[|held|..];
      assert rd.Held() == held + c;
      StableFlat(s.lencode, CODES, s.cl, s.lenbits, held, c);
    }

    // A symbol and its run are in the accumulator, which holds less than a byte more.
    ghost predicate Sees(here: Entry)
      reads this`s, rd
    {
      && s.Shape() && s.Valid() && s.mode == CODELENS && s.have < s.nlen + s.ndist && rd.Valid()
      && Resolve(s.lencode, s.lenbits, rd.hold) == (here, here.bits)
      && here.bits + RunBits(here.val) <= rd.bits < here.bits + RunBits(here.val) + 8
    }

    lemma SeesOp(here: Entry, out: seq<Byte>)
      requires Sees(here)
      ensures rd.P() >= 0 && rd.P() + here.bits + RunBits(here.val) <= |rd.I()| && 1 <= here.bits
      ensures At(out).mode == CodeLens(s.last, s.nlen, s.ndist, s.cl, s.lens[..s.have])
      ensures
        var k := RunBits(here.val);
        var op := OpOf(here.val, Field(rd.I(), rd.P() + here.bits, k));
        var have := Apply(op, s.lens[..s.have]);
        if have.None? then Step(rd.I(), At(out)) == Some(Config(Bad, rd.P() + here.bits + k - 2, out)) else
        Step(rd.I(), At(out)) == Some(Config(
          if |have.value| > s.nlen + s.ndist then Bad
          else CodeLens(s.last, s.nlen, s.ndist, s.cl, have.value), rd.P() + here.bits + k, out))
    {
      hide Small, State.Valid, State.Abs, State.Lean, State.Rank, Reader.Held, Reader.Valid, Reader.Seen, Reader.P,
           LensNeed, Step, ReadOp, BytesBits, Val, TableFor, Flat, Resolve, Apply, OpOf;
      AtCodeLens(s);
      rd.HeldFacts();
      var held, k := rd.Held(), RunBits(here.val);
      SecondLevel(s.lencode, CODES, s.cl, s.lenbits, rd.hold);
      OpRead(s.lencode, s.cl, s.lenbits, held, rd.I()[|rd.Seen()|..], here, here.bits);
      assert held[here.bits..here.bits + k] == rd.I()[rd.P() + here.bits..rd.P() + here.bits + k];
      CodeLensStep(rd.I(), At(out));
    }

    method TakeOne(here: Entry, ghost out: seq<Byte>, ghost c: Config)
      requires Sees(here) && here.val < 16 && Reaches(rd.I(), c, At(out))
      modifies this`s, rd`hold, rd`bits
      ensures Core() && Reaches(rd.I(), c, At(out)) && rd.Left() < old(rd.Left())
      ensures s.mode == CODELENS && s.nlen + s.ndist == old(s.nlen + s.ndist) && s.have > old(s.have)
    {
      hide BytesBits, Val, Pow2, Field, Reaches, Step, Reader.Held, Reader.Valid, Reader.P, Reader.Left, Reader.Seen,
           Small, State.Valid, State.Abs, State.Lean, State.Rank, TableFor, Flat, Resolve, LensNeed;
      ghost var d := At(out);
      SeesOp(here, out);
      AtCodeLens(s);
      var v := rd.Take(here.bits);
      OneStored(s.lens, s.have, here.val);
      s := s.(lens := s.lens[s.have := here.val], have := s.have + 1);
      AtCodeLens(s);
      ReachesStep(rd.I(), d, At(out));
      ReachesTrans(rd.I(), c, d, At(out));
    }

    // What a run of x + 3 or x + 11 lengths leads to.
    ghost function RunMode(val: nat, x: nat): Mode
      requires s.have <= |s.lens|
      reads this`s
    {
      if val == 16 && s.have == 0 then Bad else
      var have := s.lens[..s.have] + Fill(if val == 16 then s.lens[s.have - 1] else 0, x + if val <= 17 then 3 else 11);
      if |have| > s.nlen + s.ndist then Bad else CodeLens(s.last, s.nlen, s.ndist, s.cl, have)
    }

    // The bits of the run that are taken: a repeat without a length before it is refused at once.
    ghost function RunTaken(here: Entry): nat
      reads this`s
    {
      here.bits + if here.val == 16 && s.have == 0 then 0 else RunBits(here.val)
    }

    lemma RunReached(here: Entry, out: seq<Byte>, c: Config)
      requires Sees(here) && here.val >= 16 && Reaches(rd.I(), c, At(out))
      ensures rd.P() >= 0 && rd.P() + here.bits + RunBits(here.val) <= |rd.I()| && 1 <= here.bits && s.have <= |s.lens|
      ensures
        var x := Field(rd.I(), rd.P() + here.bits, RunBits(here.val));
        Reaches(rd.I(), c, Config(RunMode(here.val, x), rd.P() + RunTaken(here), out))
    {
      hide BytesBits, Val, Pow2, Field, Reaches, Step, Reader.Held, Reader.Valid, Reader.P, Reader.Left, Reader.Seen,
           Small, State.Valid, State.Abs, State.Lean, State.Rank, TableFor, Flat, Resolve, LensNeed, Apply, OpOf, Fill;
      var d := At(out);
      SeesOp(here, out);
      AtCodeLens(s);
      RunApplied(here.val, Field(rd.I(), rd.P() + here.bits, RunBits(here.val)), s.lens, s.have);
      var e := Step(rd.I(), d).value;
      ReachesStep(rd.I(), d, e);
      ReachesTrans(rd.I(), c, d, e);
    }

    method TakeRun(here: Entry, ghost out: seq<Byte>, ghost c: Config)
      requires Sees(here) && here.val >= 16 && Reaches(rd.I(), c, At(out))
      modifies this`s, rd`hold, rd`bits
      ensures Core() && Reaches(rd.I(), c, At(out)) && rd.Left() < old(rd.Left())
      ensures s.mode == BAD ||
        (s.mode == CODELENS && s.nlen + s.ndist == old(s.nlen + s.ndist) && s.have > old(s.have))
    {
      hide BytesBits, Val, Pow2, Field, Reaches, Step, Reader.Held, Reader.Valid, Reader.P, Reader.Left, Reader.Seen,
           Small, State.Valid, State.Abs, State.Lean, State.Rank, TableFor, Flat, Resolve, LensNeed, Fill;
      RunReached(here, out, c);
      var v := rd.Take(here.bits);
      if here.val == 16 && s.have == 0 {
        s := s.(mode := BAD);
        AtBad(s);
      } else {
        var x := rd.Take(RunBits(here.val));
        hide RunMode;
        RepeatLength(here.val, x);
      }
    }

    // The length to repeat, and how often.
    method RepeatLength(val: nat, x: nat)
      requires s.Shape() && s.Valid() && s.mode == CODELENS && val >= 16 && (val == 16 ==> s.have > 0)
        && s.have <= |s.lens|
      modifies this`s
      ensures s.Shape() && s.Valid() && (s.mode == BAD || s.mode == CODELENS)
        && forall b: nat, h: nat :: b < 8 ==> s.Lean(b, h)
      ensures s.Abs() == old(RunMode(val, x))
      ensures s.mode == CODELENS ==> s.nlen + s.ndist == old(s.nlen + s.ndist) && s.have > old(s.have)
    {
      hide Small, State.Valid, State.Abs, State.Lean, State.Rank, TableFor, Flat, Resolve, LensNeed;
      AtCodeLens(s);
      var len := if val == 16 then s.lens[s.have - 1] else 0;
      var copy := x + (if val <= 17 then 3 else 11);
      if s.have + copy > s.nlen + s.ndist {
        s := s.(mode := BAD);
        AtBad(s);
      } else {
        SmallAt(s.lens, s.have, val == 16);
        var lens := StoreRun(s.lens, s.have, len, copy);
        s := s.(lens := lens, have := s.have + copy);
        AtCodeLens(s);
      }
    }

    // while (copy--) lens[have++] = len
    method StoreRun(lens: seq<nat>, have: nat, len: nat, copy: nat) returns (r: seq<nat>)
      requires have + copy <= |lens| && Small(lens) && len <= 15
      ensures |r| == |lens| && Small(r) && r[..have + copy] == lens[..have] + Fill(len, copy)
    {
      r := lens;
      assert Fill(len, 0) == [];
      for k := 0 to copy
        invariant |r| == |lens| && Small(r) && r[..have + k] == lens[..have] + Fill(len, k)
      {
        assert Fill(len, k + 1) == Fill(len, k) + [len];
        r := r[have + k := len];
        assert r[..have + k + 1] == r[..have + k] + [len];
      }
    }

    // The bits held do not make up a symbol and its run.
    lemma Unread(out: seq<Byte>)
      requires s.Shape() && s.Valid() && s.mode == CODELENS && s.have < s.nlen + s.ndist && rd.Valid()
      requires rd.inpos == |rd.input| && LensNeed(s.lencode, s.lenbits, rd.hold) > rd.bits
      ensures Core() && Starved(out)
    {
      hide Small, State.Valid, State.Abs, State.Lean, State.Rank, Reader.Held, Reader.Valid, Reader.Seen, Reader.P,
           LensNeed, Step, ReadOp, BytesBits, Val, TableFor, Flat;
      AtCodeLens(s);
      rd.HeldFacts();
      OpStarved(s.lencode, s.cl, s.lenbits, rd.Held());
      CodeLensStep(rd.Seen(), At(out));
    }

    method BuildCodes(ghost out: seq<Byte>, ghost c: Config)
      requires Core() && s.mode == CODELENS && s.have >= s.nlen + s.ndist && Reaches(rd.I(), c, At(out))
      requires codes.Length == ENOUGH_LENS + ENOUGH_DISTS && work.Length == 288
      modifies this`s, codes, work
      ensures Core() && Reaches(rd.I(), c, At(out)) && s.Rank() < old(s.Rank())
    {
      hide BytesBits, Val, Pow2, Field, Reaches, Step, Reader.Held, Reader.Valid, Reader.P, Reader.Left, Reader.Seen,
           Small, State.Valid, State.Abs, State.Lean, State.Rank, TableFor, Decodes, Rejects, LinksDropRoot, Flat,
           Accepted, Buildable;
      ghost var d := At(out);
      AtCodeLens(s);
      CodeLensEnd(rd.I(), d);
      HaveParts(s.lens, s.nlen, s.ndist);
      s := TryCodes(s);
      if s.mode == LEN { AtLen(s); } else { AtBad(s); }
      AtCodeLens(old(s));
      ReachesStep(rd.I(), d, At(out));
      ReachesTrans(rd.I(), c, d, At(out));
    }

    // Check for an end-of-block code and build the two tables of a dynamic block.
    method TryCodes(s0: State) returns (s1: State)
      requires s0.Shape() && 257 <= s0.nlen <= 286 && 1 <= s0.ndist <= 30
      requires codes.Length == ENOUGH_LENS + ENOUGH_DISTS && work.Length == 288
      modifies codes, work
      ensures
        var ll, dl := s0.lens[0..s0.nlen], s0.lens[s0.nlen..s0.nlen + s0.ndist];
        && s1.Shape() && s1.last == s0.last
        && if s0.lens[256] == 0 || !Buildable(LENS, ll, 9) || !Buildable(DISTS, dl, 6) then s1.mode == BAD
           else s1.mode == LEN && s1.InBlock() && s1.ll == ll && s1.dl == dl
    {
      hide Pow2, Small, TableFor, Decodes, Rejects, LinksDropRoot, Flat, Accepted, Buildable;
      s1 := s0.(mode := BAD);
      if s0.lens[256] == 0 { return; }
      var ret, used, root, used2, root2;
      ValidPart(s0.lens, 0, s0.nlen);
      ret, used, root := InflateTable.InflateTable(LENS, s0.lens[0..s0.nlen], 9, codes, 0, work);
      if ret != TABLE_OK { return; }
      s1 := s1.(lencode := codes[0..used], lenbits := root, ll := s0.lens[0..s0.nlen]);
      BuiltTable(LENS, s1.ll, s1.lencode, root, 9);
      ValidPart(s0.lens, s0.nlen, s0.nlen + s0.ndist);
      ret, used2, root2 := InflateTable.InflateTable(DISTS, s0.lens[s0.nlen..s0.nlen + s0.ndist], 6, codes, used, work);
      if ret != TABLE_OK { return; }
      s1 := s1.(distcode := codes[used..used + used2], distbits := root2, dl := s0.lens[s0.nlen..s0.nlen + s0.ndist]);
      BuiltTable(DISTS, s1.dl, s1.distcode, root2, 6);
      s1 := s1.(mode := LEN);
    }

    // ---- symbols ----

    method DoLen(ghost out: seq<Byte>) returns (go: bool)
      requires Core() && s.mode == LEN
      modifies this`s, rd`hold, rd`bits, rd`inpos, rd`totalIn
      ensures Moved(out, old(At(out)), old(rd.Left()), old(s.Rank()), go)
    {
      hide BytesBits, Val, Pow2, Field, Reaches, Step, Reader.Held, Reader.Valid, Reader.P, Reader.Left, Reader.Seen,
           Small, State.Valid, State.Abs, State.Lean, State.Rank, Resolve, Rfc1951.Decode, NextLen, TableFor, LenMode;
      ghost var c := At(out);
      AtLen(s);
      var here, n;
      go, here, n := rd.Find(s.lencode, s.lenbits, LENS, s.ll);
      rd.HeldFacts();
      if !go {
        ReachesSelf(rd.I(), c);
        NotFound(s.lencode, LENS, s.ll, s.lenbits, rd.Held());
        LenStep(rd.Seen(), c);
        return;
      }
      Found(s.lencode, LENS, s.ll, s.lenbits, rd.Held(), rd.I()[|rd.Seen()|..]);
      LenStep(rd.I(), c);
      ghost var sym := Rfc1951.Decode(s.ll, rd.I()[c.p..]);
      var v := rd.Take(n);
      NextLenFacts(s, here, sym);
      s := NextLen(s, here);
      ReachesStep(rd.I(), c, At(out));
    }

    method DoLenExt(ghost out: seq<Byte>) returns (go: bool)
      requires Core() && s.mode == LENEXT
      modifies this`s, rd`hold, rd`bits, rd`inpos, rd`totalIn
      ensures Moved(out, old(At(out)), old(rd.Left()), old(s.Rank()), go)
    {
      hide BytesBits, Val, Pow2, Field, Reaches, Step, Reader.Held, Reader.Valid, Reader.P, Reader.Left, Reader.Seen,
           Small, State.Valid, State.Abs, State.Lean, State.Rank, State.InBlock, Resolve;
      ghost var c := At(out);
      AtLenExt(s);
      LenExtStep(rd.I(), c);
      var x;
      go, x := rd.TakeExtra(s.extra);
      rd.HeldFacts();
      if !go {
        ReachesSelf(rd.I(), c);
        LenExtStep(rd.Seen(), c);
        return;
      }
      s := s.(length := s.length + x, mode := DIST);
      SameTables(old(s), s);
      AtDist(s);
      ReachesStep(rd.I(), c, At(out));
    }

    method DoDist(ghost out: seq<Byte>) returns (go: bool)
      requires Core() && s.mode == DIST
      modifies this`s, rd`hold, rd`bits, rd`inpos, rd`totalIn
      ensures Moved(out, old(At(out)), old(rd.Left()), old(s.Rank()), go)
    {
      hide BytesBits, Val, Pow2, Field, Reaches, Step, Reader.Held, Reader.Valid, Reader.P, Reader.Left, Reader.Seen,
           Small, State.Valid, State.Abs, State.Lean, State.Rank, Resolve, Rfc1951.Decode, NextDist, TableFor, DistMode;
      ghost var c := At(out);
      AtDist(s);
      var here, n;
      go, here, n := rd.Find(s.distcode, s.distbits, DISTS, s.dl);
      rd.HeldFacts();
      if !go {
        ReachesSelf(rd.I(), c);
        NotFound(s.distcode, DISTS, s.dl, s.distbits, rd.Held());
        DistStep(rd.Seen(), c);
        return;
      }
      Found(s.distcode, DISTS, s.dl, s.distbits, rd.Held(), rd.I()[|rd.Seen()|..]);
      DistStep(rd.I(), c);
      ghost var sym := Rfc1951.Decode(s.dl, rd.I()[c.p..]);
      var v := rd.Take(n);
      NextDistFacts(s, here, sym);
      s := NextDist(s, here);
      ReachesStep(rd.I(), c, At(out));
    }

    method DoDistExt(ghost out: seq<Byte>) returns (go: bool)
      requires Core() && s.mode == DISTEXT
      modifies this`s, rd`hold, rd`bits, rd`inpos, rd`totalIn
      ensures Moved(out, old(At(out)), old(rd.Left()), old(s.Rank()), go)
    {
      hide BytesBits, Val, Pow2, Field, Reaches, Step, Reader.Held, Reader.Valid, Reader.P, Reader.Left, Reader.Seen,
           Small, State.Valid, State.Abs, State.Lean, State.Rank, State.InBlock, Resolve;
      ghost var c := At(out);
      AtDistExt(s);
      DistExtStep(rd.I(), c);
      var x;
      go, x := rd.TakeExtra(s.extra);
      rd.HeldFacts();
      if !go {
        ReachesSelf(rd.I(), c);
        DistExtStep(rd.Seen(), c);
        return;
      }
      s := s.(offset := s.offset + x, mode := MATCH);
      SameTables(old(s), s);
      AtMatch(s);
      ReachesStep(rd.I(), c, At(out));
    }

    // ---- output ----

    // Copy what both buffers allow of a stored block.
    method DoCopy() returns (go: bool)
      requires Core() && Space() && s.mode == COPY
      modifies this`s, this`written, rd`inpos, rd`totalIn
      ensures Wrote(old(Here()), old(Fuel()), old(s.Rank()), go)
    {
      hide BytesBits, Val, Pow2, Field, Reaches, Step, Reader.Held, Reader.Valid, Reader.P, Reader.Left, Reader.Seen,
           Small, State.Valid, State.Abs, State.Lean, State.Rank;
      ghost var c := Here();
      AtCopy(s);
      rd.HeldFacts();
      CopyStep(rd.I(), c);
      var copy := s.length;
      if copy == 0 {
        s := s.(mode := TYPE);
        AtType(s);
        ReachesStep(rd.I(), c, Here());
        return true;
      }
      if copy > |rd.input| - rd.inpos { copy := |rd.input| - rd.inpos; }
      if copy > room - |written| { copy := room - |written|; }
      if copy == 0 {
        ReachesSelf(rd.I(), c);
        CopyStep(rd.Seen(), c);
        return false;
      }
      CopySome(copy);
      go := true;
    }

    method CopySome(copy: nat)
      requires Core() && Space() && s.mode == COPY && 0 < copy <= s.length && copy <= |rd.input| - rd.inpos
        && copy <= room - |written|
      modifies this`s, this`written, rd`inpos, rd`totalIn
      ensures Wrote(old(Here()), old(Fuel()), old(s.Rank()), true)
    {
      hide BytesBits, Val, Pow2, Field, Reaches, Step, Reader.Held, Reader.Valid, Reader.P, Reader.Left, Reader.Seen,
           Small, State.Valid, State.Abs, State.Lean, State.Rank;
      ghost var c := Here();
      AtCopy(s);
      rd.HeldFacts();
      var bytes := rd.TakeBytes(copy);
      CopyRun(rd.I(), c, bytes);
      assert hist + written + bytes == hist + (written + bytes);
      written := written + bytes;
      s := s.(length := s.length - copy);
      AtCopy(s);
    }

    method DoLit() returns (go: bool)
      requires Core() && Space() && s.mode == LIT
      modifies this`s, this`written
      ensures Wrote(old(Here()), old(Fuel()), old(s.Rank()), go)
    {
      hide BytesBits, Val, Pow2, Field, Reaches, Step, Reader.Held, Reader.Valid, Reader.P, Reader.Left, Reader.Seen,
           Small, State.Valid, State.Abs, State.Lean, State.Rank, State.InBlock, Resolve;
      ghost var c := Here();
      AtLit(s);
      if |written| == room {
        ReachesSelf(rd.I(), c);
        return false;
      }
      LitStep(rd.I(), c);
      assert hist + written + [s.length] == hist + (written + [s.length]);
      written := written + [s.length];
      s := s.(mode := LEN);
      SameTables(old(s), s);
      AtLen(s);
      ReachesStep(rd.I(), c, Here());
      go := true;
    }

    // do *put++ = *from++ while (--n), from the window.
    method PutFromWindow(from: nat, n: nat)
      requires window.Valid() && from + n <= window.size
      modifies this`written
      ensures written == old(written) + window.data[from..from + n]
    {
      for k := 0 to n
        invariant written == old(written) + window.data[from..from + k]
      {
        written := written + [window.data[from + k]];
      }
    }

    // The same from dist bytes back in the output; the two may overlap.
    method PutFromOutput(dist: nat, n: nat)
      requires 0 < dist <= |written|
      modifies this`written
      ensures written == CopyBack(old(written), dist, n)
    {
      var k := n;
      while k > 0
        invariant dist <= |written| && CopyBack(written, dist, k) == CopyBack(old(written), dist, n)
      {
        written := written + [written[|written| - dist]];
        k := k - 1;
      }
    }

    // Where the byte `back` bytes before this call's output sits, and how many follow it there.
    method Locate(back: nat) returns (from: nat, n: nat)
      requires WindowOK() && 0 < back <= window.whave
      ensures 0 < n <= back && from + n <= window.size
      ensures back <= |hist| && window.data[from..from + n] == hist[|hist| - back..|hist| - back + n]
    {
      if back > window.wnext {
        n := back - window.wnext;
        from := window.size - n;
      } else {
        n := back;
        from := window.wnext - n;
      }
      ghost var a, b := window.data[from..from + n], hist[|hist| - back..|hist| - back + n];
      forall i | 0 <= i < n ensures a[i] == b[i] {
        assert from + i == window.Index(back - i);
      }
    }

    // Copy as much of a match as one stretch of memory and the space left allow.
    method PutMatch(offset: nat, length: nat) returns (copy: nat)
      requires Space() && WindowOK() && |written| < room && 0 < length
      requires 0 < offset && (offset > |written| ==> offset - |written| <= window.whave)
      modifies this`written
      ensures 0 < copy <= length && |written| == |old(written)| + copy && old(written) <= written && Space()
      ensures Continues(hist + old(written), offset, written[|old(written)|..])
    {
      hide Continues;
      copy := |written|;
      if offset > copy {
        var from, n := Locate(offset - copy);
        copy := Least(n, length, room - |written|);
        ghost var k := |hist| + |written| - offset;
        assert window.data[from..from + copy] == window.data[from..from + n][..copy] == hist[k..k + n][..copy] ==
          hist[k..k + copy];
        WindowContinues(hist, written, offset, window.data[from..from + copy]);
        PutFromWindow(from, copy);
      } else {
        copy := Least(length, length, room - |written|);
        OutputContinues(hist, written, offset, copy);
        PutFromOutput(offset, copy);
      }
    }

    method DoMatch() returns (go: bool)
      requires Core() && Space() && WindowOK() && s.mode == MATCH
      modifies this`s, this`written
      ensures Wrote(old(Here()), old(Fuel()), old(s.Rank()), go)
      ensures go ==> (s.mode == BAD <==> old(TooFar(s.offset, |written|, window.whave)))
    {
      hide BytesBits, Val, Pow2, Field, Reaches, Step, Reader.Held, Reader.Valid, Reader.P, Reader.Left, Reader.Seen,
           Small, State.Valid, State.Abs, State.Lean, State.Rank, State.InBlock, Resolve, Continues;
      ghost var c := Here();
      AtMatch(s);
      if |written| == room {
        ReachesSelf(rd.I(), c);
        return false;
      }
      go := true;
      if TooFar(s.offset, |written|, window.whave) {
        MatchTooFar(rd.I(), c);
        s := s.(mode := BAD);
        AtBad(s);
        ReachesStep(rd.I(), c, Here());
        return;
      }
      var copy := PutMatch(s.offset, s.length);
      ghost var bytes := written[|old(written)|..];
      assert hist + old(written) + bytes == hist + written;
      MatchRun(rd.I(), c, bytes);
      s := s.(length := s.length - copy);
      if s.length == 0 { s := s.(mode := LEN); }
      SameTables(old(s), s);
      if s.mode == LEN { AtLen(s); } else { AtMatch(s); }
    }
  }

  function Least(a: nat, b: nat, c: nat): (m: nat)
    ensures m <= a && m <= b && m <= c && (m == a || m == b || m == c)
  {
    if a <= b && a <= c then a else if b <= c then b else c
  }

  // A table InflateTable has just returned.
  lemma BuiltTable(t: CodeType, lens: seq<nat>, tab: seq<Entry>, root: nat, bits: nat)
    requires |lens| <= MaxSymbols(t) && ValidLens(lens) && Buildable(t, lens, bits)
    requires Decodes(tab, t, lens, root) && Rejects(tab, lens, root) && LinksDropRoot(tab, root) && 1 <= root <= MAXBITS
    ensures TableFor(tab, t, lens, root)
  {
  }

  lemma ValidPart(lens: seq<nat>, a: nat, b: nat)
    requires Small(lens) && a <= b <= |lens|
    ensures ValidLens(lens[a..b])
  {
  }
}
