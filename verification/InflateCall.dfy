/** Whole calls of inflate() from deps/zlib/inflate.c, and sequences of calls over one stream. */
module InflateCall {
  import opened Bits
  import opened BitStream
  import opened Canon
  import opened DecodeTable
  import opened InflateTable
  import opened CodeLengthCoding
  import opened Rfc1951
  import opened Lookup
  import opened Window
  import opened BitReader
  import opened InflateState
  import opened InflateSteps
  import opened InflateModes
  import opened InflateFast
  import Block

  datatype Ret = OK | STREAM_END | DATA_ERROR | BUF_ERROR

  // fixedtables(): the tables of the fixed codes.
  method BuildFixed() returns (lenfix: seq<Entry>, distfix: seq<Entry>)
    ensures FixedTables(lenfix, distfix)
  {
    hide Accepted, Pow2, Decodes, Rejects, LinksDropRoot, Buildable, Complete, FixedCodes, RootOnly, Flat, TableFor;
    var codes := new Entry[ENOUGH_LENS + ENOUGH_DISTS](_ => INVALID);
    var work := new nat[288](_ => 0);
    FixedFacts();
    var ll, dl := FixedCodes().ll, FixedCodes().dl;
    var ret, used, root := InflateTable.InflateTable(LENS, ll, 9, codes, 0, work);
    lenfix := codes[0..used];
    BuiltTable(LENS, ll, lenfix, root, 9);
    ret, used, root := InflateTable.InflateTable(DISTS, dl, 5, codes, 0, work);
    distfix := codes[0..used];
    BuiltTable(DISTS, dl, distfix, root, 5);
  }

  lemma FixedFacts()
    ensures |FixedCodes().ll| == 288 && |FixedCodes().dl| == 32
    ensures ValidLens(FixedCodes().ll) && Accepted(LENS, FixedCodes().ll) && RootOnly(LENS, FixedCodes().ll, 9)
    ensures ValidLens(FixedCodes().dl) && Accepted(DISTS, FixedCodes().dl) && RootOnly(DISTS, FixedCodes().dl, 5)
  {
    hide Complete;
    Block.FixedComplete();
    assert Pow2(9) == 512 && Pow2(5) == 32;
    assert HasCode(FixedCodes().ll, 144) && FixedCodes().ll[144] == 9;
    assert HasCode(FixedCodes().dl, 0) && FixedCodes().dl[0] == 5;
  }

  // The decoder between the rounds of the switch.
  ghost predicate Live(z: Inflater)
    reads z, z.rd, z.window, z.window.data, z.codes, z.work
  {
    && z.Core() && z.Space() && FixedTables(z.lenfix, z.distfix) && z.window.Valid() && z.window.size == WINDOW_SIZE
    && (z.window.Holds(z.hist) || (!z.inUse && z.s.mode == BAD))
  }

  // There is nothing to do for this call.
  ghost predicate Halted(z: Inflater)
    requires z.s.Shape() && z.rd.Valid()
    reads z, z.rd
  {
    z.s.mode == DONE || z.s.mode == BAD || z.Starved(z.hist + z.written) || z.Full()
  }

  // One round of the switch.
  method Round(z: Inflater) returns (go: bool)
    requires Live(z)
    modifies z`s, z`written, z.rd`hold, z.rd`bits, z.rd`inpos, z.rd`totalIn, z.codes, z.work
    ensures Live(z) && Reaches(z.rd.I(), old(z.Here()), z.Here())
    ensures go ==> z.Fuel() < old(z.Fuel()) || (z.Fuel() == old(z.Fuel()) && z.s.Rank() < old(z.s.Rank()))
    ensures !go ==> Halted(z)
  {
    hide BytesBits, Val, Pow2, Reaches, Step, Reader.Held, Reader.Valid, Reader.P, Reader.Seen, Small, State.Valid,
         State.Abs, State.Lean, State.Rank, SlidingWindow.Holds, SlidingWindow.Valid, FixedTables;
    ghost var out := z.hist + z.written;
    match z.s.mode
    case TYPE => go := z.DoType(out);
    case STORED => go := z.DoStored(out);
    case COPY => go := z.DoCopy();
    case TABLE => go := z.DoTable(out);
    case LENLENS => go := z.DoLenLens(out);
    case CODELENS => go := z.DoCodeLens(out);
    case LEN =>
      if z.rd.inpos + 6 <= |z.rd.input| && |z.written| + 258 <= z.room {
        InflateFast.InflateFast(z);
        go := true;
      } else {
        go := z.DoLen(out);
      }
    case LENEXT => go := z.DoLenExt(out);
    case DIST => go := z.DoDist(out);
    case DISTEXT => go := z.DoDistExt(out);
    case MATCH => go := z.DoMatch();
    case LIT => go := z.DoLit();
    case _ =>
      ReachesSelf(z.rd.I(), z.Here());
      go := false;
  }

  // No further progress with the input offered and m bytes of output in all.
  ghost predicate Stopped(z: Inflater, m: nat)
    requires z.s.Shape() && z.rd.Valid()
    reads z, z.rd
  {
    || z.s.mode == DONE || z.s.mode == BAD || z.Starved(z.hist)
    || (|z.hist| == m && (z.s.mode == MATCH || z.s.mode == LIT || (z.s.mode == COPY && z.s.length > 0)))
  }

  // One call of inflate with the next bytes of the stream and some output space.
  method Inflate(z: Inflater, chunk: seq<Byte>, space: nat) returns (ret: Ret, out: seq<Byte>)
    requires Live(z) && z.written == []
    requires z.rd.totalIn + |chunk| <= |z.rd.stream|
    requires chunk == z.rd.stream[z.rd.totalIn..z.rd.totalIn + |chunk|]
    modifies z, z.rd`input, z.rd`base, z.rd`hold, z.rd`bits, z.rd`inpos, z.rd`totalIn, z.codes, z.work, z.window,
             z.window.data
    ensures Live(z) && z.written == [] && z.hist == old(z.hist) + out && |out| <= space
    ensures Reaches(z.rd.I(), old(z.At(z.hist)), z.At(z.hist))
    ensures z.rd.base == old(z.rd.totalIn) && z.rd.input == chunk
    ensures Stopped(z, |old(z.hist)| + space)
    ensures ret == STREAM_END <==> z.s.mode == DONE
    ensures ret == DATA_ERROR <==> z.s.mode == BAD
    ensures ret == BUF_ERROR <==>
      z.s.mode != DONE && z.s.mode != BAD && out == [] && z.rd.totalIn == old(z.rd.totalIn)
  {
    hide BytesBits, Val, Pow2, Reaches, Step, Reader.Held, Reader.P, Reader.Seen, Small, State.Valid, State.Abs,
         State.Lean, State.Rank, SlidingWindow.Holds, SlidingWindow.Valid, FixedTables, Reader.Left;
    z.rd.Supply(chunk);
    z.room := space;
    assert z.hist + z.written == z.hist;
    Rounds(z);
    out := z.written;
    Leave(z);
    ret := if z.s.mode == DONE then STREAM_END else if z.s.mode == BAD then DATA_ERROR
           else if z.rd.inpos == 0 && |out| == 0 then BUF_ERROR else OK;
  }

  // The for (;;) switch.
  method Rounds(z: Inflater)
    requires Live(z)
    modifies z`s, z`written, z.rd`hold, z.rd`bits, z.rd`inpos, z.rd`totalIn, z.codes, z.work
    ensures Live(z) && Reaches(z.rd.I(), old(z.Here()), z.Here()) && Halted(z)
  {
    hide BytesBits, Val, Pow2, Reaches, Step, Reader.Held, Reader.P, Reader.Seen, Small, State.Valid, State.Abs,
         State.Lean, State.Rank, SlidingWindow.Holds, SlidingWindow.Valid, FixedTables, Reader.Left, Reader.Valid;
    ghost var c := z.Here();
    ReachesSelf(z.rd.I(), c);
    var go := true;
    while go
      invariant Live(z) && Reaches(z.rd.I(), c, z.Here())
      invariant !go ==> Halted(z)
      decreases go, z.Fuel(), z.s.Rank()
    {
      ghost var d := z.Here();
      go := Round(z);
      ReachesTrans(z.rd.I(), c, d, z.Here());
    }
  }

  // inf_leave: remember the output for later matches.
  method Leave(z: Inflater)
    requires Live(z) && Halted(z)
    modifies z`hist, z`written, z`inUse, z.window, z.window.data
    ensures Live(z) && z.written == [] && z.hist == old(z.hist) + old(z.written)
    ensures Stopped(z, |old(z.hist)| + z.room)
  {
    hide Step, Reader.Seen, Small, State.Valid, State.Abs, State.Lean, FixedTables, SlidingWindow.Holds,
         SlidingWindow.Valid, Reader.Valid;
    if z.inUse || (|z.written| > 0 && z.s.mode != BAD) {
      z.window.Update(z.written, z.hist);
      z.inUse := true;
    } else if |z.written| == 0 {
      assert z.hist + z.written == z.hist;
    }
    z.hist, z.written := z.hist + z.written, [];
  }
}
