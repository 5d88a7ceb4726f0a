/** The strategies of deps/zlib/deflate.c: deflate_fast, deflate_slow, deflate_rle and deflate_huff turn the input into
    literals and pairs that stand for exactly the bytes consumed. */
module Deflate {
  import opened Bits
  import opened BitStream
  import opened Lz77
  import opened HashChains
  import opened MatchFinder
  import opened MatchChoice
  import opened BlockList
  import RunCoding

  lemma RunNext(toks: seq<Token>, text: seq<Byte>, n: nat, closed: bool, tok: Token)
    requires Covers(toks, text, n) && RunCoding.Runs(text, closed, toks) && RunCoding.RunToken(text, closed, n, tok)
    ensures RunCoding.Runs(text, closed, toks + [tok])
  {
    hide RunCoding.RunToken;
    RunCoding.SizeOfAll(toks, []);
    RunCoding.RunsMore(text, closed, toks, tok);
  }

  lemma RunLiteral(toks: seq<Token>, text: seq<Byte>, n: nat, closed: bool)
    requires Covers(toks, text, n) && RunCoding.Runs(text, closed, toks) && n < |text| && !Repeats(text, n, 1, 3)
    requires closed || n + 3 <= |text|
    ensures RunCoding.Runs(text, closed, toks + [Literal(text[n])])
  {
    hide Covers, RunCoding.Runs, Repeats;
    RunNext(toks, text, n, closed, Literal(text[n]));
  }

  lemma RunPair(toks: seq<Token>, text: seq<Byte>, n: nat, closed: bool, len: nat)
    requires Covers(toks, text, n) && RunCoding.Runs(text, closed, toks) && 3 <= len <= MAX_MATCH
      && Repeats(text, n, 1, len)
    requires len < MAX_MATCH ==> !Repeats(text, n, 1, len + 1) && (closed || n + len < |text|)
    ensures RunCoding.Runs(text, closed, toks + [Pair(1, len)])
  {
    hide Covers, RunCoding.Runs;
    RunNext(toks, text, n, closed, Pair(1, len));
  }

  // A run ends with the text.
  lemma NoRoom(text: seq<Byte>, n: nat, k: nat)
    requires n == 0 || n + k > |text|
    ensures !Repeats(text, n, 1, k)
  {
  }

  // OutFull is need_more for lack of output space.
  datatype BlockState = NeedMore | OutFull | BlockDone | FinishStarted | FinishDone

  class Deflater {
    const m: Finder
    const litBufsize: nat
    const maxLazy: nat       // also the longest match whose strings deflate_fast inserts
    const filtered: bool
    const outFull: nat -> bool  // whether avail_out is zero once so many blocks have been handed over
    var syms: seq<Token>     // d_buf and l_buf
    var blockStart: int
    var blocks: seq<Blk>
    var matchLength: nat
    var prevLength: nat
    var matchAvailable: bool
    // the empty blocks and their places, the ends of calls that flush, and what deflate_fast and deflate_slow chose
    ghost var marks: seq<(Mark, nat)>
    ghost var cuts: set<nat>
    ghost var log: seq<Event>

    ghost function All(): seq<Token>
      reads this`syms, this`blocks
    {
      Flatten(blocks) + syms
    }

    // Bytes of the input before strstart.
    ghost function At(): nat
      reads m
    {
      m.base + m.strstart
    }

    // The blocks handed over so far.
    ghost predicate Delivered()
      reads this`blockStart, this`blocks, this`marks, this`cuts, m`text, m`base, m`strstart
    {
      && 3 <= litBufsize <= 0x8000 && maxLazy <= MAX_MATCH && BlocksOk(blocks) && Pieces(blocks)
      && Sized(blocks, litBufsize - 1, cuts) && marks == MarksOf(blocks)
      && m.base + blockStart >= 0 && blockStart <= m.strstart && Covers(Flatten(blocks), m.text, m.base + blockStart)
    }

    // The symbols stand for the bytes before position n.
    ghost predicate Stands(n: nat)
      reads this`syms, this`blocks, m`text, m`origin
    {
      Told(blocks, syms, m.text, m.origin, n)
    }

    // There is room for another symbol in this block, and for another block.
    ghost predicate Filling()
      reads this`syms, this`blocks
    {
      |syms| < litBufsize - 1 && Open(blocks)
    }

    // The symbols and bytes since the last block make a block.
    ghost predicate Ready()
      reads this`syms, this`blocks, this`blockStart, m`strstart
    {
      |syms| < litBufsize && Open(blocks) && (blockStart >= 0 ==> m.strstart - blockStart < 0x10000)
    }

    ghost predicate Repr()
      reads this`blockStart, this`blocks, this`marks, this`cuts, m, m.window, m.head, m.prev
    {
      m.Valid() && Delivered()
    }

    // All bytes before position n are covered.
    ghost predicate Upto(n: int)
      reads this`syms, this`blockStart, this`blocks, this`marks, this`cuts, m, m.window, m.head, m.prev
    {
      Repr() && 0 <= n && Stands(n)
    }

    constructor (finder: Finder, bufsize: nat, lazy: nat, filter: bool, full: nat -> bool)
      requires finder.Valid() && finder.text == [] && finder.base == 0 && finder.strstart == 0
      requires 3 <= bufsize <= 0x8000 && lazy <= MAX_MATCH
      ensures m == finder && litBufsize == bufsize && maxLazy == lazy && filtered == filter && outFull == full
      ensures blockStart == 0 && Filling() && Upto(0) && matchLength == prevLength == 2 && !matchAvailable
        && blocks == [] && syms == [] && marks == [] && cuts == {} && log == []
    {
      m, litBufsize, maxLazy, filtered, outFull := finder, bufsize, lazy, filter, full;
      syms, blockStart, blocks := [], 0, [];
      matchLength, prevLength, matchAvailable := 2, 2, false;
      marks, cuts, log := [], {}, [];
      new;
      ToldNone(m.text, m.origin);
    }

    // _tr_tally_lit
    method TallyLit(c: Byte) returns (bflush: bool)
      modifies this`syms
      ensures syms == old(syms) + [Literal(c)] && (bflush <==> |syms| == litBufsize - 1)
    {
      syms := syms + [Literal(c)];
      bflush := |syms| == litBufsize - 1;
    }

    // _tr_tally_dist
    method TallyDist(dist: nat, lc: nat) returns (bflush: bool)
      modifies this`syms
      ensures syms == old(syms) + [Pair(dist, lc + 3)] && (bflush <==> |syms| == litBufsize - 1)
    {
      syms := syms + [Pair(dist, lc + 3)];
      bflush := |syms| == litBufsize - 1;
    }

    // A block ends when it is full, with the input, or where a call flushes.
    ghost predicate MayEnd(last: bool)
      reads this`syms, this`cuts, m
    {
      last || |syms| == litBufsize - 1 || At() in cuts
    }

    // FLUSH_BLOCK_ONLY: hand the block over.
    method FlushBlockOnly(last: bool)
      requires m.Sizes() && m.Holds() && Delivered() && Stands(At()) && Ready() && MayEnd(last)
      modifies this`syms, this`blocks, this`blockStart
      ensures (!last ==> Filling()) && Delivered() && Stands(At()) && syms == [] && blockStart == m.strstart
      ensures Handed(old(blocks), old(syms), blocks, last) && All() == old(All())
      // its bytes, if they are still in the window
      ensures blocks[|old(blocks)|].has <==> old(blockStart) >= 0
      ensures old(blockStart) >= 0 ==> blocks[|old(blocks)|].buf == m.window[old(blockStart)..m.strstart]
    {
      hide Covers, BlocksOk, Finder.Holds, Flatten, Pieces, Told, Sized, MarksOf;
      ghost var start := m.base + blockStart;
      m.Slice(if blockStart >= 0 then blockStart else 0);
      var buf := if blockStart >= 0 then m.window[blockStart..m.strstart] else [];
      var b := Blk(syms, blockStart >= 0, buf, last, NoMark);
      BlockHanded(b, start);
      blocks := blocks + [b];
      syms, blockStart := [], m.strstart;
      assert All() == Flatten(blocks);
    }

    // The block with the symbols.
    lemma BlockHanded(b: Blk, start: nat)
      requires Delivered() && Stands(At()) && Ready() && MayEnd(b.last) && start == m.base + blockStart
      requires b.toks == syms && b.mark == NoMark && |b.buf| < 0x10000 && (b.has ==> b.buf == m.text[start..At()])
      ensures
        var all := blocks + [b];
        && BlocksOk(all) && Pieces(all) && Sized(all, litBufsize - 1, cuts) && MarksOf(all) == marks
        && Covers(Flatten(all), m.text, At()) && Told(all, [], m.text, m.origin, At())
        && Flatten(all) == Flatten(blocks) + syms
    {
      hide Covers, BlocksOk, Flatten, Pieces, Told, Sized, MarksOf, RunCoding.Length;
      ToldCovers(blocks, syms, m.text, m.origin, At());
      CoversLength(Flatten(blocks) + syms, m.text, At());
      BlockAdded(blocks, b, m.text, start, At());
      PieceAdded(blocks, b);
      SizedNext(blocks, litBufsize - 1, cuts, b);
      MarksNext(blocks, b);
      ToldBlock(blocks, b, m.text, m.origin, At());
    }

    // FLUSH_BLOCK
    method FlushBlock(last: bool)
      requires Upto(At()) && Ready() && MayEnd(last)
      modifies this`syms, this`blocks, this`blockStart
      ensures Upto(At()) && syms == [] && blockStart == m.strstart && (!last ==> Filling())
      ensures Handed(old(blocks), old(syms), blocks, last) && All() == old(All())
      ensures blocks[|old(blocks)|].has <==> old(blockStart) >= 0
      ensures forall closed :: old(Rolled(closed)) && (last || old(|syms|) == litBufsize - 1) ==> Rolled(closed)
    {
      hide Covers, BlocksOk, Finder.Holds, Finder.Linked, Finder.Primed, Flatten, Delivered, Handed, RunCoding.Runs,
           Even, Told;
      FlushBlockOnly(last);
      HandedOver(old(blocks), old(syms), blocks, last, litBufsize - 1);
    }

    // Hand the block over when the symbol buffer is full; then the output may be full.
    method FlushFull(bflush: bool) returns (full: bool)
      requires Upto(At()) && m.strstart < m.window.Length && |syms| < litBufsize && Open(blocks)
        && (bflush <==> |syms| == litBufsize - 1)
      modifies this`syms, this`blocks, this`blockStart
      ensures Upto(At()) && Filling() && All() == old(All()) && forall closed :: old(Rolled(closed)) ==> Rolled(closed)
      ensures blocks == old(blocks) || Handed(old(blocks), old(syms), blocks, false)
    {
      hide Upto, Rolled, Handed;
      InsideWindow(At());
      full := false;
      if bflush {
        FlushBlock(false);
        full := outFull(|blocks|);
      }
    }

    // The text is t0 and what was read of the input since position p0.
    ghost predicate Read(t0: seq<Byte>, p0: nat)
      reads m`text, m`input, m`inpos
    {
      p0 <= m.inpos <= |m.input| && m.text == t0 + m.input[p0..m.inpos]
    }

    lemma ReadNothing(n: int)
      requires Upto(n)
      ensures Read(m.text, m.inpos)
    {
      assert m.text + m.input[m.inpos..m.inpos] == m.text;
    }

    // The lookahead is inside the window.
    lemma RoomAhead(n: int)
      requires Upto(n)
      ensures m.strstart + m.lookahead <= m.window.Length
    {
    }

    lemma BufferSize(n: int)
      requires Upto(n)
      ensures 3 <= litBufsize <= 0x8000
    {
    }

    // Before the end of the window a block cannot be too large.
    lemma InsideWindow(n: int)
      requires Upto(n) && m.strstart < m.window.Length && |syms| < litBufsize && Open(blocks)
      ensures Ready()
    {
      WindowSizes(m.sh);
    }

    // The next piece of the input.
    method Supply(chunk: seq<Byte>, ghost n: int)
      requires Upto(n)
      modifies m`input, m`inpos
      ensures Upto(n) && m.input == chunk && m.inpos == 0
    {
      hide Covers, BlocksOk, Pieces, Told, Sized, MarksOf;
      m.input, m.inpos := chunk, 0;
    }

    // fill_window, with block_start moving along.
    method Fill(ghost n: nat, ghost t0: seq<Byte>, ghost p0: nat)
      requires Upto(n) && m.lookahead < MIN_LOOKAHEAD && Read(t0, p0)
      modifies this`blockStart, m.window, m.head, m.prev, m`strstart, m`lookahead, m`matchStart, m`insert, m`insH,
               m`inpos, m`text, m`base, m`ins, m`hi
      ensures Upto(n) && At() == old(At()) && m.strstart + MIN_LOOKAHEAD <= m.window.Length && Read(t0, p0)
      ensures m.lookahead >= MIN_LOOKAHEAD || m.inpos == |m.input|
      ensures m.strstart - m.matchStart == old(m.strstart - m.matchStart)
        && m.strstart - blockStart == old(m.strstart - blockStart)
      ensures m.inpos >= old(m.inpos) && m.lookahead - old(m.lookahead) == m.inpos - old(m.inpos)
      ensures m.strstart == 0 <==> old(m.strstart) == 0
      ensures old(m.text) <= m.text && Finder.Keeps(old(m.ins), old(m.base), m.ins, m.base)
      ensures old(m.Full() && m.Caught()) ==> m.Full() && m.Caught()
      ensures old(m.Full() && m.inpos == |m.input|) ==> m.Full()
    {
      hide Covers, BlocksOk, Told, Sized, MarksOf, Finder.Full, Finder.Caught, Finder.Keeps;
      var was := m.strstart;
      ghost var start, text, pos := m.base + blockStart, m.text, m.inpos;
      m.FillWindow();
      blockStart := blockStart - (was - m.strstart);
      CoversMore(Flatten(blocks), text, m.input[pos..m.inpos], start);
      ToldMore(blocks, syms, text, m.input[pos..m.inpos], m.origin, n);
      assert m.input[p0..m.inpos] == m.input[p0..pos] + m.input[pos..m.inpos];
    }

    // The end of a call with flush: what is left goes out as a block.
    method Finish(finish: bool) returns (state: BlockState)
      requires Upto(At()) && Ready()
      modifies this`syms, this`blocks, this`blockStart, this`cuts
      ensures Upto(At()) && syms == [] && Ended(state, finish) && All() == old(All())
      ensures finish ==> forall closed :: old(Rolled(closed)) ==> Rolled(closed)
      ensures state.OutFull? ==> old(syms) != []
      ensures blockStart == if old(syms) == [] && !finish then old(blockStart) else m.strstart
      ensures cuts == if finish then old(cuts) else old(cuts) + {At()}
    {
      hide Upto, Rolled;
      if finish {
        FlushBlock(true);
        return if outFull(|blocks|) then FinishStarted else FinishDone;
      }
      BufferSize(At());
      CutHere();
      if |syms| > 0 {
        FlushBlock(false);
        if outFull(|blocks|) { return OutFull; }
      }
      state := BlockDone;
    }

    // A block may end here.
    ghost method CutHere()
      requires Upto(At())
      modifies this`cuts
      ensures Upto(At()) && cuts == old(cuts) + {At()}
    {
      hide Covers, BlocksOk, Told, Sized, MarksOf, Finder.Valid;
      SizedMore(blocks, litBufsize - 1, cuts, cuts + {At()});
      cuts := cuts + {At()};
    }

    // The states a call with flush can end in, and what they say of the blocks.
    ghost predicate Ended(state: BlockState, finish: bool)
      reads this`syms, this`blocks
    {
      && !state.NeedMore? && (state.FinishStarted? || state.FinishDone? <==> finish)
      && (if finish then blocks != [] && blocks[|blocks| - 1].last else Filling())
    }

    // What a call has left to do: bytes to pass, then symbols to hand over.
    ghost function Todo(): nat
      reads m`input, m`inpos, m`lookahead
    {
      if m.inpos <= |m.input| then |m.input| - m.inpos + m.lookahead else 0
    }

    // What a strategy promises: it stops for lack of input, for lack of output space having made progress, or at the
    // end.
    ghost predicate Outcome(state: BlockState, flush: bool, finish: bool, todo: nat, pending: nat)
      reads this`syms, this`blocks, m`input, m`inpos, m`lookahead
    {
      match state
      case NeedMore => !flush && m.inpos == |m.input| && Filling()
      case OutFull => Filling() && (Todo() < todo || (Todo() == todo && |syms| < pending))
      case _ => m.inpos == |m.input| && m.lookahead == 0 && syms == [] && flush && Ended(state, finish)
    }

    // ---- flushes ----

    // An empty block after everything has been handed over.
    method PutMark(mark: Mark)
      requires Upto(At()) && syms == [] && Filling() && mark in {AlignMark, SyncMark}
      modifies this`blocks, this`marks
      ensures Upto(At()) && Filling() && blocks == old(blocks) + [EmptyBlock(mark)]
      ensures marks == old(marks) + [(mark, At())]
      ensures All() == old(All())
    {
      hide Covers, BlocksOk, Finder.Holds, Finder.Linked, Finder.Primed, Flatten, Pieces, Told, Sized, MarksOf;
      MarkHere(mark);
      ToldBlock(blocks, EmptyBlock(mark), m.text, m.origin, At());
      blocks, marks := blocks + [EmptyBlock(mark)], marks + [(mark, At())];
    }

    lemma MarkHere(mark: Mark)
      requires Upto(At()) && syms == [] && Filling() && mark != NoMark
      ensures
        var all := blocks + [EmptyBlock(mark)];
        && BlocksOk(all) && Pieces(all) && Sized(all, litBufsize - 1, cuts) && MarksOf(all) == marks + [(mark, At())]
        && Flatten(all) == Flatten(blocks) == All() && Covers(Flatten(all), m.text, At())
    {
      hide Covers, BlocksOk, Finder.Valid, Flatten, Pieces, Told, Sized, MarksOf, RunCoding.Length;
      var b := EmptyBlock(mark);
      assert Flatten(blocks) + [] == Flatten(blocks) && All() == Flatten(blocks);
      ToldCovers(blocks, syms, m.text, m.origin, At());
      CoversLength(Flatten(blocks), m.text, At());
      MarkAdded(blocks, b, m.text, m.base + blockStart);
      PieceAdded(blocks, b);
      SizedNext(blocks, litBufsize - 1, cuts, b);
      MarksNext(blocks, b);
    }

    // A full flush: after the empty block matches do not reach back beyond it.
    method PutFullMark()
      requires Upto(At()) && syms == [] && Filling() && m.lookahead == 0
      modifies this`blocks, this`marks, this`blockStart, this`log, m.head, m`strstart, m`insert, m`base, m`ins, m`hi,
               m`origin
      ensures Upto(At()) && At() == old(At()) && Filling() && blockStart == m.strstart == 0 && All() == old(All())
      ensures blocks == old(blocks) + [EmptyBlock(FullMark)] && marks == old(marks) + [(FullMark, At())]
      ensures m.ins == {} && m.origin == |m.text| && m.Full() && m.Caught() && log == old(log) + [Forget(|m.text|)]
    {
      hide Covers, BlocksOk, Pieces, Flatten, Told, Sized, MarksOf, Chains, Finder.Primed;
      MarkHere(FullMark);
      ToldFull(blocks, m.text, m.origin, At());
      blocks, marks := blocks + [EmptyBlock(FullMark)], marks + [(FullMark, At())];
      m.Forget();
      blockStart, log := 0, log + [Forget(|m.text|)];
    }

    // ---- Z_HUFFMAN_ONLY ----

    ghost predicate Plain()
      reads this`syms, this`blocks
    {
      forall i :: 0 <= i < |All()| ==> All()[i].Literal?
    }

    method HuffStep() returns (bflush: bool)
      requires Upto(At()) && !m.hashing && m.lookahead > 0 && Filling()
      modifies this`syms, m`strstart, m`lookahead
      ensures Upto(At()) && m.lookahead == old(m.lookahead) - 1 && m.strstart == old(m.strstart) + 1
        && |syms| == |old(syms)| + 1
      ensures At() - 1 < |m.text| && syms == old(syms) + [Literal(m.text[At() - 1])]
        && (bflush <==> |syms| == litBufsize - 1)
      ensures All() == old(All()) + [Literal(m.text[At() - 1])]
    {
      hide Covers, BlocksOk, Finder.Linked, Flatten, Told, Sized, MarksOf;
      ToldLit(blocks, syms, m.text, m.origin, At());
      assert Flatten(blocks) + (syms + [Literal(m.text[At()])]) == All() + [Literal(m.text[At()])];
      bflush := TallyLit(m.window[m.strstart]);
      m.TakePlain(1);
    }

    method DeflateHuff(flush: bool, finish: bool) returns (state: BlockState)
      requires Upto(At()) && !m.hashing && (finish ==> flush) && Filling() && m.strstart - blockStart == |syms|
      requires Plain()
      modifies this`syms, this`blocks, this`blockStart, this`cuts, m.window, m.head, m.prev, m`strstart, m`lookahead,
               m`matchStart, m`insert, m`insH, m`inpos, m`text, m`base, m`ins, m`hi
      ensures Upto(At()) && Read(old(m.text), old(m.inpos)) && m.strstart - blockStart == |syms| && Plain()
      ensures Outcome(state, flush, finish, old(Todo()), old(|syms|)) && (state.NeedMore? ==> m.lookahead == 0)
      ensures CutsGrow(old(cuts), Closed(flush) && !finish)
    {
      hide Rolled, Handed, Upto, Plain;
      ReadNothing(At());
      while true
        invariant Upto(At()) && Read(old(m.text), old(m.inpos)) && Filling() && m.strstart - blockStart == |syms|
        invariant Plain() && cuts == old(cuts)
        invariant Todo() < old(Todo()) || (Todo() == old(Todo()) && |syms| == old(|syms|))
        decreases |m.input| - m.inpos + m.lookahead
      {
        BufferSize(At());
        if m.lookahead == 0 {
          Fill(At(), old(m.text), old(m.inpos));
          if m.lookahead == 0 {
            if !flush { return NeedMore; }
            break;
          }
        }
        var full := HuffRound();
        if full { return OutFull; }
      }
      state := HuffEnd(finish);
    }

    method HuffEnd(finish: bool) returns (state: BlockState)
      requires Upto(At()) && Ready() && Plain() && m.lookahead == 0 && m.strstart - blockStart == |syms|
        && !m.hashing
      modifies this`syms, this`blocks, this`blockStart, this`cuts, m`insert
      ensures Upto(At()) && syms == [] && Ended(state, finish) && Plain() && m.strstart - blockStart == |syms|
      ensures state.OutFull? ==> old(syms) != []
      ensures CutsGrow(old(cuts), !finish)
    {
      hide Upto, Rolled, Flatten;
      AtEnd();
      LeaveNone();
      state := Finish(finish);
    }

    // insert = 0: without the hash table no string is ever left over.
    method LeaveNone()
      requires Upto(At()) && !m.hashing
      modifies m`insert
      ensures Upto(At()) && m.insert == 0
    {
      hide Covers, BlocksOk, Told, Sized, MarksOf, Chains;
      m.insert := 0;
    }

    // Blocks may only end early where the text ended in a call that flushes.
    ghost predicate CutsGrow(before: set<nat>, flush: bool)
      reads this`cuts, m`text
    {
      cuts == before || (flush && cuts == before + {|m.text|})
    }

    lemma AtEnd()
      requires Upto(At()) && m.lookahead == 0
      ensures At() == |m.text|
    {
    }

    // One literal, and the block when it is full.
    method HuffRound() returns (full: bool)
      requires Upto(At()) && !m.hashing && m.lookahead > 0 && Filling() && m.strstart - blockStart == |syms| && Plain()
      modifies this`syms, this`blocks, this`blockStart, m`strstart, m`lookahead
      ensures Upto(At()) && Filling() && m.lookahead == old(m.lookahead) - 1 && m.strstart - blockStart == |syms|
      ensures Plain()
    {
      hide Rolled, Handed, Upto, Flatten;
      BufferSize(At());
      var bflush := HuffStep();
      full := false;
      if bflush {
        FlushBlock(false);
        full := outFull(|blocks|);
      }
    }

    // ---- Z_RLE ----

    // A byte among the next n + 1 differs, so they are no run.
    lemma NoRun(n: nat)
      requires m.Sizes() && m.Holds() && 0 < m.strstart && n < m.lookahead
      requires exists i :: m.strstart <= i <= m.strstart + n && m.window[i] != m.window[m.strstart - 1]
      ensures !Repeats(m.text, m.base + m.strstart, 1, n + 1)
    {
      hide Chains;
      if Repeats(m.text, m.base + m.strstart, 1, n + 1) {
        var i :| m.strstart <= i <= m.strstart + n && m.window[i] != m.window[m.strstart - 1];
        RunOf(i);
      }
    }

    lemma {:induction false} RunOf(i: nat)
      requires m.Sizes() && m.Holds() && 0 < m.strstart <= i < m.strstart + m.lookahead
      requires Repeats(m.text, m.base + m.strstart, 1, i + 1 - m.strstart)
      ensures m.window[i] == m.window[m.strstart - 1]
      decreases i
    {
      hide Chains;
      var t := m.base + i;
      assert m.text[t] == m.text[t - 1];
      assert m.window[i] == m.text[t] && m.window[i - 1] == m.text[t - 1];
      if i > m.strstart { RunOf(i - 1); }
    }

    // How often the byte before strstart repeats, up to MAX_MATCH times.
    method RunLength() returns (len: nat)
      requires m.Valid() && m.strstart > 0 && m.strstart + MAX_MATCH < m.window.Length && m.lookahead >= MIN_MATCH
      ensures len == 0 || (3 <= len <= MAX_MATCH && len <= m.lookahead && Repeats(m.text, m.base + m.strstart, 1, len))
      ensures len == 0 ==> !Repeats(m.text, m.base + m.strstart, 1, 3)
      ensures 0 < len < MAX_MATCH && len < m.lookahead ==> !Repeats(m.text, m.base + m.strstart, 1, len + 1)
    {
      hide Chains, Finder.Linked, Finder.Primed;
      var prev := m.window[m.strstart - 1];
      if prev != m.window[m.strstart] || prev != m.window[m.strstart + 1] || prev != m.window[m.strstart + 2] {
        NoRun(2);
        return 0;
      }
      len := 2;
      while len < MAX_MATCH
        invariant 2 <= len <= MAX_MATCH
        invariant forall i :: m.strstart <= i < m.strstart + (if len < MAX_MATCH then len + 1 else len) ==>
          m.window[i] == prev
      {
        len := len + 1;
        if m.window[m.strstart + len] != prev {
          if len < m.lookahead { NoRun(len); }
          break;
        }
      }
      if len > m.lookahead { len := m.lookahead; }
      ghost var a := m.base + m.strstart;
      forall i | a <= i < a + len ensures m.text[i] == m.text[i - 1] {
        ghost var k := i - m.base;
        assert m.window[k] == prev && m.window[k - 1] == prev;
      }
    }

    // The symbols are those of RunCoding, in blocks of full size.
    ghost predicate Rolled(closed: bool)
      reads this`syms, this`blocks, m`text, m`base, m`strstart
    {
      RunCoding.Runs(m.text, closed, All()) && Even(blocks, litBufsize - 1) && (m.strstart == 0 ==> m.base == 0)
    }

    method RlePair(len: nat) returns (bflush: bool)
      requires Upto(At()) && !m.hashing && 3 <= len <= MAX_MATCH && len <= m.lookahead && Filling()
      requires Repeats(m.text, At(), 1, len) && m.strstart > 0
      modifies this`syms, m`strstart, m`lookahead
      ensures Upto(At()) && m.lookahead == old(m.lookahead) - len && m.strstart == old(m.strstart) + len
      ensures All() == old(All()) + [Pair(1, len)] && |syms| == old(|syms|) + 1
      ensures bflush <==> |syms| == litBufsize - 1
    {
      hide Covers, BlocksOk, Finder.Linked, Flatten, Repeats, Told, Sized, MarksOf;
      ToldPair(blocks, syms, m.text, m.origin, At(), 1, len);
      assert Flatten(blocks) + (syms + [Pair(1, len)]) == All() + [Pair(1, len)];
      bflush := TallyDist(1, len - MIN_MATCH);
      m.TakePlain(len);
    }

    method RleStep(ghost rolled: bool, ghost closed: bool) returns (bflush: bool)
      requires Upto(At()) && !m.hashing && m.lookahead > 0 && m.strstart + MAX_MATCH < m.window.Length && Filling()
      requires rolled ==> Rolled(closed) && (closed || m.lookahead > MAX_MATCH)
      modifies this`syms, m`strstart, m`lookahead
      ensures rolled ==> Rolled(closed)
      ensures |syms| < litBufsize && m.strstart < m.window.Length && Upto(At()) && m.lookahead < old(m.lookahead)
        && (bflush <==> |syms| == litBufsize - 1)
    {
      hide Covers, BlocksOk, Finder.Linked, Flatten, Repeats, RunCoding.Runs, RunCoding.RunToken, Even, Told, Sized,
           MarksOf;
      ghost var toks, n := All(), At();
      ToldCovers(blocks, syms, m.text, m.origin, n);
      var len := 0;
      if m.lookahead >= MIN_MATCH && m.strstart > 0 { len := RunLength(); }
      if len >= MIN_MATCH {
        bflush := RlePair(len);
        if n + len == |m.text| { NoRoom(m.text, n, len + 1); }
        if rolled { RunPair(toks, m.text, n, closed, len); }
      } else {
        bflush := HuffStep();
        assert All() == toks + [Literal(m.text[n])];
        if n == 0 || n + 3 > |m.text| { NoRoom(m.text, n, 3); }
        if rolled { RunLiteral(toks, m.text, n, closed); }
      }
    }

    // No more text will follow.
    ghost predicate Closed(flush: bool)
      reads m`input, m`inpos
    {
      flush && m.inpos == |m.input|
    }

    // fill_window in deflate_rle.
    method FillRle(flush: bool, ghost t0: seq<Byte>, ghost p0: nat)
      requires Upto(At()) && m.lookahead < MIN_LOOKAHEAD && Read(t0, p0)
      modifies this`blockStart, m.window, m.head, m.prev, m`strstart, m`lookahead, m`matchStart, m`insert, m`insH,
               m`inpos, m`text, m`base, m`ins, m`hi
      ensures Upto(At()) && m.strstart + MIN_LOOKAHEAD <= m.window.Length && Read(t0, p0)
      ensures m.lookahead >= MIN_LOOKAHEAD || m.inpos == |m.input|
      ensures m.inpos >= old(m.inpos) && m.lookahead - old(m.lookahead) == m.inpos - old(m.inpos)
      ensures old(Rolled(Closed(flush))) ==> Rolled(Closed(flush))
    {
      hide Upto, RunCoding.Runs, Even;
      ghost var text, pos := m.text, m.inpos;
      Fill(At(), t0, p0);
      if old(Rolled(Closed(flush))) && pos < |m.input| {
        assert m.text == text + m.text[|text|..];
        RunCoding.RunsOn(text, m.text[|text|..], Closed(flush), All());
      }
    }

    /** deflate_rle.  Without flushes in between, the symbols are determined by the text alone. */
    method DeflateRle(flush: bool, finish: bool, ghost rolled: bool) returns (state: BlockState)
      requires Upto(At()) && !m.hashing && (finish ==> flush) && Filling()
      requires rolled ==> Rolled(Closed(flush)) && (flush ==> finish)
      modifies this`syms, this`blocks, this`blockStart, this`cuts, m.window, m.head, m.prev, m`strstart, m`lookahead,
               m`matchStart, m`insert, m`insH, m`inpos, m`text, m`base, m`ins, m`hi
      ensures Upto(At()) && Read(old(m.text), old(m.inpos))
      ensures Outcome(state, flush, finish, old(Todo()), old(|syms|)) && (state.NeedMore? ==> m.lookahead <= MAX_MATCH)
      ensures (rolled ==> Rolled(Closed(flush))) && CutsGrow(old(cuts), Closed(flush) && !finish)
    {
      hide Upto, Rolled, Filling;
      ReadNothing(At());
      var stop, full := RleLoop(flush, old(m.text), old(m.inpos), rolled);
      if stop { return if full then OutFull else NeedMore; }
      state := RleEnd(finish, rolled, Closed(flush));
    }

    // The loop of deflate_rle, until it has to stop for lack of input or of output space, or there is nothing left.
    method RleLoop(flush: bool, ghost t0: seq<Byte>, ghost p0: nat, ghost rolled: bool) returns (stop: bool, full: bool)
      requires Upto(At()) && !m.hashing && Filling() && Read(t0, p0) && (rolled ==> Rolled(Closed(flush)))
      modifies this`syms, this`blocks, this`blockStart, m.window, m.head, m.prev, m`strstart, m`lookahead,
               m`matchStart, m`insert, m`insH, m`inpos, m`text, m`base, m`ins, m`hi
      ensures Upto(At()) && Filling() && Read(t0, p0) && (rolled ==> Rolled(Closed(flush)))
      ensures stop && full ==> Todo() < old(Todo())
      ensures stop && !full ==> !flush && m.inpos == |m.input| && m.lookahead <= MAX_MATCH
      ensures !stop ==> flush && m.inpos == |m.input| && m.lookahead == 0 && m.strstart < m.window.Length
      ensures Todo() < old(Todo()) || (Todo() == old(Todo()) && |syms| == old(|syms|))
    {
      hide Upto, Rolled, Filling;
      while true
        invariant Upto(At()) && Filling() && Read(t0, p0) && (rolled ==> Rolled(Closed(flush)))
        invariant Todo() < old(Todo()) || (Todo() == old(Todo()) && |syms| == old(|syms|))
        decreases |m.input| - m.inpos + m.lookahead
      {
        if m.lookahead <= MAX_MATCH {
          FillRle(flush, t0, p0);
          if m.lookahead <= MAX_MATCH && !flush { return true, false; }
          if m.lookahead == 0 { return false, false; }
        } else {
          RoomAhead(At());
        }
        full := RleRound(rolled, Closed(flush));
        if full { return true, true; }
      }
    }

    method RleEnd(finish: bool, ghost rolled: bool, ghost closed: bool) returns (state: BlockState)
      requires Upto(At()) && !m.hashing && m.lookahead == 0 && m.strstart < m.window.Length && Filling()
      requires rolled ==> Rolled(closed) && finish
      modifies this`syms, this`blocks, this`blockStart, this`cuts, m`insert
      ensures Upto(At()) && syms == [] && Ended(state, finish) && (state.OutFull? ==> old(syms) != [])
      ensures (rolled ==> Rolled(closed)) && CutsGrow(old(cuts), !finish)
    {
      hide Upto, Rolled;
      BufferSize(At());
      InsideWindow(At());
      AtEnd();
      LeaveNone();
      state := Finish(finish);
    }

    // One symbol, and the block when it is full.
    method RleRound(ghost rolled: bool, ghost closed: bool) returns (full: bool)
      requires Upto(At()) && !m.hashing && m.lookahead > 0 && m.strstart + MAX_MATCH < m.window.Length && Filling()
      requires rolled ==> Rolled(closed) && (closed || m.lookahead > MAX_MATCH)
      modifies this`syms, this`blocks, this`blockStart, m`strstart, m`lookahead
      ensures Upto(At()) && Filling() && m.lookahead < old(m.lookahead) && (rolled ==> Rolled(closed))
    {
      hide Upto, Rolled;
      var bflush := RleStep(rolled, closed);
      full := FlushFull(bflush);
    }

    // ---- deflate_fast ----

    // The parameters of the search.
    function Tune(slow: bool): Tuning {
      Tuning(m.sh, m.goodMatch, m.niceMatch, m.maxChain, maxLazy, filtered, slow)
    }

    // What was inserted before the string at strstart.
    ghost predicate Before(known: set<nat>)
      reads m`ins, m`strstart, m`lookahead
    {
      && m.ins == known + (if m.lookahead >= 3 && m.strstart > 0 then {m.strstart} else {})
      && forall p <- known :: p < m.strstart
    }

    // The string at strstart is inserted.
    method Enter() returns (hashHead: nat, ghost known: set<nat>)
      requires m.Valid() && m.hashing
      modifies m`insH, m`ins, m`hi, m.head, m.prev
      ensures m.Entered() && (hashHead == 0 || (m.lookahead >= 3 && m.Candidate(hashHead, m.strstart)))
      ensures (m.lookahead >= 3 ==> m.Newest(hashHead, m.strstart)) && Before(known) && known == old(m.ins)
      ensures (m.lookahead < 3 ==> hashHead == 0) && (old(m.Full()) ==> m.EnteredFull())
    {
      hide Chains, HasTwo, Finder.Candidate, Finder.Newest, Finder.Holds, Finder.Primed, Finder.Full,
           Finder.EnteredFull;
      known := m.ins;
      ChainsKnown(m.window[..], m.head[..], m.prev[..], m.ins, m.hi, m.strstart + m.lookahead, m.sh);
      hashHead := m.Enter();
    }

    // Nothing was looked for, or nothing is near.
    lemma NoSearch(hashHead: nat, known: set<nat>, slow: bool, best: nat)
      requires m.Entered() && Before(known) && m.lookahead > 0 && (m.lookahead >= 3 ==> m.Newest(hashHead, m.strstart))
      requires m.lookahead < 3 || (slow && best >= maxLazy) || hashHead == 0
        || m.strstart - hashHead > m.sh.MaxDist()
      ensures Sound(Made(m, known, [], 0, 0), known, slow, best)
      ensures Length(Tune(slow), Made(m, known, [], 0, 0), best) == 2
    {
      hide Chains, HasTwo, Finder.Newest, Poised, NoneInReach;
      Moving(known);
      if m.lookahead >= 3 {
        Entering(m, known);
        if hashHead == 0 || m.strstart - hashHead > m.sh.MaxDist() { NothingNear(m, known, hashHead, 0, 0); }
      }
    }

    // The choice at strstart is made as it should be.
    ghost predicate Sound(c: Choice, known: set<nat>, slow: bool, best: nat)
      reads m
    {
      && c.n == At() && c.look == m.lookahead && c.known == Moved(known, m.base)
      && Chosen(m.text, Tune(slow), c, best)
    }

    // longest_match at strstart, for more than `atLeast` bytes.
    method Search(atLeast: nat, hashHead: nat, ghost known: set<nat>, ghost slow: bool)
      returns (len: nat, ghost c: Choice)
      requires m.Entered() && m.strstart + MIN_LOOKAHEAD <= m.window.Length && 2 <= atLeast < MAX_MATCH
      requires m.lookahead >= 3 && m.Candidate(hashHead, m.strstart) && m.strstart - hashHead <= m.sh.MaxDist()
      requires m.Newest(hashHead, m.strstart) && Before(known) && (slow ==> atLeast < maxLazy)
      modifies m`matchStart
      ensures 2 <= len <= m.lookahead && len <= MAX_MATCH
      ensures len > atLeast ==>
        && 0 < m.strstart - m.matchStart <= 32768 && 0 <= m.matchStart
        && Repeats(m.text, At(), m.strstart - m.matchStart, len) && c.dist == m.strstart - m.matchStart
      ensures Sound(c, known, slow, atLeast) && c.raw == len
    {
      hide Chains, HasTwo, Finder.Best, Repeats, Finder.Candidate, Pow2, Finder.First, Finder.Newest, Finder.Searched,
           Poised, Longest, Finder.Holds, Finder.Entered;
      ghost var visited;
      EnteredFacts();
      len, visited := m.LongestMatch(hashHead, atLeast);
      WindowSizes(m.sh);
      if len > atLeast { m.BestRepeats(m.matchStart, len); BestStart(len); }
      c := Made(m, known, visited, len, if len > atLeast then m.strstart - m.matchStart else 0);
      Moving(known);
      Entering(m, known);
      SomeVisited(visited, atLeast, len);
      if atLeast < m.lookahead { LongestFound(m, Tune(slow), known, visited, atLeast, len); }
    }

    lemma SomeVisited(visited: seq<nat>, best: nat, len: nat)
      requires m.Searched(visited, best, len)
      ensures visited != []
    {
    }

    lemma EnteredFacts()
      requires m.Entered() && m.lookahead >= 3
      ensures m.Sizes() && m.Holds() && m.hi == m.strstart && |m.text| == At() + m.lookahead
      ensures Chains(m.window[..], m.head[..], m.prev[..], m.ins, m.hi, m.strstart + m.lookahead, m.sh)
    {
      hide Chains, HasTwo;
    }

    lemma BestStart(len: nat)
      requires m.Best(m.matchStart, len)
      ensures m.matchStart > 0
    {
    }

    lemma Moving(known: set<nat>)
      requires Before(known)
      ensures forall p <- Moved(known, m.base) :: p < At()
    {
    }

    /** The symbols are those of the log: every position was searched as deflate_fast does, every match found taken. */
    ghost predicate Greedily(closing: bool)
      reads this`syms, this`blocks, this`log, m
    {
      var s := GreedyAfter(m.text, Tune(false), log);
      && GreedyOk(m.text, Tune(false), log) && s.toks == All() && s.n == At() && s.from == m.origin
      && Within(s.known, m) && (s.end != 0 ==> closing && s.end == |m.text|)
    }

    // fill_window in deflate_fast.
    method FastFill(flush: bool, ghost t0: seq<Byte>, ghost p0: nat)
      requires Upto(At()) && m.lookahead < MIN_LOOKAHEAD && Read(t0, p0) && Greedily(Closed(flush))
      modifies this`blockStart, m.window, m.head, m.prev, m`strstart, m`lookahead, m`matchStart, m`insert, m`insH,
               m`inpos, m`text, m`base, m`ins, m`hi
      ensures Upto(At()) && m.strstart + MIN_LOOKAHEAD <= m.window.Length && Read(t0, p0) && Greedily(Closed(flush))
      ensures m.lookahead >= MIN_LOOKAHEAD || m.inpos == |m.input|
      ensures m.inpos >= old(m.inpos) && m.lookahead - old(m.lookahead) == m.inpos - old(m.inpos)
    {
      hide Upto, Told, GreedyOk, GreedyAfter, Moved, Finder.Keeps, Flatten;
      ghost var text, ins0, base0 := m.text, m.ins, m.base;
      Fill(At(), t0, p0);
      RootedHere(At());
      GreedyMore(text, m.text, Tune(false), log);
      WithinSlide(GreedyAfter(m.text, Tune(false), log).known, m, ins0, base0);
    }

    lemma RootedHere(n: int)
      requires Upto(n)
      ensures m.Rooted() && m.sh.MaxDist() > 0 && At() + m.lookahead == |m.text|
    {
      hide Covers, BlocksOk, Told, Sized, MarksOf, Chains;
      WindowSizes(m.sh);
    }

    // Emit the match at strstart and pass over it.
    method FastMatch() returns (bflush: bool)
      requires m.Entered() && Delivered() && Stands(At()) && m.hashing
      requires m.strstart + MIN_LOOKAHEAD <= m.window.Length && 3 <= matchLength <= MAX_MATCH
        && matchLength <= m.lookahead
      requires 0 < m.strstart - m.matchStart <= 32768 && Repeats(m.text, At(), m.strstart - m.matchStart, matchLength)
        && Filling() && 0 <= m.matchStart
      modifies this`syms, this`matchLength, m`strstart, m`lookahead, m`insH, m`ins, m`hi, m.head, m.prev
      ensures Upto(At()) && (bflush <==> |syms| == litBufsize - 1) && matchLength < MIN_MATCH
      ensures m.strstart == old(m.strstart + matchLength) < m.window.Length
        && m.lookahead == old(m.lookahead - matchLength)
      ensures syms == old(syms) + [Pair(old(m.strstart - m.matchStart), old(matchLength))]
      ensures m.ins == old(m.ins) + if old(matchLength) <= maxLazy && m.lookahead >= MIN_MATCH
        then Strings(old(m.strstart) + 1, m.strstart) else {}
    {
      hide Covers, BlocksOk, Flatten, Repeats, Chains, HasTwo, Finder.Linked, Finder.Holds, Told, Sized, MarksOf,
           Strings;
      var dist := m.strstart - m.matchStart;
      ToldPair(blocks, syms, m.text, m.origin, At(), dist, matchLength);
      bflush := TallyDist(dist, matchLength - MIN_MATCH);
      if matchLength <= maxLazy && m.lookahead - matchLength >= MIN_MATCH {
        m.TakeInserting(matchLength);
      } else {
        m.TakeSkipping(matchLength);
      }
      matchLength := 0;
    }

    method FastLiteral() returns (bflush: bool)
      requires m.Entered() && Delivered() && Stands(At()) && m.lookahead > 0 && Filling()
      modifies this`syms, m`strstart, m`lookahead
      ensures Upto(At()) && m.strstart == old(m.strstart) + 1 && m.lookahead == old(m.lookahead) - 1
      ensures At() <= |m.text| && syms == old(syms) + [Literal(m.text[At() - 1])]
        && (bflush <==> |syms| == litBufsize - 1)
    {
      hide Covers, BlocksOk, Flatten, Chains, HasTwo, Told, Sized, MarksOf;
      ToldLit(blocks, syms, m.text, m.origin, At());
      bflush := TallyLit(m.window[m.strstart]);
      m.TakeOne();
    }

    // The choice fits the log.
    lemma FastMay(s: Greedy, c: Choice, known: set<nat>, closing: bool)
      requires s.n == At() && s.from == m.origin && (s.end != 0 ==> s.end == |m.text|)
      requires At() + m.lookahead == |m.text| && Sound(c, known, false, 2)
      requires forall p <- s.known :: m.origin < p && At() < p + m.sh.MaxDist() ==> p in Moved(known, m.base)
      ensures GreedyMay(m.text, Tune(false), s, Look(c))
    {
      hide Chosen, Moved;
    }

    // Strings inserted on the way.
    lemma FastKnown(s: Greedy, c: Choice, l: nat, str: nat, known: set<nat>)
      requires c.n == s.n == m.base + str && At() >= s.n && m.origin <= m.base && (m.base == m.origin || str > 0)
      requires s.from == m.origin
      requires forall p <- s.known :: m.origin < p && s.n < p + m.sh.MaxDist() ==> p in Moved(known, m.base)
      requires m.ins == known + (if c.look >= 3 && str > 0 then {str} else {})
        + (if 3 <= l <= maxLazy && c.look - l >= MIN_MATCH then Strings(str + 1, str + l) else {})
      requires l == Length(Tune(false), c, 2)
      ensures Within(GreedyNext(m.text, Tune(false), s, Look(c)).known, m)
    {
      hide Moved, Strings, Length, Within;
      var here := if c.look >= 3 && s.n > s.from then {s.n} else {};
      var rest := if 3 <= l <= maxLazy && c.look - l >= MIN_MATCH then Strings(s.n + 1, s.n + l) else {};
      if rest != {} { StringsMoved(str + 1, str + l, m.base, m.ins, rest); }
      WithinNext(s.known, m, known, s.n, here + rest);
      assert s.known + (here + rest) == s.known + here + rest;
      assert s.known + here + {} == s.known + here;
    }

    // Insert the string at strstart and look for a match.
    method FastFind(ghost closing: bool) returns (ghost s: Greedy, ghost known: set<nat>, ghost c: Choice)
      requires Upto(At()) && m.hashing && m.lookahead > 0 && m.strstart + MIN_LOOKAHEAD <= m.window.Length
      requires matchLength < MIN_MATCH && prevLength == 2 && Greedily(closing)
      modifies this`matchLength, this`log, m`matchStart, m`insH, m`ins, m`hi, m.head, m.prev
      ensures m.Entered() && Delivered() && Stands(At())
      ensures matchLength >= 3 ==>
        && matchLength <= m.lookahead && matchLength <= MAX_MATCH && c.dist == m.strstart - m.matchStart
        && 0 < c.dist <= 32768 && m.matchStart >= 0 && Repeats(m.text, At(), c.dist, matchLength)
      ensures s == GreedyAfter(m.text, Tune(false), old(log)) && log == old(log) + [Look(c)]
      ensures Sound(c, known, false, 2) && GreedyOk(m.text, Tune(false), log)
        && GreedyAfter(m.text, Tune(false), log) == GreedyNext(m.text, Tune(false), s, Look(c))
      ensures var l := Length(Tune(false), c, 2); if matchLength >= 3 then l == matchLength else l == 2
      ensures Before(known) && known == old(m.ins)
    {
      hide Covers, BlocksOk, Flatten, Repeats, Chains, HasTwo, Finder.Candidate, Finder.Linked, Finder.Entered,
           Finder.Holds, Finder.Primed, Told, Sized, MarksOf, Finder.Newest, Moved, Strings, Chosen, GreedyOk,
           GreedyAfter, GreedyMay, Finder.Full, GreedyNext, Within, Greedily;
      s := GreedyAfter(m.text, Tune(false), log);
      RootedHere(At());
      GreedyFacts(closing);
      var hashHead: nat;
      hashHead, known := Enter();
      if hashHead != 0 && m.strstart - hashHead <= m.sh.MaxDist() {
        matchLength, c := Search(prevLength, hashHead, known, false);
      } else {
        NoSearch(hashHead, known, false, 2);
        c := Made(m, known, [], 0, 0);
      }
      FastMay(s, c, known, closing);
      GreedyOne(m.text, Tune(false), log, Look(c));
      log := log + [Look(c)];
    }

    method FastStep(ghost closing: bool) returns (bflush: bool, ghost c: Choice)
      requires Upto(At()) && m.hashing && m.lookahead > 0 && m.strstart + MIN_LOOKAHEAD <= m.window.Length
      requires matchLength < MIN_MATCH && prevLength == 2 && Filling()
      requires Greedily(closing) && (closing || m.lookahead >= MIN_LOOKAHEAD)
      modifies this`syms, this`matchLength, this`log, m`strstart, m`lookahead, m`matchStart, m`insH, m`ins, m`hi,
               m.head, m.prev
      ensures Upto(At()) && m.lookahead < old(m.lookahead) && (bflush <==> |syms| == litBufsize - 1)
        && matchLength < MIN_MATCH && |syms| < litBufsize && m.strstart < m.window.Length && Greedily(closing)
      // a match is taken if there is one
      ensures c.n == old(At()) < |m.text| && c.look == old(m.lookahead) && Chosen(m.text, Tune(false), c, 2)
        && log == old(log) + [Look(c)]
      ensures
        var l := Length(Tune(false), c, 2);
        syms == old(syms) + [if l >= MIN_MATCH then Pair(c.dist, l) else Literal(m.text[c.n])]
    {
      hide Covers, BlocksOk, Flatten, Repeats, Chains, HasTwo, Finder.Linked, Finder.Entered, Length, Before,
           Finder.Holds, Finder.Primed, Told, Sized, MarksOf, Moved, Strings, Chosen, GreedyOk, GreedyAfter, Delivered,
           Upto;
      ghost var s, known, str := GreedyAfter(m.text, Tune(false), log), m.ins, m.strstart;
      RootedHere(At());
      s, known, c := FastFind(closing);
      BeforeHere(known);
      if matchLength >= MIN_MATCH {
        bflush := FastMatch();
      } else {
        bflush := FastLiteral();
      }
      FastKnown(s, c, Length(Tune(false), c, 2), str, known);
      assert Flatten(blocks) + (old(syms) + [syms[|syms| - 1]]) == old(All()) + [syms[|syms| - 1]];
    }

    lemma GreedyFacts(closing: bool)
      requires Greedily(closing)
      ensures GreedyOk(m.text, Tune(false), log)
      ensures
        var s := GreedyAfter(m.text, Tune(false), log);
        && s.n == At() && s.from == m.origin && s.toks == All() && (s.end != 0 ==> s.end == |m.text|)
        && forall p <- s.known :: m.origin < p && At() < p + m.sh.MaxDist() ==> p in Moved(m.ins, m.base)
    {
      hide GreedyOk, GreedyAfter;
    }

    lemma BeforeHere(known: set<nat>)
      requires Before(known)
      ensures m.ins == known + if m.lookahead >= 3 && m.strstart > 0 then {m.strstart} else {}
    {
    }

    /** deflate_fast: the symbols are those the search finds, each match as long as it can be found. */
    method DeflateFast(flush: bool, finish: bool) returns (state: BlockState)
      requires Upto(At()) && m.hashing && (finish ==> flush) && matchLength < MIN_MATCH && prevLength == 2 && Filling()
      requires Greedily(Closed(flush))
      modifies this`syms, this`blocks, this`blockStart, this`matchLength, this`cuts, this`log, m.window, m.head, m.prev,
               m`strstart, m`lookahead, m`matchStart, m`insert, m`insH, m`inpos, m`text, m`base, m`ins, m`hi
      ensures Upto(At()) && Read(old(m.text), old(m.inpos)) && matchLength < MIN_MATCH
      ensures Outcome(state, flush, finish, old(Todo()), old(|syms|))
        && (state.NeedMore? ==> m.lookahead < MIN_LOOKAHEAD) && (state.NeedMore? || state.OutFull? || LeftOver())
      ensures Greedily(state.OutFull? && Closed(flush)) && CutsGrow(old(cuts), Closed(flush) && !finish)
        && Continued(old(log), log, if Closed(flush) then |m.text| else -1)
    {
      hide Rolled, Handed, Upto, Greedily, Continued, Filling;
      ReadNothing(At());
      var stop, full := FastLoop(flush, old(m.text), old(m.inpos));
      ghost var before := log;
      if stop {
        ContinuedSelf(log);
        ContinuedOn(old(log), log, log, -1, if Closed(flush) then |m.text| else -1);
        return if full then OutFull else NeedMore;
      }
      state := FastEnd(finish, Closed(flush));
      ContinuedOn(old(log), before, log, -1, |m.text|);
    }

    // The loop of deflate_fast, until it has to stop for lack of input or of output space, or there is nothing left.
    method FastLoop(flush: bool, ghost t0: seq<Byte>, ghost p0: nat) returns (stop: bool, full: bool)
      requires Upto(At()) && m.hashing && matchLength < MIN_MATCH && prevLength == 2 && Filling() && Read(t0, p0)
      requires Greedily(Closed(flush))
      modifies this`syms, this`blocks, this`blockStart, this`matchLength, this`log, m.window, m.head, m.prev,
               m`strstart, m`lookahead, m`matchStart, m`insert, m`insH, m`inpos, m`text, m`base, m`ins, m`hi
      ensures Upto(At()) && Filling() && Read(t0, p0) && matchLength < MIN_MATCH
      ensures stop && full ==> Todo() < old(Todo())
      ensures stop && !full ==> !flush && m.inpos == |m.input| && m.lookahead < MIN_LOOKAHEAD
      ensures !stop ==> flush && m.inpos == |m.input| && m.lookahead == 0 && m.strstart < m.window.Length
      ensures Todo() < old(Todo()) || (Todo() == old(Todo()) && |syms| == old(|syms|))
      ensures Greedily(Closed(flush)) && Continued(old(log), log, -1)
    {
      hide Rolled, Handed, Upto, Greedily, Continued, Filling;
      ContinuedSelf(log);
      while true
        invariant Upto(At()) && Filling() && Read(t0, p0) && matchLength < MIN_MATCH
        invariant Greedily(Closed(flush)) && Continued(old(log), log, -1)
        invariant Todo() < old(Todo()) || (Todo() == old(Todo()) && |syms| == old(|syms|))
        decreases |m.input| - m.inpos + m.lookahead
      {
        if m.lookahead < MIN_LOOKAHEAD {
          FastFill(flush, t0, p0);
          if m.lookahead < MIN_LOOKAHEAD && !flush { return true, false; }
          if m.lookahead == 0 { return false, false; }
        } else {
          RoomAhead(At());
        }
        ghost var before := log;
        full := FastRound(Closed(flush));
        ContinuedOn(old(log), before, log, -1, -1);
        if full { return true, true; }
      }
    }

    // One symbol, and the block when it is full.
    method FastRound(ghost closing: bool) returns (full: bool)
      requires Upto(At()) && m.hashing && m.lookahead > 0 && m.strstart + MIN_LOOKAHEAD <= m.window.Length
      requires matchLength < MIN_MATCH && prevLength == 2 && Filling()
      requires Greedily(closing) && (closing || m.lookahead >= MIN_LOOKAHEAD)
      modifies this`syms, this`blocks, this`blockStart, this`matchLength, this`log, m`strstart, m`lookahead,
               m`matchStart, m`insH, m`ins, m`hi, m.head, m.prev
      ensures Upto(At()) && Filling() && matchLength < MIN_MATCH && m.lookahead < old(m.lookahead) && Greedily(closing)
        && Continued(old(log), log, -1)
    {
      hide Upto, Rolled, Handed, Chosen, GreedyOk, GreedyAfter, Flatten;
      ghost var c: Choice;
      var bflush;
      bflush, c := FastStep(closing);
      full := FlushFull(bflush);
    }

    method FastEnd(finish: bool, ghost closing: bool) returns (state: BlockState)
      requires Upto(At()) && m.lookahead == 0 && m.strstart < m.window.Length && Filling() && Greedily(closing)
      modifies this`syms, this`blocks, this`blockStart, this`cuts, this`log, m`insert
      ensures Upto(At()) && syms == [] && Ended(state, finish) && (state.OutFull? ==> old(syms) != [])
      ensures LeftOver() && Greedily(false) && Greedily(closing) && CutsGrow(old(cuts), !finish)
        && Continued(old(log), log, |m.text|)
    {
      hide Upto, Rolled, GreedyOk, GreedyAfter, GreedyMay, Flatten;
      AtEnd();
      Leave();
      InsideWindow(At());
      GreedyClose(closing);
      log := log + [Close(At())];
      state := Finish(finish);
    }

    lemma GreedyClose(closing: bool)
      requires Greedily(closing) && At() == |m.text|
      ensures GreedyOk(m.text, Tune(false), log + [Close(At())])
      ensures GreedyAfter(m.text, Tune(false), log + [Close(At())]) == GreedyAfter(m.text, Tune(false), log).(end := 0)
    {
      hide GreedyOk, GreedyAfter;
      GreedyOne(m.text, Tune(false), log, Close(At()));
    }

    // The last strings, which are not complete, are to be inserted when there is more text.
    ghost predicate LeftOver()
      reads m`strstart, m`insert
    {
      m.insert == if m.strstart < MIN_MATCH - 1 then m.strstart else MIN_MATCH - 1
    }

    method Leave()
      requires Upto(At()) && m.lookahead == 0
      modifies m`insert
      ensures Upto(At()) && (old(m.Full()) ==> m.Full() && m.Caught()) && LeftOver()
    {
      hide Covers, BlocksOk, Finder.Valid, Told, Sized, MarksOf, Finder.Full, Finder.Caught;
      m.LeaveStrings();
    }

    // ---- deflate_slow ----

    // Bytes for which symbols have been decided; the one before strstart may still be open.
    ghost function Settled(): int
      reads this`matchAvailable, m`base, m`strstart
    {
      m.base + m.strstart - (if matchAvailable then 1 else 0)
    }

    // A match of at least three bytes is pending only for the open byte.
    ghost predicate Pending()
      reads this`matchAvailable, this`matchLength, m`text, m`base, m`strstart, m`lookahead, m`matchStart, m`origin
    {
      && (matchAvailable ==> m.strstart > 0) && 2 <= matchLength <= MAX_MATCH
      && (matchLength >= MIN_MATCH ==>
          && matchAvailable && matchLength <= m.lookahead + 1 && 0 < m.strstart - 1 - m.matchStart <= 32768
          && m.base + m.matchStart >= m.origin
          && Repeats(m.text, m.base + m.strstart - 1, m.strstart - 1 - m.matchStart, matchLength))
    }

    /** The symbols are those of the log: every position was searched as deflate_slow does, and what was found gave way
        to a longer match at the next position or was taken. */
    ghost predicate Lazily(closing: bool)
      reads this`syms, this`blocks, this`matchAvailable, this`matchLength, this`log, m
    {
      var s := LazyAfter(m.text, Tune(true), log);
      && LazyOk(m.text, Tune(true), log) && s.toks == All() && s.n == At() && s.open == matchAvailable
      && s.len == matchLength && (matchLength >= MIN_MATCH ==> s.dist == m.strstart - 1 - m.matchStart)
      && s.from == m.origin && (s.end != 0 ==> closing && s.end == |m.text|)
    }

    // No string has been left out, or none will be once the input is used up.
    ghost predicate Whole(closing: bool)
      reads m
    {
      m.Full() && (m.Caught() || closing)
    }

    // fill_window in deflate_slow.
    method SlowFill(flush: bool, ghost t0: seq<Byte>, ghost p0: nat)
      requires Upto(Settled()) && Pending() && m.lookahead < MIN_LOOKAHEAD && Read(t0, p0)
      requires Lazily(Closed(flush)) && Whole(Closed(flush))
      modifies this`blockStart, m.window, m.head, m.prev, m`strstart, m`lookahead, m`matchStart, m`insert, m`insH,
               m`inpos, m`text, m`base, m`ins, m`hi
      ensures Upto(Settled()) && Pending() && m.strstart + MIN_LOOKAHEAD <= m.window.Length && Read(t0, p0)
      ensures m.lookahead >= MIN_LOOKAHEAD || m.inpos == |m.input|
      ensures m.inpos >= old(m.inpos) && m.lookahead - old(m.lookahead) == m.inpos - old(m.inpos)
      ensures Lazily(Closed(flush)) && Whole(Closed(flush))
    {
      hide Upto, Repeats, Told, LazyOk, LazyAfter, Finder.Keeps, Flatten, Finder.Full, Finder.Caught;
      ghost var text := m.text;
      Fill(Settled(), t0, p0);
      LazyMore(text, m.text, Tune(true), log);
      if matchLength >= MIN_MATCH {
        RepeatsMore(text, m.text, m.base + m.strstart - 1, m.strstart - 1 - m.matchStart, matchLength);
      }
    }

    // Look for a match at strstart that beats the pending one.
    method LazySearch(hashHead: nat, ghost known: set<nat>) returns (ghost c: Choice)
      requires m.Entered() && m.strstart + MIN_LOOKAHEAD <= m.window.Length && 2 <= prevLength <= MAX_MATCH
        && maxLazy <= MAX_MATCH && m.lookahead > 0 && Before(known)
      requires hashHead == 0 || (m.lookahead >= 3 && m.Candidate(hashHead, m.strstart))
      requires (m.lookahead >= 3 ==> m.Newest(hashHead, m.strstart)) && (m.lookahead < 3 ==> hashHead == 0)
      modifies this`matchLength, m`matchStart
      ensures 2 <= matchLength <= MAX_MATCH && (matchLength > 2 ==> matchLength <= m.lookahead)
      ensures matchLength > prevLength ==>
        && 0 < m.strstart - m.matchStart <= 32768 && 0 <= m.matchStart && c.dist == m.strstart - m.matchStart
        && Repeats(m.text, At(), m.strstart - m.matchStart, matchLength)
      // the match chosen, or none better than the pending one
      ensures Sound(c, known, true, prevLength)
      ensures
        var l := Length(Tune(true), c, prevLength);
        matchLength == l || (matchLength <= prevLength && 3 <= prevLength && l <= prevLength)
    {
      hide Finder.Entered, Finder.Candidate, Repeats, Delivered, Chosen, Finder.Newest, Moved, Before;
      matchLength := MIN_MATCH - 1;
      if hashHead != 0 && prevLength < maxLazy && m.strstart - hashHead <= m.sh.MaxDist() {
        matchLength, c := Search(prevLength, hashHead, known, true);
        if matchLength <= 5 && (filtered || (matchLength == MIN_MATCH && m.strstart - m.matchStart > TOO_FAR)) {
          matchLength := MIN_MATCH - 1;
        }
      } else {
        NoSearch(hashHead, known, true, prevLength);
        c := Made(m, known, [], 0, 0);
      }
    }

    // Insert the string at strstart and look for a match there.
    method SlowFind(ghost closing: bool) returns (ghost s: Lazy, ghost c: Choice, prevMatch: int)
      requires Upto(Settled()) && Pending() && m.hashing && m.lookahead > 0
        && m.strstart + MIN_LOOKAHEAD <= m.window.Length
      requires Lazily(closing) && m.Full()
      modifies this`matchLength, this`prevLength, this`log, m`matchStart, m`insH, m`ins, m`hi, m.head, m.prev
      ensures m.Entered() && Delivered() && Stands(Settled()) && m.EnteredFull()
      ensures prevLength == old(matchLength) && prevMatch == old(m.matchStart)
      ensures 2 <= matchLength <= MAX_MATCH && (matchLength > 2 ==> matchLength <= m.lookahead)
      ensures matchLength > prevLength ==>
        && 0 < m.strstart - m.matchStart <= 32768 && 0 <= m.matchStart && c.dist == m.strstart - m.matchStart
        && Repeats(m.text, At(), m.strstart - m.matchStart, matchLength)
      ensures s == LazyAfter(m.text, Tune(true), old(log)) && log == old(log) + [Look(c)]
      ensures c.n == At() && c.look == m.lookahead && Chosen(m.text, Tune(true), c, prevLength)
      ensures c.n + c.look == |m.text| && m.origin <= m.base
      ensures LazyOk(m.text, Tune(true), log)
        && LazyAfter(m.text, Tune(true), log) == LazyNext(m.text, Tune(true), s, Look(c))
      ensures
        var l := Length(Tune(true), c, prevLength);
        matchLength == l || (matchLength <= prevLength && 3 <= prevLength && l <= prevLength)
    {
      hide Covers, BlocksOk, Flatten, Repeats, Finder.Valid, Finder.Entered, Finder.Candidate, Finder.Newest, Told,
           Sized, MarksOf, Moved, Chosen, LazyOk, LazyAfter, LazyMay, LazyNext, Finder.Full, Finder.EnteredFull, Before,
           Length, Lazily;
      s := LazyAfter(m.text, Tune(true), log);
      SlowFacts(closing);
      var hashHead: nat;
      ghost var known;
      hashHead, known := Enter();
      prevLength := matchLength;
      prevMatch := m.matchStart;
      c := LazySearch(hashHead, known);
      SlowMay(s, c, known);
      LazyOne(m.text, Tune(true), log, Look(c));
      log := log + [Look(c)];
    }

    lemma SlowFacts(closing: bool)
      requires Upto(Settled()) && Lazily(closing) && m.Full()
      ensures m.Rooted() && At() + m.lookahead == |m.text| && LazyOk(m.text, Tune(true), log)
      ensures
        var s := LazyAfter(m.text, Tune(true), log);
        && s.n == At() && s.from == m.origin && s.toks == All() && s.len == matchLength && s.open == matchAvailable
        && (s.end != 0 ==> s.end == |m.text|)
      ensures m.lookahead >= 3 ==>
        forall p: nat :: m.origin < p < At() < p + m.sh.MaxDist() ==> p in Moved(m.ins, m.base)
    {
      hide LazyOk, LazyAfter, Moved, Told, Covers, Sized, MarksOf, BlocksOk, Chains, Finder.Full;
      if m.lookahead >= 3 { FullReach(m); }
    }

    // The choice fits the log.
    lemma SlowMay(s: Lazy, c: Choice, known: set<nat>)
      requires s.n == At() && s.from == m.origin && s.len == prevLength && (s.end != 0 ==> s.end == |m.text|)
      requires At() + m.lookahead == |m.text| && Sound(c, known, true, prevLength)
      requires m.lookahead >= 3 ==>
        forall p: nat :: m.origin < p < At() < p + m.sh.MaxDist() ==> p in Moved(known, m.base)
      ensures LazyMay(m.text, Tune(true), s, Look(c))
    {
      hide Chosen, Moved;
    }

    // The pending match was not beaten: emit it.
    method SlowMatch(prevMatch: int) returns (bflush: bool)
      requires m.Entered() && Delivered() && m.strstart > 0 && Stands(At() - 1) && matchAvailable
        && m.hashing
      requires 3 <= prevLength <= MAX_MATCH && prevLength <= m.lookahead + 1 && 0 < m.strstart - 1 - prevMatch <= 32768
      requires Repeats(m.text, At() - 1, m.strstart - 1 - prevMatch, prevLength) && Filling()
      requires m.strstart + MAX_MATCH < m.window.Length && m.base + prevMatch >= m.origin && m.EnteredFull()
      modifies this`syms, this`blocks, this`blockStart, this`matchLength, this`prevLength, this`matchAvailable,
               m`strstart, m`lookahead, m`insH, m`ins, m`hi, m.head, m.prev
      ensures Upto(Settled()) && Pending() && m.lookahead == old(m.lookahead - prevLength + 1) && Filling() && m.Full()
      ensures At() == old(At() + prevLength - 1) && matchLength == 2 && !matchAvailable
      ensures All() == old(All()) + [Pair(old(m.strstart) - 1 - prevMatch, old(prevLength))]
    {
      hide Covers, BlocksOk, Flatten, Repeats, Finder.Entered, Finder.Valid, Told, Sized, MarksOf, Finder.Full,
           Finder.EnteredFull;
      var dist := m.strstart - 1 - prevMatch;
      ToldPair(blocks, syms, m.text, m.origin, At() - 1, dist, prevLength);
      assert Flatten(blocks) + (syms + [Pair(dist, prevLength)]) == All() + [Pair(dist, prevLength)];
      bflush := TallyDist(dist, prevLength - MIN_MATCH);
      m.TakeRest(prevLength - 1);
      prevLength, matchAvailable, matchLength := 0, false, MIN_MATCH - 1;
      InsideWindow(At());
      if bflush { FlushBlock(false); }
    }

    // The open byte becomes a literal.
    method SlowLiteral() returns (bflush: bool)
      requires m.Entered() && Delivered() && m.strstart > 0 && Stands(At() - 1) && m.lookahead > 0
        && Filling() && m.EnteredFull()
      modifies this`syms, this`blocks, this`blockStart, m`strstart, m`lookahead
      ensures Filling() && m.strstart == old(m.strstart) + 1 && m.lookahead == old(m.lookahead) - 1
      ensures m.Valid() && Delivered() && Stands(At() - 1) && m.Full()
      ensures old(At()) <= |m.text| && All() == old(All()) + [Literal(m.text[old(At()) - 1])]
    {
      hide Covers, BlocksOk, Flatten, Chains, HasTwo, Told, Sized, MarksOf, Finder.Full, Finder.EnteredFull;
      ToldLit(blocks, syms, m.text, m.origin, At() - 1);
      ghost var c := m.text[At() - 1];
      assert Flatten(blocks) + (syms + [Literal(c)]) == All() + [Literal(c)];
      assert m.window[m.strstart - 1] == c;
      bflush := TallyLit(m.window[m.strstart - 1]);
      WindowSizes(m.sh);
      if bflush { FlushBlockOnly(false); }
      m.TakeOne();
    }

    // Wait for the next step to decide.
    method SlowWait()
      requires m.Entered() && Delivered() && m.lookahead > 0 && m.EnteredFull()
      modifies m`strstart, m`lookahead
      ensures m.Valid() && Delivered() && m.Full()
      ensures m.strstart == old(m.strstart) + 1 && m.lookahead == old(m.lookahead) - 1
    {
      hide Covers, BlocksOk, Flatten, Finder.Entered, Finder.Valid, Sized, MarksOf, Finder.Full, Finder.EnteredFull;
      m.TakeOne();
    }

    /** One round: the pending match goes out if it is not beaten, otherwise the open byte does, or nothing. */
    method SlowStep(ghost closing: bool) returns (bflush: bool, ghost c: Choice)
      requires Upto(Settled()) && Pending() && m.hashing && m.lookahead > 0
        && m.strstart + MIN_LOOKAHEAD <= m.window.Length && Filling()
      requires Lazily(closing) && m.Full() && (closing || m.lookahead >= MIN_LOOKAHEAD)
      modifies this`syms, this`blocks, this`blockStart, this`matchLength, this`prevLength, this`matchAvailable,
               this`log, m`strstart, m`lookahead, m`matchStart, m`insH, m`ins, m`hi, m.head, m.prev
      ensures Upto(Settled()) && Pending() && m.lookahead < old(m.lookahead) && Filling() && Lazily(closing) && m.Full()
      ensures closing || m.Caught()
      ensures c.n == old(At()) && c.look == old(m.lookahead) && Chosen(m.text, Tune(true), c, old(matchLength))
        && log == old(log) + [Look(c)]
      ensures c.n <= |m.text| && All() == old(All()) +
        if old(matchLength) >= MIN_MATCH && Length(Tune(true), c, old(matchLength)) <= old(matchLength)
        then [Pair(old(m.strstart - 1 - m.matchStart), old(matchLength))]
        else if old(matchAvailable) then [Literal(m.text[c.n - 1])] else []
    {
      hide Covers, BlocksOk, Flatten, Repeats, Finder.Valid, Finder.Entered, Told, Sized, MarksOf, Chosen, LazyOk,
           LazyAfter, Length, Finder.Full, Finder.EnteredFull, Finder.Caught, Delivered;
      var prevMatch;
      ghost var s;
      s, c, prevMatch := SlowFind(closing);
      if prevLength >= MIN_MATCH && matchLength <= prevLength {
        bflush := SlowMatch(prevMatch);
      } else if matchAvailable {
        bflush := SlowLiteral();
      } else {
        bflush, matchAvailable := false, true;
        SlowWait();
      }
      if !closing { m.FullCaught(); }
    }

    /** deflate_slow: the symbols are those of lazy evaluation, each match as long as it can be found. */
    method DeflateSlow(flush: bool, finish: bool) returns (state: BlockState)
      requires Upto(Settled()) && Pending() && m.hashing && (finish ==> flush) && Filling()
      requires Lazily(Closed(flush)) && Whole(Closed(flush))
      modifies this`syms, this`blocks, this`blockStart, this`matchLength, this`prevLength, this`matchAvailable,
               this`cuts, this`log, m.window, m.head, m.prev, m`strstart, m`lookahead, m`matchStart, m`insert, m`insH,
               m`inpos, m`text, m`base, m`ins, m`hi
      ensures Upto(Settled()) && Pending() && Read(old(m.text), old(m.inpos))
      ensures Outcome(state, flush, finish, old(Todo()), old(|syms| + if matchAvailable then 1 else 0))
      ensures if state.NeedMore? then m.lookahead < MIN_LOOKAHEAD else !state.OutFull? || Todo() == old(Todo()) ==>
        !matchAvailable
      ensures CutsGrow(old(cuts), Closed(flush) && !finish) && m.Full()
        && Continued(old(log), log, if Closed(flush) then |m.text| else -1)
      ensures if state.OutFull? then Lazily(Closed(flush)) && Whole(Closed(flush)) else Lazily(false) && m.Caught()
    {
      hide Rolled, Handed, Upto, Pending, Lazily, Finder.Full, Finder.Caught;
      ReadNothing(Settled());
      var stop, full := SlowLoop(flush, old(m.text), old(m.inpos));
      if stop { return if full then OutFull else NeedMore; }
      state := SlowEnd(finish, Closed(flush));
    }

    // The loop of deflate_slow, until it has to stop for lack of input or of output space, or there is nothing left.
    method SlowLoop(flush: bool, ghost t0: seq<Byte>, ghost p0: nat) returns (stop: bool, full: bool)
      requires Upto(Settled()) && Pending() && m.hashing && Filling() && Read(t0, p0)
      requires Lazily(Closed(flush)) && Whole(Closed(flush))
      modifies this`syms, this`blocks, this`blockStart, this`matchLength, this`prevLength, this`matchAvailable,
               this`log, m.window, m.head, m.prev, m`strstart, m`lookahead, m`matchStart, m`insert, m`insH, m`inpos,
               m`text, m`base, m`ins, m`hi
      ensures Upto(Settled()) && Pending() && Filling() && Read(t0, p0)
      ensures stop && full ==> Todo() < old(Todo())
      ensures stop && !full ==> !flush && m.inpos == |m.input| && m.lookahead < MIN_LOOKAHEAD
      ensures !stop ==> flush && m.inpos == |m.input| && m.lookahead == 0 && m.strstart < m.window.Length
      ensures Todo() < old(Todo())
        || (Todo() == old(Todo()) && |syms| == old(|syms|) && matchAvailable == old(matchAvailable))
      ensures Lazily(Closed(flush)) && Whole(Closed(flush)) && Continued(old(log), log, -1)
    {
      hide Rolled, Handed, Upto, Pending, Lazily, Finder.Full, Finder.Caught, Continued, Filling;
      ContinuedSelf(log);
      while true
        invariant Upto(Settled()) && Pending() && Filling() && Read(t0, p0)
        invariant Lazily(Closed(flush)) && Whole(Closed(flush)) && Continued(old(log), log, -1)
        invariant Todo() < old(Todo())
          || (Todo() == old(Todo()) && |syms| == old(|syms|) && matchAvailable == old(matchAvailable))
        decreases |m.input| - m.inpos + m.lookahead
      {
        if m.lookahead < MIN_LOOKAHEAD {
          SlowFill(flush, t0, p0);
          if m.lookahead < MIN_LOOKAHEAD && !flush { return true, false; }
          if m.lookahead == 0 { return false, false; }
        } else {
          RoomAhead(Settled());
        }
        ghost var before := log;
        full := SlowRound(Closed(flush));
        ContinuedOn(old(log), before, log, -1, -1);
        if full { return true, true; }
      }
    }

    method SlowRound(ghost closing: bool) returns (full: bool)
      requires Upto(Settled()) && Pending() && m.hashing && m.lookahead > 0
        && m.strstart + MIN_LOOKAHEAD <= m.window.Length && Filling()
      requires Lazily(closing) && m.Full() && (closing || m.lookahead >= MIN_LOOKAHEAD)
      modifies this`syms, this`blocks, this`blockStart, this`matchLength, this`prevLength, this`matchAvailable,
               this`log, m`strstart, m`lookahead, m`matchStart, m`insH, m`ins, m`hi, m.head, m.prev
      ensures Upto(Settled()) && Pending() && m.lookahead < old(m.lookahead) && Filling() && Lazily(closing)
        && Whole(closing) && Continued(old(log), log, -1)
    {
      hide Rolled, Handed, Upto, Pending, Lazily, Finder.Full, Finder.Caught, Chosen, Length, Flatten;
      var bflush;
      ghost var c: Choice;
      bflush, c := SlowStep(closing);
      full := bflush && outFull(|blocks|);
    }

    method SlowEnd(finish: bool, ghost closing: bool) returns (state: BlockState)
      requires Upto(Settled()) && Pending() && m.lookahead == 0 && m.strstart < m.window.Length && Filling()
      requires Lazily(closing) && m.Full()
      modifies this`syms, this`blocks, this`blockStart, this`matchAvailable, this`cuts, this`log, m`insert
      ensures Upto(Settled()) && Pending() && !matchAvailable && syms == [] && Ended(state, finish)
      ensures state.OutFull? ==> old(|syms| + if matchAvailable then 1 else 0) > 0
      ensures LeftOver() && CutsGrow(old(cuts), !finish) && Lazily(false) && Lazily(closing) && m.Full() && m.Caught()
        && Continued(old(log), log, |m.text|)
    {
      hide Upto, Rolled, Finder.Full, Finder.Caught, LazyOk, LazyAfter, Flatten, Pending;
      LastLiteral(closing);
      AtEnd();
      Leave();
      PendingNone();
      InsideWindow(At());
      state := Finish(finish);
    }

    lemma PendingNone()
      requires matchLength == 2 && !matchAvailable
      ensures Pending()
    {
    }

    // The byte still open at the end of the input becomes a literal.
    method LastLiteral(ghost closing: bool)
      requires Upto(Settled()) && Pending() && m.lookahead == 0 && Filling() && Lazily(closing)
      modifies this`syms, this`matchAvailable, this`log
      ensures |syms| == old(|syms| + if matchAvailable then 1 else 0) < litBufsize && Upto(At()) && Settled() == At()
        && matchLength == 2 && !matchAvailable
      ensures At() <= |m.text| && Lazily(false) && log == old(log) + [Close(At())]
        && All() == old(All()) + if old(matchAvailable) then [Literal(m.text[At() - 1])] else []
    {
      hide Covers, BlocksOk, Flatten, Repeats, Chains, HasTwo, Finder.Linked, Told, Sized, MarksOf, LazyOk, LazyAfter;
      LazyOne(m.text, Tune(true), log, Close(At()));
      log := log + [Close(At())];
      if matchAvailable {
        ToldLit(blocks, syms, m.text, m.origin, At() - 1);
        ghost var c := m.text[At() - 1];
        assert Flatten(blocks) + (syms + [Literal(c)]) == All() + [Literal(c)];
        assert m.window[m.strstart - 1] == c;
        var bflush := TallyLit(m.window[m.strstart - 1]);
        matchAvailable := false;
      }
    }
  }
}
