/** From the input of deflate() back to the output of inflate(). */
module RoundTrip {
  import opened Bits
  import opened BitStream
  import opened Rfc1951
  import opened Lz77
  import opened Block
  import opened FlushBlock
  import opened HashChains
  import opened MatchFinder
  import opened BlockList
  import opened Deflate
  import opened BlockStream
  import opened MatchChoice
  import RunCoding
  import opened Compress
  import opened InflateState
  import opened InflateModes
  import opened InflateCall
  import opened InflateCuts

  // ---- deflate ----

  datatype Strategy = Huff | Rle | Fast | Slow

  // Parameters: the configuration table, the window and the symbol buffer.
  datatype Setup = Setup(strategy: Strategy, sh: Shape, good: nat, nice: nat, chain: nat, lazy: nat, filtered: bool,
                         bufsize: nat, fixedOnly: bool)
  {
    ghost predicate Valid() {
      sh.Valid() && chain >= 4 && nice <= MAX_MATCH && lazy <= MAX_MATCH && 3 <= bufsize <= 0x8000
    }

    function Tune(): Tuning {
      Tuning(sh, good, nice, chain, lazy, filtered, strategy.Slow?)
    }
  }

  // The symbols are those the strategy chooses.
  ghost predicate Symbols(d: Deflater, strategy: Strategy, closing: bool)
    reads d, d.m
  {
    match strategy
    case Huff => d.Plain()
    case Rle => true
    case Fast => d.Greedily(closing)
    case Slow => d.Lazily(closing)
  }

  // The state a strategy leaves, between calls or, if the input is used up in a call that flushes, before it goes on.
  ghost predicate During(d: Deflater, strategy: Strategy, closing: bool)
    reads d, d.m, d.m.window, d.m.head, d.m.prev
  {
    && d.Upto(d.Settled()) && d.Filling() && Symbols(d, strategy, closing)
    && match strategy
       case Huff => !d.m.hashing && !d.matchAvailable && d.m.strstart - d.blockStart == |d.syms|
       case Rle => !d.m.hashing && !d.matchAvailable
       case Fast => d.m.hashing && !d.matchAvailable && d.matchLength < MIN_MATCH && d.prevLength == 2
       case Slow => d.m.hashing && d.Pending() && d.Whole(closing)
  }

  ghost predicate Between(d: Deflater, strategy: Strategy)
    reads d, d.m, d.m.window, d.m.head, d.m.prev
  {
    During(d, strategy, false)
  }

  lemma Reclosed(d: Deflater, strategy: Strategy, closing: bool)
    requires During(d, strategy, false)
    ensures During(d, strategy, closing)
  {
    hide LazyOk, LazyAfter, GreedyOk, GreedyAfter, Deflater.Upto, Flatten;
  }

  // The blocks are complete and stand for the text, and those after a full flush need nothing before it.
  ghost predicate Finished(blocks: seq<Blk>, text: seq<Byte>) {
    && BlocksOk(blocks) && Pieces(blocks) && !Open(blocks) && AllFit(Flatten(blocks), [])
    && Expand(Flatten(blocks), []) == text && Restartable(blocks)
  }

  ghost predicate Restartable(blocks: seq<Blk>) {
    forall j :: 0 <= j < |blocks| && blocks[j].mark == FullMark ==> AllFit(Flatten(blocks[j + 1..]), [])
  }

  // The value of the flush parameter, and its rank among the others.
  datatype Flush = NO_FLUSH | PARTIAL_FLUSH | SYNC_FLUSH | FULL_FLUSH | FINISH | BLOCK {
    function Rank(): nat {
      match this
      case NO_FLUSH => 0 case BLOCK => 1 case PARTIAL_FLUSH => 2
      case SYNC_FLUSH => 4 case FULL_FLUSH => 6 case FINISH => 8
    }

    // The empty block it asks for.
    function Mark(): Mark {
      match this
      case PARTIAL_FLUSH => AlignMark case SYNC_FLUSH => SyncMark case FULL_FLUSH => FullMark
      case _ => NoMark
    }
  }

  // Where a call that flushes may end a block.
  function CutAt(flush: Flush, n: nat): set<nat> {
    if flush == NO_FLUSH || flush == FINISH then {} else {n}
  }

  function MarkAt(flush: Flush, n: nat): seq<(Mark, nat)> {
    if flush.Mark() == NoMark then [] else [(flush.Mark(), n)]
  }

  // Symbols a strategy may still hand over: those in the buffer, and the byte that may be open.
  ghost function Waiting(d: Deflater): nat
    reads d`syms, d`matchAvailable
  {
    |d.syms| + if d.matchAvailable then 1 else 0
  }

  // One call of the strategy.
  method Strategize(d: Deflater, strategy: Strategy, flush: bool, finish: bool, ghost rolled: bool)
    returns (state: BlockState)
    requires During(d, strategy, d.Closed(flush)) && (finish ==> flush)
    requires rolled ==> strategy.Rle? && (flush ==> finish) && d.Rolled(d.Closed(flush))
    modifies d`syms, d`blocks, d`blockStart, d`matchLength, d`prevLength, d`matchAvailable, d`cuts, d`log, d.m.window,
             d.m.head, d.m.prev, d.m`strstart, d.m`lookahead, d.m`matchStart, d.m`insert, d.m`insH, d.m`inpos,
             d.m`text, d.m`base, d.m`ins, d.m`hi
    ensures d.Read(old(d.m.text), old(d.m.inpos)) && d.Outcome(state, flush, finish, old(d.Todo()), old(Waiting(d)))
    ensures state.NeedMore? || state.OutFull? || state.BlockDone? ==>
      During(d, strategy, state.OutFull? && d.Closed(flush))
    ensures !state.NeedMore? && !state.OutFull? ==>
      d.Upto(d.At()) && !d.matchAvailable && Symbols(d, strategy, false)
    ensures state.OutFull? ==> d.Todo() < old(d.Todo()) || (d.Todo() == old(d.Todo()) && Waiting(d) < old(Waiting(d)))
    ensures rolled ==> d.Rolled(d.Closed(flush))
    ensures d.CutsGrow(old(d.cuts), d.Closed(flush) && !finish)
      && Continued(old(d.log), d.log, if d.Closed(flush) then |d.m.text| else -1)
  {
    hide Deflater.Upto, Deflater.Pending, Deflater.Rolled, Deflater.Plain, Deflater.Greedily, Deflater.Lazily,
         Finder.Full, Finder.Caught;
    match strategy {
      case Huff => state := d.DeflateHuff(flush, finish);
      case Rle => state := d.DeflateRle(flush, finish, rolled);
      case Fast => state := d.DeflateFast(flush, finish);
      case Slow => state := d.DeflateSlow(flush, finish);
    }
  }

  // What calls with a flush parameter add: the mark asked for, and where a block may have ended early.
  ghost predicate Asked(d: Deflater, flush: Flush, marks: seq<(Mark, nat)>, cuts: set<nat>)
    reads d`blocks, d`marks, d`cuts, d.m`text
  {
    && d.marks == marks + MarkAt(flush, |d.m.text|) && (d.cuts == cuts || d.cuts == cuts + CutAt(flush, |d.m.text|))
    && (flush.Mark() != NoMark ==> d.blocks != [] && d.blocks[|d.blocks| - 1] == EmptyBlock(flush.Mark()))
  }

  // A call adds choices to the log, the end of the text if it flushes, and the end of the history at a full flush.
  predicate Adds(before: seq<Event>, after: seq<Event>, flush: Flush, n: nat) {
    var end := if flush == NO_FLUSH then -1 else n;
    if flush == FULL_FLUSH then
      after != [] && after[|after| - 1] == Forget(n) && Continued(before, after[..|after| - 1], end)
    else Continued(before, after, end)
  }

  /** Calls of deflate() until the piece is taken in: again for as long as the output is full. A flush leaves its mark,
      and after a full one no string is on a chain. */
  method Call(d: Deflater, strategy: Strategy, chunk: seq<Byte>, flush: Flush, ghost rolled: bool)
    requires Between(d, strategy)
    requires rolled ==> strategy.Rle? && flush in {NO_FLUSH, FINISH} && d.Rolled(false)
    modifies d, d.m, d.m.window, d.m.head, d.m.prev
    ensures d.m.text == old(d.m.text) + chunk && Symbols(d, strategy, false)
    ensures flush != FINISH ==> Between(d, strategy)
    ensures flush == FINISH ==> Finished(d.blocks, d.m.text) && d.syms == [] && d.Delivered()
    ensures rolled ==> d.Rolled(flush == FINISH)
    ensures Asked(d, flush, old(d.marks), old(d.cuts)) && Adds(old(d.log), d.log, flush, |d.m.text|)
    ensures if flush == FULL_FLUSH then d.m.ins == {} && d.m.origin == |d.m.text| else d.m.origin == old(d.m.origin)
  {
    hide Deflater.Upto, Deflater.Pending, Deflater.Filling, During, Deflater.Rolled, Symbols, Continued,
         Deflater.Delivered, Finished;
    Supplied(d, strategy, chunk);
    var state := Strategized(d, strategy, flush, rolled);
    if state.BlockDone? {
      Flushed(d, strategy, flush);
    } else if flush == FINISH {
      AllDelivered(d);
    }
    if flush != FINISH { BetweenSymbols(d, strategy); }
    assert flush.Mark() == NoMark ==> d.marks + [] == d.marks;
  }

  lemma BetweenSymbols(d: Deflater, strategy: Strategy)
    requires Between(d, strategy)
    ensures Symbols(d, strategy, false)
  {
    hide Symbols;
  }

  // The calls of the strategy for one piece.
  method Strategized(d: Deflater, strategy: Strategy, flush: Flush, ghost rolled: bool) returns (state: BlockState)
    requires Between(d, strategy) && d.m.inpos == 0
    requires rolled ==> strategy.Rle? && flush in {NO_FLUSH, FINISH} && d.Rolled(false)
    modifies d`syms, d`blocks, d`blockStart, d`matchLength, d`prevLength, d`matchAvailable, d`cuts, d`log, d.m.window,
             d.m.head, d.m.prev, d.m`strstart, d.m`lookahead, d.m`matchStart, d.m`insert, d.m`insH, d.m`inpos,
             d.m`text, d.m`base, d.m`ins, d.m`hi
    ensures d.m.text == old(d.m.text) + d.m.input && d.Outcome(state, flush != NO_FLUSH, flush == FINISH, 0, 0)
      && !state.OutFull?
    ensures state.NeedMore? || state.BlockDone? ==> Between(d, strategy)
    ensures !state.NeedMore? ==> d.Upto(d.At()) && !d.matchAvailable && Symbols(d, strategy, false)
    ensures rolled ==> d.Rolled(flush == FINISH)
    ensures d.CutsGrow(old(d.cuts), flush != NO_FLUSH && flush != FINISH)
    ensures Continued(old(d.log), d.log, if flush != NO_FLUSH then |d.m.text| else -1)
  {
    hide Deflater.Upto, Deflater.Pending, Deflater.Filling, During, Deflater.Rolled, Symbols, Continued;
    ghost var t0, cuts0, log0 := d.m.text, d.cuts, d.log;
    var some := flush != NO_FLUSH;
    assert t0 + d.m.input[0..0] == t0;
    Reclosed(d, strategy, d.Closed(some));
    if rolled { Reopened(d, some); }
    ContinuedSelf(log0);
    state := OutFull;
    while state.OutFull?
      invariant d.m.input == old(d.m.input) && d.Read(t0, 0)
      invariant state.OutFull? || d.Outcome(state, some, flush == FINISH, 0, 0)
      invariant state.NeedMore? || state.OutFull? || state.BlockDone? ==>
        During(d, strategy, state.OutFull? && d.Closed(some))
      invariant !state.NeedMore? && !state.OutFull? ==>
        d.Upto(d.At()) && !d.matchAvailable && Symbols(d, strategy, false)
      invariant rolled ==> d.Rolled(d.Closed(some))
      invariant d.CutsGrow(cuts0, d.Closed(some) && flush != FINISH)
      invariant Continued(log0, d.log, if d.Closed(some) then |d.m.text| else -1)
      decreases state.OutFull?, d.Todo(), Waiting(d)
    {
      ghost var text, pos, cuts, log, closed := d.m.text, d.m.inpos, d.cuts, d.log, d.Closed(some);
      state := Strategize(d, strategy, some, flush == FINISH, rolled);
      ReadOn(d, t0, text, pos);
      if closed { assert d.m.input[pos..d.m.inpos] == []; }
      ContinuedOn(log0, log, d.log, if closed then |text| else -1, if d.Closed(some) then |d.m.text| else -1);
    }
    assert d.m.input[0..|d.m.input|] == d.m.input;
  }

  // Symbols that did not look at the end of the text stay right in another call.
  lemma Reopened(d: Deflater, flush: bool)
    requires d.Rolled(false)
    ensures d.Rolled(d.Closed(flush))
  {
    hide Even, Flatten, RunCoding.Runs;
    assert d.m.text + [] == d.m.text;
    RunCoding.RunsOn(d.m.text, [], d.Closed(flush), d.All());
  }

  method Supplied(d: Deflater, strategy: Strategy, chunk: seq<Byte>)
    requires Between(d, strategy)
    modifies d.m`input, d.m`inpos
    ensures Between(d, strategy) && d.m.input == chunk && d.m.inpos == 0
    ensures forall closed :: old(d.Rolled(closed)) ==> d.Rolled(closed)
  {
    hide Deflater.Upto, Deflater.Pending, Deflater.Rolled, LazyOk, LazyAfter, GreedyOk, GreedyAfter, Flatten,
         Finder.Full, Finder.Caught;
    d.Supply(chunk, d.Settled());
  }

  lemma ReadOn(d: Deflater, t0: seq<Byte>, text: seq<Byte>, pos: nat)
    requires pos <= |d.m.input| && text == t0 + d.m.input[0..pos] && d.Read(text, pos)
    ensures d.Read(t0, 0)
  {
    assert d.m.input[0..d.m.inpos] == d.m.input[0..pos] + d.m.input[pos..d.m.inpos];
  }

  /** After everything was handed over: the empty blocks of the flushes, and the end of history after a full one. */
  method Flushed(d: Deflater, strategy: Strategy, flush: Flush)
    requires Between(d, strategy) && d.Upto(d.At()) && !d.matchAvailable && d.syms == [] && d.m.lookahead == 0
    requires flush != NO_FLUSH && flush != FINISH
    modifies d`blocks, d`marks, d`blockStart, d`log, d.m.head, d.m`strstart, d.m`insert, d.m`base, d.m`ins, d.m`hi,
             d.m`origin
    ensures Between(d, strategy) && d.m.text == old(d.m.text)
    ensures match flush
      case PARTIAL_FLUSH => d.blocks == old(d.blocks) + [EmptyBlock(AlignMark)]
      case SYNC_FLUSH => d.blocks == old(d.blocks) + [EmptyBlock(SyncMark)]
      case FULL_FLUSH => d.blocks == old(d.blocks) + [EmptyBlock(FullMark)]
      case BLOCK => d.blocks == old(d.blocks)
      case _ => true
    ensures d.marks == old(d.marks) + MarkAt(flush, |d.m.text|)
    ensures if flush == FULL_FLUSH then d.m.ins == {} && d.m.origin == |d.m.text|
      && d.log == old(d.log) + [Forget(|d.m.text|)]
      else d.m.ins == old(d.m.ins) && d.m.origin == old(d.m.origin) && d.log == old(d.log)
  {
    hide Deflater.Upto, LazyOk, LazyAfter, GreedyOk, GreedyAfter, Flatten, Finder.Full, Finder.Caught;
    AtText(d);
    assert flush.Mark() == NoMark ==> d.marks + [] == d.marks;
    if flush == PARTIAL_FLUSH {
      d.PutMark(AlignMark);
    } else if flush != BLOCK {
      if flush == FULL_FLUSH {
        if strategy.Slow? { LazyOne(d.m.text, d.Tune(true), d.log, Forget(|d.m.text|)); }
        if strategy.Fast? { GreedyOne(d.m.text, d.Tune(false), d.log, Forget(|d.m.text|)); }
        d.PutFullMark();
      } else {
        d.PutMark(SyncMark);
      }
    }
  }

  lemma AtText(d: Deflater)
    requires d.Upto(d.At()) && d.m.lookahead == 0
    ensures d.At() == |d.m.text|
  {
  }

  lemma AllDelivered(d: Deflater)
    requires d.Upto(d.At()) && d.m.lookahead == 0 && d.syms == [] && d.blocks != [] && d.blocks[|d.blocks| - 1].last
    ensures Finished(d.blocks, d.m.text) && d.Delivered()
  {
    hide Flatten, BlocksOk, Pieces, MarksOf, Sized;
    assert d.All() == Flatten(d.blocks);
    assert d.m.text[..d.At()] == d.m.text;
    forall j | 0 <= j < |d.blocks| && d.blocks[j].mark == FullMark ensures AllFit(Flatten(d.blocks[j + 1..]), []) {
      assert Alone(Flatten(d.blocks[j + 1..]) + d.syms, d.m.text, d.m.origin, d.At());
      assert Flatten(d.blocks[j + 1..]) + [] == Flatten(d.blocks[j + 1..]);
    }
  }

  /** A call of deflate(): the next piece of the input, the flush parameter, and whether the output space is used up
      after it. */
  datatype Piece = Piece(chunk: seq<Byte>, flush: Flush, full: bool)

  // All of the input.
  function Joined(pieces: seq<Piece>): seq<Byte> {
    if pieces == [] then [] else Joined(pieces[..|pieces| - 1]) + pieces[|pieces| - 1].chunk
  }

  // The rank of last_flush; -1 if the output was full, so that the call may be made again.
  function LastRank(pieces: seq<Piece>): int
    decreases |pieces|, 1
  {
    if pieces == [] then NO_FLUSH.Rank()
    else if Heard(pieces) && pieces[|pieces| - 1].full then -2 else pieces[|pieces| - 1].flush.Rank()
  }

  // With nothing new to do the last of the calls returns Z_BUF_ERROR.
  predicate Heard(pieces: seq<Piece>)
    requires pieces != []
    decreases |pieces|, 0
  {
    var p, before := pieces[|pieces| - 1], pieces[..|pieces| - 1];
    p.chunk != [] || p.flush.Rank() > LastRank(before) || p.flush == FINISH
  }

  // The marks the calls ask for.
  function MarksAsked(pieces: seq<Piece>): seq<(Mark, nat)> {
    if pieces == [] then [] else
    MarksAsked(pieces[..|pieces| - 1])
      + if Heard(pieces) then MarkAt(pieces[|pieces| - 1].flush, |Joined(pieces)|) else []
  }

  // Where the calls flush.
  function FlushPoints(pieces: seq<Piece>): set<nat> {
    if pieces == [] then {} else
    FlushPoints(pieces[..|pieces| - 1])
      + if Heard(pieces) then CutAt(pieces[|pieces| - 1].flush, |Joined(pieces)|) else {}
  }

  function Earlier(pieces: seq<Piece>): (r: seq<Piece>)
    requires pieces != []
    ensures |r| < |pieces|
  {
    pieces[..|pieces| - 1]
  }

  // The log of these calls.
  ghost predicate Noted(log: seq<Event>, pieces: seq<Piece>)
    decreases |pieces|
  {
    if pieces == [] then log == [] else
    exists before: seq<Event> :: Noted(before, Earlier(pieces))
      && if Heard(pieces) then Adds(before, log, pieces[|pieces| - 1].flush, |Joined(pieces)|) else log == before
  }

  /** The symbols are those the strategy makes of the text: literals, or what the searches for matches find. */
  ghost predicate Coded(u: Setup, pieces: seq<Piece>, toks: seq<Token>) {
    match u.strategy
    case Huff => forall i :: 0 <= i < |toks| ==> toks[i].Literal?
    case Rle => true
    case Fast => exists log: seq<Event> ::
      Noted(log, pieces) && GreedyOk(Joined(pieces), u.Tune(), log)
        && GreedyAfter(Joined(pieces), u.Tune(), log).toks == toks
    case Slow => exists log: seq<Event> ::
      Noted(log, pieces) && LazyOk(Joined(pieces), u.Tune(), log)
        && LazyAfter(Joined(pieces), u.Tune(), log).toks == toks
  }

  // The last call, and no other, is with Z_FINISH.
  predicate Closing(pieces: seq<Piece>) {
    pieces != [] && forall i :: 0 <= i < |pieces| ==> (pieces[i].flush == FINISH <==> i == |pieces| - 1)
  }

  // No call but the last flushes.
  predicate Unflushed(pieces: seq<Piece>) {
    forall i :: 0 <= i < |pieces| ==> pieces[i].flush in {NO_FLUSH, FINISH}
  }

  // The symbols are the runs of the text, in blocks of full size.
  ghost predicate RunCoded(text: seq<Byte>, blocks: seq<Blk>, bufsize: nat) {
    RunCoding.Runs(text, true, Flatten(blocks)) && Even(blocks, bufsize - 1)
  }

  // The bytes are the text in this sequence of blocks and forms.
  ghost predicate Encodes(bytes: seq<Byte>, text: seq<Byte>, blocks: seq<Blk>, forms: seq<Form>) {
    && Finished(blocks, text) && Sends(forms, blocks)
    && Block.At(BytesBits(bytes), 0, StreamBits(forms, blocks)) && |BytesBits(bytes)| < |StreamBits(forms, blocks)| + 8
  }

  method DeflateInit(u: Setup, outFull: nat -> bool) returns (d: Deflater)
    requires u.Valid()
    ensures fresh(d) && fresh(d.m) && fresh(d.m.window) && fresh(d.m.head) && fresh(d.m.prev)
    ensures Between(d, u.strategy) && d.m.text == [] && d.Rolled(false) && d.litBufsize == u.bufsize
    ensures d.log == [] && d.marks == [] && d.cuts == {} && d.Tune(u.strategy.Slow?) == u.Tune()
  {
    hide Between, Deflater.Upto, Finder.Full, Finder.Caught;
    var f := new Finder(u.sh, u.good, u.nice, u.chain, u.strategy.Fast? || u.strategy.Slow?);
    d := new Deflater(f, u.bufsize, u.lazy, u.filtered, outFull);
    AtFirst(d, u.strategy);
  }

  /** deflate(): the input in any number of pieces with any flushes, the last with Z_FINISH, and the output space
      running out after any blocks and calls.  The flushes leave their marks where they were asked for, and only they
      and a full symbol buffer end a block. */
  method Deflated(pieces: seq<Piece>, u: Setup, outFull: nat -> bool)
    returns (bytes: seq<Byte>, ghost blocks: seq<Blk>, ghost forms: seq<Form>)
    requires Closing(pieces) && u.Valid()
    ensures Encodes(bytes, Joined(pieces), blocks, forms) && AllBest(forms, blocks, u.fixedOnly)
    ensures u.fixedOnly ==> AllReadable(forms)
    ensures u.strategy.Rle? && Unflushed(pieces) ==> RunCoded(Joined(pieces), blocks, u.bufsize)
    ensures Coded(u, pieces, Flatten(blocks))
    ensures MarksOf(blocks) == MarksAsked(pieces) && Sized(blocks, u.bufsize - 1, FlushPoints(pieces))
  {
    hide AllBest, Finished, Sends, StreamBits, BytesBits, Block.At, Coded, MarksOf, Sized, Between, Deflater.Rolled,
         Symbols, Deflater.Delivered, Noted, Heard, LastRank;
    var d := DeflateInit(u, outFull);
    ghost var rolled := u.strategy.Rle? && Unflushed(pieces);
    Calls(d, pieces, u.strategy, rolled);
    blocks := d.blocks;
    if rolled { AllRolled(d); }
    AllCoded(d, u, pieces);
    FinishedFacts(blocks, d.m.text);
    bytes, forms := SendAll(d.blocks, u.fixedOnly);
  }

  // The calls, one for each piece.
  method Calls(d: Deflater, pieces: seq<Piece>, strategy: Strategy, ghost rolled: bool)
    requires Closing(pieces) && Between(d, strategy) && d.m.text == [] && d.log == [] && d.marks == [] && d.cuts == {}
    requires rolled ==> strategy.Rle? && Unflushed(pieces) && d.Rolled(false)
    modifies d, d.m, d.m.window, d.m.head, d.m.prev
    ensures d.m.text == Joined(pieces) && Finished(d.blocks, d.m.text) && d.syms == [] && d.Delivered()
    ensures Symbols(d, strategy, false) && (rolled ==> d.Rolled(true))
    ensures d.marks == MarksAsked(pieces) && d.cuts <= FlushPoints(pieces) && Noted(d.log, pieces)
  {
    hide Deflater.Rolled, Between, Finished, Symbols, Deflater.Delivered, Adds;
    var lastRank: int := NO_FLUSH.Rank();
    BetweenSymbols(d, strategy);
    for i := 0 to |pieces|
      modifies d, d.m, d.m.window, d.m.head, d.m.prev
      invariant d.m.text == Joined(pieces[..i]) && Symbols(d, strategy, false)
      invariant if i < |pieces| then Between(d, strategy) else
        Finished(d.blocks, d.m.text) && d.syms == [] && d.Delivered()
      invariant (rolled ==> d.Rolled(i == |pieces|)) && lastRank == LastRank(pieces[..i])
      invariant d.marks == MarksAsked(pieces[..i]) && d.cuts <= FlushPoints(pieces[..i]) && Noted(d.log, pieces[..i])
    {
      var chunk, flush := pieces[i].chunk, pieces[i].flush;
      assert pieces[..i + 1][..i] == Earlier(pieces[..i + 1]) == pieces[..i];
      // with nothing new to do the call returns Z_BUF_ERROR
      if chunk != [] || flush.Rank() > lastRank || flush == FINISH {
        assert Heard(pieces[..i + 1]);
        ghost var log := d.log;
        Call(d, strategy, chunk, flush, rolled);
        assert Noted(log, Earlier(pieces[..i + 1])) && Adds(log, d.log, flush, |d.m.text|);
        lastRank := if pieces[i].full then -2 else flush.Rank();
      } else {
        assert !Heard(pieces[..i + 1]) && Noted(d.log, Earlier(pieces[..i + 1]));
        lastRank := flush.Rank();
      }
    }
    assert pieces[..|pieces|] == pieces;
  }

  lemma AllRolled(d: Deflater)
    requires d.Rolled(true) && d.syms == []
    ensures RunCoded(d.m.text, d.blocks, d.litBufsize)
  {
    hide Even, Flatten, RunCoding.Runs;
    assert d.All() == Flatten(d.blocks);
  }

  lemma AllCoded(d: Deflater, u: Setup, pieces: seq<Piece>)
    requires Symbols(d, u.strategy, false) && d.syms == [] && d.Delivered() && d.litBufsize == u.bufsize
    requires Noted(d.log, pieces) && d.m.text == Joined(pieces) && d.Tune(u.strategy.Slow?) == u.Tune()
    requires d.marks == MarksAsked(pieces) && d.cuts <= FlushPoints(pieces)
    ensures Coded(u, pieces, Flatten(d.blocks))
    ensures MarksOf(d.blocks) == MarksAsked(pieces) && Sized(d.blocks, u.bufsize - 1, FlushPoints(pieces))
  {
    hide Flatten, Noted, LazyOk, LazyAfter, GreedyOk, GreedyAfter, Sized, MarksOf, MarksAsked, FlushPoints, BlocksOk,
         Pieces, Covers;
    assert d.All() == Flatten(d.blocks);
    SizedMore(d.blocks, u.bufsize - 1, d.cuts, FlushPoints(pieces));
  }

  lemma AtFirst(d: Deflater, strategy: Strategy)
    requires d.Upto(0) && d.Filling() && d.matchLength == d.prevLength == 2 && !d.matchAvailable && d.syms == []
    requires d.m.base == 0 && d.m.strstart == 0 && d.blockStart == 0 && d.m.origin == 0 && d.m.Full() && d.m.Caught()
      && d.m.hashing == (strategy.Fast? || strategy.Slow?) && d.blocks == [] && d.log == []
    ensures Between(d, strategy)
  {
    hide Deflater.Upto, Finder.Full, Finder.Caught;
    assert d.All() == [];
  }

  lemma FinishedFacts(blocks: seq<Blk>, text: seq<Byte>)
    requires Finished(blocks, text)
    ensures BlocksOk(blocks) && Pieces(blocks) && !Open(blocks)
  {
  }

  // ---- and back ----

  // The decoder that was offered all of it.
  lemma Restored(z: Inflater, m: nat, text: seq<Byte>, blocks: seq<Blk>, forms: seq<Form>)
    requires OnTrack(z) && Offered(z) == |z.rd.stream| && |z.hist| <= m && Stopped(z, m) && |text| <= m
    requires Encodes(z.rd.stream, text, blocks, forms)
    ensures z.s.mode == DONE <==> AllReadable(forms)
    ensures AllReadable(forms) ==> z.hist == text && z.rd.totalIn == |z.rd.stream|
  {
    hide Step, Reaches, State.Valid, State.Lean, State.Abs, Small, FixedTables, BytesBits, Stopped, Live, AllReadable,
         BlocksOk, Pieces, Sends, StreamBits, Block.At, AllFit, Expand, StreamFails;
    var I := BytesBits(z.rd.stream);
    StreamEnd(I, forms, blocks);
    if AllReadable(forms) {
      Delivers(z, m, Config(Mode.Done, |I|, text));
    } else {
      NotDone(z, m, |text|);
    }
  }

  lemma NotDone(z: Inflater, m: nat, n: nat)
    requires OnTrack(z) && Offered(z) == |z.rd.stream| && |z.hist| <= m && Stopped(z, m) && n <= m
    requires StreamFails(z.rd.I(), n)
    ensures z.s.mode != DONE
  {
    hide Step, Reaches, State.Valid, State.Lean, State.Abs, Small, FixedTables, BytesBits, Val, BitReader.Reader.Held,
         Stopped;
    var e: Config :| Reaches(z.rd.I(), START, e) && e.mode == Bad && e.p <= |z.rd.I()| && |e.out| <= n;
    StoppedAtWall(z, m);
    NoStep(z.rd.I()[..8 * Offered(z)], e);
    OneEnd(z.rd.I(), 8 * Offered(z), m, z.At(z.hist), e);
    DoneMode(z.s);
  }

  /** inflate() undoes deflate(): whatever the input, its pieces, the strategy and the tuning, and however the
      compressed bytes and the output space are cut, the output is the input and all bytes are taken, exactly when every
      dynamic block has tables that fit the space the decoder keeps for them. */
  method Inflated(bytes: seq<Byte>, cuts: seq<Cut>, ghost text: seq<Byte>, ghost blocks: seq<Blk>,
                  ghost forms: seq<Form>) returns (out: seq<Byte>, done: bool, taken: nat)
    requires Encodes(bytes, text, blocks, forms) && |cuts| > 0 && Cuts(cuts, |bytes|)
    requires cuts[|cuts| - 1].upto == |bytes| && cuts[|cuts| - 1].limit >= |text|
    ensures done <==> AllReadable(forms)
    ensures done ==> out == text && taken == |bytes|
  {
    hide Step, Reaches, Live, Stopped, BytesBits, Encodes, AllReadable;
    var z;
    z, out := Feed(bytes, cuts);
    Restored(z, cuts[|cuts| - 1].limit, text, blocks, forms);
    done, taken := z.s.mode == DONE, z.rd.totalIn;
  }

  /** deflate() and then inflate(), the cuts of the second chosen as any function of the number of compressed bytes. */
  method ThereAndBack(pieces: seq<Piece>, u: Setup, outFull: nat -> bool, ways: nat -> seq<Cut>)
    returns (bytes: seq<Byte>, out: seq<Byte>, done: bool, taken: nat, ghost blocks: seq<Blk>, ghost forms: seq<Form>)
    requires Closing(pieces) && u.Valid()
    requires forall n :: |ways(n)| > 0 && Cuts(ways(n), n) && ways(n)[|ways(n)| - 1].upto == n
                         && ways(n)[|ways(n)| - 1].limit >= |Joined(pieces)|
    ensures Encodes(bytes, Joined(pieces), blocks, forms) && AllBest(forms, blocks, u.fixedOnly)
    ensures u.strategy.Rle? && Unflushed(pieces) ==> RunCoded(Joined(pieces), blocks, u.bufsize)
    ensures Coded(u, pieces, Flatten(blocks))
    ensures MarksOf(blocks) == MarksAsked(pieces) && Sized(blocks, u.bufsize - 1, FlushPoints(pieces))
    ensures done <==> AllReadable(forms)
    ensures done ==> out == Joined(pieces) && taken == |bytes|
    ensures u.fixedOnly ==> done
  {
    hide Encodes, AllReadable, Cuts, AllBest, RunCoded, Coded, MarksOf, Sized, MarksAsked, FlushPoints;
    bytes, blocks, forms := Deflated(pieces, u, outFull);
    out, done, taken := Inflated(bytes, ways(|bytes|), Joined(pieces), blocks, forms);
  }
}
