/** The blocks deflate() of deps/zlib/deflate.c hands over: their symbols, the text these stand for, the empty blocks of
    the flushes, and the points from which the rest can be expanded by itself. */
module BlockList {
  import opened BitStream
  import opened Lz77
  import opened HashChains
  import opened MatchFinder
  import RunCoding

  // ---- symbols and the text they stand for ----

  ghost predicate Covers(toks: seq<Token>, text: seq<Byte>, n: nat) {
    n <= |text| && AllFit(toks, []) && Expand(toks, []) == text[..n]
  }

  lemma CoversLength(toks: seq<Token>, text: seq<Byte>, n: nat)
    requires Covers(toks, text, n)
    ensures RunCoding.Length(toks) == n
  {
    hide Expand, AllFit;
    RunCoding.SizeOfAll(toks, []);
  }

  // The symbols stand for the text from a to before n, without what comes before a.
  ghost predicate Spans(toks: seq<Token>, text: seq<Byte>, a: nat, n: nat) {
    a <= n <= |text| && AllFit(toks, []) && Expand(toks, []) == text[a..n]
  }

  lemma SpansLit(toks: seq<Token>, text: seq<Byte>, a: nat, n: nat)
    requires Spans(toks, text, a, n) && n < |text|
    ensures Spans(toks + [Literal(text[n])], text, a, n + 1)
  {
    var one := [Literal(text[n])];
    assert one[1..] == [];
    ExpandConcat(toks, one, []);
    assert Expand(one, text[a..n]) == text[a..n] + [text[n]] == text[a..n + 1];
  }

  lemma SpansPair(toks: seq<Token>, text: seq<Byte>, a: nat, n: nat, d: nat, len: nat)
    requires Spans(toks, text, a, n) && Repeats(text, n, d, len) && 3 <= len <= 258 && d <= 32768 && a + d <= n
    ensures Spans(toks + [Pair(d, len)], text, a, n + len)
  {
    hide CopyBack;
    var one := [Pair(d, len)];
    assert one[1..] == [];
    ExpandConcat(toks, one, []);
    CopySpan(text, a, n, d, len);
    assert Expand(one, text[a..n]) == CopyBack(text[a..n], d, len);
  }

  lemma CopySpan(text: seq<Byte>, a: nat, n: nat, d: nat, len: nat)
    requires Repeats(text, n, d, len) && a + d <= n
    ensures CopyBack(text[a..n], d, len) == text[a..n + len]
  {
    var part := text[a..];
    assert part[..n - a] == text[a..n] && part[..n - a + len] == text[a..n + len];
    forall i | n - a <= i < n - a + len ensures part[i] == part[i - d] {
      assert text[a + i] == text[a + i - d];
    }
    CopyIsText(part, n - a, d, len);
  }

  lemma SpansMore(toks: seq<Token>, text: seq<Byte>, more: seq<Byte>, a: nat, n: nat)
    requires Spans(toks, text, a, n)
    ensures Spans(toks, text + more, a, n)
  {
    assert (text + more)[a..n] == text[a..n];
  }

  lemma SpansAll(toks: seq<Token>, text: seq<Byte>, n: nat)
    ensures Spans(toks, text, 0, n) <==> Covers(toks, text, n)
  {
    assert n <= |text| ==> text[0..n] == text[..n];
  }

  lemma CoversMore(toks: seq<Token>, text: seq<Byte>, more: seq<Byte>, n: nat)
    requires Covers(toks, text, n)
    ensures Covers(toks, text + more, n)
  {
    assert (text + more)[..n] == text[..n];
  }

  // ---- blocks ----

  /** Blocks without content, sent at a flush: by _tr_align, or as an empty stored block; after a full flush the history
      is forgotten. */
  datatype Mark = NoMark | AlignMark | SyncMark | FullMark

  // A block as it is handed to _tr_flush_block: its symbols, and its bytes if they are still in the window.
  datatype Blk = Blk(toks: seq<Token>, has: bool, buf: seq<Byte>, last: bool, mark: Mark)

  function Flatten(blocks: seq<Blk>): seq<Token> {
    if blocks == [] then [] else Flatten(blocks[..|blocks| - 1]) + blocks[|blocks| - 1].toks
  }

  lemma FlattenNext(blocks: seq<Blk>, b: Blk)
    ensures Flatten(blocks + [b]) == Flatten(blocks) + b.toks
  {
    var all := blocks + [b];
    assert all[..|all| - 1] == blocks && all[|all| - 1] == b;
  }

  // The bytes that go with a block are those its symbols stand for.
  ghost predicate BlocksOk(blocks: seq<Blk>) {
    blocks == [] ||
    var b := blocks[|blocks| - 1];
    var before := Flatten(blocks[..|blocks| - 1]);
    && BlocksOk(blocks[..|blocks| - 1]) && AllFit(before, []) && AllFit(b.toks, Expand(before, []))
    && (b.has ==> Expand(b.toks, Expand(before, [])) == Expand(before, []) + b.buf)
  }

  // No block is too large for its counters or for a stored block, and only the final one is marked.
  ghost predicate Pieces(blocks: seq<Blk>) {
    forall i :: 0 <= i < |blocks| ==>
      && |blocks[i].toks| < 0x8000 && |blocks[i].buf| < 0x10000 && (blocks[i].last ==> i == |blocks| - 1)
      && (blocks[i].mark != NoMark ==> blocks[i] == EmptyBlock(blocks[i].mark))
  }

  function EmptyBlock(mark: Mark): Blk {
    Blk([], true, [], false, mark)
  }

  predicate Open(blocks: seq<Blk>) {
    blocks == [] || !blocks[|blocks| - 1].last
  }

  // One more block, with these symbols.
  predicate Handed(before: seq<Blk>, syms: seq<Token>, after: seq<Blk>, last: bool) {
    && |after| == |before| + 1 && after[..|before|] == before
    && after[|before|].last == last && after[|before|].toks == syms && after[|before|].mark == NoMark
  }

  // All blocks but a final one have n symbols.
  predicate Even(blocks: seq<Blk>, n: int) {
    forall i :: 0 <= i < |blocks| && !blocks[i].last ==> |blocks[i].toks| == n && blocks[i].mark == NoMark
  }

  lemma HandedOver(before: seq<Blk>, syms: seq<Token>, after: seq<Blk>, last: bool, n: int)
    requires Handed(before, syms, after, last)
    ensures Flatten(after) + [] == Flatten(before) + syms
    ensures Even(before, n) && (last || |syms| == n) ==> Even(after, n)
  {
    if Even(before, n) && (last || |syms| == n) {
      forall i | 0 <= i < |after| && !after[i].last ensures |after[i].toks| == n && after[i].mark == NoMark {
        if i < |before| { assert after[i] == before[i]; }
      }
    }
  }

  /** A block that is neither full nor the last one ends at one of the positions in `cuts`. */
  ghost predicate Sized(blocks: seq<Blk>, n: int, cuts: set<nat>) {
    forall i :: 0 <= i < |blocks| && !blocks[i].last && blocks[i].mark == NoMark ==>
      |blocks[i].toks| == n || RunCoding.Length(Flatten(blocks[..i + 1])) in cuts
  }

  lemma SizedNext(blocks: seq<Blk>, n: int, cuts: set<nat>, b: Blk)
    requires Sized(blocks, n, cuts)
    requires b.last || b.mark != NoMark || |b.toks| == n || RunCoding.Length(Flatten(blocks) + b.toks) in cuts
    ensures Sized(blocks + [b], n, cuts)
  {
    hide Flatten, RunCoding.Length;
    var all := blocks + [b];
    FlattenNext(blocks, b);
    forall i | 0 <= i < |all| && !all[i].last && all[i].mark == NoMark
      ensures |all[i].toks| == n || RunCoding.Length(Flatten(all[..i + 1])) in cuts {
      if i < |blocks| { assert all[..i + 1] == blocks[..i + 1]; } else { assert all[..i + 1] == all; }
    }
  }

  lemma SizedMore(blocks: seq<Blk>, n: int, cuts: set<nat>, more: set<nat>)
    requires Sized(blocks, n, cuts) && cuts <= more
    ensures Sized(blocks, n, more)
  {
  }

  // ---- flushes ----

  // The marks, and where in the text they are.
  function MarksOf(blocks: seq<Blk>): seq<(Mark, nat)> {
    if blocks == [] then [] else
    var b, before := blocks[|blocks| - 1], blocks[..|blocks| - 1];
    MarksOf(before) + if b.mark == NoMark then [] else [(b.mark, RunCoding.Length(Flatten(before)))]
  }

  lemma MarksNext(blocks: seq<Blk>, b: Blk)
    ensures MarksOf(blocks + [b]) ==
      MarksOf(blocks) + if b.mark == NoMark then [] else [(b.mark, RunCoding.Length(Flatten(blocks)))]
  {
    var all := blocks + [b];
    assert all[..|all| - 1] == blocks && all[|all| - 1] == b;
  }

  // The symbols need nothing of the text before some position up to `origin`.
  ghost predicate Alone(toks: seq<Token>, text: seq<Byte>, origin: nat, n: nat) {
    exists a: nat :: a <= origin && Spans(toks, text, a, n)
  }

  /** After a full flush nothing reaches back before it. */
  ghost predicate Restarts(blocks: seq<Blk>, syms: seq<Token>, text: seq<Byte>, origin: nat, n: nat) {
    forall j :: 0 <= j < |blocks| && blocks[j].mark == FullMark ==>
      Alone(Flatten(blocks[j + 1..]) + syms, text, origin, n)
  }

  // The blocks and the symbols since the last one stand for the text up to n.
  ghost predicate Told(blocks: seq<Blk>, syms: seq<Token>, text: seq<Byte>, origin: nat, n: nat) {
    Covers(Flatten(blocks) + syms, text, n) && Restarts(blocks, syms, text, origin, n)
  }

  lemma ToldCovers(blocks: seq<Blk>, syms: seq<Token>, text: seq<Byte>, origin: nat, n: nat)
    requires Told(blocks, syms, text, origin, n)
    ensures Covers(Flatten(blocks) + syms, text, n)
  {
  }

  lemma ToldNone(text: seq<Byte>, origin: nat)
    ensures Told([], [], text, origin, 0)
  {
  }

  lemma ToldLit(blocks: seq<Blk>, syms: seq<Token>, text: seq<Byte>, origin: nat, n: nat)
    requires Told(blocks, syms, text, origin, n) && n < |text|
    ensures Told(blocks, syms + [Literal(text[n])], text, origin, n + 1)
  {
    hide Covers, Spans, Flatten;
    var one := [Literal(text[n])];
    assert Flatten(blocks) + (syms + one) == Flatten(blocks) + syms + one;
    SpansAll(Flatten(blocks) + syms, text, n);
    SpansLit(Flatten(blocks) + syms, text, 0, n);
    SpansAll(Flatten(blocks) + (syms + one), text, n + 1);
    forall j | 0 <= j < |blocks| && blocks[j].mark == FullMark
      ensures Alone(Flatten(blocks[j + 1..]) + (syms + one), text, origin, n + 1) {
      var toks := Flatten(blocks[j + 1..]) + syms;
      assert Alone(toks, text, origin, n);
      var a: nat :| a <= origin && Spans(toks, text, a, n);
      SpansLit(toks, text, a, n);
      assert Flatten(blocks[j + 1..]) + (syms + one) == toks + one;
    }
  }

  lemma ToldPair(blocks: seq<Blk>, syms: seq<Token>, text: seq<Byte>, origin: nat, n: nat, d: nat, len: nat)
    requires Told(blocks, syms, text, origin, n) && Repeats(text, n, d, len) && 3 <= len <= 258 && d <= 32768
    requires origin + d <= n
    ensures Told(blocks, syms + [Pair(d, len)], text, origin, n + len)
  {
    hide Covers, Spans, Flatten, Repeats;
    var one := [Pair(d, len)];
    assert Flatten(blocks) + (syms + one) == Flatten(blocks) + syms + one;
    SpansAll(Flatten(blocks) + syms, text, n);
    SpansPair(Flatten(blocks) + syms, text, 0, n, d, len);
    SpansAll(Flatten(blocks) + (syms + one), text, n + len);
    forall j | 0 <= j < |blocks| && blocks[j].mark == FullMark
      ensures Alone(Flatten(blocks[j + 1..]) + (syms + one), text, origin, n + len) {
      var toks := Flatten(blocks[j + 1..]) + syms;
      assert Alone(toks, text, origin, n);
      var a: nat :| a <= origin && Spans(toks, text, a, n);
      SpansPair(toks, text, a, n, d, len);
      assert Flatten(blocks[j + 1..]) + (syms + one) == toks + one;
    }
  }

  lemma ToldMore(blocks: seq<Blk>, syms: seq<Token>, text: seq<Byte>, more: seq<Byte>, origin: nat, n: nat)
    requires Told(blocks, syms, text, origin, n)
    ensures Told(blocks, syms, text + more, origin, n)
  {
    hide Covers, Spans, Flatten;
    CoversMore(Flatten(blocks) + syms, text, more, n);
    forall j | 0 <= j < |blocks| && blocks[j].mark == FullMark
      ensures Alone(Flatten(blocks[j + 1..]) + syms, text + more, origin, n) {
      var toks := Flatten(blocks[j + 1..]) + syms;
      assert Alone(toks, text, origin, n);
      var a: nat :| a <= origin && Spans(toks, text, a, n);
      SpansMore(toks, text, more, a, n);
    }
  }

  // The symbols become a block.
  lemma ToldBlock(blocks: seq<Blk>, b: Blk, text: seq<Byte>, origin: nat, n: nat)
    requires Told(blocks, b.toks, text, origin, n) && b.mark != FullMark
    ensures Told(blocks + [b], [], text, origin, n)
  {
    hide Covers, Alone, Flatten;
    var all := blocks + [b];
    FlattenNext(blocks, b);
    assert Flatten(all) + [] == Flatten(blocks) + b.toks;
    forall j | 0 <= j < |all| && all[j].mark == FullMark
      ensures Alone(Flatten(all[j + 1..]) + [], text, origin, n) {
      assert all[j + 1..] == blocks[j + 1..] + [b];
      FlattenNext(blocks[j + 1..], b);
      assert Flatten(all[j + 1..]) + [] == Flatten(blocks[j + 1..]) + b.toks;
    }
  }

  // A full flush: whatever comes will not reach back.
  lemma ToldFull(blocks: seq<Blk>, text: seq<Byte>, origin: nat, n: nat)
    requires Told(blocks, [], text, origin, n) && origin <= n
    ensures Told(blocks + [EmptyBlock(FullMark)], [], text, n, n)
  {
    hide Covers, Spans;
    var b := EmptyBlock(FullMark);
    var all := blocks + [b];
    FlattenNext(blocks, b);
    assert Flatten(all) + [] == Flatten(blocks) + [];
    forall j | 0 <= j < |all| && all[j].mark == FullMark ensures Alone(Flatten(all[j + 1..]) + [], text, n, n) {
      if j < |blocks| {
        assert all[j + 1..] == blocks[j + 1..] + [b];
        FlattenNext(blocks[j + 1..], b);
        assert Flatten(all[j + 1..]) + [] == Flatten(blocks[j + 1..]) + [];
        assert Alone(Flatten(blocks[j + 1..]) + [], text, origin, n);
        var a: nat :| a <= origin && Spans(Flatten(blocks[j + 1..]) + [], text, a, n);
        assert a <= n;
      } else {
        NothingSpans(text, n, Flatten(blocks) + []);
        assert Flatten(all[j + 1..]) + [] == [];
      }
    }
  }

  lemma NothingSpans(text: seq<Byte>, n: nat, toks: seq<Token>)
    requires Covers(toks, text, n)
    ensures Spans([], text, n, n)
  {
  }

  // ---- one more block ----

  lemma MarkAdded(blocks: seq<Blk>, b: Blk, text: seq<Byte>, n: nat)
    requires BlocksOk(blocks) && Covers(Flatten(blocks), text, n) && b.toks == [] && b.buf == []
    ensures BlocksOk(blocks + [b]) && Flatten(blocks + [b]) == Flatten(blocks)
  {
    hide AllFit, Expand;
    var all := blocks + [b];
    assert all[..|all| - 1] == blocks && all[|all| - 1] == b;
    NoTokens(Expand(Flatten(blocks), []));
  }

  lemma NoTokens(out: seq<Byte>)
    ensures AllFit([], out) && Expand([], out) == out == out + []
  {
  }

  lemma PieceAdded(blocks: seq<Blk>, b: Blk)
    requires Pieces(blocks) && Open(blocks) && |b.toks| < 0x8000 && |b.buf| < 0x10000
    requires b.mark != NoMark ==> b == EmptyBlock(b.mark)
    ensures Pieces(blocks + [b])
  {
  }

  lemma BlockAdded(blocks: seq<Blk>, b: Blk, text: seq<Byte>, start: nat, end: nat)
    requires BlocksOk(blocks) && Covers(Flatten(blocks), text, start) && Covers(Flatten(blocks) + b.toks, text, end)
    requires start <= end && (b.has ==> b.buf == text[start..end])
    ensures BlocksOk(blocks + [b]) && Flatten(blocks + [b]) == Flatten(blocks) + b.toks
  {
    hide Expand, AllFit;
    var all := blocks + [b];
    assert all[..|all| - 1] == blocks && all[|all| - 1] == b;
    ExpandConcat(Flatten(blocks), b.toks, []);
    assert start <= end ==> text[..start] + text[start..end] == text[..end];
  }
}
