/** A text that deflate() with Z_RLE and the largest symbol buffer compresses to a stream inflate() refuses. */
module LimitText {
  import opened Bits
  import opened BitStream
  import opened MatchCodes
  import opened Lz77
  import opened Block
  import opened BlockCost
  import opened FlushBlock
  import opened HashChains
  import opened MatchFinder
  import opened InflateCuts
  import opened BlockList
  import opened Deflate
  import opened BlockStream
  import opened LimitBlock
  import opened RoundTrip
  import RunCoding

  // ---- the symbols ----

  // 415 groups with a run each, then a zero before every other literal.
  const GROUPS: nat := 415
  const OTHERS: nat := 15138

  // The length code of a group, and the groups with this code.
  function Code(g: nat): nat {
    if g < 384 then g / 16 else if g < 400 then 28 else if g < 408 then 24 else if g < 412 then 25
      else if g < 414 then 26 else 27
  }

  function FirstGroup(c: nat): nat {
    if c < 24 then 16 * c else if c == 24 then 400 else if c == 25 then 408 else if c == 26 then 412
      else if c == 27 then 414 else 384
  }

  // The length of the run.
  function Run(c: nat): nat
    requires c < LENGTH_CODES
  {
    if c == 28 then 258 else BaseLength(c) + 3
  }

  // The j-th of the other literals, and where a literal has its place among them.
  function Other(j: nat): nat {
    if j < 7362 then 1 else if j < 9410 then 2 else if j < 12770 then 3 + (j - 9410) / 32 else 108 + (j - 12770) / 16
  }

  function FirstOther(s: nat): nat {
    if s <= 1 then 0 else if s == 2 then 7362 else if s < 108 then 9410 + 32 * (s - 3) else 12770 + 16 * (s - 108)
  }

  function Others(s: nat): nat {
    if s == 0 then 0 else if s == 1 then 7362 else if s < 256 then Often(s) else 0
  }

  function TokenAt(i: nat): Token {
    if i < 6 * GROUPS then
      var g, r := i / 6, i % 6;
      if r == 1 then Pair(1, Run(Code(g))) else Literal(if r == 2 || r == 5 then 1 else 0)
    else
      var k := i - 6 * GROUPS;
      Literal(if k % 2 == 1 && Other(k / 2) < 256 then Other(k / 2) else 0)
  }

  function Tokens(n: nat): (s: seq<Token>)
    ensures |s| == n && forall i :: 0 <= i < n ==> s[i] == TokenAt(i)
  {
    seq(n, i requires 0 <= i => TokenAt(i))
  }

  const SYMBOLS: nat := 32767

  // ---- how often they occur ----

  // How many of the first n places are among the k from f on.
  function Within(n: nat, f: nat, k: nat): nat {
    if n <= f then 0 else if n <= f + k then n - f else k
  }

  lemma RunCode(c: nat)
    requires c < LENGTH_CODES
    ensures 3 <= Run(c) <= 258 && LitSymbol(Pair(1, Run(c))) == 257 + c
  {
    hide Pow2, ExtraLBits, LengthCodeFrom, BaseLength, LengthCodeShort;
    if c < 28 {
      Marks();
      LongestExtra();
      BaseLengthMono(c, 27);
      LengthCodeAt(BaseLength(c), c);
    }
  }

  lemma LongestExtra()
    ensures Pow2(ExtraLBits(27)) == 32
  {
    hide ExtraLBits;
    ExtraOf27();
  }

  lemma ExtraOf27()
    ensures ExtraLBits(27) == 5
  {
  }

  lemma CountNext(n: nat, s: nat)
    ensures CountLit(Tokens(n + 1), s) == CountLit(Tokens(n), s) + if LitSymbol(TokenAt(n)) == s then 1 else 0
  {
    hide LitSymbol, TokenAt;
    assert Tokens(n + 1)[..n] == Tokens(n);
  }

  // What a group adds.
  lemma GroupTokens(g: nat)
    requires g < GROUPS
    ensures LitSymbol(TokenAt(6 * g)) == 0 && LitSymbol(TokenAt(6 * g + 1)) == 257 + Code(g)
      && LitSymbol(TokenAt(6 * g + 2)) == 1
    ensures LitSymbol(TokenAt(6 * g + 3)) == 0 && LitSymbol(TokenAt(6 * g + 4)) == 0
      && LitSymbol(TokenAt(6 * g + 5)) == 1
  {
    hide Code, TokenAt, LitSymbol;
    TokenIn(g, 0);
    TokenIn(g, 1);
    TokenIn(g, 2);
    TokenIn(g, 3);
    TokenIn(g, 4);
    TokenIn(g, 5);
    CodeSmall(g);
    RunCode(Code(g));
    LiteralSymbol(0);
    LiteralSymbol(1);
  }

  lemma LiteralSymbol(c: Byte)
    ensures LitSymbol(Literal(c)) == c
  {
  }

  lemma TokenIn(g: nat, r: nat)
    requires g < GROUPS && r < 6
    ensures Code(g) < LENGTH_CODES
    ensures TokenAt(6 * g + r) == if r == 1 then Pair(1, Run(Code(g))) else Literal(if r == 2 || r == 5 then 1 else 0)
  {
    hide Code, Run;
    CodeSmall(g);
    assert (6 * g + r) / 6 == g && (6 * g + r) % 6 == r;
  }

  lemma CodeSmall(g: nat)
    requires g < GROUPS
    ensures Code(g) < LENGTH_CODES
  {
  }

  lemma CodeGroups(g: nat, c: nat)
    requires g < GROUPS && c < LENGTH_CODES
    ensures Code(g) == c <==> FirstGroup(c) <= g < FirstGroup(c) + Often(257 + c)
  {
  }

  lemma {:induction false} GroupCounts(g: nat, s: nat)
    requires g <= GROUPS && s < L_CODES
    ensures CountLit(Tokens(6 * g), s)
         == if s == 0 then 3 * g else if s == 1 then 2 * g else if s < 257 then 0
           else Within(g, FirstGroup(s - 257), Often(s))
  {
    hide CountLit, LitSymbol, TokenAt, Tokens, Code, FirstGroup, Often;
    if g == 0 {
      NoCount(s);
    } else {
      var h := g - 1;
      GroupCounts(h, s);
      GroupTokens(h);
      CountNext(6 * h, s);
      CountNext(6 * h + 1, s);
      CountNext(6 * h + 2, s);
      CountNext(6 * h + 3, s);
      CountNext(6 * h + 4, s);
      CountNext(6 * h + 5, s);
      if s >= 257 { CodeGroups(h, s - 257); }
    }
  }

  lemma NoCount(s: nat)
    ensures CountLit(Tokens(0), s) == 0
  {
  }

  lemma OtherPlaces(j: nat, s: nat)
    requires j < OTHERS && s < L_CODES
    ensures 1 <= Other(j) < 256 && (Other(j) == s <==> FirstOther(s) <= j < FirstOther(s) + Others(s))
  {
  }

  lemma OtherTokens(j: nat)
    requires j < OTHERS
    ensures LitSymbol(TokenAt(6 * GROUPS + 2 * j)) == 0 && LitSymbol(TokenAt(6 * GROUPS + 2 * j + 1)) == Other(j)
  {
    OtherPlaces(j, 0);
    hide Other;
  }

  lemma {:induction false} OtherCounts(j: nat, s: nat)
    requires j <= OTHERS && s < L_CODES
    ensures CountLit(Tokens(6 * GROUPS + 2 * j), s)
         == CountLit(Tokens(6 * GROUPS), s) + (if s == 0 then j else 0) + Within(j, FirstOther(s), Others(s))
  {
    hide CountLit, LitSymbol, TokenAt, Tokens, Other, FirstOther, Others;
    if j > 0 {
      var h := j - 1;
      OtherCounts(h, s);
      OtherTokens(h);
      OtherPlaces(h, s);
      CountNext(6 * GROUPS + 2 * h, s);
      CountNext(6 * GROUPS + 2 * h + 1, s);
    }
  }

  // All symbols together.
  lemma AllCounts(s: nat)
    requires s < L_CODES
    ensures CountLit(Tokens(SYMBOLS), s) + (if s == 256 then 1 else 0) == Often(s)
  {
    hide CountLit, LitSymbol, Tokens;
    GroupCounts(GROUPS, s);
    OtherCounts(OTHERS, s);
    CountNext(SYMBOLS - 1, s);
    LastToken();
    hide TokenAt;
    Ends(s);
  }

  lemma LastToken()
    ensures LitSymbol(TokenAt(SYMBOLS - 1)) == 0
  {
  }

  lemma Ends(s: nat)
    requires s < L_CODES
    ensures s >= 257 ==> Within(GROUPS, FirstGroup(s - 257), Often(s)) == Often(s)
    ensures Within(OTHERS, FirstOther(s), Others(s)) == Others(s)
  {
  }

  // ---- the symbols are those of their text ----

  lemma NeatGroup(g: nat, r: nat)
    requires g < GROUPS && r < 6
    ensures RunCoding.NeatAt(Tokens(SYMBOLS), 6 * g + r)
  {
    hide TokenAt, Code, Run, Tokens, LitSymbol;
    var toks := TokensAt();
    TokenIn(g, r);
    if r > 0 { TokenIn(g, r - 1); } else if g > 0 { TokenIn(g - 1, 5); }
    if r == 1 {
      RunCode(Code(g));
      TokenIn(g, 2);
    }
    if r == 2 { TokenIn(g, 0); }
    if r == 4 { TokenIn(g, 5); }
  }

  lemma TokensAt() returns (toks: seq<Token>)
    ensures toks == Tokens(SYMBOLS) && |toks| == SYMBOLS && forall i :: 0 <= i < SYMBOLS ==> toks[i] == TokenAt(i)
  {
    toks := Tokens(SYMBOLS);
  }

  // After the groups every other symbol is a zero.
  lemma TokenAfter(k: nat)
    requires k <= 2 * OTHERS
    ensures k % 2 == 0 ==> TokenAt(6 * GROUPS + k) == Literal(0)
    ensures k % 2 == 1 ==> exists c: Byte :: c != 0 && TokenAt(6 * GROUPS + k) == Literal(c)
  {
    if k % 2 == 1 {
      OtherPlaces(k / 2, 0);
      hide Other;
      var c: Byte := Other(k / 2);
      assert TokenAt(6 * GROUPS + k) == Literal(c);
    }
  }

  lemma NeatAfter(k: nat)
    requires k <= 2 * OTHERS
    ensures RunCoding.NeatAt(Tokens(SYMBOLS), 6 * GROUPS + k)
  {
    hide TokenAt, Tokens;
    var toks := TokensAt();
    TokenAfter(k);
    if k > 0 { TokenAfter(k - 1); } else { TokenIn(GROUPS - 1, 5); }
  }

  lemma IsNeat()
    ensures RunCoding.Neat(Tokens(SYMBOLS))
  {
    hide TokenAt, RunCoding.NeatAt;
    forall i: nat | i < SYMBOLS ensures RunCoding.NeatAt(Tokens(SYMBOLS), i) {
      if i < 6 * GROUPS {
        NeatGroup(i / 6, i % 6);
      } else {
        NeatAfter(i - 6 * GROUPS);
      }
    }
  }

  lemma IsAtLimit()
    ensures AtLimit(Tokens(SYMBOLS))
  {
    hide TokenAt, CountLit, Often, Tokens;
    var toks := TokensAt();
    IsNeat();
    forall i | 0 <= i < |toks| ensures Block.InRange(toks[i]) { RunCoding.NeatFacts(toks, i); }
    forall s: nat | s < L_CODES ensures CountLit(toks, s) + (if s == 256 then 1 else 0) == Often(s) { AllCounts(s); }
  }

  // ---- the text ----

  ghost function Text(): seq<Byte> {
    IsNeat();
    RunCoding.NeatRuns(Tokens(SYMBOLS));
    Expand(Tokens(SYMBOLS), [])
  }

  lemma {:induction false} FirstOfAll(blocks: seq<Blk>)
    requires blocks != [] && BlocksOk(blocks)
    ensures blocks[0].toks <= Flatten(blocks) && (|blocks| == 1 ==> blocks[0].toks == Flatten(blocks))
    ensures AllFit(blocks[0].toks, []) && (blocks[0].has ==> Expand(blocks[0].toks, []) == blocks[0].buf)
    decreases |blocks|
  {
    hide AllFit, Expand;
    var n := |blocks| - 1;
    if n > 0 {
      FirstOfAll(blocks[..n]);
    } else {
      assert blocks[..0] == [] && Expand([], []) == [] by { NothingExpanded(); }
    }
  }

  lemma NothingExpanded()
    ensures AllFit([], []) && Expand([], []) == []
  {
  }

  // However the work is divided, the first block has all symbols of the text.
  lemma FirstBlock(blocks: seq<Blk>)
    requires Finished(blocks, Text()) && RunCoded(Text(), blocks, 0x8000)
    ensures blocks != [] && blocks[0].toks == Tokens(SYMBOLS) && blocks[0].mark == NoMark
    ensures blocks[0].has ==> |blocks[0].buf| >= SYMBOLS
  {
    hide Tokens, AllFit, Expand, RunCoding.Runs, RunCoding.Length, RunCoding.Neat, BlocksOk;
    var toks := TokensAt();
    IsNeat();
    RunCoding.NeatRuns(toks);
    RunCoding.SizeOfAll(toks, []);
    RunCoding.SizeOfAll(Flatten(blocks), []);
    RunCoding.Determined(Text(), toks, Flatten(blocks));
    FirstOfAll(blocks);
    assert blocks[0].toks == toks;
    RunCoding.AtLeastOne(Text(), toks);
  }

  /** The stream of such a block is refused. */
  lemma Refused(blocks: seq<Blk>, forms: seq<FlushBlock.Form>)
    requires Finished(blocks, Text()) && RunCoded(Text(), blocks, 0x8000) && AllBest(forms, blocks, false)
    ensures !AllReadable(forms)
  {
    hide Finished, RunCoded, Tokens, Text, Readable, Planned, Chosen, AtLimit;
    FirstBlock(blocks);
    IsAtLimit();
    assert Best(forms[0], blocks[0], false);
    var p :| Planned(p, blocks[0].toks) && p.lb.maxCode < |p.lb.lens| <= |p.lb.code|
      && p.db.maxCode < |p.db.lens| <= |p.db.code|
          && Chosen(forms[0], p, BytesOf(blocks[0]), false);
    LimitRefused(forms[0], p, blocks[0].toks, BytesOf(blocks[0]));
  }

  /** What deflate() makes of the text with Z_RLE and memLevel 9, however it is cut, inflate() does not restore. */
  method NotRestored(pieces: seq<Piece>, u: Setup, outFull: nat -> bool, ways: nat -> seq<Cut>)
    returns (bytes: seq<Byte>, out: seq<Byte>, done: bool, taken: nat)
    requires Closing(pieces) && Unflushed(pieces) && Joined(pieces) == Text()
    requires u.Valid() && u.strategy.Rle? && u.bufsize == 0x8000 && !u.fixedOnly
    requires forall n :: |ways(n)| > 0 && Cuts(ways(n), n) && ways(n)[|ways(n)| - 1].upto == n
                         && ways(n)[|ways(n)| - 1].limit >= |Joined(pieces)|
    ensures !done
  {
    hide Text, AllReadable, Finished, RunCoded, AllBest, Cuts, Sends, StreamBits, BytesBits, Block.At;
    ghost var blocks, forms;
    bytes, out, done, taken, blocks, forms := ThereAndBack(pieces, u, outFull, ways);
    Refused(blocks, forms);
  }
}
