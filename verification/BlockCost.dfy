/** The cost of a block: the frequencies _tr_tally keeps, the descriptors of the three alphabets, and the number of
    bits compress_block and send_all_trees (deps/zlib/trees.c) send. */
module BlockCost {
  import opened Bits
  import opened BitStream
  import opened Canon
  import opened CodeLengthCoding
  import opened MatchCodes
  import opened Rfc1951
  import opened Lz77
  import opened Block
  import SendBlock
  import opened BitLengths
  import opened BuildTree
  import opened TreeCost

  const L_CODES: nat := 286
  const BL_CODES: nat := 19

  // ---- the descriptors ----

  function LDesc(): StatDesc {
    StatDesc(true, FixedCodes().ll, seq(29, i requires 0 <= i => ExtraLBits(i)), 257, 15)
  }

  function DDesc(): StatDesc {
    StatDesc(true, FixedCodes().dl, seq(30, i requires 0 <= i => ExtraDBits(i)), 0, 15)
  }

  // Extra bits of the code length alphabet.
  function ExtraBlBits(i: nat): nat {
    if i < 16 then 0 else if i == 16 then 2 else if i == 17 then 3 else 7
  }

  function BlDesc(): StatDesc {
    StatDesc(false, [], seq(19, i requires 0 <= i => ExtraBlBits(i)), 0, 7)
  }

  // Each descriptor covers its alphabet and fits its length limit.
  lemma DescFacts()
    ensures LDesc().Covers(L_CODES - 1) && PlainStart(LDesc()) && L_CODES <= |LDesc().stree| && LDesc().maxLength == 15
    ensures DDesc().Covers(D_CODES - 1) && PlainStart(DDesc()) && D_CODES <= |DDesc().stree| && DDesc().maxLength == 15
    ensures BlDesc().Covers(BL_CODES - 1) && PlainStart(BlDesc()) && !BlDesc().hasStatic && BlDesc().maxLength == 7
    ensures LDesc().hasStatic && DDesc().hasStatic && LDesc().stree == FixedCodes().ll
      && DDesc().stree == FixedCodes().dl
    ensures forall s :: 0 <= s < L_CODES ==> LDesc().stree[s] > 0
    ensures forall s :: 0 <= s < D_CODES ==> DDesc().stree[s] > 0
    ensures L_CODES <= Pow2(15) && D_CODES <= Pow2(15) && BL_CODES <= Pow2(7)
  {
    hide LDesc, DDesc, BlDesc, PlainStart, StatDesc.Covers, FixedCodes;
    LFacts();
    DFacts();
    BlFacts();
    assert Pow2(5) == 32 && Pow2(7) == 128;
    assert Pow2(9) == 512;
    Pow2Mono(9, 15);
  }

  lemma LFacts()
    ensures LDesc().Covers(L_CODES - 1) && PlainStart(LDesc()) && L_CODES <= |LDesc().stree| && LDesc().maxLength == 15
    ensures LDesc().hasStatic && LDesc().stree == FixedCodes().ll
      && forall s :: 0 <= s < L_CODES ==> LDesc().stree[s] > 0
  {
  }

  lemma DFacts()
    ensures DDesc().Covers(D_CODES - 1) && PlainStart(DDesc()) && D_CODES <= |DDesc().stree| && DDesc().maxLength == 15
    ensures DDesc().hasStatic && DDesc().stree == FixedCodes().dl
      && forall s :: 0 <= s < D_CODES ==> DDesc().stree[s] > 0
  {
  }

  lemma BlFacts()
    ensures BlDesc().Covers(BL_CODES - 1) && PlainStart(BlDesc()) && !BlDesc().hasStatic && BlDesc().maxLength == 7
  {
  }

  lemma LengthXBits(s: nat)
    requires s < L_CODES
    ensures LDesc().XBits(s) == if s < 257 then 0 else ExtraLBits(s - 257)
  {
  }

  lemma DistXBits(s: nat)
    requires s < D_CODES
    ensures DDesc().XBits(s) == ExtraDBits(s)
  {
  }

  lemma BlXBits(s: nat)
    requires s < BL_CODES
    ensures BlDesc().XBits(s) == ExtraBlBits(s)
  {
  }

  // ---- tallies ----

  // The literal/length symbol of a token, and its distance symbol.
  function LitSymbol(tok: Token): nat {
    match tok case Literal(c) => c case Pair(_, len) => if len < 3 then 0 else 257 + LengthCode(len - 3)
  }

  function CountLit(toks: seq<Token>, s: nat): nat {
    if toks == [] then 0 else CountLit(toks[..|toks| - 1], s) + (if LitSymbol(toks[|toks| - 1]) == s then 1 else 0)
  }

  predicate HasDist(tok: Token, s: nat) {
    tok.Pair? && tok.dist >= 1 && DistCode(tok.dist - 1) == s
  }

  function CountDist(toks: seq<Token>, s: nat): nat {
    if toks == [] then 0 else CountDist(toks[..|toks| - 1], s) + (if HasDist(toks[|toks| - 1], s) then 1 else 0)
  }

  // The frequencies of the symbols of a block, end-of-block included.
  ghost predicate Tallied(toks: seq<Token>, lfreq: seq<nat>, dfreq: seq<nat>) {
    && |lfreq| >= L_CODES && |dfreq| >= D_CODES
    && (forall s: nat :: s < L_CODES ==> lfreq[s] == CountLit(toks, s) + if s == 256 then 1 else 0)
    && forall s: nat :: s < D_CODES ==> dfreq[s] == CountDist(toks, s)
  }

  // One more occurrence of a symbol.
  lemma {:induction false} OneMoreSymbol(freq: seq<nat>, lens: seq<nat>, d: StatDesc, s: nat, k: nat)
    requires k <= |freq| && k <= |lens| && (k > 0 ==> d.Covers(k - 1)) && s < |freq| && s < |lens|
    requires s < d.base || s - d.base < |d.extra|
    ensures BitCost(freq[s := freq[s] + 1], lens, d, k) ==
      BitCost(freq, lens, d, k) + if s < k then lens[s] + d.XBits(s) else 0
  {
    hide StatDesc.XBits;
    if k > 0 {
      OneMoreSymbol(freq, lens, d, s, k - 1);
      if s == k - 1 { Succ(freq[s], lens[s] + d.XBits(s)); }
    }
  }

  lemma Succ(a: nat, b: nat)
    ensures (a + 1) * b == a * b + b
  {
  }

  lemma {:induction false} NoSymbols(freq: seq<nat>, lens: seq<nat>, d: StatDesc, k: nat)
    requires k <= |freq| && k <= |lens| && (k > 0 ==> d.Covers(k - 1)) && forall s :: 0 <= s < k ==> freq[s] == 0
    ensures BitCost(freq, lens, d, k) == 0
  {
    if k > 0 { NoSymbols(freq, lens, d, k - 1); }
  }

  // ---- the body of a block ----

  function LitCounts(toks: seq<Token>): (c: seq<nat>)
    ensures |c| == L_CODES
  {
    seq(L_CODES, s requires 0 <= s => CountLit(toks, s))
  }

  function DistCounts(toks: seq<Token>): (c: seq<nat>)
    ensures |c| == D_CODES
  {
    seq(D_CODES, s requires 0 <= s => CountDist(toks, s))
  }

  lemma CountsNext(toks: seq<Token>, tok: Token)
    requires LitSymbol(tok) < L_CODES && (tok.Pair? ==> tok.dist >= 1 && DistCode(tok.dist - 1) < D_CODES)
    ensures LitCounts(toks + [tok]) == LitCounts(toks)[LitSymbol(tok) := CountLit(toks, LitSymbol(tok)) + 1]
    ensures tok.Literal? ==> DistCounts(toks + [tok]) == DistCounts(toks)
    ensures tok.Pair? ==>
      DistCounts(toks + [tok]) ==
        DistCounts(toks)[DistCode(tok.dist - 1) := CountDist(toks, DistCode(tok.dist - 1)) + 1]
  {
    hide LitSymbol, DistCode;
    var all := toks + [tok];
    assert all[..|all| - 1] == toks && all[|all| - 1] == tok;
  }

  // Lengths by symbol, padded to the whole alphabet.
  ghost predicate Extends(lens: seq<nat>, codes: seq<nat>, n: nat) {
    |lens| >= n && forall s: nat :: HasCode(codes, s) && s < n ==> lens[s] == codes[s]
  }

  lemma TokenCost(tok: Token, codes: Codes, ll: seq<nat>, dl: seq<nat>)
    requires Coded(tok, codes) && Extends(ll, codes.ll, L_CODES) && Extends(dl, codes.dl, D_CODES)
    ensures LitSymbol(tok) < L_CODES && (tok.Pair? ==> tok.dist >= 1 && DistCode(tok.dist - 1) < D_CODES)
    ensures LDesc().Covers(L_CODES - 1) && DDesc().Covers(D_CODES - 1)
    ensures |TokenBits(codes, tok)| == ll[LitSymbol(tok)] + LDesc().XBits(LitSymbol(tok))
      + if tok.Pair? then dl[DistCode(tok.dist - 1)] + DDesc().XBits(DistCode(tok.dist - 1)) else 0
  {
    hide LengthCode, DistCode, LDesc, DDesc, StatDesc.XBits, LengthBits, DistBits, SymBits, HasCode;
    DescFacts();
    match tok
    case Literal(c) =>
      LengthXBits(c);
      SymbolLength(codes.ll, c, ll, L_CODES);
    case Pair(dist, len) =>
      LengthCost(codes.ll, len - 3, ll);
      DistCost(codes.dl, dist - 1, dl);
  }

  lemma SymbolLength(codes: seq<nat>, s: nat, lens: seq<nat>, n: nat)
    requires HasCode(codes, s) && s < n && Extends(lens, codes, n)
    ensures |SymBits(codes, s)| == lens[s]
  {
  }

  lemma LengthCost(codes: seq<nat>, lc: nat, ll: seq<nat>)
    requires lc < 256 && HasCode(codes, 257 + LengthCode(lc)) && Extends(ll, codes, L_CODES)
    ensures LengthCode(lc) < LENGTH_CODES && LDesc().Covers(L_CODES - 1)
    ensures |LengthBits(codes, lc)| == ll[257 + LengthCode(lc)] + LDesc().XBits(257 + LengthCode(lc))
  {
    hide LengthCode, LDesc, StatDesc.XBits, SymBits, HasCode, Extends, ExtraLBits;
    LengthRoundTrip(lc);
    DescFacts();
    ExtendsFacts(ll, codes, L_CODES);
    LengthXBits(257 + LengthCode(lc));
    SymbolLength(codes, 257 + LengthCode(lc), ll, L_CODES);
  }

  lemma DistCost(codes: seq<nat>, d: nat, dl: seq<nat>)
    requires d < 32768 && HasCode(codes, DistCode(d)) && Extends(dl, codes, D_CODES)
    ensures DistCode(d) < D_CODES && DDesc().Covers(D_CODES - 1)
    ensures |DistBits(codes, d)| == dl[DistCode(d)] + DDesc().XBits(DistCode(d))
  {
    hide DistCode, DDesc, StatDesc.XBits, SymBits, HasCode, Extends, ExtraDBits, BaseDist;
    DistRoundTrip(d);
    DescFacts();
    ExtendsFacts(dl, codes, D_CODES);
    DistXBits(DistCode(d));
    SymbolLength(codes, DistCode(d), dl, D_CODES);
  }

  // The tokens take as many bits as their tallies say.
  lemma {:induction false} TokensCost(toks: seq<Token>, codes: Codes, ll: seq<nat>, dl: seq<nat>)
    requires AllCoded(toks, codes) && Extends(ll, codes.ll, L_CODES) && Extends(dl, codes.dl, D_CODES)
    ensures LDesc().Covers(L_CODES - 1) && DDesc().Covers(D_CODES - 1)
    ensures |TokensBits(codes, toks)| == BitCost(LitCounts(toks), ll, LDesc(), L_CODES)
      + BitCost(DistCounts(toks), dl, DDesc(), D_CODES)
    decreases |toks|
  {
    hide BitCost, TokenBits, TokensBits, Coded, Extends, LDesc, DDesc, LitSymbol, DistCode, StatDesc.XBits;
    DescFacts();
    ExtendsFacts(ll, codes.ll, L_CODES);
    ExtendsFacts(dl, codes.dl, D_CODES);
    if toks == [] {
      SendBlock.NoTokens(codes);
      NoSymbols(LitCounts(toks), ll, LDesc(), L_CODES);
      NoSymbols(DistCounts(toks), dl, DDesc(), D_CODES);
    } else {
      var rest, tok := toks[..|toks| - 1], toks[|toks| - 1];
      assert toks == rest + [tok];
      TokensCost(rest, codes, ll, dl);
      SendBlock.TokensBitsSnoc(codes, rest, tok);
      TokenCost(tok, codes, ll, dl);
      CountsNext(rest, tok);
      XDefined(LitSymbol(tok));
      OneMoreSymbol(LitCounts(rest), ll, LDesc(), LitSymbol(tok), L_CODES);
      if tok.Pair? { OneMoreSymbol(DistCounts(rest), dl, DDesc(), DistCode(tok.dist - 1), D_CODES); }
    }
  }

  lemma ExtendsFacts(lens: seq<nat>, codes: seq<nat>, n: nat)
    requires Extends(lens, codes, n)
    ensures |lens| >= n
  {
  }

  lemma XDefined(s: nat)
    requires s < L_CODES
    ensures s < LDesc().base || s - LDesc().base < |LDesc().extra|
    ensures |DDesc().extra| == D_CODES && DDesc().base == 0
  {
  }

  /** The body of a block takes exactly the bits its tallies announce. */
  lemma BodyCost(toks: seq<Token>, codes: Codes, ll: seq<nat>, dl: seq<nat>, lfreq: seq<nat>, dfreq: seq<nat>)
    requires AllCoded(toks, codes) && HasCode(codes.ll, 256) && Tallied(toks, lfreq, dfreq)
    requires Extends(ll, codes.ll, L_CODES) && Extends(dl, codes.dl, D_CODES)
    ensures LDesc().Covers(L_CODES - 1) && DDesc().Covers(D_CODES - 1)
    ensures |BodyBits(codes, toks)| == BitCost(lfreq, ll, LDesc(), L_CODES) + BitCost(dfreq, dl, DDesc(), D_CODES)
  {
    hide BitCost, TokensBits, Coded, LDesc, DDesc, CountLit, CountDist, StatDesc.XBits, Huff, BitsOf;
    DescFacts();
    TokensCost(toks, codes, ll, dl);
    var lc, dc := LitCounts(toks), DistCounts(toks);
    XDefined(256);
    OneMoreSymbol(lc, ll, LDesc(), 256, L_CODES);
    LengthXBits(256);
    BitsSame(lfreq, ll, lc[256 := lc[256] + 1], ll, LDesc(), L_CODES);
    BitsSame(dfreq, dl, dc, dl, DDesc(), D_CODES);
  }

  // ---- the trees ----

  function OpCounts(ops: seq<Op>): (c: seq<nat>)
    ensures |c| == BL_CODES
  {
    seq(BL_CODES, s requires 0 <= s => CountSymbol(ops, s))
  }

  lemma {:induction false} OpsCost(ops: seq<Op>, cl: seq<nat>)
    requires AllOpsCoded(ops, cl) && |cl| == 19
    ensures BlDesc().Covers(BL_CODES - 1)
    ensures |OpsBits(cl, ops)| == BitCost(OpCounts(ops), cl, BlDesc(), BL_CODES)
    decreases |ops|
  {
    hide BitCost, OpBits, BlDesc, Huff, StatDesc.XBits, BitsOf;
    DescFacts();
    if ops == [] {
      NoSymbols(OpCounts(ops), cl, BlDesc(), BL_CODES);
    } else {
      var op, rest := ops[0], ops[1..];
      OpsCost(rest, cl);
      OpCost(op, cl);
      assert OpCounts(ops) == OpCounts(rest)[op.Symbol() := CountSymbol(rest, op.Symbol()) + 1];
      BlDefined();
      OneMoreSymbol(OpCounts(rest), cl, BlDesc(), op.Symbol(), BL_CODES);
    }
  }

  lemma OpCost(op: Op, cl: seq<nat>)
    requires OpCoded(op, cl) && |cl| == 19
    ensures op.Symbol() < BL_CODES && BlDesc().Covers(BL_CODES - 1)
    ensures |OpBits(cl, op)| == cl[op.Symbol()] + BlDesc().XBits(op.Symbol())
  {
    hide BlDesc, StatDesc.XBits;
    DescFacts();
    BlXBits(op.Symbol());
  }

  lemma BlDefined()
    ensures BlDesc().base == 0 && |BlDesc().extra| == BL_CODES
  {
  }

  lemma {:induction false} RanksLength(cl: seq<nat>, i: nat, n: nat)
    requires |cl| == 19 && i <= n <= 19
    ensures |RankBits(cl, i, n)| == 3 * (n - i)
    decreases n - i
  {
    if i < n { RanksLength(cl, i + 1, n); }
  }

  /** The header of a dynamic block: 5+5+4 bits of counts, three bits a length, and the run-length symbols. */
  lemma HeaderCost(codes: Codes, cl: seq<nat>, n: nat, blfreq: seq<nat>)
    requires Sendable(codes, cl, n) && |blfreq| >= BL_CODES
    requires forall s: nat :: s < BL_CODES ==> blfreq[s] == CountSymbol(Encode(codes.ll) + Encode(codes.dl), s)
    ensures BlDesc().Covers(BL_CODES - 1)
    ensures |HeaderBits(codes, cl, n)| == BitCost(blfreq, cl, BlDesc(), BL_CODES) + 3 * n + 5 + 5 + 4
  {
    hide BitCost, OpsBits, Encode, BlDesc, RankBits, BitsOf, CountSymbol, Complete, Rank;
    DescFacts();
    var ops := Encode(codes.ll) + Encode(codes.dl);
    OpsCost(ops, cl);
    RanksLength(cl, 0, n);
    BitsSame(blfreq, cl, OpCounts(ops), cl, BlDesc(), BL_CODES);
  }
}
