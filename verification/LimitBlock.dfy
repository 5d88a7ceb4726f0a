/** Symbols whose frequencies make build_tree of deps/zlib/trees.c choose the literal/length code that fills the
    decoder's table: _tr_flush_block sends the block with this code, and inflate() refuses it. */
module LimitBlock {
  import opened Bits
  import opened BitStream
  import opened Canon
  import opened InflateTable
  import opened CodeLengthCoding
  import opened MatchCodes
  import opened Rfc1951
  import opened Lz77
  import opened Block
  import opened BitLengths
  import opened BuildTree
  import opened TreeCost
  import opened BlockCost
  import opened Dyadic
  import opened FlushBlock
  import opened BlockStream
  import opened Enough

  // ---- the frequencies ----

  // Every symbol as often as its length asks for; end-of-block occurs once.
  ghost predicate AtLimit(toks: seq<Token>) {
    AllInRange(toks) && forall s: nat :: s < L_CODES ==> CountLit(toks, s) + (if s == 256 then 1 else 0) == Often(s)
  }

  function Often(s: nat): nat {
    if s < 1 then 16384 else if s < 2 then 8192 else if s < 3 then 2048 else if s < 108 then 32 else if s < 256 then 16
    else if s < 257 then 1 else if s < 281 then 16 else if s < 282 then 8 else if s < 283 then 4 else if s < 284 then 2
    else if s < 285 then 1 else 16
  }

  // The sum of the first k frequencies.
  function OftenTo(k: nat): nat {
    if k <= 3 then (if k < 1 then 0 else if k < 2 then 16384 else if k < 3 then 24576 else 26624)
    else if k <= 108 then 26624 + 32 * (k - 3) else if k <= 256 then 29984 + 16 * (k - 108)
    else if k <= 281 then 32353 + 16 * (k - 257)
    else if k < 283 then 32745 else if k < 284 then 32749 else if k < 285 then 32751 else if k < 286 then 32752
      else 32768
  }

  // A bound for what they cost, five extra bits for every length.
  function CostTo(k: nat): nat {
    if k <= 3 then (if k < 1 then 0 else if k < 2 then 16384 else if k < 3 then 32768 else 40960)
    else if k <= 108 then 40960 + 320 * (k - 3) else if k <= 256 then 74560 + 176 * (k - 108)
    else if k <= 281 then 100623 + 256 * (k - 257)
    else if k < 283 then 106903 else if k < 284 then 106975 else if k < 285 then 107013 else if k < 286 then 107033
      else 107289
  }

  lemma OftenIs(s: nat)
    requires s < L_CODES
    ensures 1 <= Lengths.Of(s) <= MAXBITS && Often(s) == Pow2(MAXBITS - Lengths.Of(s))
      && OftenTo(s + 1) == OftenTo(s) + Often(s)
  {
    Enough.Powers();
    hide Pow2;
  }

  lemma CostNext(s: nat, x: nat)
    requires s < L_CODES && x <= 5 && (s < 257 ==> x == 0)
    ensures CostTo(s) + Often(s) * (Lengths.Of(s) + x) <= CostTo(s + 1)
  {
  }

  ghost predicate OftenAll(freq: seq<nat>) {
    |freq| >= L_CODES && forall s: nat :: s < L_CODES ==> freq[s] == Often(s)
  }

  lemma {:induction false} SumIs(freq: seq<nat>, k: nat)
    requires OftenAll(freq) && k <= L_CODES
    ensures FreqSum(freq, k) == OftenTo(k)
  {
    hide Often, OftenTo;
    if k > 0 {
      SumIs(freq, k - 1);
      OftenIs(k - 1);
    } else {
      NothingYet();
    }
  }

  lemma NothingYet()
    ensures OftenTo(0) == 0 && CostTo(0) == 0
  {
  }

  lemma LimitAsked(freq: seq<nat>)
    requires OftenAll(freq)
    ensures Asks(freq, Lens(Lengths), L_CODES)
  {
    hide FreqSum, Often, Pow2, Lens;
    Sizes(Lengths);
    SumIs(freq, L_CODES);
    Enough.Powers();
    forall s | 0 <= s < L_CODES
      ensures 1 <= Lens(Lengths)[s] <= MAXBITS && freq[s] == Pow2(MAXBITS - Lens(Lengths)[s]) { OftenIs(s); }
  }

  lemma TalliedLimit(toks: seq<Token>, lf: seq<nat>, df: seq<nat>)
    requires AtLimit(toks) && Tallied(toks, lf, df)
    ensures OftenAll(lf)
  {
    hide CountLit, CountDist, Often;
    forall s: nat | s < L_CODES ensures lf[s] == Often(s) {}
  }

  // build_tree gives the literal/length alphabet the code at the limit.
  lemma LimitTree(p: Plan, toks: seq<Token>)
    requires AtLimit(toks) && Planned(p, toks)
    ensures p.lb.maxCode < |p.lb.lens| <= |p.lb.code| && p.lb.Used().lens == p.lb.lens == Lens(Lengths)
  {
    hide Tallied, AtLimit, Complete, Huff, Lens, Pow2, OftenAll, Asks, DynamicBits, FixedBits, Fitting;
    var lf, df :| Tallied(toks, lf, df) && Answers(p.lb.lens, lf, L_CODES);
    TalliedLimit(toks, lf, df);
    LimitAsked(lf);
    Sizes(Lengths);
    assert p.lb.lens[285] > 0;
    assert p.lb.maxCode == 285;
    assert p.lb.lens[..286] == p.lb.lens;
  }

  // ---- the costs ----

  lemma {:induction false} StaticBound(freq: seq<nat>, k: nat)
    requires LDesc().Covers(L_CODES - 1) && |FixedCodes().ll| >= L_CODES && k <= L_CODES <= |freq|
    ensures BitCost(freq, FixedCodes().ll, LDesc(), k) >= 7 * FreqSum(freq, k)
  {
    hide LDesc, FixedCodes, StatDesc.XBits;
    if k > 0 {
      StaticBound(freq, k - 1);
      SevenBits(k - 1);
      AtLeast(freq[k - 1], FixedCodes().ll[k - 1] + LDesc().XBits(k - 1), 7);
    }
  }

  lemma AtLeast(f: nat, l: nat, m: nat)
    requires l >= m
    ensures f * l >= f * m
  {
  }

  lemma SevenBits(s: nat)
    requires s < L_CODES
    ensures |FixedCodes().ll| > s && FixedCodes().ll[s] >= 7
  {
  }

  lemma {:induction false} LengthBound(freq: seq<nat>, k: nat)
    requires LDesc().Covers(L_CODES - 1) && OftenAll(freq) && k <= L_CODES == |Lens(Lengths)|
    ensures BitCost(freq, Lens(Lengths), LDesc(), k) <= CostTo(k)
  {
    hide LDesc, StatDesc.XBits, Often, CostTo, Lens;
    Sizes(Lengths);
    if k > 0 {
      LengthBound(freq, k - 1);
      LengthXBits(k - 1);
      CostNext(k - 1, LDesc().XBits(k - 1));
    } else {
      NothingYet();
    }
  }

  lemma {:induction false} DistBound(freq: seq<nat>, lens: seq<nat>, k: nat)
    requires DDesc().Covers(D_CODES - 1) && k <= D_CODES && k <= |freq| && k <= |lens|
      && forall s :: 0 <= s < k ==> lens[s] <= 15
    ensures BitCost(freq, lens, DDesc(), k) <= 28 * FreqSum(freq, k)
  {
    hide DDesc, StatDesc.XBits;
    if k > 0 {
      DistBound(freq, lens, k - 1);
      DistXBits(k - 1);
      AtLeast(freq[k - 1], 28, lens[k - 1] + DDesc().XBits(k - 1));
    }
  }

  // A token is a literal or has a distance.
  lemma {:induction false} LiteralOrPair(toks: seq<Token>, lf: seq<nat>, df: seq<nat>)
    requires |lf| >= L_CODES && |df| >= D_CODES && AllInRange(toks)
    requires forall s: nat :: s < L_CODES ==> lf[s] == CountLit(toks, s)
    requires forall s: nat :: s < D_CODES ==> df[s] == CountDist(toks, s)
    ensures FreqSum(lf, 257) + FreqSum(df, D_CODES) == |toks|
    decreases |toks|
  {
    hide LengthCode, DistCode;
    if toks == [] {
      ZeroSum(lf, 257);
      ZeroSum(df, D_CODES);
    } else {
      var rest, tok := toks[..|toks| - 1], toks[|toks| - 1];
      SymbolsInRange(tok);
      var sym := LitSymbol(tok);
      var less := lf[sym := lf[sym] - 1];
      SumLess(lf, sym, 257);
      if tok.Pair? {
        var d := DistCode(tok.dist - 1);
        LiteralOrPair(rest, less, df[d := df[d] - 1]);
        SumLess(df, d, D_CODES);
      } else {
        LiteralOrPair(rest, less, df);
      }
    }
  }

  // Few symbols are pairs.
  lemma FewPairs(toks: seq<Token>, lf: seq<nat>, df: seq<nat>)
    requires AtLimit(toks) && Tallied(toks, lf, df)
    ensures OftenAll(lf) && FreqSum(df, D_CODES) == 415 && |toks| == 32767 && FreqSum(lf, L_CODES) == 32768
  {
    hide CountLit, CountDist, FreqSum, Often, AllInRange;
    TalliedLimit(toks, lf, df);
    var less := lf[256 := lf[256] - 1];
    LiteralOrPair(toks, less, df);
    forall i | 0 <= i < |toks| ensures LitSymbol(toks[i]) < L_CODES { AllInRangeAt(toks, i); }
    LitSum(toks, less);
    SumLess(lf, 256, 257);
    SumLess(lf, 256, L_CODES);
    SumIs(lf, 257);
    SumIs(lf, L_CODES);
  }

  lemma AllInRangeAt(toks: seq<Token>, i: nat)
    requires AllInRange(toks) && i < |toks|
    ensures LitSymbol(toks[i]) < L_CODES
  {
    hide LitSymbol;
    SymbolsInRange(toks[i]);
  }

  lemma {:induction false} OpsBound(ops: seq<Op>, cl: seq<nat>)
    requires AllOpsCoded(ops, cl) && |cl| == 19 && forall s :: 0 <= s < 19 ==> cl[s] <= 7
    ensures |OpsBits(cl, ops)| <= 14 * |ops|
    decreases |ops|
  {
    hide OpBits, StatDesc.XBits, BlDesc;
    if ops != [] {
      OpsBound(ops[1..], cl);
      OpCost(ops[0], cl);
      BlXBits(ops[0].Symbol());
    }
  }

  lemma HeaderBound(codes: Codes, cl: seq<nat>, n: nat)
    requires Sendable(codes, cl, n)
    ensures |HeaderBits(codes, cl, n)| <= 4495
  {
    hide OpsBits, Encode, RankBits, BitsOf, Complete, Rank;
    OpsBound(Encode(codes.ll) + Encode(codes.dl), cl);
    OpsShort(codes.ll);
    OpsShort(codes.dl);
    RanksLength(cl, 0, n);
  }

  lemma StaticCosts(p: Plan, toks: seq<Token>, lf: seq<nat>, df: seq<nat>)
    requires AtLimit(toks) && Planned(p, toks) && Tallied(toks, lf, df)
    ensures p.staticLen >= 229376
  {
    hide Tallied, Built.Valid, Fitting, DynamicBits, FixedBits, Answers, BitCost, LDesc, DDesc, FixedCodes, FreqSum,
         AllInRange, OftenAll, Often;
    FewPairs(toks, lf, df);
    FixedCost(toks, lf, df);
    TallySizes(toks, lf, df);
    StaticBound(lf, L_CODES);
  }

  lemma TallySizes(toks: seq<Token>, lf: seq<nat>, df: seq<nat>)
    requires Tallied(toks, lf, df)
    ensures |lf| >= L_CODES && |df| >= D_CODES
  {
  }

  lemma DynamicCosts(p: Plan, toks: seq<Token>, lf: seq<nat>, df: seq<nat>)
    requires AtLimit(toks) && Planned(p, toks) && Tallied(toks, lf, df)
    ensures p.optLen <= 123404
  {
    hide Tallied, FixedBits, Answers, BitCost, LDesc, DDesc, FreqSum, AllInRange, OftenAll, Often, Sendable, AllCoded,
         Complete, Huff, HeaderBits, BodyBits, TypeBits, AtLimit, Lens, Extends, HasCode;
    var codes, n := Codes(p.lb.Used().lens, p.db.Used().lens), p.maxBlindex + 1;
    LimitTree(p, toks);
    FewPairs(toks, lf, df);
    TallySizes(toks, lf, df);
    UsedValid(p.lb, L_CODES, 15);
    UsedValid(p.db, D_CODES, 15);
    SendableEnd(codes, p.bb.lens, n);
    BodyCost(toks, codes, p.lb.lens, p.db.lens, lf, df);
    HeaderBound(codes, p.bb.lens, n);
    TypeLength(2, false);
    LengthBound(lf, L_CODES);
    DistBound(df, p.db.lens, D_CODES);
    assert CostTo(L_CODES) == 107289;
  }

  /** Such a block is sent with its own trees, and the decoder has no room for their tables. */
  lemma LimitRefused(form: Form, p: Plan, toks: seq<Token>, buf: Option<seq<Byte>>)
    requires AtLimit(toks) && Planned(p, toks) && p.lb.maxCode < |p.lb.lens| <= |p.lb.code|
      && p.db.maxCode < |p.db.lens| <= |p.db.code|
    requires Chosen(form, p, buf, false) && (buf.Some? ==> |buf.value| >= |toks|)
    ensures form.DynamicForm? && form.codes.ll == Lens(Lengths) && !Readable(form)
  {
    hide Planned, AtLimit, Lens, TableFits, Tallied;
    var lf, df := SomeTally(p, toks);
    StaticCosts(p, toks, lf, df);
    DynamicCosts(p, toks, lf, df);
    FewPairs(toks, lf, df);
    LimitTree(p, toks);
    RefusedAtTheLimit(Lengths);
  }

  lemma SomeTally(p: Plan, toks: seq<Token>) returns (lf: seq<nat>, df: seq<nat>)
    requires Planned(p, toks)
    ensures Tallied(toks, lf, df)
  {
    hide Tallied, Answers;
    lf, df :| Tallied(toks, lf, df) && Answers(p.lb.lens, lf, L_CODES);
  }
}
