/** _tr_tally, build_bl_tree and _tr_flush_block of deps/zlib/trees.c: the block is sent in the form that was predicted
    to be shortest, in exactly the predicted number of bits. */
module FlushBlock {
  import opened Bits
  import opened BitStream
  import opened BitWriter
  import opened Canon
  import opened CodeLengthCoding
  import opened MatchCodes
  import opened Rfc1951
  import opened Lz77
  import opened Block
  import opened SendBlock
  import opened BitLengths
  import opened BuildTree
  import opened TreeCost
  import opened MakeTree
  import opened BlockCost
  import opened Dyadic

  // ---- one alphabet ----

  // What build_tree leaves in a tree: lengths of the whole alphabet, and codes.
  datatype Built = Built(lens: seq<nat>, code: seq<nat>, maxCode: nat) {
    ghost predicate Valid(elems: nat, maxLength: nat) {
      && maxCode < elems == |lens| <= |code| && maxLength <= MAXBITS
      && Complete(lens[..maxCode + 1]) && (forall s :: 0 <= s < elems ==> lens[s] <= maxLength)
      && (forall s :: maxCode < s < elems ==> lens[s] == 0)
      && forall s: nat :: HasCode(lens[..maxCode + 1], s) ==> code[s] == Huff(lens[..maxCode + 1], s)
    }

    // The tree as compress_block and send_tree use it.
    function Used(): Tree
      requires maxCode < |lens| <= |code|
    {
      Tree(lens[..maxCode + 1], code[..maxCode + 1])
    }
  }

  lemma UsedValid(b: Built, elems: nat, maxLength: nat)
    requires b.Valid(elems, maxLength)
    ensures b.Used().Valid() && ValidLens(b.Used().lens) && Complete(b.Used().lens)
      && Extends(b.lens, b.Used().lens, elems)
  {
    hide Base, CountTo, Huff;
  }

  // Symbols that occur have codes.
  ghost predicate Serves(lens: seq<nat>, freq: seq<nat>, elems: nat) {
    |lens| >= elems && |freq| >= elems && forall s: nat :: s < elems && freq[s] > 0 ==> lens[s] > 0
  }

  method MakeCodes(freq: array<nat>, elems: nat, d: StatDesc, optLen0: int, staticLen0: int)
    returns (b: Built, optLen: int, staticLen: int)
    requires 3 <= elems && 2 * elems <= freq.Length && d.Covers(elems - 1) && PlainStart(d)
    requires d.hasStatic ==> elems <= |d.stree| && forall s :: 0 <= s < elems ==> d.stree[s] > 0
    requires elems <= Pow2(d.maxLength) && FreqSum(freq[..], elems) + Missing(freq[..], elems) < 0x10000
    modifies freq
    ensures b.Valid(elems, d.maxLength) && Serves(b.lens, old(freq[..]), elems)
    ensures optLen == optLen0 + BitCost(old(freq[..]), b.lens, d, elems)
    ensures d.hasStatic ==> staticLen == staticLen0 + BitCost(old(freq[..]), d.stree, d, elems)
    ensures !d.hasStatic ==> staticLen == staticLen0
    ensures d.maxLength == MAXBITS ==> Answers(b.lens, old(freq[..]), elems)
  {
    hide BitCost, FreqSum, Missing, Grown, Answers, Complete, Huff, Pow2, BitLengths.DepthAt, TreeForest.Fathers,
         PlainStart, Built.Valid, Serves, MakeTree.Coded, HuffmanCost.Huffman, TreeWeights.Weigh, StatDesc.Covers;
    ghost var f0 := freq[..];
    var heap := new nat[2 * elems + 1](_ => 0);
    var depth := new nat[freq.Length](_ => 0);
    var dl := new nat[freq.Length](_ => 0);
    var code := new nat[elems](_ => 0);
    var blCount := new nat[MAXBITS + 1](_ => 0);
    var maxCode;
    ghost var order, dads, job;
    maxCode, optLen, staticLen, order, dads, job :=
      Build(heap, dl, freq, depth, blCount, code, elems, d, optLen0, staticLen0);
    b := Built(dl[..elems], code[..], maxCode);
    BuiltFrom(dl[..], code[..], maxCode, elems, f0, d);
    if d.maxLength == MAXBITS { Answered(order, dads, f0, freq[..], dl[..], maxCode, elems, job); }
  }

  lemma BuiltFrom(dl: seq<nat>, code: seq<nat>, maxCode: nat, elems: nat, freq: seq<nat>, d: StatDesc)
    requires maxCode < elems <= |dl| == |freq| && elems <= |code|
      && MakeTree.Coded(dl[..maxCode + 1], code, d.maxLength)
    requires forall s :: 0 <= s < elems && freq[s] > 0 ==> dl[s] > 0 && s <= maxCode
    requires (forall s :: maxCode < s < elems ==> dl[s] == 0) && d.Covers(elems - 1)
    ensures Built(dl[..elems], code, maxCode).Valid(elems, d.maxLength) && Serves(dl[..elems], freq, elems)
    ensures BitCost(freq, dl, d, elems) == BitCost(freq, dl[..elems], d, elems)
  {
    hide Huff, Complete, BitCost, MakeTree.Coded, Built.Valid;
    var lens := dl[..elems];
    assert lens[..maxCode + 1] == dl[..maxCode + 1];
    BitsSame(freq, dl, freq, lens, d, elems);
    ValidFrom(lens, code, maxCode, elems, d.maxLength);
    assert Serves(lens, freq, elems);
  }

  lemma ValidFrom(lens: seq<nat>, code: seq<nat>, maxCode: nat, elems: nat, maxLength: nat)
    requires maxCode < elems == |lens| <= |code| && MakeTree.Coded(lens[..maxCode + 1], code, maxLength)
      && maxLength <= MAXBITS
    requires forall s :: maxCode < s < elems ==> lens[s] == 0
    ensures Built(lens, code, maxCode).Valid(elems, maxLength)
  {
    hide Huff, Complete, MakeTree.Coded;
    var used := lens[..maxCode + 1];
    CodedLens(used, code, maxLength);
    forall s | 0 <= s < elems ensures lens[s] <= maxLength {
      if s <= maxCode { assert used[s] == lens[s]; }
    }
  }

  lemma CodedLens(lens: seq<nat>, code: seq<nat>, maxLength: nat)
    requires MakeTree.Coded(lens, code, maxLength)
    ensures Complete(lens) && |lens| <= |code| && (forall s :: 0 <= s < |lens| ==> lens[s] <= maxLength)
    ensures forall s: nat :: HasCode(lens, s) ==> code[s] == Huff(lens, s)
  {
  }

  // ---- the code length code ----

  // Unused symbols at the end of the alphabet do not matter to the code.
  lemma {:induction false} PaddedCount(lens: seq<nat>, n: nat, k: nat, b: nat)
    requires n <= k <= |lens| && b > 0 && forall s :: n <= s < k ==> lens[s] == 0
    ensures CountTo(lens, k, b) == CountTo(lens[..n], n, b)
    decreases k
  {
    if k > n {
      PaddedCount(lens, n, k - 1, b);
    } else {
      SameCount(lens, n, n, b);
    }
  }

  lemma {:induction false} SameCount(lens: seq<nat>, n: nat, k: nat, b: nat)
    requires k <= n <= |lens|
    ensures CountTo(lens, k, b) == CountTo(lens[..n], k, b)
  {
    if k > 0 { SameCount(lens, n, k - 1, b); }
  }

  lemma {:induction false} PaddedBase(lens: seq<nat>, n: nat, l: nat)
    requires n <= |lens| && l <= MAXBITS + 1 && forall s :: n <= s < |lens| ==> lens[s] == 0
    ensures Base(lens, l) == Base(lens[..n], l)
  {
    if l > 1 {
      PaddedBase(lens, n, l - 1);
      PaddedCount(lens, n, |lens|, l - 1);
    }
  }

  // The padded tree codes the same symbols in the same way.
  lemma Padded(b: Built, elems: nat, maxLength: nat)
    requires b.Valid(elems, maxLength)
    ensures Complete(b.lens) && Tree(b.lens, b.code[..elems]).Valid()
  {
    hide Base, CountTo, Rev;
    var n := b.maxCode + 1;
    PaddedBase(b.lens, n, MAXBITS + 1);
    forall s: nat | HasCode(b.lens, s) ensures b.code[s] == Huff(b.lens, s) {
      PaddedBase(b.lens, n, b.lens[s]);
      SameCount(b.lens, n, s, b.lens[s]);
      assert HasCode(b.lens[..n], s);
    }
  }

  // ---- frequencies of run-length symbols ----

  lemma {:induction false} OpSum(ops: seq<Op>, freq: seq<nat>)
    requires (forall i :: 0 <= i < |ops| ==> ops[i].InRange()) && |freq| >= BL_CODES
    requires forall s: nat :: s < BL_CODES ==> freq[s] == CountSymbol(ops, s)
    ensures FreqSum(freq, BL_CODES) == |ops|
  {
    hide CountSymbol;
    if ops == [] {
      forall s: nat | s < BL_CODES ensures freq[s] == 0 { EmptyCount(s); }
      ZeroSum(freq, BL_CODES);
    } else {
      var rest, sym := ops[1..], ops[0].Symbol();
      assert ops[0].InRange();
      assert freq[sym] > 0 by { FirstCount(ops, sym); }
      var less := freq[sym := freq[sym] - 1];
      forall s: nat | s < BL_CODES ensures less[s] == CountSymbol(rest, s) { FirstCount(ops, s); }
      OpSum(rest, less);
      SumLess(freq, sym, BL_CODES);
    }
  }

  lemma EmptyCount(s: nat)
    ensures CountSymbol([], s) == 0
  {
  }

  lemma FirstCount(ops: seq<Op>, s: nat)
    requires ops != []
    ensures CountSymbol(ops, s) == CountSymbol(ops[1..], s) + if ops[0].Symbol() == s then 1 else 0
  {
  }

  lemma {:induction false} ZeroSum(freq: seq<nat>, k: nat)
    requires k <= |freq| && forall s :: 0 <= s < k ==> freq[s] == 0
    ensures FreqSum(freq, k) == 0
  {
    if k > 0 { ZeroSum(freq, k - 1); }
  }

  lemma {:induction false} SumLess(freq: seq<nat>, s: nat, k: nat)
    requires s < |freq| && k <= |freq| && freq[s] > 0
    ensures FreqSum(freq, k) == FreqSum(freq[s := freq[s] - 1], k) + if s < k then 1 else 0
  {
    if k > 0 { SumLess(freq, s, k - 1); }
  }

  // A run-length symbol stands for at least one length.
  lemma OpsShort(lens: seq<nat>)
    requires forall i :: 0 <= i < |lens| ==> lens[i] <= 15
    ensures |Encode(lens)| <= |lens| && forall i :: 0 <= i < |Encode(lens)| ==> Encode(lens)[i].InRange()
  {
    hide Encode;
    RoundTrip(lens);
    var ops := Encode(lens);
    forall i | 0 <= i < |ops| ensures ops[i].InRange() { assert ops[i] in ops; }
    ExpandBound(ops, []);
  }

  // A symbol that is sent has a frequency, hence a code.
  lemma {:induction false} OpCounted(ops: seq<Op>, i: nat)
    requires i < |ops|
    ensures CountSymbol(ops, ops[i].Symbol()) > 0
  {
    if i > 0 { OpCounted(ops[1..], i - 1); }
  }

  lemma OpsCoded(ops: seq<Op>, freq: seq<nat>, b: Built)
    requires b.Valid(BL_CODES, 7) && Serves(b.lens, freq, BL_CODES) && (forall i :: 0 <= i < |ops| ==> ops[i].InRange())
    requires forall s: nat :: s < BL_CODES ==> freq[s] == CountSymbol(ops, s)
    ensures AllOpsCoded(ops, b.lens)
  {
    hide CountSymbol, Complete, Huff;
    forall i | 0 <= i < |ops| ensures OpCoded(ops[i], b.lens) { OpCounted(ops, i); }
  }

  // Count the run-length symbols of both trees.
  method ScanBoth(ll: seq<nat>, dl: seq<nat>, bfreq: array<nat>)
    requires ll != [] && dl != [] && ValidLens(ll) && ValidLens(dl) && bfreq.Length >= BL_CODES
    requires forall s: nat :: s < BL_CODES ==> bfreq[s] == 0
    modifies bfreq
    ensures forall s: nat :: s < BL_CODES ==> bfreq[s] == CountSymbol(Encode(ll) + Encode(dl), s)
  {
    hide CountSymbol, Encode;
    ghost var f0 := bfreq[..];
    ScanTree(ll, bfreq);
    ghost var f1 := bfreq[..];
    ScanTree(dl, bfreq);
    CountedConcat(bfreq[..], f1, f0, Encode(ll), Encode(dl));
    assert CodeLengthCoding.Counted(bfreq[..], f0, Encode(ll) + Encode(dl));
    forall s: nat | s < BL_CODES ensures bfreq[s] == CountSymbol(Encode(ll) + Encode(dl), s) {
      assert bfreq[..][s] == f0[s] + CountSymbol(Encode(ll) + Encode(dl), s) && f0[s] == 0;
    }
  }

  /** build_bl_tree: opt_len now counts the header as well. */
  method BuildBlTree(ll: seq<nat>, dl: seq<nat>, bfreq: array<nat>, optLen0: int)
    returns (b: Built, maxBlindex: nat, optLen: int, ghost blfreq: seq<nat>)
    requires ll != [] && dl != [] && ValidLens(ll) && ValidLens(dl) && |ll| <= L_CODES && |dl| <= D_CODES
    requires bfreq.Length >= 2 * BL_CODES && forall s: nat :: s < BL_CODES ==> bfreq[s] == 0
    requires |ll| > 256 && ll[256] > 0
    modifies bfreq
    ensures b.Valid(BL_CODES, 7) && 3 <= maxBlindex < 19 && AllOpsCoded(Encode(ll) + Encode(dl), b.lens)
    ensures forall s: nat :: s < 19 && Rank(s) > maxBlindex ==> b.lens[s] == 0
    ensures HeaderPaid(ll, dl, b.lens, blfreq, maxBlindex + 1, optLen - optLen0)
  {
    hide CountSymbol, Encode, BitCost, Complete, Huff, BlDesc, FreqSum, Missing, PlainStart, StatDesc.Covers, Rank,
         Order, HeaderPaid, Pow2;
    ghost var ops := Encode(ll) + Encode(dl);
    ScanBoth(ll, dl, bfreq);
    blfreq := bfreq[..];
    DescFacts();
    OpsShort(ll);
    OpsShort(dl);
    BlBounds(ops, blfreq);
    var stat;
    b, optLen, stat := MakeCodes(bfreq, BL_CODES, BlDesc(), optLen0, 0);
    OpsCoded(ops, blfreq, b);
    ghost var i := SomeLength(ll, 256);
    assert ops[i] == Encode(ll)[i] && OpCoded(ops[i], b.lens);
    maxBlindex := LastRank(b.lens, ops[i].l);
    optLen := optLen + 3 * (maxBlindex + 1) + 5 + 5 + 4;
    PaidFrom(ll, dl, b.lens, blfreq, maxBlindex + 1, optLen - optLen0);
  }

  // The cost of the header as opt_len has it.
  ghost predicate HeaderPaid(ll: seq<nat>, dl: seq<nat>, cl: seq<nat>, blfreq: seq<nat>, n: nat, cost: int) {
    && |blfreq| >= BL_CODES && |cl| >= BL_CODES && BlDesc().Covers(BL_CODES - 1)
    && (forall s: nat :: s < BL_CODES ==> blfreq[s] == CountSymbol(Encode(ll) + Encode(dl), s))
    && cost == BitCost(blfreq, cl, BlDesc(), BL_CODES) + 3 * n + 5 + 5 + 4
  }

  lemma PaidFrom(ll: seq<nat>, dl: seq<nat>, cl: seq<nat>, blfreq: seq<nat>, n: nat, cost: int)
    requires |blfreq| >= BL_CODES && |cl| >= BL_CODES && BlDesc().Covers(BL_CODES - 1)
    requires forall s: nat :: s < BL_CODES ==> blfreq[s] == CountSymbol(Encode(ll) + Encode(dl), s)
    requires cost == BitCost(blfreq, cl, BlDesc(), BL_CODES) + 3 * n + 5 + 5 + 4
    ensures HeaderPaid(ll, dl, cl, blfreq, n, cost)
  {
  }

  lemma BlBounds(ops: seq<Op>, freq: seq<nat>)
    requires (forall i :: 0 <= i < |ops| ==> ops[i].InRange()) && |freq| >= BL_CODES && |ops| <= 316
    requires forall s: nat :: s < BL_CODES ==> freq[s] == CountSymbol(ops, s)
    ensures FreqSum(freq, BL_CODES) + Missing(freq, BL_CODES) < 0x10000
  {
    hide CountSymbol, FreqSum, NonZero;
    OpSum(ops, freq);
  }

  // Index in bl_order of the last length that is not zero.
  method LastRank(cl: seq<nat>, ghost x: nat) returns (k: nat)
    requires |cl| == 19 && x < 16 && cl[x] != 0
    ensures 3 <= k < 19 && forall s: nat :: s < 19 && Rank(s) > k ==> cl[s] == 0
  {
    hide Order;
    OrderRank(x);
    assert Rank(x) >= 3;
    hide Rank;
    k := 18;
    forall s: nat | s < 19 ensures Rank(s) < 19 { OrderRank(s); }
    while k >= 3
      invariant 3 <= Rank(x) <= k < 19 && forall s: nat :: s < 19 && Rank(s) > k ==> cl[s] == 0
    {
      OrderRank(k);
      if cl[Order(k)] != 0 { return; }
      forall s: nat | s < 19 && Rank(s) > k - 1 ensures cl[s] == 0 {
        OrderRank(s);
        if Rank(s) == k { assert Order(Rank(s)) == s; }
      }
      k := k - 1;
    }
  }

  // Lengths are not all zero, so one of them is sent as itself.
  lemma {:induction false} NoLenNoLength(ops: seq<Op>, have: seq<nat>)
    requires CodeLengthCoding.Expand(ops, have).Some? && (forall i :: 0 <= i < |have| ==> have[i] == 0)
    requires forall i :: 0 <= i < |ops| ==> !(ops[i].Len? && ops[i].l > 0)
    ensures forall i :: 0 <= i < |CodeLengthCoding.Expand(ops, have).value| ==>
      CodeLengthCoding.Expand(ops, have).value[i] == 0
    decreases |ops|
  {
    if ops != [] {
      assert !(ops[0].Len? && ops[0].l > 0);
      NoLenNoLength(ops[1..], Apply(ops[0], have).value);
    }
  }

  lemma SomeLength(lens: seq<nat>, k: nat) returns (i: nat)
    requires (forall i :: 0 <= i < |lens| ==> lens[i] <= 15) && k < |lens| && lens[k] > 0
    ensures i < |Encode(lens)| && Encode(lens)[i].Len? && 0 < Encode(lens)[i].l < 16
  {
    hide Encode;
    RoundTrip(lens);
    var ops := Encode(lens);
    if forall i :: 0 <= i < |ops| ==> !(ops[i].Len? && ops[i].l > 0) {
      NoLenNoLength(ops, []);
      assert false;
    }
    i :| 0 <= i < |ops| && ops[i].Len? && ops[i].l > 0;
    assert ops[i] in ops;
  }

  // ---- frequencies of the tokens ----

  lemma {:induction false} LitSum(toks: seq<Token>, freq: seq<nat>)
    requires |freq| >= L_CODES && (forall i :: 0 <= i < |toks| ==> LitSymbol(toks[i]) < L_CODES)
    requires forall s: nat :: s < L_CODES ==> freq[s] == CountLit(toks, s)
    ensures FreqSum(freq, L_CODES) == |toks|
    decreases |toks|
  {
    hide LitSymbol;
    if toks == [] {
      ZeroSum(freq, L_CODES);
    } else {
      var rest, sym := toks[..|toks| - 1], LitSymbol(toks[|toks| - 1]);
      var less := freq[sym := freq[sym] - 1];
      LitSum(rest, less);
      SumLess(freq, sym, L_CODES);
    }
  }

  lemma {:induction false} DistSum(toks: seq<Token>, freq: seq<nat>)
    requires |freq| >= D_CODES && forall s: nat :: s < D_CODES ==> freq[s] == CountDist(toks, s)
    ensures FreqSum(freq, D_CODES) <= |toks|
    decreases |toks|
  {
    hide DistCode;
    if toks == [] {
      ZeroSum(freq, D_CODES);
    } else {
      var rest, tok := toks[..|toks| - 1], toks[|toks| - 1];
      if tok.Pair? && tok.dist >= 1 && DistCode(tok.dist - 1) < D_CODES {
        var sym := DistCode(tok.dist - 1);
        var less := freq[sym := freq[sym] - 1];
        DistSum(rest, less);
        SumLess(freq, sym, D_CODES);
      } else {
        DistSum(rest, freq);
      }
    }
  }

  // Symbols of tokens in the block are counted.
  lemma {:induction false} TokenCounted(toks: seq<Token>, i: nat)
    requires i < |toks|
    ensures CountLit(toks, LitSymbol(toks[i])) > 0
    ensures toks[i].Pair? && toks[i].dist >= 1 ==> CountDist(toks, DistCode(toks[i].dist - 1)) > 0
    decreases |toks|
  {
    hide LitSymbol, DistCode;
    if i < |toks| - 1 { TokenCounted(toks[..|toks| - 1], i); }
  }

  lemma SymbolsInRange(tok: Token)
    requires Block.InRange(tok)
    ensures LitSymbol(tok) < L_CODES && (tok.Pair? ==> DistCode(tok.dist - 1) < D_CODES)
  {
    hide LengthCode, DistCode;
    if tok.Pair? {
      LengthRoundTrip(tok.len - 3);
      DistRoundTrip(tok.dist - 1);
    }
  }

  ghost predicate AllInRange(toks: seq<Token>) {
    forall i :: 0 <= i < |toks| ==> Block.InRange(toks[i])
  }

  lemma TallyBounds(toks: seq<Token>, lfreq: seq<nat>, dfreq: seq<nat>)
    requires Tallied(toks, lfreq, dfreq) && AllInRange(toks) && |toks| < 0xfffd
    ensures FreqSum(lfreq, L_CODES) + Missing(lfreq, L_CODES) < 0x10000
    ensures FreqSum(dfreq, D_CODES) + Missing(dfreq, D_CODES) < 0x10000
  {
    hide FreqSum, NonZero, CountLit, CountDist;
    var less := lfreq[256 := lfreq[256] - 1];
    forall i | 0 <= i < |toks| ensures LitSymbol(toks[i]) < L_CODES { SymbolsInRange(toks[i]); }
    LitSum(toks, less);
    SumLess(lfreq, 256, L_CODES);
    DistSum(toks, dfreq);
  }

  // Every token of the block has its codes.
  lemma TokensCoded(toks: seq<Token>, lfreq: seq<nat>, dfreq: seq<nat>, lb: Built, db: Built)
    requires Tallied(toks, lfreq, dfreq) && AllInRange(toks)
    requires lb.Valid(L_CODES, 15) && db.Valid(D_CODES, 15) && Serves(lb.lens, lfreq, L_CODES)
      && Serves(db.lens, dfreq, D_CODES)
    ensures AllCoded(toks, Codes(lb.Used().lens, db.Used().lens)) && HasCode(lb.Used().lens, 256) && lb.maxCode >= 256
  {
    hide CountLit, CountDist, LitSymbol, DistCode, LengthCode, Complete, Huff;
    var ll, dl := lb.Used().lens, db.Used().lens;
    UsedCode(lb, L_CODES, 15, 256);
    forall i | 0 <= i < |toks| ensures Block.Coded(toks[i], Codes(ll, dl)) {
      SymbolsInRange(toks[i]);
      TokenCounted(toks, i);
      UsedCode(lb, L_CODES, 15, LitSymbol(toks[i]));
      if toks[i].Pair? { UsedCode(db, D_CODES, 15, DistCode(toks[i].dist - 1)); }
      CodedFrom(toks[i], Codes(ll, dl));
    }
  }

  lemma CodedFrom(tok: Token, codes: Codes)
    requires Block.InRange(tok) && HasCode(codes.ll, LitSymbol(tok))
      && (tok.Pair? ==> HasCode(codes.dl, DistCode(tok.dist - 1)))
    ensures Block.Coded(tok, codes)
  {
    hide LengthCode, DistCode;
  }

  lemma UsedCode(b: Built, elems: nat, maxLength: nat, s: nat)
    requires b.Valid(elems, maxLength) && s < elems
    ensures b.lens[s] > 0 ==> HasCode(b.Used().lens, s) && s <= b.maxCode
  {
  }

  // ---- a whole block ----

  datatype Form =
    | StoredForm(pad: seq<bool>)
    | FixedForm
    | DynamicForm(codes: Codes, cl: seq<nat>, n: nat)

  // The block can be sent in this form.
  ghost predicate Fitting(form: Form, toks: seq<Token>, buf: Option<seq<Byte>>) {
    match form
    case StoredForm(pad) => buf.Some? && |buf.value| < Pow2(16) && |pad| < 8
    case FixedForm => AllInRange(toks)
    case DynamicForm(codes, cl, n) =>
      Sendable(codes, cl, n) && AllCoded(toks, codes) && Complete(codes.ll) && Complete(codes.dl)
  }

  // The padding of a stored block that starts at bit p reaches the byte boundary.
  predicate Aligned(form: Form, p: nat) {
    form.StoredForm? ==> (p + 3 + |form.pad|) % 8 == 0
  }

  ghost function FormBits(form: Form, toks: seq<Token>, buf: Option<seq<Byte>>, last: bool): seq<bool>
    requires Fitting(form, toks, buf)
  {
    match form
    case StoredForm(pad) => StoredBits(pad, buf.value, last)
    case FixedForm => FixedBits(toks, last)
    case DynamicForm(codes, cl, n) => DynamicBits(codes, cl, n, toks, last)
  }

  // The three trees and the two predicted costs.
  datatype Plan = Plan(lb: Built, db: Built, bb: Built, maxBlindex: nat, optLen: int, staticLen: int)

  ghost predicate Planned(p: Plan, toks: seq<Token>) {
    && p.lb.Valid(L_CODES, 15) && p.db.Valid(D_CODES, 15) && p.bb.Valid(BL_CODES, 7)
    && var codes := Codes(p.lb.Used().lens, p.db.Used().lens);
      && Fitting(DynamicForm(codes, p.bb.lens, p.maxBlindex + 1), toks, None) && AllInRange(toks)
      && |DynamicBits(codes, p.bb.lens, p.maxBlindex + 1, toks, false)| == p.optLen + 3
      && |FixedBits(toks, false)| == p.staticLen + 3
      && exists lf, df :: Tallied(toks, lf, df) && Answers(p.lb.lens, lf, L_CODES)
  }

  // Build the trees; opt_len and static_len predict the block exactly.
  method MakePlan(lfreq: array<nat>, dfreq: array<nat>, bfreq: array<nat>, ghost toks: seq<Token>) returns (p: Plan)
    requires lfreq != dfreq && lfreq != bfreq && dfreq != bfreq
    requires lfreq.Length >= 2 * L_CODES && dfreq.Length >= 2 * D_CODES && bfreq.Length >= 2 * BL_CODES
    requires Tallied(toks, lfreq[..], dfreq[..]) && AllInRange(toks) && |toks| < 0xfffd
    requires forall s: nat :: s < BL_CODES ==> bfreq[s] == 0
    modifies lfreq, dfreq, bfreq
    ensures Planned(p, toks)
  {
    hide Tallied, AllInRange, BitCost, FreqSum, Missing, LDesc, DDesc, BlDesc, Built.Valid, Serves, Planned, AllCoded,
         Encode, Answers, PlainStart, StatDesc.Covers, HeaderPaid, FixedCodes, Rank, Pow2, AllOpsCoded;
    ghost var lf, df := lfreq[..], dfreq[..];
    DescFacts();
    TallyBounds(toks, lf, df);
    var lb, db, opt, stat;
    lb, opt, stat := MakeCodes(lfreq, L_CODES, LDesc(), 0, 0);
    db, opt, stat := MakeCodes(dfreq, D_CODES, DDesc(), opt, stat);
    ghost var cost := opt;
    BuiltSizes(lb, L_CODES, 15);
    BuiltSizes(db, D_CODES, 15);
    TokensCoded(toks, lf, df, lb, db);
    UsedValid(lb, L_CODES, 15);
    UsedValid(db, D_CODES, 15);
    EndCode(lb);
    var bb, k, total;
    ghost var blfreq;
    bb, k, total, blfreq := BuildBlTree(lb.lens[..lb.maxCode + 1], db.lens[..db.maxCode + 1], bfreq, opt);
    p := Plan(lb, db, bb, k, total, stat);
    PlanCosts(p, toks, lf, df, blfreq, cost);
  }

  lemma BuiltSizes(b: Built, elems: nat, maxLength: nat)
    requires b.Valid(elems, maxLength)
    ensures b.maxCode < elems == |b.lens| <= |b.code|
  {
  }

  lemma EndCode(b: Built)
    requires b.maxCode < |b.lens| <= |b.code| && HasCode(b.Used().lens, 256)
    ensures |b.lens[..b.maxCode + 1]| > 256 && b.lens[..b.maxCode + 1][256] > 0
  {
  }

  lemma PlanCosts(p: Plan, toks: seq<Token>, lf: seq<nat>, df: seq<nat>, blfreq: seq<nat>, cost: int)
    requires p.lb.Valid(L_CODES, 15) && p.db.Valid(D_CODES, 15) && p.bb.Valid(BL_CODES, 7) && 3 <= p.maxBlindex < 19
    requires Tallied(toks, lf, df) && AllInRange(toks)
    requires LDesc().Covers(L_CODES - 1) && DDesc().Covers(D_CODES - 1) && |FixedCodes().ll| >= L_CODES
      && |FixedCodes().dl| >= D_CODES
    requires cost == BitCost(lf, p.lb.lens, LDesc(), L_CODES) + BitCost(df, p.db.lens, DDesc(), D_CODES)
    requires p.staticLen == BitCost(lf, FixedCodes().ll, LDesc(), L_CODES)
      + BitCost(df, FixedCodes().dl, DDesc(), D_CODES)
    requires Serves(p.lb.lens, lf, L_CODES) && Serves(p.db.lens, df, D_CODES) && Answers(p.lb.lens, lf, L_CODES)
    requires AllOpsCoded(Encode(p.lb.Used().lens) + Encode(p.db.Used().lens), p.bb.lens)
    requires forall s: nat :: s < 19 && Rank(s) > p.maxBlindex ==> p.bb.lens[s] == 0
    requires HeaderPaid(p.lb.Used().lens, p.db.Used().lens, p.bb.lens, blfreq, p.maxBlindex + 1, p.optLen - cost)
    ensures Planned(p, toks)
  {
    hide Tallied, BitCost, LDesc, DDesc, BlDesc, Serves, Encode, FixedCodes, Rank, Complete, AllOpsCoded, HeaderBits,
         BodyBits, AllCoded, TypeBits, Answers;
    var codes, n := Codes(p.lb.Used().lens, p.db.Used().lens), p.maxBlindex + 1;
    TokensCoded(toks, lf, df, p.lb, p.db);
    UsedValid(p.lb, L_CODES, 15);
    UsedValid(p.db, D_CODES, 15);
    Padded(p.bb, BL_CODES, 7);
    assert Sendable(codes, p.bb.lens, n);
    HeaderCost(codes, p.bb.lens, n, blfreq);
    BodyCost(toks, codes, p.lb.lens, p.db.lens, lf, df);
    TypeLength(2, false);
    FixedCost(toks, lf, df);
  }

  lemma FixedCost(toks: seq<Token>, lf: seq<nat>, df: seq<nat>)
    requires Tallied(toks, lf, df) && AllInRange(toks)
    ensures LDesc().Covers(L_CODES - 1) && DDesc().Covers(D_CODES - 1) && |FixedCodes().ll| >= L_CODES
      && |FixedCodes().dl| >= D_CODES
    ensures |FixedBits(toks, false)| == 3 + BitCost(lf, FixedCodes().ll, LDesc(), L_CODES)
      + BitCost(df, FixedCodes().dl, DDesc(), D_CODES)
  {
    hide Tallied, BitCost, LDesc, DDesc, FixedCodes, BodyBits, AllCoded, TypeBits, Complete;
    DescFacts();
    FixedCodesAll(toks);
    FixedComplete();
    FixedExtends();
    BodyCost(toks, FixedCodes(), FixedCodes().ll, FixedCodes().dl, lf, df);
    TypeLength(1, false);
  }

  lemma FixedExtends()
    ensures Extends(FixedCodes().ll, FixedCodes().ll, L_CODES) && Extends(FixedCodes().dl, FixedCodes().dl, D_CODES)
  {
  }

  // init_block: no symbol has occurred but the end-of-block that is to come.
  method InitBlock(lfreq: array<nat>, dfreq: array<nat>, bfreq: array<nat>)
    requires lfreq != dfreq && lfreq != bfreq && dfreq != bfreq
    requires lfreq.Length >= 2 * L_CODES && dfreq.Length >= 2 * D_CODES && bfreq.Length >= 2 * BL_CODES
    modifies lfreq, dfreq, bfreq
    ensures Tallied([], lfreq[..], dfreq[..]) && forall s: nat :: s < BL_CODES ==> bfreq[s] == 0
  {
    for n := 0 to L_CODES
      invariant forall s: nat :: s < n ==> lfreq[s] == 0
    {
      lfreq[n] := 0;
    }
    for n := 0 to D_CODES
      invariant forall s: nat :: s < n ==> dfreq[s] == 0
      modifies dfreq
    {
      dfreq[n] := 0;
    }
    for n := 0 to BL_CODES
      invariant forall s: nat :: s < n ==> bfreq[s] == 0
      modifies bfreq
    {
      bfreq[n] := 0;
    }
    lfreq[256] := 1;
  }

  /** _tr_tally: one more literal (dist 0) or pair in the buffers, with its symbols counted. */
  method Tally(dBuf: array<nat>, lBuf: array<Byte>, lastLit0: nat, lfreq: array<nat>, dfreq: array<nat>, dist: nat,
               lc: Byte, lengthCode: array<nat>, distCode: array<nat>) returns (lastLit: nat, flush: bool)
    requires lastLit0 < dBuf.Length == lBuf.Length && dist <= 32768
    requires {lfreq, dfreq, dBuf} !! {lengthCode, distCode} && lfreq != dfreq && dBuf != lfreq && dBuf != dfreq
    requires Tallied(TokensOf(dBuf[..lastLit0], lBuf[..lastLit0]), lfreq[..], dfreq[..])
    requires lengthCode.Length == 256 && (forall c :: 0 <= c < 256 ==> lengthCode[c] == LengthCode(c))
      && DistTable(distCode[..])
    modifies dBuf, lBuf, lfreq, dfreq
    ensures lastLit == lastLit0 + 1 && (flush <==> lastLit == dBuf.Length - 1)
    ensures TokensOf(dBuf[..lastLit], lBuf[..lastLit]) == old(TokensOf(dBuf[..lastLit0], lBuf[..lastLit0]))
      + [TokenOf(dist, lc)]
    ensures Tallied(TokensOf(dBuf[..lastLit], lBuf[..lastLit]), lfreq[..], dfreq[..])
  {
    hide Tallied, LengthCode, DistCode, DistTable;
    ghost var toks, lf, df := TokensOf(dBuf[..lastLit0], lBuf[..lastLit0]), lfreq[..], dfreq[..];
    SymbolsInRange(TokenOf(dist, lc));
    TallyNext(toks, lf, df, TokenOf(dist, lc));
    dBuf[lastLit0] := dist;
    lBuf[lastLit0] := lc;
    lastLit := lastLit0 + 1;
    assert TokensOf(dBuf[..lastLit], lBuf[..lastLit]) == toks + [TokenOf(dist, lc)];
    if dist == 0 {
      lfreq[lc] := lfreq[lc] + 1;
      assert lfreq[..] == lf[lc := lf[lc] + 1] && dfreq[..] == df;
    } else {
      var d := DCode(distCode, dist - 1);
      var l := lengthCode[lc] + 256 + 1;
      lfreq[l] := lfreq[l] + 1;
      dfreq[d] := dfreq[d] + 1;
      assert lfreq[..] == lf[l := lf[l] + 1] && dfreq[..] == df[d := df[d] + 1];
    }
    flush := lastLit == dBuf.Length - 1;
  }

  lemma TallyNext(toks: seq<Token>, lf: seq<nat>, df: seq<nat>, tok: Token)
    requires Tallied(toks, lf, df) && Block.InRange(tok)
    ensures LitSymbol(tok) < L_CODES <= |lf| && (tok.Pair? ==> DistCode(tok.dist - 1) < D_CODES <= |df|)
    ensures tok.Literal? ==> Tallied(toks + [tok], lf[LitSymbol(tok) := lf[LitSymbol(tok)] + 1], df)
    ensures tok.Pair? ==>
      Tallied(toks + [tok], lf[LitSymbol(tok) := lf[LitSymbol(tok)] + 1],
              df[DistCode(tok.dist - 1) := df[DistCode(tok.dist - 1)] + 1])
  {
    hide LitSymbol, DistCode;
    SymbolsInRange(tok);
    var all := toks + [tok];
    assert all[..|all| - 1] == toks && all[|all| - 1] == tok;
  }

  // The generated tables compress_block uses.
  datatype Tables = Tables(lengthCode: array<nat>, baseLength: array<nat>, distCode: array<nat>, baseDist: array<nat>,
                           staticL: Tree, staticD: Tree)
  {
    ghost predicate Valid()
      reads lengthCode, baseLength, distCode, baseDist
    {
      && LengthTables(lengthCode, baseLength) && DistTable(distCode[..])
      && baseDist.Length == D_CODES && DistBasesTo(baseDist[..], D_CODES)
      && staticL.Valid() && staticD.Valid() && staticL.lens == FixedCodes().ll && staticD.lens == FixedCodes().dl
    }
  }

  // Send the symbols of the block with these trees.
  method SendBody(w: Writer, dBuf: array<nat>, lBuf: array<Byte>, lastLit: nat, lt: Tree, dt: Tree, t: Tables,
                  ghost toks: seq<Token>)
    requires w.Valid() && lt.Valid() && dt.Valid() && lastLit <= dBuf.Length && lastLit <= lBuf.Length && t.Valid()
    requires toks == TokensOf(dBuf[..lastLit], lBuf[..lastLit]) && HasCode(lt.lens, 256)
      && AllCoded(toks, Codes(lt.lens, dt.lens))
    modifies w
    ensures w.Valid() && w.Sent() == old(w.Sent()) + BodyBits(Codes(lt.lens, dt.lens), toks)
  {
    hide LengthTables, DistTable, DistBasesTo, FixedCodes, Tree.Valid, BodyBits, AllCoded;
    CompressBlock(w, dBuf, lBuf, lastLit, lt, dt, t.lengthCode, t.baseLength, t.distCode, t.baseDist);
  }

  method SendType(w: Writer, t: nat, last: bool)
    requires w.Valid() && t < 4
    modifies w
    ensures w.Valid() && w.Sent() == old(w.Sent()) + TypeBits(t, last)
  {
    hide BytesBits, BitsOf;
    assert Pow2(3) == 8;
    w.SendBits(2 * t + (if last then 1 else 0), 3);
  }

  // _tr_stored_block.
  method SendStored(w: Writer, buf: seq<Byte>, last: bool) returns (ghost pad: seq<bool>)
    requires w.Valid() && |buf| < Pow2(16)
    modifies w
    ensures w.Valid() && |pad| < 8 && w.Sent() == old(w.Sent()) + StoredBits(pad, buf, last)
    ensures w.bi_valid == 0 && w.Sent() == BytesBits(w.pending) && (|old(w.Sent())| + 3 + |pad|) % 8 == 0
  {
    hide BytesBits, BitsOf, TypeBits, Pow2;
    SendType(w, 0, last);
    ghost var mid := w.Sent();
    w.CopyBlock(buf, true);
    ghost var head := BitsOf(|buf|, 16) + BitsOf(Pow2(16) - 1 - |buf|, 16);
    pad :| |pad| < 8 && w.Sent() == mid + pad + head + BytesBits(buf);
    assert mid + pad + head + BytesBits(buf) == mid + (pad + (head + BytesBits(buf)));
    TypeLength(0, last);
    Aligns(|old(w.Sent())| + 3 + |pad|, |w.pending|, |buf|);
  }

  lemma Aligns(p: nat, m: nat, n: nat)
    requires p + 32 + 8 * n == 8 * m
    ensures p % 8 == 0
  {
  }

  lemma FixedParts(toks: seq<Token>, last: bool)
    requires AllInRange(toks)
    ensures AllCoded(toks, FixedCodes()) && HasCode(FixedCodes().ll, 256)
    ensures FixedBits(toks, last) == TypeBits(1, last) + BodyBits(FixedCodes(), toks)
  {
    hide AllCoded, FixedCodes, BodyBits, TypeBits;
    FixedCodesAll(toks);
  }

  method SendFixed(w: Writer, dBuf: array<nat>, lBuf: array<Byte>, lastLit: nat, t: Tables, ghost toks: seq<Token>,
                   last: bool)
    requires w.Valid() && lastLit <= dBuf.Length && lastLit <= lBuf.Length && t.Valid() && AllInRange(toks)
    requires toks == TokensOf(dBuf[..lastLit], lBuf[..lastLit])
    modifies w
    ensures w.Valid() && w.Sent() == old(w.Sent()) + FixedBits(toks, last)
  {
    hide TypeBits, BodyBits, AllCoded, FixedCodes, TokensOf, FixedBits, Writer.Sent, Tree.Valid, LengthTables,
         DistTable, DistBasesTo;
    FixedParts(toks, last);
    SendType(w, 1, last);
    SendBody(w, dBuf, lBuf, lastLit, t.staticL, t.staticD, t, toks);
  }

  /** _tr_align: an empty fixed block, so that all but at most seven bits of what was sent before are out. */
  method SendAlign(w: Writer, t: Tables)
    requires w.Valid() && t.Valid()
    modifies w
    ensures w.Valid() && w.bi_valid < 8 && w.Sent() == old(w.Sent()) + FixedBits([], false)
  {
    hide TypeBits, FixedCodes, FixedBits, Writer.Sent, Tree.Valid, LengthTables, DistTable, DistBasesTo, SymBits;
    FixedParts([], false);
    NoTokens(FixedCodes());
    SendType(w, 1, false);
    SendCode(w, 256, t.staticL);
    w.Flush();
  }

  method SendDynamic(w: Writer, dBuf: array<nat>, lBuf: array<Byte>, lastLit: nat, t: Tables, p: Plan,
                     ghost toks: seq<Token>, last: bool)
    requires w.Valid() && lastLit <= dBuf.Length && lastLit <= lBuf.Length && t.Valid() && Planned(p, toks)
    requires toks == TokensOf(dBuf[..lastLit], lBuf[..lastLit])
    modifies w
    ensures w.Valid()
    ensures w.Sent() == old(w.Sent())
              + DynamicBits(Codes(p.lb.Used().lens, p.db.Used().lens), p.bb.lens, p.maxBlindex + 1, toks, last)
  {
    hide TypeBits, BodyBits, HeaderBits, AllCoded, FixedCodes, TokensOf, Tables.Valid, FixedBits, Sendable, Built.Valid,
         Writer.Sent, Tree.Valid, Complete, AllInRange;
    UsedValid(p.lb, L_CODES, 15);
    UsedValid(p.db, D_CODES, 15);
    Padded(p.bb, BL_CODES, 7);
    BuiltSizes(p.lb, L_CODES, 15);
    BuiltSizes(p.db, D_CODES, 15);
    BuiltSizes(p.bb, BL_CODES, 7);
    SendableEnd(Codes(p.lb.Used().lens, p.db.Used().lens), p.bb.lens, p.maxBlindex + 1);
    SendType(w, 2, last);
    SendAllTrees(w, p.lb.Used(), p.db.Used(), Tree(p.bb.lens, p.bb.code[..BL_CODES]), p.maxBlindex + 1);
    SendBody(w, dBuf, lBuf, lastLit, p.lb.Used(), p.db.Used(), t, toks);
  }

  lemma SendableEnd(codes: Codes, cl: seq<nat>, n: nat)
    requires Sendable(codes, cl, n)
    ensures HasCode(codes.ll, 256)
  {
  }

  const NO_PLAN: Plan := Plan(Built([], [], 0), Built([], [], 0), Built([], [], 0), 0, 0, 0)

  function Bytes(bits: int): int {
    (bits + 3 + 7) / 8
  }

  // The choice made from the predicted costs.
  ghost predicate Chosen(form: Form, p: Plan, buf: Option<seq<Byte>>, fixedOnly: bool)
    requires p.lb.maxCode < |p.lb.lens| <= |p.lb.code| && p.db.maxCode < |p.db.lens| <= |p.db.code|
  {
    var best := if Bytes(p.staticLen) <= Bytes(p.optLen) then Bytes(p.staticLen) else Bytes(p.optLen);
    match form
    case StoredForm(_) => buf.Some? && |buf.value| + 4 <= best
    case FixedForm => (buf.Some? ==> |buf.value| + 4 > best) && (fixedOnly || Bytes(p.staticLen) == best)
    case DynamicForm(codes, cl, n) =>
      && (buf.Some? ==> |buf.value| + 4 > best) && !fixedOnly && Bytes(p.optLen) == best < Bytes(p.staticLen)
      && codes == Codes(p.lb.Used().lens, p.db.Used().lens) && cl == p.bb.lens && n == p.maxBlindex + 1
  }

  // Whole bytes for so many bits.
  ghost predicate TakesBytes(bits: nat, bytes: nat) {
    8 * (bytes - 1) < bits <= 8 * bytes
  }

  /** The form chosen is the smallest: the block is stored exactly when its bytes and two lengths take no more than the
      better of the other two forms, and it is dynamic only where that is less than the fixed form. */
  lemma SmallestForm(form: Form, p: Plan, toks: seq<Token>, buf: Option<seq<Byte>>, d: nat, f: nat)
    requires Planned(p, toks) && p.lb.maxCode < |p.lb.lens| <= |p.lb.code| && p.db.maxCode < |p.db.lens| <= |p.db.code|
    requires Chosen(form, p, buf, false) && AllInRange(toks)
    requires Fitting(DynamicForm(Codes(p.lb.Used().lens, p.db.Used().lens), p.bb.lens, p.maxBlindex + 1), toks, None)
    requires TakesBytes(|FixedBits(toks, false)|, f)
    requires TakesBytes(
      |DynamicBits(Codes(p.lb.Used().lens, p.db.Used().lens), p.bb.lens, p.maxBlindex + 1, toks, false)|, d)
    ensures form.StoredForm? <==> buf.Some? && |buf.value| + 4 <= d && |buf.value| + 4 <= f
    ensures form.FixedForm? ==> f <= d
    ensures form.DynamicForm? ==> d < f
  {
    hide FixedBits, DynamicBits, Fitting, Built.Valid, Tallied, Answers, AllInRange;
  }

  /** _tr_flush_block: the block goes out in the chosen form; its exact size was known beforehand. At level 0 no trees
      are built and the block is stored while its bytes are there. */
  method FlushBlock(w: Writer, lfreq: array<nat>, dfreq: array<nat>, bfreq: array<nat>, dBuf: array<nat>,
                    lBuf: array<Byte>, lastLit: nat, t: Tables, buf: Option<seq<Byte>>, level: nat, fixedOnly: bool,
                    last: bool) returns (ghost p: Plan, ghost form: Form, ghost pad: seq<bool>)
    requires w.Valid() && lastLit <= dBuf.Length && lastLit <= lBuf.Length && t.Valid()
    requires lfreq != dfreq && lfreq != bfreq && dfreq != bfreq
    requires {lfreq, dfreq, bfreq} !! {dBuf, t.lengthCode, t.baseLength, t.distCode, t.baseDist}
    requires lfreq.Length >= 2 * L_CODES && dfreq.Length >= 2 * D_CODES && bfreq.Length >= 2 * BL_CODES
    requires Tallied(TokensOf(dBuf[..lastLit], lBuf[..lastLit]), lfreq[..], dfreq[..]) && lastLit < 0xfffd
    requires AllInRange(TokensOf(dBuf[..lastLit], lBuf[..lastLit])) && forall s: nat :: s < BL_CODES ==> bfreq[s] == 0
    requires buf.Some? ==> |buf.value| < Pow2(16)
    modifies w, lfreq, dfreq, bfreq
    ensures w.Valid() && Fitting(form, TokensOf(dBuf[..lastLit], lBuf[..lastLit]), buf)
      && Aligned(form, |old(w.Sent())|)
    ensures w.Sent() == old(w.Sent()) + FormBits(form, TokensOf(dBuf[..lastLit], lBuf[..lastLit]), buf, last) + pad
    ensures |pad| < 8 && (!last ==> pad == []) && (last ==> w.bi_valid == 0 && w.Sent() == BytesBits(w.pending))
    ensures level > 0 ==> Planned(p, TokensOf(dBuf[..lastLit], lBuf[..lastLit])) && Chosen(form, p, buf, fixedOnly)
    ensures level == 0 ==> if buf.Some? then form.StoredForm? else form.FixedForm?
    ensures Tallied([], lfreq[..], dfreq[..]) && forall s: nat :: s < BL_CODES ==> bfreq[s] == 0
  {
    hide Tallied, AllInRange, Planned, Sendable, AllCoded, Tables.Valid, StoredBits, FixedBits, DynamicBits, BytesBits,
         Pow2, Built.Valid, FixedCodes, Complete;
    ghost var toks := TokensOf(dBuf[..lastLit], lBuf[..lastLit]);
    var optLenb, staticLenb, plan := 0, 0, NO_PLAN;
    if level > 0 {
      plan := MakePlan(lfreq, dfreq, bfreq, toks);
      PlanFacts(plan, toks);
      optLenb, staticLenb := Bytes(plan.optLen), Bytes(plan.staticLen);
      if staticLenb <= optLenb { optLenb := staticLenb; }
    } else if buf.Some? {
      optLenb := |buf.value| + 5;
      staticLenb := optLenb;
    }
    p := plan;
    if buf.Some? && |buf.value| + 4 <= optLenb {
      ghost var fill := SendStored(w, buf.value, last);
      form := StoredForm(fill);
    } else if fixedOnly || staticLenb == optLenb {
      SendFixed(w, dBuf, lBuf, lastLit, t, toks, last);
      form := FixedForm;
    } else {
      SendDynamic(w, dBuf, lBuf, lastLit, t, plan, toks, last);
      form := DynamicForm(Codes(plan.lb.Used().lens, plan.db.Used().lens), plan.bb.lens, plan.maxBlindex + 1);
    }
    ghost var sent := w.Sent();
    InitBlock(lfreq, dfreq, bfreq);
    pad := [];
    if last {
      w.Windup();
      pad :| |pad| < 8 && w.Sent() == sent + pad;
    } else {
      assert sent + pad == sent;
    }
  }

  lemma PlanFacts(p: Plan, toks: seq<Token>)
    requires Planned(p, toks)
    ensures p.lb.maxCode < |p.lb.lens| <= |p.lb.code| && p.db.maxCode < |p.db.lens| <= |p.db.code|
    ensures Fitting(DynamicForm(Codes(p.lb.Used().lens, p.db.Used().lens), p.bb.lens, p.maxBlindex + 1), toks, None)
    ensures AllInRange(toks)
  {
  }
}
