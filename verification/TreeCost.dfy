/** opt_len and static_len of deps/zlib/trees.c symbol by symbol: what gen_bitlen adds up along its list of nodes is
    what coding every symbol as often as it occurs takes. */
module TreeCost {
  import opened Canon
  import opened LengthCounts
  import opened BitLengths
  import opened BuildTree

  // Bits to code each of the first k symbols as often as its frequency says.
  function BitCost(freq: seq<nat>, lens: seq<nat>, d: StatDesc, k: nat): nat
    requires k <= |freq| && k <= |lens| && (k > 0 ==> d.Covers(k - 1))
  {
    if k == 0 then 0 else BitCost(freq, lens, d, k - 1) + freq[k - 1] * (lens[k - 1] + d.XBits(k - 1))
  }

  // The same without the symbols that have no code.
  function CodedBits(freq: seq<nat>, lens: seq<nat>, d: StatDesc, k: nat): nat
    requires k <= |freq| && k <= |lens| && (k > 0 ==> d.Covers(k - 1))
  {
    if k == 0 then 0 else
    CodedBits(freq, lens, d, k - 1) + (if lens[k - 1] > 0 then freq[k - 1] * (lens[k - 1] + d.XBits(k - 1)) else 0)
  }

  lemma {:induction false} OnlyCoded(freq: seq<nat>, lens: seq<nat>, d: StatDesc, k: nat)
    requires k <= |freq| && k <= |lens| && (k > 0 ==> d.Covers(k - 1))
    requires forall s :: 0 <= s < k && lens[s] == 0 ==> freq[s] == 0
    ensures BitCost(freq, lens, d, k) == CodedBits(freq, lens, d, k)
  {
    if k > 0 { OnlyCoded(freq, lens, d, k - 1); }
  }

  lemma {:induction false} NewCode(freq: seq<nat>, lens: seq<nat>, d: StatDesc, s: nat, v: nat, k: nat)
    requires k <= |freq| && k <= |lens| && (k > 0 ==> d.Covers(k - 1)) && s < |lens| && lens[s] == 0 && v > 0
    requires s < |freq| && (s < d.base || s - d.base < |d.extra|)
    ensures CodedBits(freq, lens[s := v], d, k)
         == CodedBits(freq, lens, d, k) + if s < k then freq[s] * (v + d.XBits(s)) else 0
  {
    hide StatDesc.XBits;
    if k > 0 { NewCode(freq, lens, d, s, v, k - 1); }
  }

  lemma {:induction false} NoCodesNoBits(freq: seq<nat>, n: nat, d: StatDesc, k: nat)
    requires k <= |freq| && k <= n && (k > 0 ==> d.Covers(k - 1))
    ensures CodedBits(freq, seq(n, _ => 0), d, k) == 0
  {
    if k > 0 { NoCodesNoBits(freq, n, d, k - 1); }
  }

  // The cost along the list of nodes is the cost symbol by symbol.
  lemma {:induction false} CostBySymbol(order: seq<nat>, freq: seq<nat>, len: seq<nat>, maxCode: nat, d: StatDesc)
    requires |len| <= |order| && maxCode < |freq| && d.Covers(maxCode)
    requires forall i, j :: 0 <= i < j < |order| ==> order[i] != order[j]
    requires forall i :: 0 <= i < |len| && order[i] <= maxCode ==> len[i] > 0
    ensures Cost(order, freq, len, maxCode, d) == CodedBits(freq, SymbolLens(order, len, maxCode), d, maxCode + 1)
    decreases |len|
  {
    hide CodedBits;
    if len == [] {
      NoCodesNoBits(freq, maxCode + 1, d, maxCode + 1);
    } else {
      var k := |len| - 1;
      CostBySymbol(order, freq, len[..k], maxCode, d);
      if order[k] <= maxCode {
        SymbolLensAt(order, len[..k], maxCode, order[k]);
        NewCode(freq, SymbolLens(order, len[..k], maxCode), d, order[k], len[k], maxCode + 1);
      }
    }
  }

  // Lengths of the static tree along the list.
  function StaticLens(order: seq<nat>, maxCode: nat, d: StatDesc, k: nat): (len: seq<nat>)
    requires d.hasStatic && d.Covers(maxCode) && k <= |order|
    ensures |len| == k
  {
    seq(k, i requires 0 <= i < k => if order[i] <= maxCode then d.stree[order[i]] else 0)
  }

  lemma {:induction false} StaticIsCost(order: seq<nat>, freq: seq<nat>, k: nat, maxCode: nat, d: StatDesc)
    requires k <= |order| && maxCode < |freq| && d.Covers(maxCode) && d.hasStatic
    ensures StaticCost(order, freq, k, maxCode, d) == Cost(order, freq, StaticLens(order, maxCode, d, k), maxCode, d)
  {
    if k > 0 {
      StaticIsCost(order, freq, k - 1, maxCode, d);
      assert StaticLens(order, maxCode, d, k)[..k - 1] == StaticLens(order, maxCode, d, k - 1);
    }
  }

  // ---- forced symbols ----

  // Symbols 0, 1 and 2 have no extra bits in any of the three alphabets.
  ghost predicate PlainStart(d: StatDesc) {
    d.Covers(2) && d.XBits(0) == 0 && d.XBits(1) == 0 && d.XBits(2) == 0
  }

  // What the forced symbols were charged for.
  function ForcedBits(forced: set<nat>, lens: seq<nat>, k: nat): nat
    requires 3 <= |lens|
  {
    (if 0 in forced && k > 0 then lens[0] else 0) + (if 1 in forced && k > 1 then lens[1] else 0)
    + (if 2 in forced && k > 2 then lens[2] else 0)
  }

  lemma {:induction false} BitsForced(before: seq<nat>, after: seq<nat>, forced: set<nat>, lens: seq<nat>, d: StatDesc,
                                      k: nat)
    requires Forced(before, after, forced) && k <= |before| && k <= |lens| && 3 <= |lens| && (k > 0 ==> d.Covers(k - 1))
      && PlainStart(d)
    ensures BitCost(after, lens, d, k) == BitCost(before, lens, d, k) + ForcedBits(forced, lens, k)
  {
    if k > 0 {
      BitsForced(before, after, forced, lens, d, k - 1);
      var s := k - 1;
      if s in forced {
        assert after[s] == 1 && before[s] == 0 && s < 3 && d.XBits(s) == 0;
      } else {
        assert after[s] == before[s];
      }
    }
  }

  lemma {:induction false} BitsSame(freq: seq<nat>, lens: seq<nat>, freq': seq<nat>, lens': seq<nat>, d: StatDesc,
                                    k: nat)
    requires k <= |freq| && k <= |lens| && k <= |freq'| && k <= |lens'| && (k > 0 ==> d.Covers(k - 1))
    requires forall s :: 0 <= s < k ==> freq[s] == freq'[s] && (freq[s] > 0 ==> lens[s] == lens'[s])
    ensures BitCost(freq, lens, d, k) == BitCost(freq', lens', d, k)
  {
    if k > 0 { BitsSame(freq, lens, freq', lens', d, k - 1); }
  }

  lemma {:induction false} BitsTail(freq: seq<nat>, lens: seq<nat>, d: StatDesc, j: nat, k: nat)
    requires j <= k <= |freq| && k <= |lens| && (k > 0 ==> d.Covers(k - 1)) && forall s :: j <= s < k ==> freq[s] == 0
    ensures (j > 0 ==> d.Covers(j - 1)) && BitCost(freq, lens, d, j) == BitCost(freq, lens, d, k)
    decreases k - j
  {
    if j < k { BitsTail(freq, lens, d, j, k - 1); }
  }

  /** The cost along the list, in terms of the symbols: `freq` agrees with `after` on symbols, and `lens` with the
      list. */
  lemma ListCost(order: seq<nat>, freq: seq<nat>, after: seq<nat>, len: seq<nat>, lens: seq<nat>, maxCode: nat,
                 elems: nat, d: StatDesc)
    requires |len| == |order| && maxCode < elems && elems <= |freq| && elems <= |after| && elems <= |lens|
      && d.Covers(elems - 1)
    requires forall i, j :: 0 <= i < j < |order| ==> order[i] != order[j]
    requires forall i :: 0 <= i < |order| && order[i] <= maxCode ==> len[i] > 0 && lens[order[i]] == len[i]
    requires forall s :: 0 <= s < elems ==> freq[s] == after[s]
    requires forall s: nat :: s <= maxCode && s !in order ==> after[s] == 0
    requires forall s :: maxCode < s < elems ==> after[s] == 0
    ensures d.Covers(maxCode) && Cost(order, freq, len, maxCode, d) == BitCost(after, lens, d, elems)
  {
    hide BitCost, CodedBits, Cost;
    CostBySymbol(order, freq, len, maxCode, d);
    var sl := SymbolLens(order, len, maxCode);
    forall s: nat | s <= maxCode
      ensures (s in order ==> sl[s] > 0 && sl[s] == lens[s]) && (s !in order ==> sl[s] == 0) {
      SymbolLensAt(order, len, maxCode, s);
    }
    OnlyCoded(freq, sl, d, maxCode + 1);
    BitsSame(freq, sl, after, lens, d, maxCode + 1);
    BitsTail(after, lens, d, maxCode + 1, elems);
  }
}
