/** Frequencies that are powers of two: build_tree of deps/zlib/trees.c has no choice, every symbol gets the length its
    frequency asks for. */
module Dyadic {
  import opened Bits
  import opened Canon
  import opened BitLengths
  import opened HuffmanCost
  import opened TreeForest
  import opened TreeWeights
  import opened TreePaths
  import opened BuildTree
  import opened MakeTree

  // ---- only one choice of lengths is optimal ----

  lemma {:induction false} PowGrow(x: nat, k: nat)
    ensures Shl(x, k) >= x * (k + 1)
    ensures k >= 2 && x > 0 ==> Shl(x, k) > x * (k + 1)
  {
    if k > 0 {
      PowGrow(x, k - 1);
      assert x * (k + 1) == x * k + x;
      if k > 1 { assert x * k == x * (k - 1) + x; }
    }
  }

  // What changing one length from l to d gains in space, it costs at least in bits; there is a balance only for d == l
  // or d == l - 1.
  lemma OneGain(l: nat, d: nat, t: nat)
    requires l <= t && d <= t
    ensures Pow2(t - d) + Mul(Pow2(t - l), d) >= Mul(Pow2(t - l), l) + Pow2(t - l)
    ensures Pow2(t - d) + Mul(Pow2(t - l), d) == Mul(Pow2(t - l), l) + Pow2(t - l) ==> d == l || d + 1 == l
  {
    hide Pow2, Shl;
    var a := Pow2(t - l);
    if d <= l {
      ShlPow2(t - l, l - d);
      PowGrow(a, l - d);
      Distribute(a, d, l - d);
      Distribute(a, l - d, 1);
    } else {
      Distribute(a, l, d - l);
      Distribute(a, 1, d - l - 1);
    }
  }

  // The same for a weight f, c units of space for one of weight.
  lemma ScaledGain(f: nat, c: nat, l: nat, d: nat, t: nat)
    requires l <= t && d <= t && Pow2(t - l) == c * f
    ensures Pow2(t - d) + c * Mul(f, d) >= c * Mul(f, l) + Pow2(t - l)
    ensures Pow2(t - d) + c * Mul(f, d) == c * Mul(f, l) + Pow2(t - l) ==> d == l || d + 1 == l
  {
    hide Mul, Pow2;
    OneGain(l, d, t);
    Product(c, f, d);
    Product(c, f, l);
  }

  lemma Product(c: nat, f: nat, d: nat)
    ensures c * Mul(f, d) == Mul(c * f, d)
  {
  }

  ghost predicate Scaled(f: seq<nat>, c: nat, l: seq<nat>, t: nat) {
    |f| == |l| && forall i :: 0 <= i < |l| ==> l[i] <= t && Pow2(t - l[i]) == c * f[i]
  }

  lemma {:induction false} Gain(f: seq<nat>, c: nat, l: seq<nat>, d: seq<nat>, t: nat)
    requires Scaled(f, c, l, t) && |d| == |l| && forall i :: 0 <= i < |d| ==> d[i] <= t
    ensures KraftSum(d, t) + c * Dot(f, d) >= c * Dot(f, l) + KraftSum(l, t)
    ensures KraftSum(d, t) + c * Dot(f, d) == c * Dot(f, l) + KraftSum(l, t) ==>
      forall i :: 0 <= i < |d| ==> d[i] == l[i] || d[i] + 1 == l[i]
    decreases |l|
  {
    hide Mul, Pow2;
    if l != [] {
      var f1, l1, d1 := f[1..], l[1..], d[1..];
      Gain(f1, c, l1, d1, t);
      ScaledGain(f[0], c, l[0], d[0], t);
      Distribute(c, Mul(f[0], d[0]), Dot(f1, d1));
      Distribute(c, Mul(f[0], l[0]), Dot(f1, l1));
      if KraftSum(d, t) + c * Dot(f, d) == c * Dot(f, l) + KraftSum(l, t) {
        forall i | 0 <= i < |d| ensures d[i] == l[i] || d[i] + 1 == l[i] {
          if i > 0 { assert d[i] == d1[i - 1] && l[i] == l1[i - 1]; }
        }
      }
    }
  }

  lemma Distribute(c: nat, x: nat, y: nat)
    ensures c * (x + y) == c * x + c * y
  {
  }

  // Shorter lengths of the same cost are the same lengths.
  lemma {:induction false} NoShorter(f: seq<nat>, l: seq<nat>, d: seq<nat>)
    requires |f| == |l| == |d| && forall i :: 0 <= i < |l| ==> f[i] > 0 && d[i] <= l[i]
    ensures Dot(f, d) <= Dot(f, l) && (Dot(f, d) == Dot(f, l) ==> d == l)
  {
    hide Mul;
    if l != [] {
      NoShorter(f[1..], l[1..], d[1..]);
      LessCost(f[0], d[0], l[0]);
      assert d == [d[0]] + d[1..] && l == [l[0]] + l[1..];
    }
  }

  lemma LessCost(f: nat, d: nat, l: nat)
    requires f > 0 && d <= l
    ensures Mul(f, d) <= Mul(f, l) && (Mul(f, d) == Mul(f, l) ==> d == l)
  {
    Distribute(f, d, l - d);
    if d < l { Distribute(f, 1, l - d - 1); }
  }

  lemma Larger(c: nat, x: nat, y: nat)
    requires c > 0
    ensures c * x < c * y <==> x < y
    ensures c * x == 0 <==> x == 0
  {
    if x < y { Distribute(c, x, y - x); } else { Distribute(c, y, x - y); }
  }

  /** Weights that are the powers of two of a complete code: any feasible lengths that cost no more are these. */
  lemma Unique(f: seq<nat>, c: nat, l: seq<nat>, d: seq<nat>, t: nat)
    requires Scaled(f, c, l, t) && c > 0 && |d| == |l| && Feasible(d, t) && KraftSum(l, t) == Pow2(t)
      && Dot(f, d) <= Dot(f, l)
    ensures d == l
  {
    hide Dot, KraftSum, Mul, Pow2, Scaled;
    Positive(f, c, l, t);
    Gain(f, c, l, d, t);
    var x, y := Dot(f, d), Dot(f, l);
    Larger(c, x, y);
    Larger(c, y, x);
    NoShorter(f, l, d);
  }

  lemma Positive(f: seq<nat>, c: nat, l: seq<nat>, t: nat)
    requires Scaled(f, c, l, t) && c > 0
    ensures |f| == |l| && forall i :: 0 <= i < |l| ==> f[i] > 0
  {
    hide Pow2;
    forall i | 0 <= i < |l| ensures f[i] > 0 {
      assert Pow2(t - l[i]) == c * f[i];
      Larger(c, f[i], 0);
    }
  }

  // ---- the leaves of the tree fill the code space ----

  function TotalOf(s: seq<nat>): nat {
    if s == [] then 0 else TotalOf(s[..|s| - 1]) + s[|s| - 1]
  }

  lemma TotalMore(s: seq<nat>, x: nat)
    ensures TotalOf(s + [x]) == TotalOf(s) + x
  {
    assert (s + [x])[..|s|] == s;
  }

  lemma {:induction false} KraftMore(l: seq<nat>, x: nat, t: nat)
    requires x <= t && forall i :: 0 <= i < |l| ==> l[i] <= t
    ensures KraftSum(l + [x], t) == KraftSum(l, t) + Pow2(t - x)
  {
    if l == [] {
      assert l + [x] == [x] && [x][1..] == [];
    } else {
      assert (l + [x])[1..] == l[1..] + [x];
      KraftMore(l[1..], x, t);
    }
  }

  // In a balanced tree the leaves weigh as much as the root.
  lemma {:induction false} LeafTotal(order: seq<nat>, fat: seq<nat>, w: seq<nat>, maxCode: nat, h: nat)
    requires Balanced(order, fat, w, maxCode) && 0 < h <= |order|
    ensures TotalOf(LeafWeights(order, w, maxCode, h)) + OpenWeight(fat, w, h, h) == w[0]
  {
    hide SonWeights;
    var g := h - 1;
    OpenWeightMore(fat, w, g, h);
    assert SonWeights(fat, w, g, g + 1) == if order[g] <= maxCode then 0 else w[g];
    if g == 0 {
      NothingOpen(fat, w, h);
    } else {
      LeafTotal(order, fat, w, maxCode, g);
      TotalMore(LeafWeights(order, w, maxCode, g), w[g]);
      assert LeafWeights(order, w, maxCode, g) + [] == LeafWeights(order, w, maxCode, g);
    }
  }

  // 2^(t - depth) for every node.
  function Powers(fat: seq<nat>, t: nat): (w: seq<nat>)
    requires |fat| <= t
    ensures |w| == |fat|
  {
    seq(|fat|, i requires 0 <= i < |fat| => (DepthBound(fat, i); Pow2(t - DepthAt(fat, i))))
  }

  lemma {:induction false} DepthBound(fat: seq<nat>, i: nat)
    ensures DepthAt(fat, i) <= i
  {
    if i > 0 && i < |fat| && fat[i] < i { DepthBound(fat, fat[i]); }
  }

  lemma PowersAt(fat: seq<nat>, t: nat, i: nat)
    requires i < |fat| <= t
    ensures DepthAt(fat, i) <= i && Powers(fat, t)[i] == Pow2(t - DepthAt(fat, i))
  {
    hide DepthAt, Pow2;
    DepthBound(fat, i);
  }

  lemma {:induction false} SonPowers(fat: seq<nat>, i: nat, j: nat, t: nat)
    requires i < j && i < |fat| <= t && forall k :: 0 < k < |fat| ==> fat[k] < k
    ensures DepthAt(fat, i) < t
      && SonWeights(fat, Powers(fat, t), i, j) == Sons(fat, i, j) * Pow2(t - DepthAt(fat, i) - 1)
    decreases |fat| - j
  {
    hide Pow2, DepthAt, Powers;
    DepthBound(fat, i);
    if j < |fat| {
      SonPowers(fat, i, j + 1, t);
      var p := Pow2(t - DepthAt(fat, i) - 1);
      if fat[j] == i {
        PowersAt(fat, t, j);
        SonDepth(fat, j);
        Distribute(p, 1, Sons(fat, i, j + 1));
      }
    }
  }

  lemma SonDepth(fat: seq<nat>, j: nat)
    requires 0 < j < |fat| && fat[j] < j
    ensures DepthAt(fat, j) == DepthAt(fat, fat[j]) + 1
  {
  }

  lemma PowersBalanced(order: seq<nat>, dad: seq<nat>, maxCode: nat, fat: seq<nat>, t: nat)
    requires Listed(order, dad, maxCode, fat) && |fat| <= t && fat[0] >= |fat|
    ensures Balanced(order, fat, Powers(fat, t), maxCode)
  {
    hide SonWeights, Sons, DepthAt, Powers, Pow2;
    forall i: nat | i < |order|
      ensures SonWeights(fat, Powers(fat, t), i, i + 1) == if order[i] <= maxCode then 0 else Powers(fat, t)[i] {
      SonPowers(fat, i, i + 1, t);
      PowersAt(fat, t, i);
      TwoSons(t, DepthAt(fat, i));
    }
  }

  lemma TwoSons(t: nat, d: nat)
    requires d < t
    ensures 2 * Pow2(t - d - 1) == Pow2(t - d)
  {
  }

  lemma {:induction false} DepthsKraft(order: seq<nat>, fat: seq<nat>, maxCode: nat, h: nat, t: nat)
    requires h <= |order| == |fat| <= t
    ensures AllWithin(LeafDepths(order, fat, maxCode, h), t)
    ensures KraftSum(LeafDepths(order, fat, maxCode, h), t) == TotalOf(LeafWeights(order, Powers(fat, t), maxCode, h))
  {
    hide DepthAt, Pow2, KraftSum, TotalOf, AllWithin, Powers;
    NoLeafYet(t);
    if h > 0 {
      DepthsKraft(order, fat, maxCode, h - 1, t);
      var l, w := LeafDepths(order, fat, maxCode, h - 1), LeafWeights(order, Powers(fat, t), maxCode, h - 1);
      DepthBound(fat, h - 1);
      PowersAt(fat, t, h - 1);
      if order[h - 1] <= maxCode {
        OneLeafMore(l, w, DepthAt(fat, h - 1), t);
      } else {
        assert l + [] == l && w + [] == w;
      }
    }
  }

  lemma NoLeafYet(t: nat)
    ensures AllWithin([], t) && KraftSum([], t) == 0 == TotalOf([])
  {
  }

  ghost predicate AllWithin(l: seq<nat>, t: nat) {
    forall i :: 0 <= i < |l| ==> l[i] <= t
  }

  lemma OneLeafMore(l: seq<nat>, w: seq<nat>, d: nat, t: nat)
    requires d <= t && AllWithin(l, t) && KraftSum(l, t) == TotalOf(w)
    ensures AllWithin(l + [d], t) && KraftSum(l + [d], t) == TotalOf(w + [Pow2(t - d)])
  {
    hide Pow2;
    KraftMore(l, d, t);
    TotalMore(w, Pow2(t - d));
  }

  /** The depths of the leaves satisfy the Kraft equality. */
  lemma DepthsComplete(order: seq<nat>, dad: seq<nat>, maxCode: nat, fat: seq<nat>, t: nat)
    requires Listed(order, dad, maxCode, fat) && |fat| <= t && fat[0] >= |fat|
    ensures Feasible(LeafDepths(order, fat, maxCode, |order|), t)
      && KraftSum(LeafDepths(order, fat, maxCode, |order|), t) == Pow2(t)
  {
    hide LeafWeights, LeafDepths, Sons;
    PowersBalanced(order, dad, maxCode, fat, t);
    LeafTotal(order, fat, Powers(fat, t), maxCode, |order|);
    DepthsKraft(order, fat, maxCode, |order|, t);
  }

  // ---- from frequencies to depths ----

  /** Every frequency is the power of two its length asks for, and together they fill the code space. */
  ghost predicate Asks(freq: seq<nat>, lens: seq<nat>, elems: nat) {
    && |lens| == elems <= |freq| && FreqSum(freq, elems) == Pow2(MAXBITS)
    && forall s :: 0 <= s < elems ==> 1 <= lens[s] <= MAXBITS && freq[s] == Pow2(MAXBITS - lens[s])
  }

  // The lengths asked for by the leaves, in the order of the list.
  function LeafLens(order: seq<nat>, lens: seq<nat>, maxCode: nat, h: nat): seq<nat>
    requires h <= |order| && maxCode < |lens|
  {
    if h == 0 then []
      else LeafLens(order, lens, maxCode, h - 1) + (if order[h - 1] <= maxCode then [lens[order[h - 1]]] else [])
  }

  // The weights are the powers of two of the lengths.
  ghost predicate Paired(f: seq<nat>, l: seq<nat>) {
    |f| == |l| && forall i :: 0 <= i < |l| ==> l[i] <= MAXBITS && f[i] == Pow2(MAXBITS - l[i])
  }

  lemma PairedMore(f: seq<nat>, l: seq<nat>, x: nat)
    requires Paired(f, l) && x <= MAXBITS
    ensures Paired(f + [Pow2(MAXBITS - x)], l + [x])
  {
    hide Pow2;
  }

  lemma {:induction false} LeafPaired(order: seq<nat>, freq: seq<nat>, lens: seq<nat>, maxCode: nat, h: nat)
    requires h <= |order| && maxCode + 1 == |lens| && Asks(freq, lens, maxCode + 1)
    requires forall i :: 0 <= i < |order| ==> order[i] < |freq|
    ensures Paired(LeafWeights(order, WeightsOf(order, freq), maxCode, h), LeafLens(order, lens, maxCode, h))
  {
    hide Pow2, FreqSum, Paired;
    var w := WeightsOf(order, freq);
    if h == 0 {
      assert Paired([], []) by { NothingPaired(); }
    } else {
      LeafPaired(order, freq, lens, maxCode, h - 1);
      var f, l := LeafWeights(order, w, maxCode, h - 1), LeafLens(order, lens, maxCode, h - 1);
      if order[h - 1] <= maxCode {
        PairedMore(f, l, lens[order[h - 1]]);
        assert w[h - 1] == freq[order[h - 1]];
      } else {
        assert f + [] == f && l + [] == l;
      }
    }
  }

  lemma NothingPaired()
    ensures Paired([], [])
  {
  }

  lemma {:induction false} PairedKraft(f: seq<nat>, l: seq<nat>)
    requires Paired(f, l)
    ensures KraftSum(l, MAXBITS) == TotalOf(f)
    decreases |l|
  {
    hide Pow2;
    if l != [] {
      var n := |l| - 1;
      PairedKraft(f[..n], l[..n]);
      KraftMore(l[..n], l[n], MAXBITS);
      assert l == l[..n] + [l[n]];
    }
  }

  lemma PairedScaled(f: seq<nat>, l: seq<nat>, t: nat)
    requires Paired(f, l) && t >= MAXBITS
    ensures Scaled(f, Pow2(t - MAXBITS), l, t)
  {
    forall i | 0 <= i < |l| ensures Pow2(t - l[i]) == Pow2(t - MAXBITS) * f[i] {
      PowTimes(MAXBITS - l[i], t - MAXBITS);
    }
  }

  lemma {:induction false} PowTimes(a: nat, b: nat)
    ensures Pow2(a + b) == Pow2(b) * Pow2(a)
  {
    if a > 0 { PowTimes(a - 1, b); }
  }

  lemma {:induction false} LeavesTotal(order: seq<nat>, freq: seq<nat>, maxCode: nat, h: nat)
    requires h <= |order| && (forall i :: 0 <= i < |order| ==> order[i] < |freq|)
    requires forall i, j :: 0 <= i < j < |order| ==> order[i] != order[j]
    ensures TotalOf(LeafWeights(order, WeightsOf(order, freq), maxCode, h)) ==
      Sum(LeafSet(order, maxCode, h), freq, |freq|)
  {
    hide Sum;
    var w := WeightsOf(order, freq);
    if h == 0 {
      NoSum(freq, |freq|);
    } else {
      LeavesTotal(order, freq, maxCode, h - 1);
      var x, s, f := order[h - 1], LeafSet(order, maxCode, h - 1), LeafWeights(order, w, maxCode, h - 1);
      if x <= maxCode {
        NotYet(order, maxCode, h - 1);
        assert s + {x} - {x} == s;
        SumRemove(s + {x}, freq, |freq|, x);
        TotalMore(f, freq[x]);
      } else {
        assert s + {} == s && f + [] == f;
      }
    }
  }

  lemma {:induction false} NoSum(freq: seq<nat>, k: nat)
    requires k <= |freq|
    ensures Sum({}, freq, k) == 0
  {
    if k > 0 { NoSum(freq, k - 1); }
  }

  // What the tree must satisfy: it was grown from these frequencies, with every symbol as a leaf.
  ghost predicate GrownAll(order: seq<nat>, dads: seq<nat>, freq: seq<nat>, maxCode: nat, job: Job) {
    && Grown(order, dads, freq, maxCode, job) && job.best == Huffman(Weigh(job.leaves, freq, |freq|))
    && maxCode + 1 == job.elems <= |freq| && forall x: nat :: x in job.leaves <==> x <= maxCode
  }

  lemma LensComplete(order: seq<nat>, dads: seq<nat>, freq: seq<nat>, maxCode: nat, job: Job, lens: seq<nat>)
    requires GrownAll(order, dads, freq, maxCode, job) && Asks(freq, lens, maxCode + 1)
    ensures forall i :: 0 <= i < |order| ==> order[i] < |freq|
    ensures
      var f, l := LeafWeights(order, WeightsOf(order, freq), maxCode, |order|), LeafLens(order, lens, maxCode, |order|);
      Paired(f, l) && AllWithin(l, MAXBITS) && KraftSum(l, MAXBITS) == Pow2(MAXBITS)
  {
    hide Balanced, Listed, Fathers, Huffman, Weigh, Sum, LeafWeights, LeafLens, Pow2, FreqSum, LeafSet, Leaves,
         KraftSum, TotalOf, NonRoot;
    var f, l := LeafWeights(order, WeightsOf(order, freq), maxCode, |order|), LeafLens(order, lens, maxCode, |order|);
    GrownLeaves(order, dads, freq, maxCode, job);
    LeafPaired(order, freq, lens, maxCode, |order|);
    PairedKraft(f, l);
    LeavesTotal(order, freq, maxCode, |order|);
    SumIsFreqSum(job.leaves, freq, maxCode + 1, |freq|);
  }

  /** The depths of the leaves are the lengths asked for. */
  lemma DepthsAsked(order: seq<nat>, dads: seq<nat>, freq: seq<nat>, maxCode: nat, job: Job, lens: seq<nat>)
    requires GrownAll(order, dads, freq, maxCode, job) && Asks(freq, lens, maxCode + 1)
    ensures LeafDepths(order, Fathers(order, dads), maxCode, |order|) == LeafLens(order, lens, maxCode, |order|)
  {
    hide Balanced, Listed, Fathers, Huffman, Weigh, LeafWeights, LeafLens, LeafDepths, Pow2, FreqSum, KraftSum, Dot,
         NonRoot, Paired;
    LensComplete(order, dads, freq, maxCode, job, lens);
    var f, l := LeafWeights(order, WeightsOf(order, freq), maxCode, |order|), LeafLens(order, lens, maxCode, |order|);
    var fat := Fathers(order, dads);
    var d, t := LeafDepths(order, fat, maxCode, |order|), |order| + MAXBITS;
    PairedLengths(f, l);
    GrownOptimal(order, dads, freq, maxCode, job, l, MAXBITS);
    GrownRoot(order, dads, freq, maxCode, job);
    DepthsComplete(order, dads, maxCode, fat, t);
    PairedScaled(f, l, t);
    KraftScale(l, MAXBITS, |order|);
    ShlPow2(MAXBITS, |order|);
    Unique(f, Pow2(t - MAXBITS), l, d, t);
  }

  lemma PairedLengths(f: seq<nat>, l: seq<nat>)
    requires Paired(f, l)
    ensures |f| == |l|
  {
  }

  lemma GrownRoot(order: seq<nat>, dads: seq<nat>, freq: seq<nat>, maxCode: nat, job: Job)
    requires Grown(order, dads, freq, maxCode, job)
    ensures |order| > 0 && Listed(order, dads, maxCode, Fathers(order, dads))
      && Fathers(order, dads)[0] >= |order| == |Fathers(order, dads)|
  {
    hide Fathers, SonWeights, Sons, NonRoot;
  }

  lemma {:induction false} SameCount(order: seq<nat>, fat: seq<nat>, lens: seq<nat>, maxCode: nat, h: nat)
    requires h <= |order| && maxCode < |lens|
    ensures |LeafDepths(order, fat, maxCode, h)| == |LeafLens(order, lens, maxCode, h)|
  {
    if h > 0 { SameCount(order, fat, lens, maxCode, h - 1); }
  }

  // Equal lists of leaves are equal leaf by leaf.
  lemma {:induction false} LeafByLeaf(order: seq<nat>, fat: seq<nat>, lens: seq<nat>, maxCode: nat, h: nat)
    requires h <= |order| && maxCode < |lens| && LeafDepths(order, fat, maxCode, h) == LeafLens(order, lens, maxCode, h)
    ensures forall i: nat :: i < h && order[i] <= maxCode ==> DepthAt(fat, i) == lens[order[i]]
  {
    hide DepthAt;
    if h > 0 {
      SameCount(order, fat, lens, maxCode, h - 1);
      var d, l, n := LeafDepths(order, fat, maxCode, h), LeafLens(order, lens, maxCode, h),
        |LeafLens(order, lens, maxCode, h - 1)|;
      assert d[..n] == LeafDepths(order, fat, maxCode, h - 1) && l[..n] == LeafLens(order, lens, maxCode, h - 1);
      LeafByLeaf(order, fat, lens, maxCode, h - 1);
      if order[h - 1] <= maxCode { assert d[n] == DepthAt(fat, h - 1) && l[n] == lens[order[h - 1]]; }
    }
  }

  lemma {:induction false} SomeSon(fat: seq<nat>, i: nat, j: nat) returns (k: nat)
    requires Sons(fat, i, j) > 0
    ensures j <= k < |fat| && fat[k] == i
    decreases |fat| - j
  {
    if fat[j] == i { k := j; } else { k := SomeSon(fat, i, j + 1); }
  }

  // No node is deeper than the deepest leaf.
  lemma {:induction false} InnerBound(order: seq<nat>, dad: seq<nat>, maxCode: nat, fat: seq<nat>, i: nat, m: nat)
    requires Listed(order, dad, maxCode, fat) && i < |order|
    requires forall k: nat :: k < |order| && order[k] <= maxCode ==> DepthAt(fat, k) <= m
    ensures DepthAt(fat, i) <= m
    decreases |order| - i
  {
    hide DepthAt, Sons;
    if order[i] > maxCode {
      var k := SomeSon(fat, i, i + 1);
      InnerBound(order, dad, maxCode, fat, k, m);
      SonDepth(fat, k);
    }
  }

  /** All depths are within the limit, and those of the leaves are the lengths asked for. */
  lemma TreeAsked(order: seq<nat>, dads: seq<nat>, freq: seq<nat>, maxCode: nat, job: Job, lens: seq<nat>)
    requires GrownAll(order, dads, freq, maxCode, job) && Asks(freq, lens, maxCode + 1)
    ensures
      var fat := Fathers(order, dads);
      forall i: nat :: i < |order| ==>
        DepthAt(fat, i) <= MAXBITS && (order[i] <= maxCode ==> DepthAt(fat, i) == lens[order[i]])
  {
    hide Fathers, DepthAt, Huffman, Weigh, LeafDepths, LeafLens, FreqSum, Pow2, Listed, Balanced, NonRoot;
    var fat := Fathers(order, dads);
    DepthsAsked(order, dads, freq, maxCode, job, lens);
    LeafByLeaf(order, fat, lens, maxCode, |order|);
    GrownRoot(order, dads, freq, maxCode, job);
    forall i: nat | i < |order| ensures DepthAt(fat, i) <= MAXBITS {
      InnerBound(order, dads, maxCode, fat, i, MAXBITS);
    }
  }

  /** The lengths are those the frequencies ask for, if they ask for any. */
  ghost predicate Answers(lens: seq<nat>, freq: seq<nat>, elems: nat) {
    forall asked :: Asks(freq, asked, elems) ==> lens == asked
  }

  lemma {:induction false} SameSum(a: seq<nat>, b: seq<nat>, k: nat)
    requires k <= |a| && k <= |b| && forall s :: 0 <= s < k ==> a[s] == b[s]
    ensures FreqSum(a, k) == FreqSum(b, k)
  {
    if k > 0 { SameSum(a, b, k - 1); }
  }

  // What build_tree ends with answers the frequencies it was given.
  lemma Answered(order: seq<nat>, dads: seq<nat>, before: seq<nat>, freq: seq<nat>, dl: seq<nat>, maxCode: nat,
                 elems: nat, job: Job)
    requires Grown(order, dads, freq, maxCode, job) && job.best == Huffman(Weigh(job.leaves, freq, |freq|))
    requires job.elems == elems <= |before| == |freq| <= |dl| && maxCode < elems
      && (forall x <- job.leaves :: x <= maxCode)
    requires forall x: nat :: x < elems && before[x] > 0 ==> x in job.leaves && freq[x] == before[x]
    requires forall i :: 0 <= i < |order| ==> order[i] < |dl|
    requires (forall i: nat :: i < |order| ==> DepthAt(Fathers(order, dads), i) <= MAXBITS) ==>
      forall i: nat :: i < |order| ==> dl[order[i]] == DepthAt(Fathers(order, dads), i)
    ensures Answers(dl[..elems], before, elems)
  {
    hide Grown, Huffman, Weigh, FreqSum, Pow2, Fathers, DepthAt;
    forall asked | Asks(before, asked, elems) ensures dl[..elems] == asked {
      AllOccur(before, asked, elems);
      assert before[elems - 1] > 0;
      SameSum(before, freq, elems);
      assert Asks(freq, asked, maxCode + 1);
      TreeAsked(order, dads, freq, maxCode, job, asked);
      LeavesListed(order, dads, freq, maxCode, job);
      forall s | 0 <= s < elems ensures dl[s] == asked[s] {
        assert before[s] > 0 && s in job.leaves && s in order;
        var i: nat :| i < |order| && order[i] == s;
      }
    }
  }

  lemma AllOccur(freq: seq<nat>, lens: seq<nat>, elems: nat)
    requires Asks(freq, lens, elems)
    ensures forall s :: 0 <= s < elems ==> freq[s] > 0
  {
    hide FreqSum;
  }

  lemma LeavesListed(order: seq<nat>, dads: seq<nat>, freq: seq<nat>, maxCode: nat, job: Job)
    requires Grown(order, dads, freq, maxCode, job)
    ensures forall x: nat :: x <= maxCode && x in job.leaves ==> x in order
  {
    hide Listed, Fathers, Balanced, NonRoot;
  }
}
