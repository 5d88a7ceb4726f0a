/** The weighted path length of the tree that build_tree of deps/zlib/trees.c leaves in its list, and its
    optimality. */
module TreePaths {
  import opened Bits
  import opened Canon
  import opened BitLengths
  import opened HuffmanCost
  import opened TreeForest

  // ---- sums over positions ----

  // Weights of the sons of position i from position j on.
  function SonWeights(fat: seq<nat>, w: seq<nat>, i: nat, j: nat): nat
    requires |w| == |fat|
    decreases |fat| - j
  {
    if j >= |fat| then 0 else (if fat[j] == i then w[j] else 0) + SonWeights(fat, w, i, j + 1)
  }

  // Sums over positions from j on whose father is before h: weights, and weights times depths.
  function OpenWeight(fat: seq<nat>, w: seq<nat>, h: nat, j: nat): nat
    requires |w| == |fat|
    decreases |fat| - j
  {
    if j >= |fat| then 0 else (if fat[j] < h then w[j] else 0) + OpenWeight(fat, w, h, j + 1)
  }

  function OpenPath(fat: seq<nat>, w: seq<nat>, h: nat, j: nat): nat
    requires |w| == |fat|
    decreases |fat| - j
  {
    if j >= |fat| then 0
      else (if fat[j] < h then Mul(w[j], DepthAt(fat, fat[j]) + 1) else 0) + OpenPath(fat, w, h, j + 1)
  }

  lemma {:induction false} OpenWeightMore(fat: seq<nat>, w: seq<nat>, h: nat, j: nat)
    requires |w| == |fat|
    ensures OpenWeight(fat, w, h + 1, j) == OpenWeight(fat, w, h, j) + SonWeights(fat, w, h, j)
    decreases |fat| - j
  {
    if j < |fat| { OpenWeightMore(fat, w, h, j + 1); }
  }

  lemma {:induction false} OpenPathMore(fat: seq<nat>, w: seq<nat>, h: nat, j: nat)
    requires |w| == |fat|
    ensures OpenPath(fat, w, h + 1, j) == OpenPath(fat, w, h, j) + Mul(SonWeights(fat, w, h, j), DepthAt(fat, h) + 1)
    decreases |fat| - j
  {
    hide DepthAt, Mul;
    MulFacts(0, 0, DepthAt(fat, h) + 1);
    if j < |fat| {
      OpenPathMore(fat, w, h, j + 1);
      MulFacts(w[j], SonWeights(fat, w, h, j + 1), DepthAt(fat, h) + 1);
    }
  }

  lemma MulFacts(a: nat, b: nat, c: nat)
    ensures Mul(a, c) + Mul(b, c) == Mul(a + b, c) && Mul(0, c) == 0
    ensures c > 0 ==> Mul(a, c) == Mul(a, c - 1) + a
    ensures Mul(a, 0) == 0
  {
    assert a * c + b * c == (a + b) * c;
    if c > 0 { assert a * c == a * (c - 1) + a; }
  }

  // The leaves among the first h positions: weight times depth.  The positions but the root: weight.
  function LeafPath(order: seq<nat>, fat: seq<nat>, w: seq<nat>, maxCode: nat, h: nat): nat
    requires h <= |order| == |w|
  {
    if h == 0 then 0 else
    LeafPath(order, fat, w, maxCode, h - 1)
    + (if order[h - 1] <= maxCode then Mul(w[h - 1], DepthAt(fat, h - 1)) else 0)
  }

  function NonRoot(w: seq<nat>, h: nat): nat
    requires h <= |w|
  {
    if h <= 1 then 0 else NonRoot(w, h - 1) + w[h - 1]
  }

  // Fathers come first, and weigh as much as their sons.
  ghost predicate Balanced(order: seq<nat>, fat: seq<nat>, w: seq<nat>, maxCode: nat) {
    && |order| == |fat| == |w| > 0 && order[0] > maxCode && (forall j :: 0 < j < |fat| ==> fat[j] < j)
      && fat[0] >= |fat|
    && forall i: nat :: i < |order| ==> SonWeights(fat, w, i, i + 1) == if order[i] <= maxCode then 0 else w[i]
  }

  // What was not seen yet makes up the difference between the two sums.
  lemma {:induction false} PathSoFar(order: seq<nat>, fat: seq<nat>, w: seq<nat>, maxCode: nat, h: nat)
    requires Balanced(order, fat, w, maxCode) && 0 < h <= |order|
    ensures LeafPath(order, fat, w, maxCode, h) + OpenPath(fat, w, h, h) == NonRoot(w, h) + OpenWeight(fat, w, h, h)
  {
    hide Mul, SonWeights;
    var g := h - 1;
    OpenPathMore(fat, w, g, h);
    OpenWeightMore(fat, w, g, h);
    assert SonWeights(fat, w, g, g + 1) == if order[g] <= maxCode then 0 else w[g];
    MulFacts(SonWeights(fat, w, g, h), 0, DepthAt(fat, g) + 1);
    if g == 0 {
      NothingOpen(fat, w, h);
      MulFacts(w[0], 0, 1);
    } else {
      PathSoFar(order, fat, w, maxCode, g);
    }
  }

  lemma {:induction false} NothingOpen(fat: seq<nat>, w: seq<nat>, j: nat)
    requires |w| == |fat|
    ensures OpenPath(fat, w, 0, j) == 0 == OpenWeight(fat, w, 0, j)
    decreases |fat| - j
  {
    if j < |fat| { NothingOpen(fat, w, j + 1); }
  }

  /** Adding up weight times depth over the leaves gives the sum of all weights but the root's. */
  lemma PathLength(order: seq<nat>, fat: seq<nat>, w: seq<nat>, maxCode: nat)
    requires Balanced(order, fat, w, maxCode)
    ensures LeafPath(order, fat, w, maxCode, |order|) == NonRoot(w, |w|)
  {
    PathSoFar(order, fat, w, maxCode, |order|);
  }

  // ---- the list of build_tree ----

  function WeightsOf<T>(order: seq<nat>, val: seq<T>): (w: seq<T>)
    requires forall i :: 0 <= i < |order| ==> order[i] < |val|
    ensures |w| == |order|
  {
    seq(|order|, i requires 0 <= i < |order| => val[order[i]])
  }

  lemma {:induction false} SonWeightsAre(order: seq<nat>, dl: seq<nat>, freq: seq<nat>, i: nat, j: nat)
    requires 1 <= j <= |order| && i < |order| && forall k :: 0 <= k < |order| ==> order[k] < |dl| && order[k] < |freq|
    requires forall a, b :: 0 <= a < b < |order| ==> order[a] != order[b]
    ensures SonWeights(Fathers(order, dl), WeightsOf(order, freq), i, j) == SonSum(order[j..], dl, freq, order[i])
    decreases |order| - j
  {
    if j < |order| {
      SonWeightsAre(order, dl, freq, i, j + 1);
      assert order[j..][1..] == order[j + 1..] && order[j..][0] == order[j];
      assert Fathers(order, dl)[j] == Find(order, dl[order[j]]);
    }
  }

  lemma {:induction false} SonWeightsLater(fat: seq<nat>, w: seq<nat>, i: nat, j: nat)
    requires |w| == |fat| && 1 <= j <= i + 1 <= |fat| && forall k :: 0 < k < |fat| ==> fat[k] < k
    ensures SonWeights(fat, w, i, j) == SonWeights(fat, w, i, i + 1)
    decreases i - j
  {
    if j <= i { SonWeightsLater(fat, w, i, j + 1); }
  }

  lemma ListBalanced(root: nat, list: seq<nat>, dl: seq<nat>, freq: seq<nat>, elems: nat, node: nat, maxCode: nat)
    requires (forall k :: 0 <= k < |list| + 1 ==> ([root] + list)[k] < |dl| && ([root] + list)[k] < |freq|)
    requires Listed([root] + list, dl, maxCode, Fathers([root] + list, dl)) && Priced(list, dl, freq, elems, node)
    requires forall k :: 0 <= k < |list| + 1 ==> ([root] + list)[k] <= maxCode || elems <= ([root] + list)[k] < node
    requires forall k :: 0 <= k < |list| ==> dl[list[k]] > maxCode
    ensures Balanced([root] + list, Fathers([root] + list, dl), WeightsOf([root] + list, freq), maxCode)
  {
    hide SonWeights, SonSum, Sons;
    var order := [root] + list;
    var fat, w := Fathers(order, dl), WeightsOf(order, freq);
    assert order[1..] == list && fat[0] == |order| == |fat| == |w|;
    hide Fathers;
    forall i: nat | i < |order| ensures SonWeights(fat, w, i, i + 1) == if order[i] <= maxCode then 0 else w[i] {
      SonWeightsAre(order, dl, freq, i, 1);
      SonWeightsLater(fat, w, i, 1);
      if order[i] <= maxCode {
        SonSumNone(list, dl, freq, order[i]);
      } else {
        assert w[i] == freq[order[i]] && SonSum(list, dl, freq, order[i]) == freq[order[i]];
      }
    }
  }

  // ---- leaves as a code ----

  // Weights and depths of the leaves, in the order of the list.
  function LeafWeights<T>(order: seq<nat>, w: seq<T>, maxCode: nat, h: nat): seq<T>
    requires h <= |order| == |w|
  {
    if h == 0 then [] else
    LeafWeights(order, w, maxCode, h - 1) + (if order[h - 1] <= maxCode then [w[h - 1]] else [])
  }

  function LeafDepths(order: seq<nat>, fat: seq<nat>, maxCode: nat, h: nat): seq<nat>
    requires h <= |order|
  {
    if h == 0 then [] else
    LeafDepths(order, fat, maxCode, h - 1) + (if order[h - 1] <= maxCode then [DepthAt(fat, h - 1)] else [])
  }

  lemma {:induction false} DotAppend(f: seq<nat>, l: seq<nat>, x: nat, y: nat)
    requires |f| == |l|
    ensures Dot(f + [x], l + [y]) == Dot(f, l) + Mul(x, y)
  {
    hide Mul;
    if f == [] {
      assert f + [x] == [x] && l + [y] == [y];
      assert Dot([x], [y]) == Mul(x, y) + Dot([], []);
    } else {
      assert (f + [x])[1..] == f[1..] + [x] && (l + [y])[1..] == l[1..] + [y];
      DotAppend(f[1..], l[1..], x, y);
    }
  }

  lemma {:induction false} LeafPathIsDot(order: seq<nat>, fat: seq<nat>, w: seq<nat>, maxCode: nat, h: nat)
    requires h <= |order| == |w|
    ensures |LeafWeights(order, w, maxCode, h)| == |LeafDepths(order, fat, maxCode, h)|
    ensures LeafPath(order, fat, w, maxCode, h) ==
      Dot(LeafWeights(order, w, maxCode, h), LeafDepths(order, fat, maxCode, h))
  {
    hide Mul, DepthAt;
    if h > 0 {
      LeafPathIsDot(order, fat, w, maxCode, h - 1);
      if order[h - 1] <= maxCode {
        DotAppend(LeafWeights(order, w, maxCode, h - 1), LeafDepths(order, fat, maxCode, h - 1), w[h - 1],
          DepthAt(fat, h - 1));
      } else {
        assert LeafWeights(order, w, maxCode, h) == LeafWeights(order, w, maxCode, h - 1);
        assert LeafDepths(order, fat, maxCode, h) == LeafDepths(order, fat, maxCode, h - 1);
      }
    }
  }

  // What the tree costs.
  lemma LeafCost(order: seq<nat>, fat: seq<nat>, w: seq<nat>, maxCode: nat)
    requires Balanced(order, fat, w, maxCode)
    ensures |LeafDepths(order, fat, maxCode, |order|)| == |LeafWeights(order, w, maxCode, |order|)|
    ensures Dot(LeafWeights(order, w, maxCode, |order|), LeafDepths(order, fat, maxCode, |order|)) == NonRoot(w, |w|)
  {
    hide Dot, LeafPath, SonWeights;
    PathLength(order, fat, w, maxCode);
    LeafPathIsDot(order, fat, w, maxCode, |order|);
  }

  /** The depths of the leaves cost no more than any other lengths a prefix code could give them. */
  lemma Optimal(order: seq<nat>, fat: seq<nat>, w: seq<nat>, maxCode: nat, l: seq<nat>, t: nat)
    requires Balanced(order, fat, w, maxCode)
    requires NonRoot(w, |w|) == Huffman(multiset(LeafWeights(order, w, maxCode, |order|)))
    requires |l| == |LeafWeights(order, w, maxCode, |order|)| && Feasible(l, t)
    ensures |LeafDepths(order, fat, maxCode, |order|)| == |l|
    ensures Dot(LeafWeights(order, w, maxCode, |order|), LeafDepths(order, fat, maxCode, |order|))
         <= Dot(LeafWeights(order, w, maxCode, |order|), l)
  {
    hide Dot, LeafPath, Huffman, SonWeights;
    LeafCost(order, fat, w, maxCode);
    LowerBound(LeafWeights(order, w, maxCode, |order|), l, t);
  }
}
