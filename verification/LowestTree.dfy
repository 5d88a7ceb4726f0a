/** Huffman's algorithm with ties in frequency broken by the heights of the subtrees, as in build_tree of
    deps/zlib/trees.c, and the proof that no code of the same cost has a shorter longest code. */
module LowestTree {
  import opened Bits
  import opened HuffmanCost

  // The frequency and the height of a subtree.
  datatype Weight = Weight(w: nat, h: nat)

  predicate NotAfter(a: Weight, b: Weight) {
    a.w < b.w || (a.w == b.w && a.h <= b.h)
  }

  function Father(a: Weight, b: Weight): Weight {
    Weight(a.w + b.w, if a.h >= b.h then a.h + 1 else b.h + 1)
  }

  ghost predicate IsFirst(s: multiset<Weight>, a: Weight) {
    a in s && forall b :: b in s ==> NotAfter(a, b)
  }

  lemma {:induction false} HasFirst(s: multiset<Weight>)
    requires |s| > 0
    ensures exists a :: IsFirst(s, a)
    decreases |s|
  {
    var b :| b in s;
    var rest := s - multiset{b};
    assert s == rest + multiset{b};
    if |rest| == 0 {
      assert IsFirst(s, b);
    } else {
      HasFirst(rest);
      var a :| IsFirst(rest, a);
      assert IsFirst(s, if NotAfter(a, b) then a else b);
    }
  }

  ghost function First(s: multiset<Weight>): (a: Weight)
    requires |s| > 0
    ensures IsFirst(s, a)
  {
    HasFirst(s);
    var a :| IsFirst(s, a);
    a
  }

  lemma FirstIs(s: multiset<Weight>, a: Weight)
    requires IsFirst(s, a)
    ensures |s| > 0 && First(s) == a
  {
    assert NotAfter(a, First(s)) && NotAfter(First(s), a);
  }

  // The height of the tree in the end.
  ghost function Height(s: multiset<Weight>): nat
    decreases |s|
  {
    if |s| == 0 then 0 else
    var a := First(s);
    var rest := s - multiset{a};
    if |rest| == 0 then a.h else
    var b := First(rest);
    Height(rest - multiset{b} + multiset{Father(a, b)})
  }

  lemma HeightStep(rest: multiset<Weight>, a: Weight, b: Weight)
    requires IsFirst(rest + multiset{b} + multiset{a}, a) && IsFirst(rest + multiset{b}, b)
    ensures Height(rest + multiset{b} + multiset{a}) == Height(rest + multiset{Father(a, b)})
  {
    var s := rest + multiset{b} + multiset{a};
    FirstIs(s, a);
    FirstIs(rest + multiset{b}, b);
    assert s - multiset{a} == rest + multiset{b} && rest + multiset{b} - multiset{b} == rest;
  }

  lemma HeightOne(a: Weight)
    ensures Height(multiset{a}) == a.h
  {
    FirstIs(multiset{a}, a);
  }

  // ---- codes for subtrees ----

  function Frequencies(s: seq<Weight>): (f: seq<nat>)
    ensures |f| == |s| && forall i :: 0 <= i < |s| ==> f[i] == s[i].w
  {
    seq(|s|, i requires 0 <= i < |s| => s[i].w)
  }

  // No leaf of a subtree has a code longer than m.
  ghost predicate Within(s: seq<Weight>, l: seq<nat>, m: nat) {
    |s| == |l| && forall i :: 0 <= i < |s| ==> s[i].h + l[i] <= m
  }

  // Lengths at the least possible cost.
  ghost predicate Best(s: seq<Weight>, l: seq<nat>, t: nat) {
    && |s| == |l| > 0 && Feasible(l, t) && Dot(Frequencies(s), l) == Huffman(multiset(Frequencies(s)))
    && forall i :: 0 <= i < |s| ==> s[i].w > 0
  }

  lemma SwapFacts(l: seq<nat>, t: nat, a: nat, b: nat)
    requires a < |l| && b < |l| && Feasible(l, t)
    ensures Feasible(Swap(l, a, b), t)
  {
    hide KraftSum, Pow2;
    KraftUpdate(l, t, a, l[b]);
    KraftUpdate(l[a := l[b]], t, b, l[a]);
  }

  // The subtree that comes first takes the longer code.
  lemma Exchange(s: seq<Weight>, l: seq<nat>, t: nat, m: nat, a: nat, b: nat)
    requires Best(s, l, t) && Within(s, l, m) && a < |s| && b < |s| && NotAfter(s[a], s[b]) && l[a] <= l[b]
    ensures Best(s, Swap(l, a, b), t) && Within(s, Swap(l, a, b), m)
  {
    hide Dot, Huffman, Feasible, Mul;
    var f, l1 := Frequencies(s), Swap(l, a, b);
    SwapFacts(l, t, a, b);
    SwapCheaper(f, l, a, b);
    LowerBound(f, l1, t);
    if l[a] < l[b] { SameCost(f, l, a, b); }
  }

  lemma SameCost(f: seq<nat>, l: seq<nat>, a: nat, b: nat)
    requires |f| == |l| && a < |l| && b < |l| && l[a] < l[b] && Dot(f, Swap(l, a, b)) == Dot(f, l) && f[a] <= f[b]
    ensures f[a] == f[b]
  {
    hide Dot;
    DotUpdate(f, l, a, l[b]);
    DotUpdate(f, l[a := l[b]], b, l[a]);
    if f[a] < f[b] { Gain(f[a], f[b], l[a], l[b]); }
  }

  lemma Gain(x: nat, y: nat, p: nat, q: nat)
    requires x < y && p < q
    ensures Mul(x, q) + Mul(y, p) < Mul(x, p) + Mul(y, q)
  {
    assert (y - x) * (q - p) >= 1;
  }

  // The longest code does not stand alone.
  lemma SecondLongest(s: seq<Weight>, l: seq<nat>, t: nat, p: nat) returns (j: nat)
    requires Best(s, l, t) && p < |l| && |s| > 1 && forall k :: 0 <= k < |l| ==> l[k] <= l[p]
    ensures j < |l| && j != p && l[j] == l[p]
  {
    hide Dot, Huffman, KraftSum, Pow2, Mul;
    var rest := Drop(l, p);
    var i := LongestAt(rest);
    j := if i < p then i else i + 1;
    assert l[j] == rest[i];
    if l[j] < l[p] {
      forall k | 0 <= k < |l| && k != p ensures l[k] <= l[j] {
        assert rest[if k < p then k else k - 1] == l[k];
      }
      Shorter(l, t, p, l[j]);
      var f := Frequencies(s);
      DotUpdate(f, l, p, l[j]);
      LowerBound(f, l[p := l[j]], t);
      MulLess(f[p], l[j], l[p]);
    }
  }

  lemma MulLess(x: nat, p: nat, q: nat)
    requires x > 0 && p < q
    ensures Mul(x, p) < Mul(x, q)
  {
    assert x * (q - p) >= 1;
  }

  // A single longest code can be made shorter.
  lemma Shorter(l: seq<nat>, t: nat, p: nat, next: nat)
    requires Feasible(l, t) && p < |l| && next < l[p] && forall k :: 0 <= k < |l| && k != p ==> l[k] <= next
    ensures Feasible(l[p := next], t)
  {
    hide KraftSum, Pow2;
    var rest, e := Drop(l, p), t - next;
    assert forall k :: 0 <= k < |rest| ==> rest[k] == l[if k < p then k else k + 1];
    KraftDrop(l, t, p);
    KraftDrop(l[p := next], t, p);
    assert Drop(l[p := next], p) == rest;
    KraftScale(rest, next, e);
    ShlPow2(next, e);
    ShlLess(KraftSum(rest, next), Pow2(next), e);
  }

  // ---- joining the first two ----

  // Positions p and q hold the first two subtrees; both have the longest code.
  ghost predicate Deepest(s: seq<Weight>, l: seq<nat>, p: nat, q: nat) {
    && |s| == |l| && p < |s| && q < |s| - 1 && IsFirst(multiset(s), s[p])
    && IsFirst(multiset(Drop(s, p)), Drop(s, p)[q]) && l[p] == Drop(l, p)[q] > 0
  }

  function Merge(s: seq<Weight>, p: nat, q: nat): seq<Weight>
    requires p < |s| && q < |s| - 1
  {
    [Father(s[p], Drop(s, p)[q])] + Drop(Drop(s, p), q)
  }

  function MergeLens(l: seq<nat>, p: nat, q: nat): seq<nat>
    requires p < |l| && q < |l| - 1 && l[p] > 0
  {
    [l[p] - 1] + Drop(Drop(l, p), q)
  }

  lemma DropAll<T>(s: seq<T>, i: nat)
    requires i < |s|
    ensures multiset(s) == multiset(Drop(s, i)) + multiset{s[i]}
  {
    assert s == s[..i] + [s[i]] + s[i + 1..];
  }

  lemma WeightsDrop(s: seq<Weight>, i: nat)
    requires i < |s|
    ensures Frequencies(Drop(s, i)) == Drop(Frequencies(s), i)
  {
  }

  lemma MergeHeight(s: seq<Weight>, l: seq<nat>, p: nat, q: nat)
    requires Deepest(s, l, p, q)
    ensures Height(multiset(s)) == Height(multiset(Merge(s, p, q)))
  {
    hide Height, Drop;
    var s1 := Drop(s, p);
    var rest, a, b := Drop(s1, q), s[p], s1[q];
    DropAll(s, p);
    DropAll(s1, q);
    HeightStep(multiset(rest), a, b);
    assert multiset([Father(a, b)] + rest) == multiset(rest) + multiset{Father(a, b)};
  }

  lemma FirstIsLeast(s: seq<Weight>, p: nat)
    requires p < |s| && IsFirst(multiset(s), s[p])
    ensures IsLeast(multiset(Frequencies(s)), s[p].w)
  {
    var f := Frequencies(s);
    assert f[p] in multiset(f);
    forall x | x in multiset(f) ensures s[p].w <= x {
      var i :| 0 <= i < |f| && f[i] == x;
      assert s[i] in multiset(s);
    }
  }

  lemma MergeWeights(s: seq<Weight>, l: seq<nat>, p: nat, q: nat)
    requires Deepest(s, l, p, q)
    ensures Huffman(multiset(Frequencies(s))) ==
      s[p].w + Drop(s, p)[q].w + Huffman(multiset(Frequencies(Merge(s, p, q))))
  {
    hide Drop, IsFirst, IsLeast, Least, Huffman, Joined;
    var s1, f := Drop(s, p), Frequencies(s);
    var a, b := s[p].w, s1[q].w;
    FirstIsLeast(s, p);
    FirstIsLeast(s1, q);
    LeastIs(multiset(f), a);
    LeastIs(multiset(Frequencies(s1)), b);
    WeightsDrop(s, p);
    WeightsDrop(s1, q);
    MergedWeights(f, p, q);
    assert Frequencies(Merge(s, p, q)) == [a + b] + Frequencies(Drop(s1, q));
  }

  lemma MergeDot(s: seq<Weight>, l: seq<nat>, p: nat, q: nat)
    requires Deepest(s, l, p, q)
    ensures |Merge(s, p, q)| == |MergeLens(l, p, q)|
    ensures Dot(Frequencies(s), l) ==
      s[p].w + Drop(s, p)[q].w + Dot(Frequencies(Merge(s, p, q)), MergeLens(l, p, q))
  {
    hide Dot, Mul, Drop, IsFirst;
    var s1, f := Drop(s, p), Frequencies(s);
    var a, b, top := s[p].w, s1[q].w, l[p];
    DotDrop(f, l, p);
    WeightsDrop(s, p);
    DotDrop(Frequencies(s1), Drop(l, p), q);
    WeightsDrop(s1, q);
    DotFirst(a + b, top - 1, Frequencies(Drop(s1, q)), Drop(Drop(l, p), q));
    assert Frequencies(Merge(s, p, q)) == [a + b] + Frequencies(Drop(s1, q));
    MulJoin(a, b, top);
    MulSplit(a + b, top - 1, 1);
    MulOne(a + b);
  }

  lemma MergeFeasible(l: seq<nat>, t: nat, p: nat, q: nat)
    requires Feasible(l, t) && p < |l| && q < |l| - 1 && l[p] == Drop(l, p)[q] > 0
    ensures Feasible(MergeLens(l, p, q), t)
  {
    hide Drop, KraftSum;
    var top, r := l[p], Drop(Drop(l, p), q);
    KraftDrop(l, t, p);
    KraftDrop(Drop(l, p), t, q);
    KraftFirst(top - 1, r, t);
  }

  lemma KraftFirst(x: nat, l: seq<nat>, t: nat)
    requires x <= t && forall i :: 0 <= i < |l| ==> l[i] <= t
    ensures (forall i :: 0 <= i < |l| + 1 ==> ([x] + l)[i] <= t) && KraftSum([x] + l, t) == Pow2(t - x) + KraftSum(l, t)
  {
    assert ([x] + l)[1..] == l;
  }

  lemma MergeWithin(s: seq<Weight>, l: seq<nat>, m: nat, p: nat, q: nat)
    requires Deepest(s, l, p, q) && Within(s, l, m) && forall i :: 0 <= i < |s| ==> s[i].w > 0
    ensures Within(Merge(s, p, q), MergeLens(l, p, q), m)
    ensures forall i :: 0 <= i < |Merge(s, p, q)| ==> Merge(s, p, q)[i].w > 0
  {
    hide IsFirst;
    var s1, l1 := Drop(s, p), Drop(l, p);
    DropWithin(s, l, m, p);
    DropWithin(s1, l1, m, q);
    var s2, l2 := Drop(s1, q), Drop(l1, q);
    hide Drop;
    var s3, l3 := Merge(s, p, q), MergeLens(l, p, q);
    forall i | 0 <= i < |s3| ensures s3[i].h + l3[i] <= m && s3[i].w > 0 {
      if i > 0 { assert s3[i] == s2[i - 1] && l3[i] == l2[i - 1]; }
    }
  }

  lemma DropWithin(s: seq<Weight>, l: seq<nat>, m: nat, p: nat)
    requires Within(s, l, m) && p < |s| && forall i :: 0 <= i < |s| ==> s[i].w > 0
    ensures Within(Drop(s, p), Drop(l, p), m) && forall i :: 0 <= i < |s| - 1 ==> Drop(s, p)[i].w > 0
  {
    forall i | 0 <= i < |s| - 1 ensures Drop(s, p)[i].h + Drop(l, p)[i] <= m && Drop(s, p)[i].w > 0 {
      var k := if i < p then i else i + 1;
      assert Drop(s, p)[i] == s[k] && Drop(l, p)[i] == l[k];
    }
  }

  // The first two subtrees can be given the longest codes.
  lemma FirstTwo(s: seq<Weight>, l: seq<nat>, t: nat, m: nat) returns (l2: seq<nat>, p: nat, q: nat)
    requires Best(s, l, t) && Within(s, l, m) && |s| > 1
    ensures Best(s, l2, t) && Within(s, l2, m) && Deepest(s, l2, p, q)
  {
    hide Best, Within, Drop;
    p := PlaceOf(s);
    BestLengths(s, l, t);
    var i := LongestAt(l);
    assert s[i] in multiset(s);
    Exchange(s, l, t, m, p, i);
    var l1 := Swap(l, p, i);
    q := PlaceOf(Drop(s, p));
    var q1 := if q < p then q else q + 1;
    DropAt(s, p, q);
    var j := SecondLongest(s, l1, t, p);
    InDrop(s, p, j);
    assert NotAfter(s[q1], s[j]);
    Exchange(s, l1, t, m, q1, j);
    l2 := Swap(l1, q1, j);
    DropAt(l2, p, q);
    NoLongest(s, l2, t, p, q1);
  }

  lemma PlaceOf(s: seq<Weight>) returns (p: nat)
    requires |s| > 0
    ensures p < |s| && IsFirst(multiset(s), s[p])
  {
    HasFirst(multiset(s));
    var a :| IsFirst(multiset(s), a);
    p :| 0 <= p < |s| && s[p] == a;
  }

  lemma BestLengths(s: seq<Weight>, l: seq<nat>, t: nat)
    requires Best(s, l, t)
    ensures |s| == |l| > 0
  {
    hide Dot, Huffman, Feasible;
  }

  lemma DropAt<T>(s: seq<T>, p: nat, q: nat)
    requires p < |s| && q < |s| - 1
    ensures Drop(s, p)[q] == s[if q < p then q else q + 1]
  {
  }

  lemma InDrop(s: seq<Weight>, p: nat, j: nat)
    requires p < |s| && j < |s| && j != p
    ensures s[j] in multiset(Drop(s, p))
  {
    var r := Drop(s, p);
    assert r[if j < p then j else j - 1] == s[j];
  }

  // Two codes cannot both be empty.
  lemma NoLongest(s: seq<Weight>, l: seq<nat>, t: nat, p: nat, q: nat)
    requires Best(s, l, t) && p < |s| && q < |s| && p != q && l[p] == l[q]
    ensures l[p] > 0
  {
    hide Dot, Huffman, KraftSum;
    var r := if q < p then q else q - 1;
    DropAt(l, p, r);
    hide Drop;
    KraftDrop(l, t, p);
    KraftDrop(Drop(l, p), t, r);
  }

  /** Breaking ties by height makes the longest code as short as it can be: no lengths of the least cost keep all leaves
      above the height the algorithm ends with. */
  lemma {:induction false} LowestHeight(s: seq<Weight>, l: seq<nat>, t: nat, m: nat)
    requires Best(s, l, t) && Within(s, l, m)
    ensures Height(multiset(s)) <= m
    decreases |s|
  {
    hide Height, Dot, Huffman, Feasible, Drop, Deepest;
    if |s| == 1 {
      assert s == [s[0]];
      HeightOne(s[0]);
    } else {
      var l2, p, q := FirstTwo(s, l, t, m);
      DeepestFacts(s, l2, p, q);
      MergeHeight(s, l2, p, q);
      MergeWeights(s, l2, p, q);
      MergeDot(s, l2, p, q);
      MergeFeasible(l2, t, p, q);
      MergeWithin(s, l2, m, p, q);
      LowestHeight(Merge(s, p, q), MergeLens(l2, p, q), t, m);
    }
  }

  lemma DeepestFacts(s: seq<Weight>, l: seq<nat>, p: nat, q: nat)
    requires Deepest(s, l, p, q)
    ensures |s| == |l| && p < |s| && q < |s| - 1 && l[p] == Drop(l, p)[q] > 0
  {
  }
}
