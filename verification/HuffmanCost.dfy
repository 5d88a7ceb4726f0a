/** The cost of Huffman's algorithm on a collection of weights, and the proof that no code lengths allowed by
    Kraft's inequality cost less. */
module HuffmanCost {
  import opened Bits

  // ---- Huffman's algorithm on weights ----

  ghost predicate IsLeast(w: multiset<nat>, a: nat) {
    a in w && forall x :: x in w ==> a <= x
  }

  ghost function Least(w: multiset<nat>): (a: nat)
    requires |w| > 0
    ensures IsLeast(w, a)
  {
    HasLeast(w);
    var a: nat :| IsLeast(w, a);
    a
  }

  lemma {:induction false} HasLeast(w: multiset<nat>)
    requires |w| > 0
    ensures exists a: nat :: IsLeast(w, a)
    decreases |w|
  {
    var b :| b in w;
    var rest := w - multiset{b};
    assert w == rest + multiset{b};
    if |rest| == 0 {
      assert IsLeast(w, b);
    } else {
      HasLeast(rest);
      var a: nat :| IsLeast(rest, a);
      assert IsLeast(w, if a <= b then a else b);
    }
  }

  // The two least weights joined.
  ghost function Joined(w: multiset<nat>): (r: multiset<nat>)
    requires |w| > 1
    ensures |r| == |w| - 1
  {
    var a := Least(w);
    var b := Least(w - multiset{a});
    w - multiset{a} - multiset{b} + multiset{a + b}
  }

  // The sum of all weights the algorithm makes.
  ghost function Huffman(w: multiset<nat>): nat
    decreases |w|
  {
    if |w| <= 1 then 0 else
    var a := Least(w);
    var b := Least(w - multiset{a});
    a + b + Huffman(Joined(w))
  }

  lemma LeastIs(w: multiset<nat>, a: nat)
    requires IsLeast(w, a)
    ensures |w| > 0 && Least(w) == a
  {
  }

  // ---- codes ----

  // Products, kept apart from the rest of the arithmetic.
  function Mul(x: nat, y: nat): nat {
    x * y
  }

  // The sum of f[i] * l[i].
  function Dot(f: seq<nat>, l: seq<nat>): nat
    requires |f| == |l|
  {
    if f == [] then 0 else Mul(f[0], l[0]) + Dot(f[1..], l[1..])
  }

  // The sum of 2^(t - l[i]).
  function KraftSum(l: seq<nat>, t: nat): nat
    requires forall i :: 0 <= i < |l| ==> l[i] <= t
  {
    if l == [] then 0 else Pow2(t - l[0]) + KraftSum(l[1..], t)
  }

  // There is a prefix code with these lengths.
  ghost predicate Feasible(l: seq<nat>, t: nat) {
    (forall i :: 0 <= i < |l| ==> l[i] <= t) && KraftSum(l, t) <= Pow2(t)
  }

  lemma {:induction false} KraftScale(l: seq<nat>, t: nat, e: nat)
    requires forall i :: 0 <= i < |l| ==> l[i] <= t
    ensures KraftSum(l, t + e) == Shl(KraftSum(l, t), e)
  {
    if l == [] {
      ShlZero(e);
    } else {
      KraftScale(l[1..], t, e);
      ShlPow2(t - l[0], e);
      ShlAdd(Pow2(t - l[0]), KraftSum(l[1..], t), e);
    }
  }

  // ---- taking an entry out ----

  function Drop<T>(s: seq<T>, i: nat): (r: seq<T>)
    requires i < |s|
    ensures |r| == |s| - 1
  {
    s[..i] + s[i + 1..]
  }

  lemma DropMultiset(s: seq<nat>, i: nat)
    requires i < |s|
    ensures multiset(s) == multiset(Drop(s, i)) + multiset{s[i]}
  {
    assert s == s[..i] + [s[i]] + s[i + 1..];
  }

  lemma {:induction false} DotDrop(f: seq<nat>, l: seq<nat>, i: nat)
    requires |f| == |l| && i < |f|
    ensures Dot(f, l) == Mul(f[i], l[i]) + Dot(Drop(f, i), Drop(l, i))
  {
    hide Mul;
    if i == 0 {
      assert Drop(f, 0) == f[1..] && Drop(l, 0) == l[1..];
    } else {
      DotDrop(f[1..], l[1..], i - 1);
      assert Drop(f, i)[1..] == Drop(f[1..], i - 1) && Drop(l, i)[1..] == Drop(l[1..], i - 1);
      assert Drop(f, i)[0] == f[0] && Drop(l, i)[0] == l[0];
    }
  }

  lemma DropTail<T>(l: seq<T>, i: nat)
    requires 0 < i < |l|
    ensures |Drop(l, i)| == |l| - 1 && Drop(l, i)[0] == l[0] && Drop(l, i)[1..] == Drop(l[1..], i - 1)
  {
  }

  lemma {:induction false} KraftDrop(l: seq<nat>, t: nat, i: nat)
    requires i < |l| && forall k :: 0 <= k < |l| ==> l[k] <= t
    ensures forall k :: 0 <= k < |l| - 1 ==> Drop(l, i)[k] <= t
    ensures KraftSum(l, t) == Pow2(t - l[i]) + KraftSum(Drop(l, i), t)
  {
    hide Pow2;
    if i == 0 {
      assert Drop(l, 0) == l[1..];
    } else {
      KraftDrop(l[1..], t, i - 1);
      DropTail(l, i);
      hide Drop;
    }
  }

  // ---- exchanging lengths ----

  function Swap(l: seq<nat>, i: nat, k: nat): (r: seq<nat>)
    requires i < |l| && k < |l|
    ensures |r| == |l|
  {
    l[i := l[k]][k := l[i]]
  }

  lemma {:induction false} KraftUpdate(l: seq<nat>, t: nat, i: nat, v: nat)
    requires i < |l| && v <= t && forall k :: 0 <= k < |l| ==> l[k] <= t
    ensures KraftSum(l[i := v], t) + Pow2(t - l[i]) == KraftSum(l, t) + Pow2(t - v)
  {
    KraftDrop(l, t, i);
    KraftDrop(l[i := v], t, i);
    assert Drop(l[i := v], i) == Drop(l, i);
  }

  lemma {:induction false} DotUpdate(f: seq<nat>, l: seq<nat>, i: nat, v: nat)
    requires |f| == |l| && i < |l|
    ensures Dot(f, l[i := v]) + Mul(f[i], l[i]) == Dot(f, l) + Mul(f[i], v)
  {
    hide Mul;
    DotDrop(f, l, i);
    DotDrop(f, l[i := v], i);
    assert Drop(l[i := v], i) == Drop(l, i);
  }

  // Giving the longer code to the smaller weight does not cost more.
  lemma SwapCheaper(f: seq<nat>, l: seq<nat>, i: nat, k: nat)
    requires |f| == |l| && i < |l| && k < |l| && f[i] <= f[k] && l[i] <= l[k]
    ensures Dot(f, Swap(l, i, k)) <= Dot(f, l)
  {
    hide Dot, Mul;
    DotUpdate(f, l, i, l[k]);
    DotUpdate(f, l[i := l[k]], k, l[i]);
    if i != k { Rearranged(f[i], f[k], l[i], l[k]); }
  }

  lemma Rearranged(a: nat, b: nat, x: nat, y: nat)
    requires a <= b && x <= y
    ensures Mul(a, y) + Mul(b, x) <= Mul(a, x) + Mul(b, y)
  {
    assert (b - a) * (y - x) >= 0;
  }

  lemma {:induction false} LongestAt(l: seq<nat>) returns (i: nat)
    requires |l| > 0
    ensures i < |l| && forall k :: 0 <= k < |l| ==> l[k] <= l[i]
  {
    if |l| == 1 {
      i := 0;
    } else {
      var j := LongestAt(l[1..]);
      i := if l[0] >= l[j + 1] then 0 else j + 1;
      forall k | 0 <= k < |l| ensures l[k] <= l[i] { if k > 0 { assert l[k] == l[1..][k - 1]; } }
    }
  }

  // The least weight can be given the longest code; the rest keep the other lengths.
  lemma TakeOut(f: seq<nat>, l: seq<nat>, t: nat) returns (p: nat, top: nat, m: seq<nat>)
    requires |f| == |l| > 0 && forall k :: 0 <= k < |l| ==> l[k] <= t
    ensures p < |f| && f[p] == Least(multiset(f)) && |m| == |f| - 1 && top <= t
    ensures forall k :: 0 <= k < |m| ==> m[k] <= top
    ensures Dot(f, l) >= Mul(f[p], top) + Dot(Drop(f, p), m)
    ensures KraftSum(l, t) == Pow2(t - top) + KraftSum(m, t)
  {
    hide Dot, KraftSum, Pow2, Mul;
    var a := Least(multiset(f));
    assert a in f;
    p :| 0 <= p < |f| && f[p] == a;
    var i := LongestAt(l);
    assert f[i] in multiset(f);
    SwapCheaper(f, l, p, i);
    top := l[i];
    var l1 := Swap(l, p, i);
    m := Drop(l1, p);
    KraftUpdate(l, t, p, l[i]);
    KraftUpdate(l[p := l[i]], t, i, l[p]);
    KraftDrop(l1, t, p);
    DotDrop(f, l1, p);
    forall k | 0 <= k < |m| ensures m[k] <= top { assert m[k] == l1[if k < p then k else k + 1]; }
  }

  // With the two longest codes of lengths top >= next, both may have length next.
  lemma Level(r: seq<nat>, top: nat, next: nat)
    requires next <= top && (forall k :: 0 <= k < |r| ==> r[k] <= next)
    requires 1 + Pow2(top - next) + KraftSum(r, top) <= Pow2(top)
    ensures 2 + KraftSum(r, next) <= Pow2(next) && next > 0
  {
    hide KraftSum;
    var e := top - next;
    KraftScale(r, next, e);
    ShlSucc(KraftSum(r, next), e);
    ShlPow2(next, e);
    ShlLess(KraftSum(r, next) + 1, Pow2(next), e);
  }

  /** No lengths that satisfy Kraft's inequality cost less than Huffman's algorithm. */
  lemma {:induction false} LowerBound(f: seq<nat>, l: seq<nat>, t: nat)
    requires |f| == |l| && Feasible(l, t)
    ensures Dot(f, l) >= Huffman(multiset(f))
    decreases |f|
  {
    hide KraftSum, Pow2, Dot, Drop, Least, Joined, Huffman, Feasible, Mul;
    if |f| <= 1 {
      HuffmanFew(multiset(f));
    } else {
      FeasibleFacts(l, t);
      var p, top, m := TakeOut(f, l, t);
      var f1 := Drop(f, p);
      var q, next, r := TakeOut(f1, m, top);
      var f2 := Drop(f1, q);
      var a, b := f[p], f1[q];
      Tight(l, t, top, m, next, r);
      Level(r, top, next);
      var f3, l3 := [a + b] + f2, [next - 1] + r;
      MergedFeasible(r, next);
      LowerBound(f3, l3, next);
      MergedWeights(f, p, q);
      MergedCost(f2, r, a, b, top, next);
    }
  }

  lemma FeasibleFacts(l: seq<nat>, t: nat)
    requires Feasible(l, t)
    ensures forall k :: 0 <= k < |l| ==> l[k] <= t
  {
  }

  lemma Tight(l: seq<nat>, t: nat, top: nat, m: seq<nat>, next: nat, r: seq<nat>)
    requires Feasible(l, t) && top <= t && next <= top && (forall k :: 0 <= k < |m| ==> m[k] <= top)
    requires forall k :: 0 <= k < |r| ==> r[k] <= next
    requires KraftSum(l, t) == Pow2(t - top) + KraftSum(m, t) && KraftSum(m, top) == Pow2(top - next) + KraftSum(r, top)
    ensures 1 + Pow2(top - next) + KraftSum(r, top) <= Pow2(top)
  {
    hide KraftSum;
    var e := t - top;
    KraftScale(m, top, e);
    ShlSucc(KraftSum(m, top), e);
    ShlPow2(top, e);
    ShlLess(Pow2(top), KraftSum(m, top) + 1, e);
  }

  lemma MergedFeasible(r: seq<nat>, next: nat)
    requires (forall k :: 0 <= k < |r| ==> r[k] <= next) && next > 0 && 2 + KraftSum(r, next) <= Pow2(next)
    ensures Feasible([next - 1] + r, next)
  {
    assert ([next - 1] + r)[1..] == r && Pow2(1) == 2;
  }

  lemma Sizes(f: seq<nat>)
    ensures |multiset(f)| == |f|
  {
  }

  lemma TwoDropped(w: multiset<nat>, f1: seq<nat>, f2: seq<nat>, one: seq<nat>, a: nat, b: nat)
    requires w == multiset(f1) + multiset{a} && multiset(f1) == multiset(f2) + multiset{b} && one == [a + b]
    ensures multiset(f1) == w - multiset{a}
    ensures multiset(one + f2) == w - multiset{a} - multiset{b} + multiset{a + b}
  {
    Cancelled(multiset(f1), a);
    Cancelled(multiset(f2), b);
    assert multiset(one + f2) == multiset(one) + multiset(f2);
  }

  lemma Cancelled(w: multiset<nat>, a: nat)
    ensures w + multiset{a} - multiset{a} == w
  {
  }

  lemma MergedWeights(f: seq<nat>, p: nat, q: nat)
    requires p < |f| && q < |f| - 1 && f[p] == Least(multiset(f)) && Drop(f, p)[q] == Least(multiset(Drop(f, p)))
    ensures
      var a, b := f[p], Drop(f, p)[q];
      |multiset(f)| > 1 && multiset([a + b] + Drop(Drop(f, p), q)) == Joined(multiset(f))
      && Huffman(multiset(f)) == a + b + Huffman(Joined(multiset(f)))
  {
    hide Drop, Least, IsLeast, Huffman, Joined;
    DropMultiset(f, p);
    DropMultiset(Drop(f, p), q);
    var a, b := f[p], Drop(f, p)[q];
    Sizes(f);
    MergedStep(multiset(f), Drop(f, p), Drop(Drop(f, p), q), [a + b], a, b);
  }

  lemma MergedStep(w: multiset<nat>, f1: seq<nat>, f2: seq<nat>, one: seq<nat>, a: nat, b: nat)
    requires w == multiset(f1) + multiset{a} && multiset(f1) == multiset(f2) + multiset{b} && one == [a + b]
    requires |w| > 1 && |f1| > 0 && a == Least(w) && b == Least(multiset(f1))
    ensures multiset(one + f2) == Joined(w) && Huffman(w) == a + b + Huffman(Joined(w))
  {
    hide Least, IsLeast, Huffman, Joined;
    TwoDropped(w, f1, f2, one, a, b);
    HuffmanStep(w, a, b);
  }

  lemma MergedCost(f2: seq<nat>, r: seq<nat>, a: nat, b: nat, top: nat, next: nat)
    requires |f2| == |r| && 0 < next <= top
    ensures Mul(a, top) + Mul(b, next) + Dot(f2, r) >= a + b + Dot([a + b] + f2, [next - 1] + r)
  {
    hide Mul, Dot;
    DotFirst(a + b, next - 1, f2, r);
    Merging(a, b, top, next);
  }

  lemma DotFirst(x: nat, y: nat, f: seq<nat>, l: seq<nat>)
    requires |f| == |l|
    ensures Dot([x] + f, [y] + l) == Mul(x, y) + Dot(f, l)
  {
    hide Mul;
    assert ([x] + f)[1..] == f && ([y] + l)[1..] == l;
  }

  lemma Merging(a: nat, b: nat, top: nat, next: nat)
    requires 0 < next <= top
    ensures Mul(a, top) + Mul(b, next) >= a + b + Mul(a + b, next - 1)
  {
    hide Mul;
    MulSplit(a, next, top - next);
    MulSplit(a + b, next - 1, 1);
    MulJoin(a, b, next);
    MulOne(a + b);
  }

  lemma MulSplit(a: nat, x: nat, y: nat)
    ensures Mul(a, x + y) == Mul(a, x) + Mul(a, y)
  {
  }

  lemma MulJoin(a: nat, b: nat, x: nat)
    ensures Mul(a + b, x) == Mul(a, x) + Mul(b, x)
  {
  }

  lemma MulOne(a: nat)
    ensures Mul(a, 1) == a
  {
  }

  lemma HuffmanStep(w: multiset<nat>, a: nat, b: nat)
    requires |w| > 1 && a == Least(w) && b == Least(w - multiset{a})
    ensures Joined(w) == w - multiset{a} - multiset{b} + multiset{a + b}
    ensures Huffman(w) == a + b + Huffman(Joined(w))
  {
    hide Least, IsLeast;
  }

  lemma HuffmanFew(w: multiset<nat>)
    requires |w| <= 1
    ensures Huffman(w) == 0
  {
  }
}
