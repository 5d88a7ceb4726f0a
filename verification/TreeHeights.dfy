/** depth[] in build_tree of deps/zlib/trees.c: the height of every subtree, small enough for its byte, and what
    breaking ties by it leads to. */
module TreeHeights {
  import opened NodeHeap
  import opened HuffmanCost
  import opened TreeForest
  import opened TreeWeights
  import opened LowestTree

  // The least frequency of a subtree of height h.
  function Fib(h: nat): (f: nat)
    ensures f > 0
  {
    if h == 0 then 1 else if h == 1 then 2 else Fib(h - 1) + Fib(h - 2)
  }

  lemma {:induction false} FibMono(a: nat, b: nat)
    requires a <= b
    ensures Fib(a) <= Fib(b)
    decreases b - a
  {
    if a < b { FibMono(a, b - 1); }
  }

  // 16 bits of frequency leave no more than 22 bits of height.
  lemma FibLarge()
    ensures Fib(23) >= 0x10000
  {
    assert Fib(5) == 13 && Fib(6) == 21;
    assert Fib(9) == 89 && Fib(10) == 144;
    assert Fib(14) == 987 && Fib(15) == 1597;
    assert Fib(18) == 6765 && Fib(19) == 10946;
  }

  lemma HeightBound(h: nat, f: nat)
    requires Fib(h) <= f < 0x10000
    ensures h <= 22
  {
    FibLarge();
    if h > 22 { FibMono(23, h); }
  }

  // The nodes in `list` have fathers, and those in `live` will be joined.
  ghost predicate Heights(live: multiset<nat>, list: seq<nat>, dl: seq<nat>, freq: seq<nat>, depth: seq<nat>,
                          leaves: set<nat>, elems: nat, node: nat)
  {
    && |dl| == |freq| == |depth| && elems <= node <= |freq| && (forall x <- leaves :: x < elems && depth[x] == 0)
    // a father is one higher than the higher of its sons
    && (forall i :: 0 <= i < |list| ==> list[i] < |dl| && dl[list[i]] < node && depth[list[i]] < depth[dl[list[i]]])
    && (forall f: nat :: elems <= f < node ==> HasSon(list, dl, depth, f))
    // the higher, the more frequent
    && (forall x :: x in live ==> x < |freq| && Fib(depth[x]) <= freq[x])
    && forall x, y :: x in live && y in live && depth[x] > 0 ==> Fib(depth[x] - 1) <= freq[y]
  }

  ghost predicate HasSon(list: seq<nat>, dl: seq<nat>, depth: seq<nat>, f: nat) {
    exists i :: 0 <= i < |list| && list[i] < |dl| && list[i] < |depth| && f < |depth| && dl[list[i]] == f
      && depth[f] == depth[list[i]] + 1
  }

  // The height of the father.
  function Above(a: nat, b: nat): nat {
    if a >= b then a + 1 else b + 1
  }

  /** A join keeps the heights. */
  lemma JoinHeights(live: multiset<nat>, list: seq<nat>, dl: seq<nat>, freq: seq<nat>, depth: seq<nat>,
                    leaves: set<nat>, elems: nat, node: nat, n: nat, m: nat)
    requires Heights(live, list, dl, freq, depth, leaves, elems, node) && node < |dl|
    requires multiset{n, m} <= live && (forall x :: x in live ==> x < node && x !in list)
    requires forall i :: 0 <= i < |list| ==> list[i] < node
    requires forall x :: x in live ==> x < |freq| && freq[n] <= freq[x]
    requires forall x :: x in live - multiset{n} ==> freq[m] <= freq[x]
    ensures Heights(live - multiset{n, m} + multiset{node}, [m, n] + list, dl[n := node][m := node],
      freq[node := freq[n] + freq[m]], depth[node := Above(depth[n], depth[m])], leaves, elems, node + 1)
  {
    hide Fib;
    assert live[n] >= 1 && live[m] >= 1 && n in live && m in live;
    var list', dl', freq' := [m, n] + list, dl[n := node][m := node], freq[node := freq[n] + freq[m]];
    var depth' := depth[node := Above(depth[n], depth[m])];
    JoinSons(list, dl, depth, elems, node, n, m);
    JoinFib(live, freq, depth, node, n, m);
  }

  lemma JoinSons(list: seq<nat>, dl: seq<nat>, depth: seq<nat>, elems: nat, node: nat, n: nat, m: nat)
    requires node < |dl| == |depth| && n < node && m < node && n !in list && m !in list
    requires forall i :: 0 <= i < |list| ==>
      list[i] < node && dl[list[i]] < node && depth[list[i]] < depth[dl[list[i]]]
    requires forall f: nat :: elems <= f < node ==> HasSon(list, dl, depth, f)
    ensures
      var list', dl', depth' := [m, n] + list, dl[n := node][m := node], depth[node := Above(depth[n], depth[m])];
      && (forall i :: 0 <= i < |list'| ==>
           list'[i] < |dl'| && dl'[list'[i]] < node + 1 && depth'[list'[i]] < depth'[dl'[list'[i]]])
      && (forall f: nat :: elems <= f < node + 1 ==> HasSon(list', dl', depth', f))
  {
    var list', dl', depth' := [m, n] + list, dl[n := node][m := node], depth[node := Above(depth[n], depth[m])];
    NewDads(list, dl, node, n, m);
    forall i | 0 <= i < |list'|
      ensures list'[i] < |dl'| && dl'[list'[i]] < node + 1 && depth'[list'[i]] < depth'[dl'[list'[i]]] {
      if i >= 2 { assert list'[i] == list[i - 2]; }
    }
    forall f: nat | elems <= f < node + 1 ensures HasSon(list', dl', depth', f) {
      if f == node {
        var i := if depth[n] >= depth[m] then 1 else 0;
        assert dl'[list'[i]] == node && depth'[node] == depth'[list'[i]] + 1;
      } else {
        assert HasSon(list, dl, depth, f);
        var i :| 0 <= i < |list| && list[i] < |dl| && list[i] < |depth| && f < |depth| && dl[list[i]] == f
          && depth[f] == depth[list[i]] + 1;
        assert list'[i + 2] == list[i] && dl'[list'[i + 2]] == f;
      }
    }
  }

  lemma JoinFib(live: multiset<nat>, freq: seq<nat>, depth: seq<nat>, node: nat, n: nat, m: nat)
    requires multiset{n, m} <= live && (forall x :: x in live ==> x < node) && node < |freq| == |depth|
    requires n in live && m in live && m in live - multiset{n}
    requires forall x :: x in live ==> freq[n] <= freq[x] && Fib(depth[x]) <= freq[x]
    requires forall x :: x in live - multiset{n} ==> freq[m] <= freq[x]
    requires forall x, y :: x in live && y in live && depth[x] > 0 ==> Fib(depth[x] - 1) <= freq[y]
    ensures
      var live', freq', depth' := live - multiset{n, m} + multiset{node}, freq[node := freq[n] + freq[m]],
        depth[node := Above(depth[n], depth[m])];
      && (forall x :: x in live' ==> x < |freq'| && Fib(depth'[x]) <= freq'[x])
      && (forall x, y :: x in live' && y in live' && depth'[x] > 0 ==> Fib(depth'[x] - 1) <= freq'[y])
  {
    hide Fib, Above;
    assert freq[n] <= freq[m];
    FatherFib(freq[n], freq[m], depth[n], depth[m]);
    var live', freq', depth' := live - multiset{n, m} + multiset{node}, freq[node := freq[n] + freq[m]],
      depth[node := Above(depth[n], depth[m])];
    assert forall x :: x in live - multiset{n, m} ==> x in live - multiset{n} && x in live && x != node;
    forall x, y | x in live' && y in live' && depth'[x] > 0 ensures Fib(depth'[x] - 1) <= freq'[y] {
      if x != node {
        assert y == node ==> Fib(depth[x] - 1) <= freq[n];
      }
    }
  }

  lemma FatherFib(f: nat, g: nat, a: nat, b: nat)
    requires Fib(a) <= f <= g && Fib(b) <= g && (a > 0 ==> Fib(a - 1) <= f) && (b > 0 ==> Fib(b - 1) <= f)
    ensures Above(a, b) > 0 && Fib(Above(a, b)) <= f + g && Fib(Above(a, b) - 1) <= g
  {
  }

  // ---- ties ----

  function Pairs(freq: seq<nat>, depth: seq<nat>): (r: seq<Weight>)
    requires |freq| == |depth|
    ensures |r| == |freq| && forall i :: 0 <= i < |freq| ==> r[i] == Weight(freq[i], depth[i])
  {
    seq(|freq|, i requires 0 <= i < |freq| => Weight(freq[i], depth[i]))
  }

  // How high the tree will be.
  ghost function FinalHeight(live: set<nat>, freq: seq<nat>, depth: seq<nat>): nat
    requires |freq| == |depth|
  {
    Height(Weigh(live, Pairs(freq, depth), |freq|))
  }

  lemma FirstOf(live: set<nat>, freq: seq<nat>, depth: seq<nat>, n: nat)
    requires |freq| == |depth| && n in live && n < |freq|
    requires forall x :: x in live && x < |freq| ==> Smaller(freq, depth, n, x)
    ensures IsFirst(Weigh(live, Pairs(freq, depth), |freq|), Pairs(freq, depth)[n])
  {
    hide Weigh;
    WeighRemove(live, Pairs(freq, depth), |freq|, n);
    WeighFrom(live, Pairs(freq, depth), |freq|);
  }

  /** Joining the two nodes that come first does not change how high the tree will be. */
  lemma JoinIsLowest(live: set<nat>, freq: seq<nat>, depth: seq<nat>, n: nat, m: nat, node: nat)
    requires |freq| == |depth| && n in live && m in live && n != m && node !in live && node < |freq| && n < |freq|
      && m < |freq|
    requires forall x :: x in live && x < |freq| ==> Smaller(freq, depth, n, x)
    requires forall x :: x in live - {n} && x < |freq| ==> Smaller(freq, depth, m, x)
    ensures FinalHeight(live, freq, depth) == FinalHeight(After(live, n, m, node),
      freq[node := freq[n] + freq[m]], depth[node := Above(depth[n], depth[m])])
  {
    hide Weigh, Height, IsFirst, After;
    var val := Pairs(freq, depth);
    var f := Father(val[n], val[m]);
    FirstOf(live, freq, depth, n);
    FirstOf(live - {n}, freq, depth, m);
    WeighJoin(live, val, n, m, node, f);
    assert val[node := f] ==
      Pairs(freq[node := freq[n] + freq[m]], depth[node := Above(depth[n], depth[m])]);
    HeightStep(Weigh(live - {n} - {m}, val, |val|), val[n], val[m]);
  }

  lemma {:induction false} WeighSingle<T>(x: nat, val: seq<T>, k: nat)
    requires k <= |val| && x < |val|
    ensures Weigh({x}, val, k) == if x < k then multiset{val[x]} else multiset{}
  {
    if k > 0 { WeighSingle(x, val, k - 1); }
  }

  lemma LastHeight(x: nat, freq: seq<nat>, depth: seq<nat>)
    requires |freq| == |depth| && x < |freq|
    ensures FinalHeight({x}, freq, depth) == depth[x]
  {
    hide Weigh, Height;
    WeighSingle(x, Pairs(freq, depth), |freq|);
    HeightOne(Pairs(freq, depth)[x]);
  }

  // ---- the leaves at first ----

  lemma HeightsStart(dl: seq<nat>, freq: seq<nat>, depth: seq<nat>, leaves: set<nat>, elems: nat)
    requires elems <= |dl| == |freq| == |depth|
    requires forall x <- leaves :: x < elems && depth[x] == 0 && freq[x] != 0
    ensures Heights(multiset(leaves), [], dl, freq, depth, leaves, elems, elems)
  {
  }

  // Leaves have no height.
  function NoHeights(n: nat): (r: seq<nat>)
    ensures |r| == n && forall i :: 0 <= i < n ==> r[i] == 0
  {
    seq(n, _ => 0)
  }

  lemma LeavesHeight(leaves: set<nat>, freq: seq<nat>, depth: seq<nat>)
    requires |freq| == |depth| && forall x <- leaves :: x < |depth| && depth[x] == 0
    ensures FinalHeight(leaves, freq, depth) == FinalHeight(leaves, freq, NoHeights(|freq|))
  {
    hide Weigh, Height;
    WeighSame(leaves, Pairs(freq, depth), Pairs(freq, NoHeights(|freq|)), |freq|);
  }
}
