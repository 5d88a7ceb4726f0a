/** The forest build_tree of deps/zlib/trees.c works on, and the list of nodes it leaves for gen_bitlen. */
module TreeForest {
  import opened Bits
  import opened Canon
  import opened LengthCounts
  import opened BitLengths

  // ---- the forest ----

  // Nodes made so far: the leaves, and the internal nodes elems..node-1.
  ghost function Made(leaves: set<nat>, elems: nat, node: nat): set<nat> {
    if node <= elems then leaves else Made(leaves, elems, node - 1) + {node - 1}
  }

  lemma {:induction false} MadeIs(leaves: set<nat>, elems: nat, node: nat, x: nat)
    ensures x in Made(leaves, elems, node) <==> x in leaves || elems <= x < node
  {
    if node > elems { MadeIs(leaves, elems, node - 1, x); }
  }

  // Nodes of `list` with this dad.
  function Occ(list: seq<nat>, dl: seq<nat>, f: nat): nat
    requires forall i :: 0 <= i < |list| ==> list[i] < |dl|
  {
    if list == [] then 0 else (if dl[list[0]] == f then 1 else 0) + Occ(list[1..], dl, f)
  }

  lemma {:induction false} OccSame(list: seq<nat>, dl: seq<nat>, other: seq<nat>, f: nat)
    requires forall i :: 0 <= i < |list| ==> list[i] < |dl| && list[i] < |other| && dl[list[i]] == other[list[i]]
    ensures Occ(list, dl, f) == Occ(list, other, f)
  {
    if list != [] { OccSame(list[1..], dl, other, f); }
  }

  lemma {:induction false} OccNone(list: seq<nat>, dl: seq<nat>, f: nat)
    requires forall i :: 0 <= i < |list| ==> list[i] < |dl| && dl[list[i]] != f
    ensures Occ(list, dl, f) == 0
  {
    if list != [] { OccNone(list[1..], dl, f); }
  }

  // `list` holds the nodes taken off the heap, the last one first; `live` those still on it.
  ghost predicate Forest(live: multiset<nat>, list: seq<nat>, dl: seq<nat>, freq: seq<nat>,
                         leaves: set<nat>, elems: nat, node: nat)
  {
    && elems <= node <= |dl| == |freq| && (forall x <- leaves :: x < elems)
    && live + multiset(list) == multiset(Made(leaves, elems, node))
    // by non-increasing frequency, and nothing on the heap is smaller
    && (forall i, k :: 0 <= i < k < |list| ==> list[i] < |freq| && list[k] < |freq| && freq[list[i]] >= freq[list[k]])
    && (forall a, d :: a in live && d in list ==> a < |freq| && d < |freq| && freq[a] >= freq[d])
    // dads are internal nodes, and are taken off the heap after their sons
    && (forall i :: 0 <= i < |list| ==> list[i] < |dl| && elems <= dl[list[i]] < node)
    && (forall i, k :: 0 <= i <= k < |list| ==> list[k] != dl[list[i]])
    && (forall f: nat :: elems <= f < node ==> Occ(list, dl, f) == 2)
  }

  lemma ForestStart(dl: seq<nat>, freq: seq<nat>, leaves: set<nat>, elems: nat)
    requires elems <= |dl| == |freq| && forall x <- leaves :: x < elems
    ensures Forest(multiset(leaves), [], dl, freq, leaves, elems, elems)
  {
    assert Made(leaves, elems, elems) == leaves;
  }

  lemma MadeNext(leaves: set<nat>, elems: nat, node: nat)
    requires elems <= node && forall x <- leaves :: x < elems
    ensures multiset(Made(leaves, elems, node + 1)) == multiset(Made(leaves, elems, node)) + multiset{node}
  {
    MadeIs(leaves, elems, node, node);
    assert Made(leaves, elems, node + 1) == Made(leaves, elems, node) + {node};
  }

  // Every node made is somewhere, and only once.
  lemma ForestNodes(live: multiset<nat>, list: seq<nat>, dl: seq<nat>, freq: seq<nat>, leaves: set<nat>, elems: nat,
                    node: nat)
    requires Forest(live, list, dl, freq, leaves, elems, node)
    ensures forall x :: x in live ==> live[x] == 1 && x !in list && x < node
    ensures forall x :: x in list ==> x < node
    ensures forall i, k :: 0 <= i < k < |list| ==> list[i] != list[k]
  {
    var all: multiset<nat> := multiset(Made(leaves, elems, node));
    forall x: nat | x in live ensures live[x] == 1 && x !in list && x < node {
      assert (live + multiset(list))[x] == all[x];
      MadeIs(leaves, elems, node, x);
    }
    forall x: nat | x in list ensures x < node {
      assert (live + multiset(list))[x] == all[x];
      MadeIs(leaves, elems, node, x);
    }
    forall x: nat ensures multiset(list)[x] <= 1 { assert (live + multiset(list))[x] == all[x]; }
    forall i, k | 0 <= i < k < |list| ensures list[i] != list[k] { Twice(list, i, k); }
  }

  lemma Twice(list: seq<nat>, i: nat, k: nat)
    requires i < k < |list|
    ensures list[i] == list[k] ==> multiset(list)[list[i]] >= 2
  {
    assert list == list[..k] + [list[k]] + list[k + 1..];
    assert list[i] in list[..k];
  }

  /** Joining the two least nodes under a new one. */
  lemma Join(live: multiset<nat>, list: seq<nat>, dl: seq<nat>, freq: seq<nat>, leaves: set<nat>, elems: nat, node: nat,
             n: nat, m: nat)
    requires Forest(live, list, dl, freq, leaves, elems, node) && node < |dl|
    requires multiset{n, m} <= live && n < |freq| && m < |freq|
    requires forall x :: x in live ==> x < |freq| && freq[n] <= freq[x]
    requires forall x :: x in live - multiset{n} ==> freq[m] <= freq[x]
    ensures Forest(live - multiset{n, m} + multiset{node}, [m, n] + list, dl[n := node][m := node],
                   freq[node := freq[n] + freq[m]], leaves, elems, node + 1)
  {
    hide Occ;
    ForestNodes(live, list, dl, freq, leaves, elems, node);
    MadeNext(leaves, elems, node);
    assert live[n] >= 1 && live[m] >= 1;
    var dl', freq' := dl[n := node][m := node], freq[node := freq[n] + freq[m]];
    JoinNodes(live, list, node, n, m);
    JoinOrder(live, list, freq, freq', n, m, node);
    JoinDads(live, list, dl, dl', elems, node, n, m);
  }

  // No node is lost.
  lemma JoinNodes(live: multiset<nat>, list: seq<nat>, node: nat, n: nat, m: nat)
    requires multiset{n, m} <= live
    ensures live - multiset{n, m} + multiset{node} + multiset([m, n] + list) == live + multiset(list) + multiset{node}
  {
    assert multiset([m, n] + list) == multiset{n, m} + multiset(list);
  }

  lemma JoinOrder(live: multiset<nat>, list: seq<nat>, freq: seq<nat>, freq': seq<nat>, n: nat, m: nat, node: nat)
    requires multiset{n, m} <= live && n < |freq| && m < |freq| && node < |freq|
    requires freq' == freq[node := freq[n] + freq[m]] && (forall x :: x in live ==> x != node && x < |freq|)
      && node !in list
    requires forall i, k :: 0 <= i < k < |list| ==>
      list[i] < |freq| && list[k] < |freq| && freq[list[i]] >= freq[list[k]]
    requires forall a, d :: a in live && d in list ==> a < |freq| && d < |freq| && freq[a] >= freq[d]
    requires forall x :: x in live ==> freq[n] <= freq[x]
    requires forall x :: x in live - multiset{n} ==> freq[m] <= freq[x]
    ensures
      var list', live' := [m, n] + list, live - multiset{n, m} + multiset{node};
      && (forall i, k :: 0 <= i < k < |list'| ==>
        list'[i] < |freq'| && list'[k] < |freq'| && freq'[list'[i]] >= freq'[list'[k]])
      && (forall a, d :: a in live' && d in list' ==> a < |freq'| && d < |freq'| && freq'[a] >= freq'[d])
  {
    assert m in live - multiset{n} && n in live;
    var list', live' := [m, n] + list, live - multiset{n, m} + multiset{node};
    assert forall d :: d in list ==> d < |freq| && freq[d] <= freq[n];
    forall i, k | 0 <= i < k < |list'|
      ensures list'[i] < |freq'| && list'[k] < |freq'| && freq'[list'[i]] >= freq'[list'[k]] {
      if i >= 2 { assert list'[i] == list[i - 2] && list'[k] == list[k - 2]; }
      else if k >= 2 { assert list'[k] == list[k - 2] && list[k - 2] in list; }
    }
    forall a, d | a in live' && d in list' ensures a < |freq'| && d < |freq'| && freq'[a] >= freq'[d] {
      if a != node { assert a in live - multiset{n}; }
      assert d == m || d == n || d in list;
    }
  }

  // Dads after the two nodes n and m were put in front.
  lemma NewDads(list: seq<nat>, dl: seq<nat>, node: nat, n: nat, m: nat)
    requires n < |dl| && m < |dl| && n !in list && m !in list && forall i :: 0 <= i < |list| ==> list[i] < |dl|
    ensures
      var list', dl' := [m, n] + list, dl[n := node][m := node];
      && dl'[n] == dl'[m] == node
      && (forall i :: 0 <= i < |list| ==> dl'[list[i]] == dl[list[i]])
      && (forall i :: 0 <= i < |list'| ==> list'[i] < |dl'| && dl'[list'[i]] == if i < 2 then node else dl[list[i - 2]])
  {
    forall i | 0 <= i < |list| ensures dl[n := node][m := node][list[i]] == dl[list[i]] { assert list[i] in list; }
  }

  lemma NewList(list: seq<nat>, list': seq<nat>, n: nat, m: nat)
    requires list' == [m, n] + list
    ensures |list'| == |list| + 2 && list'[0] == m && list'[1] == n
      && forall k :: 2 <= k < |list'| ==> list'[k] == list[k - 2]
  {
  }

  // No node comes after its dad.
  lemma JoinApart(list: seq<nat>, list': seq<nat>, dl: seq<nat>, dl': seq<nat>, node: nat)
    requires |list'| == |list| + 2 && list'[0] < node && list'[1] < node && node !in list
    requires forall k :: 2 <= k < |list'| ==> list'[k] == list[k - 2]
    requires forall i :: 0 <= i < |list| ==> list[i] < |dl|
    requires forall i :: 0 <= i < |list'| ==>
      list'[i] < |dl'| && dl'[list'[i]] == if i < 2 then node else dl[list[i - 2]]
    requires forall i, k :: 0 <= i <= k < |list| ==> list[k] != dl[list[i]]
    ensures forall i, k :: 0 <= i <= k < |list'| ==> list'[k] != dl'[list'[i]]
  {
    forall i, k | 0 <= i <= k < |list'| ensures list'[k] != dl'[list'[i]] {
      if k >= 2 { assert list[k - 2] in list; }
    }
  }

  lemma JoinDads(live: multiset<nat>, list: seq<nat>, dl: seq<nat>, dl': seq<nat>, elems: nat, node: nat, n: nat,
                 m: nat)
    requires n < |dl| && m < |dl| && dl' == dl[n := node][m := node] && n !in list && m !in list && n < node && m < node
    requires forall i :: 0 <= i < |list| ==> list[i] < |dl| && elems <= dl[list[i]] < node
    requires forall i, k :: 0 <= i <= k < |list| ==> list[k] != dl[list[i]]
    requires forall f: nat :: elems <= f < node ==> Occ(list, dl, f) == 2
    requires elems <= node && node !in list
    ensures
      var list' := [m, n] + list;
      && (forall i :: 0 <= i < |list'| ==> list'[i] < |dl'| && elems <= dl'[list'[i]] < node + 1)
      && (forall i, k :: 0 <= i <= k < |list'| ==> list'[k] != dl'[list'[i]])
      && (forall f: nat :: elems <= f < node + 1 ==> Occ(list', dl', f) == 2)
  {
    hide Occ;
    var list' := [m, n] + list;
    NewDads(list, dl, node, n, m);
    NewList(list, list', n, m);
    JoinApart(list, list', dl, dl', node);
    forall f: nat | elems <= f < node + 1 ensures Occ(list', dl', f) == 2 { JoinOcc(list, dl, node, n, m, f); }
  }

  lemma JoinOcc(list: seq<nat>, dl: seq<nat>, node: nat, n: nat, m: nat, f: nat)
    requires n < |dl| && m < |dl| && n !in list && m !in list
    requires forall i :: 0 <= i < |list| ==> list[i] < |dl| && dl[list[i]] < node
    ensures forall i :: 0 <= i < |list| + 2 ==> ([m, n] + list)[i] < |dl|
    ensures Occ([m, n] + list, dl[n := node][m := node], f) == if f == node then 2 else Occ(list, dl, f)
  {
    var dl' := dl[n := node][m := node];
    NewDads(list, dl, node, n, m);
    assert ([m, n] + list)[1..] == [n] + list && ([n] + list)[1..] == list;
    OccSame(list, dl', dl, f);
    if f == node { OccNone(list, dl, f); }
  }

  // ---- frequencies of fathers and sons ----

  // The frequencies of the nodes of `list` with this dad.
  function SonSum(list: seq<nat>, dl: seq<nat>, freq: seq<nat>, f: nat): nat
    requires forall i :: 0 <= i < |list| ==> list[i] < |dl| && list[i] < |freq|
  {
    if list == [] then 0 else (if dl[list[0]] == f then freq[list[0]] else 0) + SonSum(list[1..], dl, freq, f)
  }

  // Every internal node weighs as much as its sons.
  ghost predicate Priced(list: seq<nat>, dl: seq<nat>, freq: seq<nat>, elems: nat, node: nat) {
    && node <= |freq| && (forall i :: 0 <= i < |list| ==> list[i] < |dl| && list[i] < |freq| && dl[list[i]] < node)
    && forall f: nat :: elems <= f < node ==> SonSum(list, dl, freq, f) == freq[f]
  }

  lemma {:induction false} SonSumSame(list: seq<nat>, dl: seq<nat>, freq: seq<nat>, dl': seq<nat>, freq': seq<nat>,
                                      f: nat)
    requires forall i :: 0 <= i < |list| ==>
      && list[i] < |dl| && list[i] < |freq| && list[i] < |dl'| && list[i] < |freq'|
      && dl[list[i]] == dl'[list[i]] && freq[list[i]] == freq'[list[i]]
    ensures SonSum(list, dl, freq, f) == SonSum(list, dl', freq', f)
  {
    if list != [] { SonSumSame(list[1..], dl, freq, dl', freq', f); }
  }

  lemma {:induction false} SonSumNone(list: seq<nat>, dl: seq<nat>, freq: seq<nat>, f: nat)
    requires forall i :: 0 <= i < |list| ==> list[i] < |dl| && list[i] < |freq| && dl[list[i]] != f
    ensures SonSum(list, dl, freq, f) == 0
  {
    if list != [] { SonSumNone(list[1..], dl, freq, f); }
  }

  lemma JoinSonSum(list: seq<nat>, dl: seq<nat>, freq: seq<nat>, node: nat, n: nat, m: nat, f: nat)
    requires n < |dl| && m < |dl| && n !in list && m !in list && n < |freq| && m < |freq| && node < |freq|
    requires n != node && m != node && node !in list
    requires forall i :: 0 <= i < |list| ==> list[i] < |dl| && list[i] < |freq| && dl[list[i]] < node
    ensures forall i :: 0 <= i < |list| + 2 ==> ([m, n] + list)[i] < |dl| && ([m, n] + list)[i] < |freq|
    ensures SonSum([m, n] + list, dl[n := node][m := node], freq[node := freq[n] + freq[m]], f)
         == if f == node then freq[n] + freq[m] else SonSum(list, dl, freq, f)
  {
    var dl', freq' := dl[n := node][m := node], freq[node := freq[n] + freq[m]];
    NewDads(list, dl, node, n, m);
    assert ([m, n] + list)[1..] == [n] + list && ([n] + list)[1..] == list;
    forall i | 0 <= i < |list| ensures freq'[list[i]] == freq[list[i]] { assert list[i] in list; }
    SonSumSame(list, dl', freq', dl, freq, f);
    if f == node { SonSumNone(list, dl, freq, f); }
  }

  lemma JoinPriced(list: seq<nat>, dl: seq<nat>, freq: seq<nat>, elems: nat, node: nat, n: nat, m: nat)
    requires Priced(list, dl, freq, elems, node) && n < |dl| && m < |dl| && n !in list && m !in list
    requires n < node && m < node < |freq| && node !in list
    ensures Priced([m, n] + list, dl[n := node][m := node], freq[node := freq[n] + freq[m]], elems, node + 1)
  {
    hide SonSum;
    var list', dl', freq' := [m, n] + list, dl[n := node][m := node], freq[node := freq[n] + freq[m]];
    NewDads(list, dl, node, n, m);
    forall i | 0 <= i < |list'| ensures list'[i] < |freq'| && dl'[list'[i]] < node + 1 {
      if i >= 2 { assert list'[i] == list[i - 2]; }
    }
    forall f: nat | elems <= f < node + 1 ensures SonSum(list', dl', freq', f) == freq'[f] {
      JoinSonSum(list, dl, freq, node, n, m, f);
    }
  }

  // ---- the finished list ----

  ghost function Find(order: seq<nat>, x: nat): (i: nat)
    ensures i <= |order| && (i < |order| ==> order[i] == x) && (x in order ==> i < |order|)
  {
    if order == [] || order[0] == x then 0 else 1 + Find(order[1..], x)
  }

  // Positions of the fathers; the root has none.
  ghost function Fathers(order: seq<nat>, dl: seq<nat>): (fat: seq<nat>)
    requires forall i :: 0 <= i < |order| ==> order[i] < |dl|
    ensures |fat| == |order|
  {
    seq(|order|, j requires 0 <= j < |order| => if j == 0 then |order| else Find(order, dl[order[j]]))
  }

  lemma {:induction false} SonsAre(order: seq<nat>, dl: seq<nat>, i: nat, j: nat)
    requires 1 <= j <= |order| && i < |order| && forall k :: 0 <= k < |order| ==> order[k] < |dl|
    requires forall a, b :: 0 <= a < b < |order| ==> order[a] != order[b]
    ensures Sons(Fathers(order, dl), i, j) == Occ(order[j..], dl, order[i])
    decreases |order| - j
  {
    if j < |order| {
      SonsAre(order, dl, i, j + 1);
      assert order[j..][1..] == order[j + 1..] && order[j..][0] == order[j];
      assert Fathers(order, dl)[j] == Find(order, dl[order[j]]);
    }
  }

  lemma {:induction false} SonsLater(fat: seq<nat>, i: nat, j: nat)
    requires 1 <= j <= i + 1 <= |fat| && forall k :: 0 < k < |fat| ==> fat[k] < k
    ensures Sons(fat, i, j) == Sons(fat, i, i + 1)
    decreases i - j
  {
    if j <= i { SonsLater(fat, i, j + 1); }
  }

  // The father of a listed node comes before it.
  lemma FatherBefore(order: seq<nat>, dl: seq<nat>, j: nat)
    requires 0 < j < |order| && (forall k :: 0 <= k < |order| ==> order[k] < |dl|) && dl[order[j]] in order
    requires forall k :: j <= k < |order| ==> order[k] != dl[order[j]]
    ensures Fathers(order, dl)[j] < j && order[Fathers(order, dl)[j]] == dl[order[j]]
  {
  }

  lemma ListOrder(root: nat, list: seq<nat>, dl: seq<nat>, freq: seq<nat>, leaves: set<nat>, elems: nat, node: nat)
    requires Forest(multiset{root}, list, dl, freq, leaves, elems, node)
    ensures |dl| == |freq| && forall i :: 0 <= i < |list| + 1 ==> ([root] + list)[i] < |dl|
    ensures forall i, k :: 0 <= i < k < |list| + 1 ==>
      ([root] + list)[i] != ([root] + list)[k] && freq[([root] + list)[i]] >= freq[([root] + list)[k]]
  {
    hide Occ;
    var order := [root] + list;
    ForestNodes(multiset{root}, list, dl, freq, leaves, elems, node);
    assert root in multiset{root};
    forall i | 0 <= i < |list| + 1 ensures order[i] < |dl| {
      if i > 0 { assert order[i] == list[i - 1]; }
    }
    forall i, k | 0 <= i < k < |list| + 1 ensures order[i] != order[k] && freq[order[i]] >= freq[order[k]] {
      assert order[k] == list[k - 1] && list[k - 1] in list;
      if i > 0 { assert order[i] == list[i - 1]; }
    }
  }

  lemma ListFathers(root: nat, list: seq<nat>, dl: seq<nat>, freq: seq<nat>, leaves: set<nat>, elems: nat, node: nat,
                    j: nat)
    requires Forest(multiset{root}, list, dl, freq, leaves, elems, node) && 0 < j < |list| + 1
    requires forall i :: 0 <= i < |list| + 1 ==> ([root] + list)[i] < |dl|
    ensures
      var order := [root] + list;
      Fathers(order, dl)[j] < j && order[Fathers(order, dl)[j]] == dl[order[j]]
  {
    hide Occ, Fathers;
    var order := [root] + list;
    assert order[j] == list[j - 1];
    DadListed(root, list, dl, freq, leaves, elems, node, j - 1);
    forall k | j <= k < |order| ensures order[k] != dl[order[j]] { assert order[k] == list[k - 1]; }
    FatherBefore(order, dl, j);
  }

  lemma ListSons(root: nat, list: seq<nat>, dl: seq<nat>, freq: seq<nat>, leaves: set<nat>, elems: nat, node: nat,
                 maxCode: nat, i: nat)
    requires Forest(multiset{root}, list, dl, freq, leaves, elems, node) && i < |list| + 1
    requires maxCode < elems && forall x <- leaves :: x <= maxCode
    requires forall i :: 0 <= i < |list| + 1 ==> ([root] + list)[i] < |dl|
    requires forall i, k :: 0 <= i < k < |list| + 1 ==> ([root] + list)[i] != ([root] + list)[k]
    requires forall j :: 0 < j < |list| + 1 ==> Fathers([root] + list, dl)[j] < j
    ensures Sons(Fathers([root] + list, dl), i, i + 1) == if ([root] + list)[i] <= maxCode then 0 else 2
  {
    hide Occ, Fathers, Sons;
    var order := [root] + list;
    SonsAre(order, dl, i, 1);
    SonsLater(Fathers(order, dl), i, 1);
    assert order[1..] == list;
    if order[i] <= maxCode {
      OccNone(list, dl, order[i]);
    } else {
      NotLeaf(root, list, dl, freq, leaves, elems, node, order[i]);
    }
  }

  /** When one node is left on the heap, the list is what gen_bitlen expects. */
  lemma ForestListed(root: nat, list: seq<nat>, dl: seq<nat>, freq: seq<nat>, leaves: set<nat>, elems: nat, node: nat,
                     maxCode: nat)
    requires Forest(multiset{root}, list, dl, freq, leaves, elems, node) && |list| > 0
    requires maxCode < elems && forall x <- leaves :: x <= maxCode
    ensures |dl| == |freq| && forall i :: 0 <= i < |list| + 1 ==> ([root] + list)[i] < |dl|
    ensures Listed([root] + list, dl, maxCode, Fathers([root] + list, dl))
    ensures forall i, k :: 0 <= i < k < |list| + 1 ==> freq[([root] + list)[i]] >= freq[([root] + list)[k]]
  {
    hide Occ, Forest, Fathers, Sons;
    var order := [root] + list;
    ListOrder(root, list, dl, freq, leaves, elems, node);
    var fat := Fathers(order, dl);
    forall j | 0 < j < |order| ensures fat[j] < j && order[fat[j]] == dl[order[j]] {
      ListFathers(root, list, dl, freq, leaves, elems, node, j);
    }
    RootInside(root, list, dl, freq, leaves, elems, node, fat);
    forall i: nat | i < |order| ensures Sons(fat, i, i + 1) == if order[i] <= maxCode then 0 else 2 {
      ListSons(root, list, dl, freq, leaves, elems, node, maxCode, i);
    }
  }

  lemma RootInside(root: nat, list: seq<nat>, dl: seq<nat>, freq: seq<nat>, leaves: set<nat>, elems: nat, node: nat,
                   fat: seq<nat>)
    requires Forest(multiset{root}, list, dl, freq, leaves, elems, node) && |list| > 0
    requires |fat| == |list| + 1 && fat[1] < 1 && ([root] + list)[1] < |dl|
      && ([root] + list)[fat[1]] == dl[([root] + list)[1]]
    ensures root >= elems
  {
    hide Occ;
    assert ([root] + list)[1] == list[0];
  }

  lemma DadListed(root: nat, list: seq<nat>, dl: seq<nat>, freq: seq<nat>, leaves: set<nat>, elems: nat, node: nat,
                  i: nat)
    requires Forest(multiset{root}, list, dl, freq, leaves, elems, node) && i < |list|
    ensures dl[list[i]] in [root] + list
  {
    var f := dl[list[i]];
    MadeIs(leaves, elems, node, f);
    var all: multiset<nat> := multiset(Made(leaves, elems, node));
    assert (multiset{root} + multiset(list))[f] == all[f];
  }

  lemma NotLeaf(root: nat, list: seq<nat>, dl: seq<nat>, freq: seq<nat>, leaves: set<nat>, elems: nat, node: nat,
                x: nat)
    requires Forest(multiset{root}, list, dl, freq, leaves, elems, node) && x in [root] + list && x !in leaves
    ensures elems <= x < node
  {
    MadeIs(leaves, elems, node, x);
    var all: multiset<nat> := multiset(Made(leaves, elems, node));
    assert (multiset{root} + multiset(list))[x] == all[x];
  }
}
