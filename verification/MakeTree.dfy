/** The whole of build_tree from deps/zlib/trees.c: collect the symbols, grow the tree, take its lengths and codes. */
module MakeTree {
  import opened Bits
  import opened Canon
  import opened LengthCounts
  import opened BitLengths
  import opened NodeHeap
  import opened HuffmanCost
  import opened TreeForest
  import opened TreeWeights
  import opened TreePaths
  import opened LowestTree
  import opened TreeHeights
  import opened BuildTree
  import opened TreeCost
  import opened GenCodes

  // ---- the end of the loop ----

  lemma {:induction false} ListSumAppend(list: seq<nat>, freq: seq<nat>, x: nat)
    requires (forall i :: 0 <= i < |list| ==> list[i] < |freq|) && x < |freq|
    ensures forall i :: 0 <= i < |list| + 1 ==> (list + [x])[i] < |freq|
    ensures ListSum(list + [x], freq) == ListSum(list, freq) + freq[x]
  {
    if list == [] {
      assert list + [x] == [x] && [x][1..] == [];
    } else {
      ListSumAppend(list[1..], freq, x);
      assert (list + [x])[1..] == list[1..] + [x];
    }
  }

  lemma {:induction false} NonRootIsListSum(root: nat, list: seq<nat>, freq: seq<nat>, h: nat)
    requires (forall k :: 0 <= k < |list| + 1 ==> ([root] + list)[k] < |freq|) && 1 <= h <= |list| + 1
    ensures forall i :: 0 <= i < |list| ==> list[i] < |freq|
    ensures NonRoot(WeightsOf([root] + list, freq), h) == ListSum(list[..h - 1], freq)
  {
    var order := [root] + list;
    forall i | 0 <= i < |list| ensures list[i] < |freq| { assert order[i + 1] == list[i]; }
    if h > 1 {
      NonRootIsListSum(root, list, freq, h - 1);
      assert list[..h - 1] == list[..h - 2] + [list[h - 2]] && order[h - 1] == list[h - 2];
      ListSumAppend(list[..h - 2], freq, list[h - 2]);
    }
  }

  // Leaves among the first h nodes.
  ghost function LeafSet(order: seq<nat>, maxCode: nat, h: nat): set<nat>
    requires h <= |order|
  {
    if h == 0 then {} else LeafSet(order, maxCode, h - 1) + (if order[h - 1] <= maxCode then {order[h - 1]} else {})
  }

  lemma {:induction false} LeafSetIs(order: seq<nat>, maxCode: nat, h: nat, x: nat)
    requires h <= |order|
    ensures x in LeafSet(order, maxCode, h) <==> x <= maxCode && x in order[..h]
  {
    if h > 0 {
      LeafSetIs(order, maxCode, h - 1, x);
      assert order[..h] == order[..h - 1] + [order[h - 1]];
    }
  }

  lemma WeighOne<T>(s: set<nat>, val: seq<T>, x: nat)
    requires x !in s && x < |val|
    ensures Weigh(s + {x}, val, |val|) == Weigh(s, val, |val|) + multiset{val[x]}
  {
    hide Weigh;
    assert s + {x} - {x} == s;
    WeighRemove(s + {x}, val, |val|, x);
  }

  lemma {:induction false} LeavesWeigh<T>(order: seq<nat>, val: seq<T>, maxCode: nat, h: nat)
    requires h <= |order| && (forall i :: 0 <= i < |order| ==> order[i] < |val|)
    requires forall i, j :: 0 <= i < j < |order| ==> order[i] != order[j]
    ensures multiset(LeafWeights(order, WeightsOf(order, val), maxCode, h)) ==
      Weigh(LeafSet(order, maxCode, h), val, |val|)
  {
    hide Weigh, LeafSet, LeafWeights, WeightsOf;
    NextLeaf(order, val, maxCode, h);
    if h == 0 {
      WeighNone(val, |val|);
    } else {
      LeavesWeigh(order, val, maxCode, h - 1);
      var x, s := order[h - 1], LeafSet(order, maxCode, h - 1);
      if x <= maxCode {
        NotYet(order, maxCode, h - 1);
        WeighOne(s, val, x);
      }
    }
  }

  lemma NotYet(order: seq<nat>, maxCode: nat, h: nat)
    requires h < |order| && forall i, j :: 0 <= i < j < |order| ==> order[i] != order[j]
    ensures order[h] !in LeafSet(order, maxCode, h)
  {
    LeafSetIs(order, maxCode, h, order[h]);
  }

  // The next leaf joins the set and its weight the weights.
  lemma NextLeaf<T>(order: seq<nat>, val: seq<T>, maxCode: nat, h: nat)
    requires h <= |order| && forall i :: 0 <= i < |order| ==> order[i] < |val|
    ensures
      var w := WeightsOf(order, val);
      if h == 0 then LeafSet(order, maxCode, h) == {} && multiset(LeafWeights(order, w, maxCode, h)) == multiset{}
      else if order[h - 1] > maxCode then
        LeafSet(order, maxCode, h) == LeafSet(order, maxCode, h - 1)
        && LeafWeights(order, w, maxCode, h) == LeafWeights(order, w, maxCode, h - 1)
      else
        LeafSet(order, maxCode, h) == LeafSet(order, maxCode, h - 1) + {order[h - 1]}
        && multiset(LeafWeights(order, w, maxCode, h)) == multiset(LeafWeights(order, w, maxCode, h - 1))
          + multiset{val[order[h - 1]]}
  {
  }

  lemma {:induction false} WeighNone<T>(val: seq<T>, k: nat)
    requires k <= |val|
    ensures Weigh({}, val, k) == multiset{}
  {
    if k > 0 { WeighNone(val, k - 1); }
  }

  // What build_tree hands to gen_bitlen.
  ghost predicate Grown(order: seq<nat>, dl: seq<nat>, freq: seq<nat>, maxCode: nat, job: Job)
  {
    && (forall i :: 0 <= i < |order| ==> order[i] < |dl| && order[i] < |freq|)
    // all 2n-1 nodes, each once, fathers first, by non-increasing frequency
    && |order| == 2 * job.count - 1 && Listed(order, dl, maxCode, Fathers(order, dl))
    && (forall i, k :: 0 <= i < k < |order| ==> freq[order[i]] >= freq[order[k]])
    && (forall x: nat :: x <= maxCode ==> (x in order <==> x in job.leaves))
    && (forall i :: 0 <= i < |order| ==> order[i] <= maxCode || order[i] >= job.elems)
    && Balanced(order, Fathers(order, dl), WeightsOf(order, freq), maxCode)
    && NonRoot(WeightsOf(order, freq), |order|) == job.best
    && forall i: nat :: i < |order| ==> DepthAt(Fathers(order, dl), i) <= job.height
  }

  lemma GrownAtEnd(heap: seq<nat>, heapMax: nat, dl: seq<nat>, freq: seq<nat>, depth: seq<nat>, node: nat, job: Job,
                   maxCode: nat)
    requires Working(heap, 1, heapMax, dl, freq, depth, node, job) && job.count >= 2
    requires maxCode < job.elems && forall x <- job.leaves :: x <= maxCode
    ensures Grown([heap[1]] + heap[heapMax..], dl, freq, maxCode, job)
  {
    hide Forest, Heap, Priced, Weighed, Listed, Balanced, Huffman, Weigh, Sum, Fathers, WeightsOf, Heights, DepthAt,
         FinalHeight;
    var root, list := heap[1], heap[heapMax..];
    assert heap[1..2] == [root];
    assert multiset(heap[1..2]) == multiset{root};
    ForestListed(root, list, dl, freq, job.leaves, job.elems, node, maxCode);
    var order := [root] + list;
    RootAndDads(root, list, dl, freq, job.leaves, job.elems, node, maxCode);
    ListBalanced(root, list, dl, freq, job.elems, node, maxCode);
    NonRootIsListSum(root, list, freq, |order|);
    assert list[..|list|] == list;
    BestReached(heap, list, freq, job);
    assert Live(heap, 1) == {root};
    LastHeight(root, freq, depth);
    forall i: nat | i < |order| ensures DepthAt(Fathers(order, dl), i) <= job.height {
      DepthBelow(root, list, dl, freq, depth, job.leaves, job.elems, node, i);
    }
  }

  // A node as high as this is no deeper than the root is higher.
  lemma {:induction false} DepthBelow(root: nat, list: seq<nat>, dl: seq<nat>, freq: seq<nat>, depth: seq<nat>,
                                      leaves: set<nat>, elems: nat, node: nat, j: nat)
    requires Forest(multiset{root}, list, dl, freq, leaves, elems, node) && j < |list| + 1
    requires Heights(multiset{root}, list, dl, freq, depth, leaves, elems, node)
    requires root < |depth| && forall i :: 0 <= i < |list| + 1 ==> ([root] + list)[i] < |dl|
    ensures DepthAt(Fathers([root] + list, dl), j) + depth[([root] + list)[j]] <= depth[root]
    decreases j
  {
    hide Forest, Fathers;
    var order := [root] + list;
    var fat := Fathers(order, dl);
    FathersRoot(order, dl);
    if j > 0 {
      ListFathers(root, list, dl, freq, leaves, elems, node, j);
      DepthBelow(root, list, dl, freq, depth, leaves, elems, node, fat[j]);
      assert order[j] == list[j - 1];
    }
  }

  lemma FathersRoot(order: seq<nat>, dl: seq<nat>)
    requires |order| > 0 && forall i :: 0 <= i < |order| ==> order[i] < |dl|
    ensures Fathers(order, dl)[0] == |order| == |Fathers(order, dl)|
  {
  }

  lemma BestReached(heap: seq<nat>, list: seq<nat>, freq: seq<nat>, job: Job)
    requires 1 < |heap| && Weighed(heap, 1, list, freq, job)
    ensures (forall i :: 0 <= i < |list| ==> list[i] < |freq|) && ListSum(list, freq) == job.best
  {
    hide Sum, Weigh, Huffman;
    assert heap[1..2] == [heap[1]];
    assert Live(heap, 1) == {heap[1]};
    OneWeight(heap[1], freq, |freq|);
    HuffmanFew(Weigh(Live(heap, 1), freq, |freq|));
  }

  lemma {:induction false} OneWeight(x: nat, freq: seq<nat>, k: nat)
    requires k <= |freq|
    ensures |Weigh({x}, freq, k)| <= 1 && (x >= k ==> Weigh({x}, freq, k) == multiset{})
  {
    if k > 0 { OneWeight(x, freq, k - 1); }
  }

  lemma RootAndDads(root: nat, list: seq<nat>, dl: seq<nat>, freq: seq<nat>, leaves: set<nat>, elems: nat, node: nat,
                    maxCode: nat)
    requires Forest(multiset{root}, list, dl, freq, leaves, elems, node) && maxCode < elems
      && forall x <- leaves :: x <= maxCode
    ensures forall k :: 0 <= k < |list| + 1 ==> ([root] + list)[k] <= maxCode || elems <= ([root] + list)[k] < node
    ensures forall k :: 0 <= k < |list| ==> list[k] < |dl| && dl[list[k]] > maxCode
    ensures forall x: nat :: x <= maxCode ==> (x in [root] + list <==> x in leaves)
  {
    hide Occ;
    var order := [root] + list;
    var all: multiset<nat> := multiset(Made(leaves, elems, node));
    forall x: nat ensures x in order <==> x in leaves || elems <= x < node {
      MadeIs(leaves, elems, node, x);
      assert (multiset{root} + multiset(list))[x] == all[x];
    }
    forall k | 0 <= k < |list| + 1 ensures order[k] <= maxCode || elems <= order[k] < node { assert order[k] in order; }
  }

  // The do-while loop, and the root in front of the list.
  method GrowTree(heap: array<nat>, dl: array<nat>, freq: array<nat>, depth: array<nat>, len0: nat, elems: nat,
                  maxCode: nat, ghost job: Job) returns (heapMax: nat)
    requires Apart(heap, dl, freq, depth) && 2 <= len0 == job.count && elems == job.elems
    requires Working(heap[..], len0, heap.Length, dl[..], freq[..], depth[..], elems, job)
    requires maxCode < elems && forall x <- job.leaves :: x <= maxCode
    modifies heap, dl, freq, depth
    ensures heapMax < heap.Length && Grown(heap[heapMax..], dl[..], freq[..], maxCode, job)
    ensures forall x :: 0 <= x < elems && x !in job.leaves && x < dl.Length ==> dl[x] == old(dl[x])
    ensures forall x :: 0 <= x < elems && x < freq.Length ==> freq[x] == old(freq[x])
  {
    hide Working, Grown;
    var len, node := len0, elems;
    heapMax := heap.Length;
    while len >= 2
      invariant 1 <= len && Working(heap[..], len, heapMax, dl[..], freq[..], depth[..], node, job)
      invariant forall x :: 0 <= x < elems && x !in job.leaves && x < dl.Length ==> dl[x] == old(dl[x])
      invariant forall x :: 0 <= x < elems && x < freq.Length ==> freq[x] == old(freq[x])
    {
      JoinTwo(heap, len, heapMax, dl, freq, depth, node, job);
      len, heapMax, node := len - 1, heapMax - 2, node + 1;
    }
    GrownAtEnd(heap[..], heapMax, dl[..], freq[..], depth[..], node, job, maxCode);
    RoomForRoot(heap[..], heapMax, dl[..], freq[..], depth[..], node, job);
    ghost var h := heap[..];
    heapMax := heapMax - 1;
    heap[heapMax] := heap[1];
    assert heap[heapMax..] == [h[1]] + h[heapMax + 1..];
  }

  lemma RoomForRoot(heap: seq<nat>, heapMax: nat, dl: seq<nat>, freq: seq<nat>, depth: seq<nat>, node: nat, job: Job)
    requires Working(heap, 1, heapMax, dl, freq, depth, node, job)
    ensures 2 < heapMax <= |heap|
  {
  }

  lemma {:induction false} LeavesCard(order: seq<nat>, maxCode: nat, h: nat)
    requires h <= |order| && forall i, j :: 0 <= i < j < |order| ==> order[i] != order[j]
    ensures Leaves(order, maxCode, h) == |LeafSet(order, maxCode, h)|
  {
    if h > 0 {
      LeavesCard(order, maxCode, h - 1);
      LeafSetIs(order, maxCode, h - 1, order[h - 1]);
    }
  }

  lemma GrownLeaves(order: seq<nat>, dl: seq<nat>, freq: seq<nat>, maxCode: nat, job: Job)
    requires Grown(order, dl, freq, maxCode, job) && forall x <- job.leaves :: x <= maxCode
    ensures LeafSet(order, maxCode, |order|) == job.leaves
    ensures Leaves(order, maxCode, |order|) == |job.leaves| <= maxCode + 1
    ensures forall i, j :: 0 <= i < j < |order| ==> order[i] != order[j]
  {
    hide Balanced, Sons, Fathers;
    assert order[..|order|] == order;
    forall x: nat ensures x in LeafSet(order, maxCode, |order|) <==> x in job.leaves {
      LeafSetIs(order, maxCode, |order|, x);
    }
    LeavesCard(order, maxCode, |order|);
    LeavesBound(order, maxCode);
  }

  /** The unlimited depths of the tree cost no more than any lengths a prefix code could give the symbols. */
  lemma GrownOptimal(order: seq<nat>, dl: seq<nat>, freq: seq<nat>, maxCode: nat, job: Job, l: seq<nat>, t: nat)
    requires Grown(order, dl, freq, maxCode, job) && (forall x <- job.leaves :: x <= maxCode)
    requires job.best == Huffman(Weigh(job.leaves, freq, |freq|))
    requires |l| == |LeafWeights(order, WeightsOf(order, freq), maxCode, |order|)| && Feasible(l, t)
    ensures |LeafDepths(order, Fathers(order, dl), maxCode, |order|)| == |l|
    ensures Dot(LeafWeights(order, WeightsOf(order, freq), maxCode, |order|),
      LeafDepths(order, Fathers(order, dl), maxCode, |order|))
         <= Dot(LeafWeights(order, WeightsOf(order, freq), maxCode, |order|), l)
  {
    hide Balanced, Huffman, Weigh, Dot, LeafWeights, LeafDepths, Listed, Fathers, WeightsOf, NonRoot;
    GrownLeaves(order, dl, freq, maxCode, job);
    LeavesWeigh(order, freq, maxCode, |order|);
    Optimal(order, Fathers(order, dl), WeightsOf(order, freq), maxCode, l, t);
  }

  lemma {:induction false} LeafPairs(order: seq<nat>, freq: seq<nat>, maxCode: nat, h: nat)
    requires h <= |order| && forall i :: 0 <= i < |order| ==> order[i] < |freq|
    requires forall i :: 0 <= i < |order| && order[i] <= maxCode ==> freq[order[i]] > 0
    ensures
      var s := LeafWeights(order, WeightsOf(order, Pairs(freq, NoHeights(|freq|))), maxCode, h);
      && Frequencies(s) == LeafWeights(order, WeightsOf(order, freq), maxCode, h)
      && forall i :: 0 <= i < |s| ==> s[i].h == 0 && s[i].w > 0
  {
    if h > 0 { LeafPairs(order, freq, maxCode, h - 1); }
  }

  lemma GrownUsed(order: seq<nat>, dl: seq<nat>, freq: seq<nat>, maxCode: nat, job: Job)
    requires Grown(order, dl, freq, maxCode, job) && forall x <- job.leaves :: x < |freq| && freq[x] != 0
    ensures forall i :: 0 <= i < |order| ==> order[i] < |dl| && order[i] < |freq|
    ensures forall i :: 0 <= i < |order| && order[i] <= maxCode ==> freq[order[i]] > 0
  {
    hide Balanced, Listed, NonRoot, DepthAt, Fathers;
  }

  /** Of all codes as cheap as the tree none has a shorter longest code: if one stays within m bits, so does the
      tree. */
  lemma GrownLowest(order: seq<nat>, dl: seq<nat>, freq: seq<nat>, maxCode: nat, job: Job, l: seq<nat>, t: nat, m: nat)
    requires Grown(order, dl, freq, maxCode, job)
    requires forall x <- job.leaves :: x <= maxCode && x < |freq| && freq[x] != 0
    requires job.best == Huffman(Weigh(job.leaves, freq, |freq|))
      && job.height == FinalHeight(job.leaves, freq, NoHeights(|freq|))
    requires |l| == |LeafWeights(order, WeightsOf(order, freq), maxCode, |order|)| && Feasible(l, t)
    requires |LeafDepths(order, Fathers(order, dl), maxCode, |order|)| == |l|
    requires Dot(LeafWeights(order, WeightsOf(order, freq), maxCode, |order|), l)
          <= Dot(LeafWeights(order, WeightsOf(order, freq), maxCode, |order|),
               LeafDepths(order, Fathers(order, dl), maxCode, |order|))
    requires forall k :: 0 <= k < |l| ==> l[k] <= m
    ensures forall i: nat :: i < |order| ==> DepthAt(Fathers(order, dl), i) <= m
  {
    hide Huffman, Weigh, Dot, LeafWeights, LeafDepths, Listed, Fathers, WeightsOf, NonRoot, Feasible, Height, DepthAt,
         Grown, LowestTree.Best, FinalHeight;
    GrownHeight(order, dl, freq, maxCode, job);
    var s := LeafWeights(order, WeightsOf(order, Pairs(freq, NoHeights(|freq|))), maxCode, |order|);
    LeafBest(order, dl, freq, maxCode, job, l, t);
    if l == [] { NoLeaves(); } else { LowestHeight(s, l, t, m); }
    FinalIs(job.leaves, freq);
  }

  // The leaves, without heights, have these lengths.
  lemma LeafBest(order: seq<nat>, dl: seq<nat>, freq: seq<nat>, maxCode: nat, job: Job, l: seq<nat>, t: nat)
    requires Grown(order, dl, freq, maxCode, job)
    requires forall x <- job.leaves :: x <= maxCode && x < |freq| && freq[x] != 0
    requires job.best == Huffman(Weigh(job.leaves, freq, |freq|))
    requires |l| == |LeafWeights(order, WeightsOf(order, freq), maxCode, |order|)| && Feasible(l, t)
    requires |LeafDepths(order, Fathers(order, dl), maxCode, |order|)| == |l|
    requires Dot(LeafWeights(order, WeightsOf(order, freq), maxCode, |order|), l)
          <= Dot(LeafWeights(order, WeightsOf(order, freq), maxCode, |order|),
               LeafDepths(order, Fathers(order, dl), maxCode, |order|))
    ensures
      var s := LeafWeights(order, WeightsOf(order, Pairs(freq, NoHeights(|freq|))), maxCode, |order|);
      && |s| == |l| && (l != [] ==> LowestTree.Best(s, l, t)) && (forall i :: 0 <= i < |s| ==> s[i].h == 0)
      && multiset(s) == Weigh(job.leaves, Pairs(freq, NoHeights(|freq|)), |freq|)
  {
    hide Balanced, Huffman, Weigh, Dot, LeafWeights, LeafDepths, Listed, Fathers, WeightsOf, NonRoot, Feasible, DepthAt,
         Grown;
    GrownUsed(order, dl, freq, maxCode, job);
    GrownCost(order, dl, freq, maxCode, job);
    var f := LeafWeights(order, WeightsOf(order, freq), maxCode, |order|);
    GrownLeaves(order, dl, freq, maxCode, job);
    LeavesWeigh(order, freq, maxCode, |order|);
    LeavesWeigh(order, Pairs(freq, NoHeights(|freq|)), maxCode, |order|);
    LeafPairs(order, freq, maxCode, |order|);
    LowerBound(f, l, t);
  }

  lemma GrownCost(order: seq<nat>, dl: seq<nat>, freq: seq<nat>, maxCode: nat, job: Job)
    requires Grown(order, dl, freq, maxCode, job)
    ensures forall i :: 0 <= i < |order| ==> order[i] < |dl| && order[i] < |freq|
    ensures
      var f, d := LeafWeights(order, WeightsOf(order, freq), maxCode, |order|),
        LeafDepths(order, Fathers(order, dl), maxCode, |order|);
      |f| == |d| && Dot(f, d) == job.best
  {
    hide Balanced, Dot, LeafWeights, LeafDepths, Listed, Fathers, WeightsOf, NonRoot, DepthAt;
    LeafCost(order, Fathers(order, dl), WeightsOf(order, freq), maxCode);
  }

  lemma FinalIs(leaves: set<nat>, freq: seq<nat>)
    ensures FinalHeight(leaves, freq, NoHeights(|freq|)) ==
      Height(Weigh(leaves, Pairs(freq, NoHeights(|freq|)), |freq|))
  {
    hide Height, Weigh;
  }

  lemma GrownHeight(order: seq<nat>, dl: seq<nat>, freq: seq<nat>, maxCode: nat, job: Job)
    requires Grown(order, dl, freq, maxCode, job)
    ensures forall i :: 0 <= i < |order| ==> order[i] < |dl| && order[i] < |freq|
    ensures forall i: nat :: i < |order| ==> DepthAt(Fathers(order, dl), i) <= job.height
  {
    hide Balanced, Listed, NonRoot, DepthAt, Fathers;
  }

  lemma SameHeight(leaves: set<nat>, freq: seq<nat>, other: seq<nat>)
    requires |freq| == |other| && forall x <- leaves :: x < |freq| && freq[x] == other[x]
    ensures FinalHeight(leaves, freq, NoHeights(|freq|)) == FinalHeight(leaves, other, NoHeights(|freq|))
  {
    hide Weigh, Height;
    var none := NoHeights(|freq|);
    WeighSame(leaves, Pairs(freq, none), Pairs(other, none), |freq|);
  }

  lemma NoLeaves()
    ensures Height(multiset{}) == 0
  {
  }

  // Frequencies of the leaves, and only they, are not zero.
  lemma {:induction false} SumIsFreqSum(leaves: set<nat>, freq: seq<nat>, elems: nat, k: nat)
    requires elems <= |freq| && k <= |freq| && (forall x <- leaves :: x < elems)
      && forall x: nat :: x < elems && freq[x] != 0 ==> x in leaves
    ensures Sum(leaves, freq, k) == FreqSum(freq, if k < elems then k else elems)
  {
    if k > 0 { SumIsFreqSum(leaves, freq, elems, k - 1); }
  }

  lemma {:induction false} ForcedSum(before: seq<nat>, after: seq<nat>, forced: set<nat>, k: nat)
    requires Forced(before, after, forced) && k <= |before|
    ensures FreqSum(after, k) == FreqSum(before, k) + (if 0 in forced && k > 0 then 1 else 0)
      + (if 1 in forced && k > 1 then 1 else 0) + (if 2 in forced && k > 2 then 1 else 0)
  {
    if k > 0 {
      ForcedSum(before, after, forced, k - 1);
      var s := k - 1;
      if s in forced { assert after[s] == 1 && before[s] == 0 && s < 3; } else { assert after[s] == before[s]; }
    }
  }

  lemma ForcedSize(forced: set<nat>)
    requires forall x <- forced :: x < 3
    ensures |forced| == (if 0 in forced then 1 else 0) + (if 1 in forced then 1 else 0) + (if 2 in forced then 1 else 0)
  {
    var a := forced - {0};
    var b := a - {1};
    Without(forced, 0);
    Without(a, 1);
    Without(b, 2);
    assert b - {2} == {};
  }

  lemma Without(s: set<nat>, x: nat)
    ensures |s| == |s - {x}| + if x in s then 1 else 0
  {
    if x in s { assert s == s - {x} + {x}; } else { assert s == s - {x}; }
  }

  // The heap is ready for the loop.
  lemma ReadyToGrow(heap: seq<nat>, heap0: seq<nat>, len: nat, dl: seq<nat>, freq: seq<nat>, depth: seq<nat>,
                    elems: nat, leaves: set<nat>, maxCode: int, job: Job)
    requires Leafy(heap0, len, leaves, freq, elems, maxCode) && SameBut(heap, heap0, 1, len) && 2 <= len
    requires Nodes(heap, len, freq, depth) && Heap(heap, len, 1, freq, depth) && 2 * elems < |heap|
      && 2 * elems <= |freq| == |dl|
    requires FreqSum(freq, elems) < 0x10000
    requires job == Job(leaves, elems, len, FreqSum(freq, elems), job.best, job.height)
      && job.best == Huffman(Weigh(leaves, freq, |freq|))
    requires (forall x <- leaves :: x < |depth| && depth[x] == 0) && job.height == FinalHeight(leaves, freq, depth)
    ensures Working(heap, len, |heap|, dl, freq, depth, elems, job)
  {
    hide Heap, Huffman, Weigh, Sum, Forest, Priced, Heights, FinalHeight;
    HeightsStart(dl, freq, depth, leaves, elems);
    Middle(heap, heap0, 1, len);
    ForestStart(dl, freq, leaves, elems);
    assert heap[|heap|..] == [];
    assert Priced([], dl, freq, elems, elems) by { NothingPriced(dl, freq, elems); }
    LiveIsLeaves(heap, len, leaves);
    SumIsFreqSum(leaves, freq, elems, |freq|);
  }

  lemma NothingPriced(dl: seq<nat>, freq: seq<nat>, elems: nat)
    requires elems <= |freq|
    ensures Priced([], dl, freq, elems, elems)
  {
  }

  lemma LiveIsLeaves(heap: seq<nat>, len: nat, leaves: set<nat>)
    requires len < |heap| && multiset(heap[1..len + 1]) == multiset(leaves)
    ensures Live(heap, len) == leaves
  {
    forall x: nat ensures x in Live(heap, len) <==> x in leaves {
      assert x in heap[1..len + 1] <==> x in multiset(leaves);
    }
  }

  // All leaves have length one when a symbol had to be forced.
  lemma ForcedLength(order: seq<nat>, len: seq<nat>, maxCode: nat, count: seq<nat>, maxLength: nat)
    requires Limited(order, len, maxCode, count, maxLength)
      && Total(count, maxLength) == Leaves(order, maxCode, |order|) == 2
    ensures forall i :: 0 <= i < |order| && order[i] <= maxCode ==> len[i] == 1
  {
    hide Kraft, Total, Leaves, LeavesOf;
    TwoLeaves(count, maxLength);
    AllOfLength(order, len, maxCode, 1);
  }

  // opt_len grows by what the symbols that really occur will take.
  lemma DynamicCost(order: seq<nat>, dl: seq<nat>, freq: seq<nat>, before: seq<nat>, after: seq<nat>, forced: set<nat>,
                    len: seq<nat>, maxCode: nat, elems: nat, d: StatDesc, leaves: set<nat>)
    requires Holds(order, dl, len) && maxCode < elems && 3 <= elems && elems <= |freq| && elems <= |after|
      && elems <= |dl|
    requires d.Covers(elems - 1) && PlainStart(d) && Forced(before, after, forced)
    requires forall i, j :: 0 <= i < j < |order| ==> order[i] != order[j]
    requires forall i :: 0 <= i < |order| && order[i] <= maxCode ==> len[i] > 0
    requires forced != {} ==> forall i :: 0 <= i < |order| && order[i] <= maxCode ==> len[i] == 1
    requires forall s :: 0 <= s < elems ==> freq[s] == after[s]
    requires forall s: nat :: s < elems && s !in leaves ==> after[s] == 0
    requires (forall x: nat :: x <= maxCode ==> (x in order <==> x in leaves)) && (forall x <- leaves :: x <= maxCode)
      && forced <= leaves
    ensures d.Covers(maxCode) && Cost(order, freq, len, maxCode, d) == BitCost(before, dl, d, elems) + |forced|
  {
    hide BitCost, Cost;
    ListCost(order, freq, after, len, dl, maxCode, elems, d);
    BitsForced(before, after, forced, dl, d, elems);
    ForcedSize(forced);
    forall x: nat | x in forced ensures dl[x] == 1 {
      assert x in order;
    }
  }

  // The same for static_len.
  lemma StaticTotal(order: seq<nat>, freq: seq<nat>, before: seq<nat>, after: seq<nat>, forced: set<nat>,
                    maxCode: nat, elems: nat, d: StatDesc, leaves: set<nat>)
    requires maxCode < elems && 3 <= elems && elems <= |freq| && elems <= |after| && d.Covers(elems - 1)
      && PlainStart(d)
    requires d.hasStatic && elems <= |d.stree| && (forall s :: 0 <= s < elems ==> d.stree[s] > 0)
      && Forced(before, after, forced)
    requires forall i, j :: 0 <= i < j < |order| ==> order[i] != order[j]
    requires forall s :: 0 <= s < elems ==> freq[s] == after[s]
    requires forall s: nat :: s < elems && s !in leaves ==> after[s] == 0
    requires (forall x: nat :: x <= maxCode ==> (x in order <==> x in leaves)) && forall x <- leaves :: x <= maxCode
    ensures d.Covers(maxCode)
      && StaticCost(order, freq, |order|, maxCode, d) == BitCost(before, d.stree, d, elems) + Charge(forced, d)
  {
    hide BitCost, Cost, StaticCost;
    StaticIsCost(order, freq, |order|, maxCode, d);
    ListCost(order, freq, after, StaticLens(order, maxCode, d, |order|), d.stree, maxCode, elems, d);
    BitsForced(before, after, forced, d.stree, d, elems);
  }

  // How many symbols have to be forced.
  function Missing(freq: seq<nat>, elems: nat): nat
    requires elems <= |freq|
  {
    if NonZero(freq, elems) < 2 then 2 - NonZero(freq, elems) else 0
  }

  // The tree that was grown from these frequencies.
  ghost predicate Planted(before: seq<nat>, after: seq<nat>, forced: set<nat>, elems: nat, maxCode: nat, job: Job)
  {
    && maxCode < elems == job.elems && 3 <= elems <= |after| && Forced(before, after, forced) && forced <= job.leaves
    && (forced != {} ==> job.count == 2) && job.count == |job.leaves|
    && (forall x <- job.leaves :: x <= maxCode && after[x] != 0)
    && (forall s: nat :: s < elems && s !in job.leaves ==> after[s] == 0)
    && job.best == Huffman(Weigh(job.leaves, after, |after|))
    && job.height == FinalHeight(job.leaves, after, NoHeights(|after|))
  }

  // Symbols that occur keep their frequencies.
  lemma PlantedSame(before: seq<nat>, after: seq<nat>, forced: set<nat>, elems: nat, maxCode: nat, job: Job)
    requires Planted(before, after, forced, elems, maxCode, job) && elems <= |before|
    ensures job.elems == elems
      && forall x: nat :: x < elems && before[x] > 0 ==> x in job.leaves && after[x] == before[x]
  {
    hide Huffman, Weigh;
  }

  // From the frequencies to the list of nodes.
  method Plant(heap: array<nat>, dl: array<nat>, freq: array<nat>, depth: array<nat>, elems: nat, d: StatDesc,
               optLen0: int, staticLen0: int)
    returns (maxCode: nat, heapMax: nat, optLen: int, staticLen: int,
             ghost after: seq<nat>, ghost forced: set<nat>, ghost job: Job)
    requires Apart(heap, dl, freq, depth) && 3 <= elems && 2 * elems < heap.Length
    requires 2 * elems <= freq.Length == dl.Length == depth.Length && d.Covers(elems - 1)
    requires FreqSum(freq[..], elems) + Missing(freq[..], elems) < 0x10000
    modifies heap, dl, freq, depth
    ensures heapMax < heap.Length && Grown(heap[heapMax..], dl[..], freq[..], maxCode, job)
    ensures |after| == freq.Length && Planted(old(freq[..]), after, forced, elems, maxCode, job)
    ensures forall x :: 0 <= x < elems && x !in job.leaves ==> dl[x] == 0
    ensures forall x :: 0 <= x < elems ==> freq[x] == after[x]
    ensures optLen == optLen0 - |forced| && staticLen == staticLen0 - Charge(forced, d)
  {
    hide Leafy, Grown, Working, Huffman, Weigh, Charge, FreqSum, NonZero, SameBut, Nodes, Heap, FinalHeight;
    var len, mc;
    ghost var leaves;
    len, mc, leaves := Collect(heap, dl, freq, depth, elems);
    len, mc, optLen, staticLen, leaves, forced :=
      ForceTwo(heap, freq, depth, elems, d, len, mc, optLen0, staticLen0, leaves);
    after := freq[..];
    ghost var h0 := heap[..];
    LeafyNodes(h0, len, leaves, after, depth[..], elems, mc);
    maxCode := mc;
    Heapify(heap, len, freq, depth);
    ForcedSum(old(freq[..]), after, forced, elems);
    ForcedSize(forced);
    LeavesHeight(leaves, after, depth[..]);
    job := Job(leaves, elems, len, FreqSum(after, elems), Huffman(Weigh(leaves, after, |after|)),
      FinalHeight(leaves, after, depth[..]));
    ReadyToGrow(heap[..], h0, len, dl[..], after, depth[..], elems, leaves, mc, job);
    heapMax := GrowTree(heap, dl, freq, depth, len, elems, maxCode, job);
  }

  lemma LeafyNodes(heap: seq<nat>, len: nat, leaves: set<nat>, freq: seq<nat>, depth: seq<nat>, elems: nat,
                   maxCode: int)
    requires Leafy(heap, len, leaves, freq, elems, maxCode) && |freq| == |depth| && 2 <= len
    ensures Nodes(heap, len, freq, depth) && 0 <= maxCode < elems && |leaves| == len
    ensures (forall x <- leaves :: x <= maxCode && freq[x] != 0)
      && forall s: nat :: s < elems && s !in leaves ==> freq[s] == 0
  {
    assert |multiset(heap[1..len + 1])| == len;
    forall i | 1 <= i <= len ensures heap[i] < |freq| {
      assert heap[1..len + 1][i - 1] == heap[i];
      assert heap[i] in multiset(leaves);
    }
    assert heap[1] in multiset(heap[1..len + 1]) by { assert heap[1..len + 1][0] == heap[1]; }
    assert heap[1] in leaves;
  }

  // Codes for the symbols 0..max_code, in `code`, bit-reversed as they are sent.
  ghost predicate Coded(lens: seq<nat>, code: seq<nat>, maxLength: nat) {
    && ValidLens(lens) && Complete(lens) && |lens| <= |code|
    && (forall s :: 0 <= s < |lens| ==> lens[s] <= maxLength)
    && forall s: nat :: HasCode(lens, s) ==> code[s] == Huff(lens, s)
  }

  // Lengths for the nodes of a grown tree, and the two costs.
  lemma Harvest(order: seq<nat>, dads: seq<nat>, dl: seq<nat>, freq: seq<nat>, before: seq<nat>, after: seq<nat>,
                forced: set<nat>, len: seq<nat>, maxCode: nat, elems: nat, d: StatDesc, job: Job, count: seq<nat>)
    requires Grown(order, dads, freq, maxCode, job) && Planted(before, after, forced, elems, maxCode, job)
    requires Holds(order, dl, len) && Limited(order, len, maxCode, count, d.maxLength) && elems <= |dl|
      && elems <= |freq|
    requires Total(count, d.maxLength) == Leaves(order, maxCode, |order|)
    requires forall x :: 0 <= x < elems ==> freq[x] == after[x]
    requires forall x :: 0 <= x < elems && x !in job.leaves ==> dl[x] == 0
    requires d.Covers(elems - 1) && PlainStart(d)
    requires d.hasStatic ==> elems <= |d.stree| && forall s :: 0 <= s < elems ==> d.stree[s] > 0
    ensures Complete(dl[..maxCode + 1]) && ValidLens(dl[..maxCode + 1])
    ensures forall b: nat :: 0 < b <= MAXBITS ==> count[b] == Count(dl[..maxCode + 1], b)
    ensures forall s :: 0 <= s < elems ==> dl[s] <= d.maxLength && (before[s] > 0 ==> dl[s] > 0 && s <= maxCode)
    ensures d.Covers(maxCode) && Cost(order, freq, len, maxCode, d) == BitCost(before, dl, d, elems) + |forced|
    ensures d.hasStatic ==>
      StaticCost(order, freq, |order|, maxCode, d) == BitCost(before, d.stree, d, elems) + Charge(forced, d)
  {
    hide Balanced, Listed, Fathers, WeightsOf, NonRoot, Huffman, Weigh, LeavesOf, Kraft, Total, Leaves, Complete,
         CountTo, BitCost, Cost, StaticCost;
    GrownLeaves(order, dads, freq, maxCode, job);
    LimitedComplete(order, dl, len, maxCode, count, d.maxLength);
    if forced != {} { ForcedLength(order, len, maxCode, count, d.maxLength); }
    DynamicCost(order, dl, freq, before, after, forced, len, maxCode, elems, d, job.leaves);
    if d.hasStatic { StaticTotal(order, freq, before, after, forced, maxCode, elems, d, job.leaves); }
  }

  lemma GrownFacts(order: seq<nat>, dads: seq<nat>, freq: seq<nat>, maxCode: nat, job: Job)
    requires Grown(order, dads, freq, maxCode, job) && forall x <- job.leaves :: x <= maxCode
    ensures (forall i :: 0 <= i < |order| ==> order[i] < |dads|) && Listed(order, dads, maxCode, Fathers(order, dads))
    ensures Leaves(order, maxCode, |order|) <= maxCode + 1
    ensures forall x: nat :: x < job.elems && x !in job.leaves ==> x !in order
  {
    hide Balanced, Listed, Fathers, WeightsOf, NonRoot;
    GrownLeaves(order, dads, freq, maxCode, job);
  }

  lemma CoversLess(d: StatDesc, a: nat, b: nat)
    requires d.Covers(b) && a <= b
    ensures d.Covers(a)
  {
  }

  lemma LimitedZero(order: seq<nat>, len: seq<nat>, maxCode: nat, count: seq<nat>, maxLength: nat)
    requires Limited(order, len, maxCode, count, maxLength)
    ensures |count| == MAXBITS + 1 && count[0] == 0
  {
  }

  lemma {:induction false} NoStaticCost(order: seq<nat>, freq: seq<nat>, k: nat, maxCode: nat, d: StatDesc,
                                        forced: set<nat>)
    requires k <= |order| && maxCode < |freq| && d.Covers(maxCode) && !d.hasStatic
    ensures StaticCost(order, freq, k, maxCode, d) == 0 && Charge(forced, d) == 0
  {
  }

  lemma CompleteNotOver(lens: seq<nat>)
    requires Complete(lens)
    ensures NotOverSubscribed(lens)
  {
    hide Base;
  }

  /** build_tree: the used symbols get a complete code within the length limit, their canonical codes, and opt_len and
      static_len grow by exactly what coding these symbols takes. */
  method Build(heap: array<nat>, dl: array<nat>, freq: array<nat>, depth: array<nat>, blCount: array<nat>,
               code: array<nat>, elems: nat, d: StatDesc, optLen0: int, staticLen0: int)
    returns (maxCode: nat, optLen: int, staticLen: int, ghost order: seq<nat>, ghost dads: seq<nat>, ghost job: Job)
    requires Apart(heap, dl, freq, depth) && 3 <= elems && 2 * elems < heap.Length
    requires blCount != heap && blCount != dl && blCount != freq && blCount != depth && blCount.Length == MAXBITS + 1
    requires code != heap && code != dl && code != freq && code != depth && code != blCount && code.Length >= elems
    requires 2 * elems <= freq.Length == dl.Length == depth.Length && d.Covers(elems - 1) && PlainStart(d)
    requires d.hasStatic ==> elems <= |d.stree| && forall s :: 0 <= s < elems ==> d.stree[s] > 0
    requires elems <= Pow2(d.maxLength)
    requires FreqSum(freq[..], elems) + Missing(freq[..], elems) < 0x10000
    modifies heap, dl, freq, depth, blCount, code
    ensures maxCode < elems && Coded(dl[..maxCode + 1], code[..], d.maxLength)
    ensures forall s :: 0 <= s < elems && old(freq[s]) > 0 ==> dl[s] > 0 && s <= maxCode
    ensures forall s :: maxCode < s < elems ==> dl[s] == 0
    ensures optLen == optLen0 + BitCost(old(freq[..]), dl[..], d, elems)
    ensures d.hasStatic ==> staticLen == staticLen0 + BitCost(old(freq[..]), d.stree, d, elems)
    ensures !d.hasStatic ==> staticLen == staticLen0
    // the tree and, where it respects the limit, its depths
    ensures Grown(order, dads, freq[..], maxCode, job) && job.best == Huffman(Weigh(job.leaves, freq[..], freq.Length))
    ensures job.height == FinalHeight(job.leaves, freq[..], NoHeights(freq.Length))
    ensures (forall x <- job.leaves :: x <= maxCode && freq[x] != 0)
      && forall i :: 0 <= i < |order| ==> order[i] < dl.Length
    ensures job.elems == elems
      && forall x: nat :: x < elems && old(freq[x]) > 0 ==> x in job.leaves && freq[x] == old(freq[x])
    ensures (forall i: nat :: i < |order| ==> DepthAt(Fathers(order, dads), i) <= d.maxLength) ==>
      forall i: nat :: i < |order| ==> dl[order[i]] == DepthAt(Fathers(order, dads), i)
    ensures (exists i: nat :: i < |order| && DepthAt(Fathers(order, dads), i) > d.maxLength) ==>
      exists len: seq<nat>, first: nat :: Holds(order, dl[..], len)
        && Shortened(order, Fathers(order, dads), len, maxCode, blCount[..], d.maxLength, first)
  {
    hide Shortened, Grown, Limited, Huffman, Weigh, Charge, FreqSum, Missing, NonZero, Leaves, Complete, BitCost, Cost,
         StaticCost, Listed, Fathers, DepthAt, Total, Pow2, LeavesOf, Kraft, Count, CountTo, FinalHeight;
    var heapMax;
    ghost var after, forced, len, first;
    maxCode, heapMax, optLen, staticLen, after, forced, job :=
      Plant(heap, dl, freq, depth, elems, d, optLen0, staticLen0);
    order, dads := heap[heapMax..], dl[..];
    PlantedSame(old(freq[..]), after, forced, elems, maxCode, job);
    GrownFacts(order, dads, freq[..], maxCode, job);
    WeighSame(job.leaves, after, freq[..], freq.Length);
    SameHeight(job.leaves, after, freq[..]);
    CoversLess(d, maxCode, elems - 1);
    optLen, staticLen, len, first :=
      GenBitlen(dl, freq, heap, heapMax, maxCode, d, blCount, optLen, staticLen, Fathers(order, dads));
    Harvest(order, dads, dl[..], freq[..], old(freq[..]), after, forced, len, maxCode, elems, d, job, blCount[..]);
    LimitedZero(order, len, maxCode, blCount[..], d.maxLength);
    if !d.hasStatic { NoStaticCost(order, freq[..], |order|, maxCode, d, forced); }
    CompleteNotOver(dl[..maxCode + 1]);
    ghost var lens, counts := dl[..], blCount[..];
    GenCodes.GenCodes(dl[..maxCode + 1], blCount, code);
    assert dl[..] == lens && blCount[..] == counts;
  }
}
