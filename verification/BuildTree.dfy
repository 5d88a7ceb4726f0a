/** build_tree of deps/zlib/trees.c: Huffman's algorithm on the heap, leaving the nodes in heap[heap_max..] in
    the order gen_bitlen wants them. */
module BuildTree {
  import opened Bits
  import opened Canon
  import opened LengthCounts
  import opened BitLengths
  import opened NodeHeap
  import opened HuffmanCost
  import opened TreeForest
  import opened TreeWeights
  import opened TreeHeights

  // ---- the routine ----

  ghost function Elems(s: seq<nat>): set<nat> {
    set x | x in s
  }

  // Nodes on the heap.
  ghost function Live(heap: seq<nat>, len: nat): set<nat>
    requires len < |heap|
  {
    Elems(heap[1..len + 1])
  }

  ghost predicate Once(s: multiset<nat>) {
    forall x :: s[x] <= 1
  }

  // The frequencies of the nodes on the list, all together.
  function ListSum(list: seq<nat>, freq: seq<nat>): nat
    requires forall i :: 0 <= i < |list| ==> list[i] < |freq|
  {
    if list == [] then 0 else freq[list[0]] + ListSum(list[1..], freq)
  }

  lemma {:induction false} ListSumSame(list: seq<nat>, freq: seq<nat>, other: seq<nat>)
    requires forall i :: 0 <= i < |list| ==> list[i] < |freq| && list[i] < |other| && freq[list[i]] == other[list[i]]
    ensures ListSum(list, freq) == ListSum(list, other)
  {
    if list != [] { ListSumSame(list[1..], freq, other); }
  }

  lemma ListSumMore(list: seq<nat>, freq: seq<nat>, n: nat, m: nat)
    requires (forall i :: 0 <= i < |list| ==> list[i] < |freq|) && n < |freq| && m < |freq|
    ensures forall i :: 0 <= i < |list| + 2 ==> ([m, n] + list)[i] < |freq|
    ensures ListSum([m, n] + list, freq) == freq[n] + freq[m] + ListSum(list, freq)
  {
    assert ([m, n] + list)[1..] == [n] + list && ([n] + list)[1..] == list;
  }

  // The problem: the leaves, their total frequency, and the cost and height Huffman's algorithm has for them.
  datatype Job = Job(leaves: set<nat>, elems: nat, count: nat, total: nat, best: nat, height: nat)

  // Frequencies on the heap.
  ghost predicate Weighed(heap: seq<nat>, len: nat, list: seq<nat>, freq: seq<nat>, job: Job)
    requires len < |heap|
  {
    && (forall i :: 0 <= i < |list| ==> list[i] < |freq|)
    && Sum(Live(heap, len), freq, |freq|) == job.total < 0x10000
    && ListSum(list, freq) + Huffman(Weigh(Live(heap, len), freq, |freq|)) == job.best
  }

  // What the steps of the algorithm keep.
  ghost predicate Working(heap: seq<nat>, len: nat, heapMax: nat, dl: seq<nat>, freq: seq<nat>, depth: seq<nat>,
                          node: nat, job: Job)
  {
    && 2 * job.count < |heap| && 1 <= len <= job.count <= job.elems && 2 * job.elems <= |freq|
    && node == job.elems + (job.count - len) && heapMax == |heap| - 2 * (job.count - len)
    && Nodes(heap, len, freq, depth) && Heap(heap, len, 1, freq, depth)
    && Forest(multiset(heap[1..len + 1]), heap[heapMax..], dl, freq, job.leaves, job.elems, node)
    && Priced(heap[heapMax..], dl, freq, job.elems, node)
    && Weighed(heap, len, heap[heapMax..], freq, job)
    && Heights(multiset(heap[1..len + 1]), heap[heapMax..], dl, freq, depth, job.leaves, job.elems, node)
    && FinalHeight(Live(heap, len), freq, depth) == job.height
  }

  lemma Middle(h: seq<nat>, h0: seq<nat>, lo: nat, len: nat)
    requires SameBut(h, h0, lo, len)
    ensures multiset(h[lo..len + 1]) == multiset(h0[lo..len + 1])
  {
    assert h == h[..lo] + h[lo..len + 1] + h[len + 1..];
    assert h0 == h0[..lo] + h0[lo..len + 1] + h0[len + 1..];
    var a, b := multiset(h[lo..len + 1]), multiset(h0[lo..len + 1]);
    assert multiset(h) == multiset(h[..lo]) + a + multiset(h[len + 1..]);
    assert multiset(h0) == multiset(h0[..lo]) + b + multiset(h0[len + 1..]);
    assert a == multiset(h) - multiset(h[..lo]) - multiset(h[len + 1..]);
    assert b == multiset(h0) - multiset(h0[..lo]) - multiset(h0[len + 1..]);
  }

  // Put x on top and let it sink.
  method PutTop(heap: array<nat>, len: nat, freq: array<nat>, depth: array<nat>, x: nat)
    requires heap != freq && heap != depth && 1 <= len && x < freq.Length
    requires Nodes(heap[..], len, freq[..], depth[..]) && Heap(heap[..], len, 2, freq[..], depth[..])
    modifies heap
    ensures Nodes(heap[..], len, freq[..], depth[..]) && Heap(heap[..], len, 1, freq[..], depth[..])
    ensures Topped(old(heap[..]), heap[..], len, x)
  {
    hide Heap, Topped;
    ghost var h := heap[..];
    TopFree(h, len, freq[..], depth[..], x);
    heap[1] := x;
    ghost var h1 := heap[..];
    assert h1 == h[1 := x];
    PqDownHeap(heap, len, freq, depth, 1);
    ghost var h2 := heap[..];
    assert h2[..1] == heap[..1] && h2[len + 1..] == heap[len + 1..];
    assert SameBut(h2, h1, 1, len);
    ToppedFrom(h, h1, h2, len, x);
  }

  // x was put on top of the heap h and found its place.
  ghost predicate Topped(h: seq<nat>, h': seq<nat>, len: nat, x: nat) {
    && 1 <= len < |h| == |h'| && multiset(h'[1..len + 1]) == multiset(h[2..len + 1]) + multiset{x}
    && h'[len + 1..] == h[len + 1..]
  }

  lemma ToppedFrom(h: seq<nat>, h1: seq<nat>, h2: seq<nat>, len: nat, x: nat)
    requires 1 <= len < |h| && h1 == h[1 := x] && SameBut(h2, h1, 1, len)
    ensures Topped(h, h2, len, x)
  {
    assert h1[1..len + 1] == [x] + h[2..len + 1];
    Middle(h2, h1, 1, len);
    assert h1[len + 1..] == h[len + 1..];
  }

  // What is on top does not matter below.
  lemma TopFree(h: seq<nat>, len: nat, freq: seq<nat>, depth: seq<nat>, x: nat)
    requires Nodes(h, len, freq, depth) && 1 <= len && Heap(h, len, 2, freq, depth) && x < |freq|
    ensures Nodes(h[1 := x], len, freq, depth) && Heap(h[1 := x], len, 2, freq, depth)
  {
  }

  // pqremove: take the least node off the heap.
  method PqRemove(heap: array<nat>, len: nat, freq: array<nat>, depth: array<nat>) returns (top: nat)
    requires heap != freq && heap != depth && 2 <= len
    requires Nodes(heap[..], len, freq[..], depth[..]) && Heap(heap[..], len, 1, freq[..], depth[..])
    modifies heap
    ensures Nodes(heap[..], len - 1, freq[..], depth[..]) && Heap(heap[..], len - 1, 1, freq[..], depth[..])
    ensures Removed(old(heap[..]), heap[..], len, freq[..], depth[..], top)
  {
    hide Heap, Topped, Removed;
    top := heap[1];
    ghost var h := heap[..];
    HeapShorter(h, len, freq[..], depth[..]);
    PutTop(heap, len - 1, freq, depth, heap[len]);
    RemovedFrom(h, heap[..], len, freq[..], depth[..]);
  }

  // The least node was taken off the heap.
  ghost predicate Removed(h: seq<nat>, h': seq<nat>, len: nat, freq: seq<nat>, depth: seq<nat>, top: nat) {
    && 2 <= len < |h| == |h'| && top < |freq| && multiset(h'[1..len]) + multiset{top} == multiset(h[1..len + 1])
    && h'[len + 1..] == h[len + 1..]
    && |depth| == |freq| && forall x :: x in multiset(h[1..len + 1]) ==> x < |freq| && Smaller(freq, depth, top, x)
  }

  lemma RemovedFrom(h: seq<nat>, h': seq<nat>, len: nat, freq: seq<nat>, depth: seq<nat>)
    requires 2 <= len && Nodes(h, len, freq, depth) && Heap(h, len, 1, freq, depth) && Topped(h, h', len - 1, h[len])
    ensures Removed(h, h', len, freq, depth, h[1])
  {
    hide Heap;
    LeastOfAll(h, len, freq, depth);
    Ends(h, len);
    assert h'[len + 1..] == h'[len..][1..] && h[len + 1..] == h[len..][1..];
  }

  lemma Ends(h: seq<nat>, len: nat)
    requires 2 <= len < |h|
    ensures h[1..len + 1] == [h[1]] + h[2..len] + [h[len]]
  {
    assert h[1..len + 1] == [h[1]] + h[2..len + 1];
    assert h[2..len + 1] == h[2..len] + [h[len]];
  }

  lemma LeastOfAll(h: seq<nat>, len: nat, freq: seq<nat>, depth: seq<nat>)
    requires Nodes(h, len, freq, depth) && 1 <= len && Heap(h, len, 1, freq, depth)
    ensures forall x :: x in multiset(h[1..len + 1]) ==> x < |freq| && Smaller(freq, depth, h[1], x)
  {
    forall x | x in multiset(h[1..len + 1]) ensures x < |freq| && Smaller(freq, depth, h[1], x) {
      assert x in h[1..len + 1];
      var i :| 0 <= i < len && h[1..len + 1][i] == x;
      TopIsLeast(h, len, freq, depth, i + 1);
    }
  }

  lemma HeapShorter(h: seq<nat>, len: nat, freq: seq<nat>, depth: seq<nat>)
    requires Nodes(h, len, freq, depth) && 1 <= len && Heap(h, len, 1, freq, depth)
    ensures Nodes(h, len - 1, freq, depth) && Heap(h, len - 1, 2, freq, depth)
  {
  }

  // Frequencies and depths of nodes not on the heap do not matter to it.
  lemma HeapSame(h: seq<nat>, len: nat, lo: nat, freq: seq<nat>, depth: seq<nat>, freq': seq<nat>, depth': seq<nat>)
    requires Nodes(h, len, freq, depth) && Heap(h, len, lo, freq, depth) && |freq'| == |depth'| == |freq| && lo >= 1
    requires forall i :: 1 <= i <= len ==> freq'[h[i]] == freq[h[i]] && depth'[h[i]] == depth[h[i]]
    ensures Nodes(h, len, freq', depth') && Heap(h, len, lo, freq', depth')
  {
  }

  // The two least nodes n and m left the heap and were put in front of the list.
  ghost predicate Taken(h0: seq<nat>, h2: seq<nat>, len: nat, heapMax: nat, freq: seq<nat>, depth: seq<nat>, n: nat,
                        m: nat)
  {
    && 2 <= len < |h0| == |h2| && len < heapMax - 1 && heapMax <= |h0| && n < |freq| && m < |freq| == |depth|
    && TakenFrom(multiset(h0[1..len + 1]), multiset(h2[2..len]), freq, depth, n, m)
    && (forall i :: 1 <= i < len ==> h2[i] in multiset(h0[1..len + 1]))
    && h2[heapMax - 2..] == [m, n] + h0[heapMax..]
  }

  // They come first by frequency and then by depth.
  ghost predicate TakenFrom(live: multiset<nat>, rest: multiset<nat>, freq: seq<nat>, depth: seq<nat>, n: nat, m: nat)
    requires n < |freq| && m < |freq| == |depth|
  {
    && multiset{n, m} <= live && rest == live - multiset{n, m}
    && (forall x :: x in live ==> x < |freq| && Smaller(freq, depth, n, x))
    && (forall x :: x in live - multiset{n} ==> Smaller(freq, depth, m, x))
  }

  // h1 is the heap after the least node n was removed; the next one is on top of it.
  lemma TakenNext(h0: seq<nat>, h1: seq<nat>, len: nat, freq: seq<nat>, depth: seq<nat>, n: nat)
    requires Removed(h0, h1, len, freq, depth, n) && Nodes(h1, len - 1, freq, depth)
      && Heap(h1, len - 1, 1, freq, depth)
    ensures h1[1] < |freq| && TakenFrom(multiset(h0[1..len + 1]), multiset(h1[2..len]), freq, depth, n, h1[1])
  {
    hide Heap;
    LeastOfAll(h1, len - 1, freq, depth);
    assert h1[1..len] == [h1[1]] + h1[2..len];
    TakenParts(multiset(h0[1..len + 1]), multiset(h1[1..len]), multiset(h1[2..len]), freq, depth, n, h1[1]);
  }

  lemma TakenParts(live: multiset<nat>, next: multiset<nat>, rest: multiset<nat>, freq: seq<nat>, depth: seq<nat>,
                   n: nat, m: nat)
    requires next + multiset{n} == live && next == multiset{m} + rest && n < |freq| && m < |freq| == |depth|
    requires (forall x :: x in live ==> x < |freq| && Smaller(freq, depth, n, x))
      && forall x :: x in next ==> x < |freq| && Smaller(freq, depth, m, x)
    ensures TakenFrom(live, rest, freq, depth, n, m)
  {
    Parts(live, next, rest, n, m);
  }

  lemma StillInside(h0: seq<nat>, h1: seq<nat>, len: nat, freq: seq<nat>, depth: seq<nat>, n: nat)
    requires Removed(h0, h1, len, freq, depth, n)
    ensures forall i :: 1 <= i < len ==> h1[i] in multiset(h0[1..len + 1])
  {
    var s := h1[1..len];
    forall i | 1 <= i < len ensures h1[i] in multiset(h0[1..len + 1]) {
      assert s[i - 1] == h1[i];
      assert h1[i] in multiset(s);
    }
  }

  lemma Parts(live: multiset<nat>, next: multiset<nat>, rest: multiset<nat>, n: nat, m: nat)
    requires next + multiset{n} == live && next == multiset{m} + rest
    ensures live - multiset{n} == next && multiset{n, m} <= live && rest == live - multiset{n, m}
  {
  }

  lemma TakenAll(h0: seq<nat>, h1: seq<nat>, h2: seq<nat>, len: nat, heapMax: nat, freq: seq<nat>, depth: seq<nat>,
                 n: nat)
    requires Removed(h0, h1, len, freq, depth, n) && Nodes(h1, len - 1, freq, depth)
      && Heap(h1, len - 1, 1, freq, depth)
    requires len < heapMax - 1 && heapMax <= |h0| && h2 == h1[heapMax - 1 := n][heapMax - 2 := h1[1]]
    ensures Taken(h0, h2, len, heapMax, freq, depth, n, h1[1])
    ensures Nodes(h2, len - 1, freq, depth) && Heap(h2, len - 1, 2, freq, depth)
  {
    hide Heap, TakenFrom;
    TakenNext(h0, h1, len, freq, depth, n);
    StillInside(h0, h1, len, freq, depth, n);
    OffHeap(h1, h2, len - 1, freq, depth);
    TakenLists(h0, h1, h2, len, heapMax, n);
  }

  lemma TakenLists(h0: seq<nat>, h1: seq<nat>, h2: seq<nat>, len: nat, heapMax: nat, n: nat)
    requires 2 <= len < heapMax - 1 && heapMax <= |h0| == |h1| && h1[len + 1..] == h0[len + 1..]
    requires h2 == h1[heapMax - 1 := n][heapMax - 2 := h1[1]]
    ensures h2[2..len] == h1[2..len] && h2[heapMax - 2..] == [h1[1], n] + h0[heapMax..]
  {
    assert h0[heapMax..] == h0[len + 1..][heapMax - len - 1..] == h1[heapMax..];
  }

  // The same for the set of nodes on the heap.
  lemma LiveAfter(h0: seq<nat>, h3: seq<nat>, len: nat, n: nat, m: nat, node: nat)
    requires 2 <= len < |h0| && len < |h3|
    requires multiset(h3[1..len]) == multiset(h0[1..len + 1]) - multiset{n, m} + multiset{node}
    requires multiset{n, m} <= multiset(h0[1..len + 1]) && Once(multiset(h0[1..len + 1]))
    ensures n != m && n in Live(h0, len) && m in Live(h0, len) && Live(h3, len - 1) == After(Live(h0, len), n, m, node)
  {
    var a, b := multiset(h0[1..len + 1]), multiset(h3[1..len]);
    assert a[n] == 1 && a[m] == 1;
    assert multiset{n, m}[n] <= a[n];
    forall x: nat ensures x in Live(h3, len - 1) <==> x in After(Live(h0, len), n, m, node) {
      assert x in Live(h3, len - 1) <==> b[x] > 0;
      assert x in Live(h0, len) <==> a[x] > 0;
      assert b[x] == a[x] - multiset{n, m}[x] + multiset{node}[x];
    }
  }

  // One join, seen from outside the heap.
  lemma JoinWorking(h0: seq<nat>, h2: seq<nat>, h3: seq<nat>, len: nat, heapMax: nat, dl: seq<nat>, freq: seq<nat>,
                    depth: seq<nat>, dl': seq<nat>, freq': seq<nat>, depth': seq<nat>, node: nat, job: Job, n: nat,
                    m: nat)
    requires node < |freq| && n < |dl| == |freq| && m < |dl| && 0 < len && 2 <= heapMax
      && freq' == freq[node := freq[n] + freq[m]]
    requires n < |depth| && m < |depth| == |freq| && dl' == dl[n := node][m := node]
      && depth' == depth[node := Above(depth[n], depth[m])]
    requires Nodes(h3, len - 1, freq', depth') && Heap(h3, len - 1, 1, freq', depth') && Topped(h2, h3, len - 1, node)
    requires Taken(h0, h2, len, heapMax, freq, depth, n, m) && Working(h0, len, heapMax, dl, freq, depth, node, job)
    ensures Working(h3, len - 1, heapMax - 2, dl', freq', depth', node + 1, job)
  {
    hide Forest, Heap, Priced, Occ, SonSum, Huffman, Weigh, Sum, Elems, Weighed, Heights, FinalHeight, Above,
         TakenFrom;
    var live, list := multiset(h0[1..len + 1]), h0[heapMax..];
    TakenOrder(live, multiset(h2[2..len]), freq, depth, n, m);
    ForestNodes(live, list, dl, freq, job.leaves, job.elems, node);
    OnceFrom(live);
    ForestSizes(live, list, dl, freq, job.leaves, job.elems, node);
    Join(live, list, dl, freq, job.leaves, job.elems, node, n, m);
    assert n in live && m in live;
    JoinPriced(list, dl, freq, job.elems, node, n, m);
    assert h3[heapMax - 2..] == h3[len..][heapMax - 2 - len..] == h2[heapMax - 2..];
    LiveIs(h0, len, n);
    LiveAfter(h0, h3, len, n, m, node);
    JoinWeighed(h0, h3, len, list, freq, node, job, n, m);
    JoinTall(live, list, dl, freq, depth, Live(h0, len), node, job, n, m);
  }

  lemma TakenOrder(live: multiset<nat>, rest: multiset<nat>, freq: seq<nat>, depth: seq<nat>, n: nat, m: nat)
    requires n < |freq| && m < |freq| == |depth| && TakenFrom(live, rest, freq, depth, n, m)
    ensures multiset{n, m} <= live && rest == live - multiset{n, m} && TakenFrom(live, rest, freq, depth, n, m)
    ensures forall x :: x in live ==> x < |freq| && freq[n] <= freq[x]
    ensures forall x :: x in live - multiset{n} ==> freq[m] <= freq[x]
  {
  }

  // Heights after the join.
  lemma JoinTall(live: multiset<nat>, list: seq<nat>, dl: seq<nat>, freq: seq<nat>, depth: seq<nat>, nodes: set<nat>,
                 node: nat, job: Job, n: nat, m: nat)
    requires Heights(live, list, dl, freq, depth, job.leaves, job.elems, node) && |freq| == |depth|
    requires FinalHeight(nodes, freq, depth) == job.height && node < |dl| == |freq| && n < |freq| && m < |freq|
    requires TakenFrom(live, live - multiset{n, m}, freq, depth, n, m) && n in nodes && m in nodes && n != m
    requires (forall x :: x in nodes ==> x in live) && (forall x :: x in nodes && x != n ==> x in live - multiset{n})
    requires (forall x :: x in live ==> x < node && x !in list) && forall x :: x in list ==> x < node
    ensures
      var freq', depth' := freq[node := freq[n] + freq[m]], depth[node := Above(depth[n], depth[m])];
      && Heights(live - multiset{n, m} + multiset{node}, [m, n] + list, dl[n := node][m := node], freq', depth',
           job.leaves, job.elems, node + 1)
      && FinalHeight(After(nodes, n, m, node), freq', depth') == job.height
  {
    hide Heights, FinalHeight, Above, After;
    JoinIsLowest(nodes, freq, depth, n, m, node);
    forall i | 0 <= i < |list| ensures list[i] < node { assert list[i] in list; }
    JoinHeights(live, list, dl, freq, depth, job.leaves, job.elems, node, n, m);
  }

  // What can be said before the new node is written.
  lemma JoinReady(h0: seq<nat>, h2: seq<nat>, len: nat, heapMax: nat, dl: seq<nat>, freq: seq<nat>, depth: seq<nat>,
                  node: nat, job: Job, n: nat, m: nat)
    requires Working(h0, len, heapMax, dl, freq, depth, node, job) && Taken(h0, h2, len, heapMax, freq, depth, n, m)
    requires Nodes(h2, len - 1, freq, depth) && Heap(h2, len - 1, 2, freq, depth)
    ensures node < |freq| == |dl| == |depth| && n < node && m < node && freq[n] + freq[m] < 0x10000
    ensures (n in job.leaves || n >= job.elems) && (m in job.leaves || m >= job.elems)
    ensures forall i :: 1 <= i < len ==> h2[i] != node
    ensures depth[n] <= 22 && depth[m] <= 22
  {
    hide Forest, Heap, Priced, Weighed, Fib, FinalHeight;
    var live, list := multiset(h0[1..len + 1]), h0[heapMax..];
    ForestNodes(live, list, dl, freq, job.leaves, job.elems, node);
    OnceFrom(live);
    ForestSizes(live, list, dl, freq, job.leaves, job.elems, node);
    assert n in live && m in live;
    JoinFits(h0, live, len, list, freq, node, job, n, m);
    HeightBound(depth[n], freq[n]);
    HeightBound(depth[m], freq[m]);
    LiveKind(live, list, dl, freq, job.leaves, job.elems, node, n);
    LiveKind(live, list, dl, freq, job.leaves, job.elems, node, m);
  }

  lemma LiveKind(live: multiset<nat>, list: seq<nat>, dl: seq<nat>, freq: seq<nat>, leaves: set<nat>, elems: nat,
                 node: nat, x: nat)
    requires Forest(live, list, dl, freq, leaves, elems, node) && x in live
    ensures x in leaves || x >= elems
  {
    MadeIs(leaves, elems, node, x);
    var all: multiset<nat> := multiset(Made(leaves, elems, node));
    assert (live + multiset(list))[x] == all[x];
  }

  lemma LiveIs(h: seq<nat>, len: nat, n: nat)
    requires len < |h|
    ensures forall x :: x in Live(h, len) <==> x in multiset(h[1..len + 1])
    ensures forall x :: x in Live(h, len) && x != n ==> x in multiset(h[1..len + 1]) - multiset{n}
  {
  }

  lemma OnceFrom(live: multiset<nat>)
    requires forall x :: x in live ==> live[x] == 1
    ensures Once(live)
  {
  }

  lemma ForestSizes(live: multiset<nat>, list: seq<nat>, dl: seq<nat>, freq: seq<nat>, leaves: set<nat>, elems: nat,
                    node: nat)
    requires Forest(live, list, dl, freq, leaves, elems, node)
    ensures elems <= node <= |dl| == |freq|
  {
  }

  lemma JoinWeighed(h0: seq<nat>, h3: seq<nat>, len: nat, list: seq<nat>, freq: seq<nat>, node: nat, job: Job, n: nat,
                    m: nat)
    requires 2 <= len < |h0| && len < |h3| && Weighed(h0, len, list, freq, job) && node < |freq| && node !in list
    requires n in Live(h0, len) && m in Live(h0, len) && n != m && n < |freq| && m < |freq| && node !in Live(h0, len)
    requires Live(h3, len - 1) == After(Live(h0, len), n, m, node)
    requires forall x :: x in Live(h0, len) ==> x < |freq| && freq[n] <= freq[x]
    requires forall x :: x in Live(h0, len) && x != n ==> freq[m] <= freq[x]
    ensures Weighed(h3, len - 1, [m, n] + list, freq[node := freq[n] + freq[m]], job)
  {
    hide Huffman, Weigh, Sum, Live;
    var live, freq' := Live(h0, len), freq[node := freq[n] + freq[m]];
    SumJoin(live, freq, n, m, node);
    JoinIsHuffman(live, freq, n, m, node);
    ListSumMore(list, freq', n, m);
    ListSumSame(list, freq', freq);
  }

  // Entries above the heap do not matter to it.
  lemma OffHeap(h1: seq<nat>, h2: seq<nat>, len: nat, freq: seq<nat>, depth: seq<nat>)
    requires 1 <= len < |h1| && |h2| == |h1| && Nodes(h1, len, freq, depth) && Heap(h1, len, 1, freq, depth)
    requires forall i :: 1 <= i <= len ==> h2[i] == h1[i]
    ensures Nodes(h2, len, freq, depth) && Heap(h2, len, 2, freq, depth)
  {
  }

  // The sum of two frequencies fits 16 bits.
  lemma JoinFits(h0: seq<nat>, live: multiset<nat>, len: nat, list: seq<nat>, freq: seq<nat>, node: nat, job: Job,
                 n: nat, m: nat)
    requires len < |h0| && live == multiset(h0[1..len + 1]) && Weighed(h0, len, list, freq, job)
      && multiset{n, m} <= live
    requires Once(live) && (forall x :: x in live ==> x < node) && node < |freq|
    ensures n < |freq| && m < |freq| && freq[n] + freq[m] < 0x10000
  {
    hide Sum, Huffman, Weigh;
    assert multiset{n, m}[n] <= live[n] && multiset{n, m}[m] <= live[m];
    LiveIs(h0, len, n);
    SumJoin(Live(h0, len), freq, n, m, node);
  }

  // Take the two least nodes off the heap and put them in front of the list.
  method TakeTwo(heap: array<nat>, len: nat, heapMax: nat, freq: array<nat>, depth: array<nat>) returns (n: nat, m: nat)
    requires heap != freq && heap != depth && 2 <= len && len < heapMax - 1 && heapMax <= heap.Length
    requires Nodes(heap[..], len, freq[..], depth[..]) && Heap(heap[..], len, 1, freq[..], depth[..])
    modifies heap
    ensures Taken(old(heap[..]), heap[..], len, heapMax, freq[..], depth[..], n, m)
    ensures Nodes(heap[..], len - 1, freq[..], depth[..]) && Heap(heap[..], len - 1, 2, freq[..], depth[..])
  {
    hide Heap, Removed, Taken;
    ghost var h0: seq<nat> := heap[..];
    n := PqRemove(heap, len, freq, depth);
    m := heap[1];
    ghost var h1: seq<nat> := heap[..];
    heap[heapMax - 1] := n;
    heap[heapMax - 2] := m;
    assert heap[..] == h1[heapMax - 1 := n][heapMax - 2 := m];
    TakenAll(h0, h1, heap[..], len, heapMax, freq[..], depth[..], n);
  }

  // The arrays build_tree works on: heap, the union of Dad and Len, Freq, and depth.
  ghost predicate Apart(heap: array<nat>, dl: array<nat>, freq: array<nat>, depth: array<nat>) {
    heap != dl && heap != freq && heap != depth && dl != freq && dl != depth && freq != depth
  }

  // One round of the do-while loop.
  method JoinTwo(heap: array<nat>, len: nat, heapMax: nat, dl: array<nat>, freq: array<nat>, depth: array<nat>,
                 node: nat, ghost job: Job)
    requires Apart(heap, dl, freq, depth) && 2 <= len
    requires Working(heap[..], len, heapMax, dl[..], freq[..], depth[..], node, job)
    modifies heap, dl, freq, depth
    ensures heapMax >= 2 && Working(heap[..], len - 1, heapMax - 2, dl[..], freq[..], depth[..], node + 1, job)
    ensures forall x :: 0 <= x < job.elems && x !in job.leaves && x < dl.Length ==> dl[x] == old(dl[x])
    ensures forall x :: 0 <= x < job.elems && x < freq.Length ==> freq[x] == old(freq[x])
  {
    hide Heap, Taken, Topped, Working;
    ghost var h0: seq<nat>, d0: seq<nat>, f0: seq<nat>, p0: seq<nat> := heap[..], dl[..], freq[..], depth[..];
    WorkingFacts(h0, len, heapMax, d0, f0, p0, node, job);
    var n, m := TakeTwo(heap, len, heapMax, freq, depth);
    ghost var h2: seq<nat> := heap[..];
    JoinReady(h0, h2, len, heapMax, d0, f0, p0, node, job, n, m);
    freq[node] := (freq[n] + freq[m]) % 0x10000;
    depth[node] := ((if depth[n] >= depth[m] then depth[n] else depth[m]) + 1) % 0x100;
    dl[n] := node;
    dl[m] := node;
    assert freq[..] == f0[node := f0[n] + f0[m]] && depth[..] == p0[node := Above(p0[n], p0[m])];
    assert dl[..] == d0[n := node][m := node] && heap[..] == h2;
    HeapSame(h2, len - 1, 2, f0, p0, freq[..], depth[..]);
    PutTop(heap, len - 1, freq, depth, node);
    JoinWorking(h0, h2, heap[..], len, heapMax, d0, f0, p0, dl[..], freq[..], depth[..], node, job, n, m);
  }

  lemma WorkingFacts(heap: seq<nat>, len: nat, heapMax: nat, dl: seq<nat>, freq: seq<nat>, depth: seq<nat>, node: nat,
                     job: Job)
    requires Working(heap, len, heapMax, dl, freq, depth, node, job)
    ensures Nodes(heap, len, freq, depth) && Heap(heap, len, 1, freq, depth)
    ensures len < heapMax - 1 || len == 1
    ensures heapMax <= |heap| && node >= job.elems
  {
  }

  // ---- the leaves ----

  // The sum of the frequencies of the first k symbols, and how many are not zero.
  function FreqSum(freq: seq<nat>, k: nat): nat
    requires k <= |freq|
  {
    if k == 0 then 0 else FreqSum(freq, k - 1) + freq[k - 1]
  }

  function NonZero(freq: seq<nat>, k: nat): nat
    requires k <= |freq|
  {
    if k == 0 then 0 else NonZero(freq, k - 1) + (if freq[k - 1] != 0 then 1 else 0)
  }

  // Symbols on the heap are those with a frequency, and the largest is max_code.
  ghost predicate Leafy(heap: seq<nat>, len: nat, leaves: set<nat>, freq: seq<nat>, k: nat, maxCode: int) {
    && len < |heap| && multiset(heap[1..len + 1]) == multiset(leaves) && len <= k <= |freq|
    && (forall x <- leaves :: x < k && freq[x] != 0 && x <= maxCode)
    && (forall x: nat :: x < k && freq[x] != 0 ==> x in leaves)
    && -1 <= maxCode < k && (maxCode >= 0 ==> maxCode in leaves)
  }

  lemma LeafyMore(heap: seq<nat>, len: nat, leaves: set<nat>, x: nat)
    requires len + 1 < |heap| && multiset(heap[1..len + 1]) == multiset(leaves) && x !in leaves
    ensures multiset(heap[len + 1 := x][1..len + 2]) == multiset(leaves + {x})
  {
    assert heap[len + 1 := x][1..len + 2] == heap[1..len + 1] + [x];
  }

  lemma LeafyNext(heap: seq<nat>, len: nat, leaves: set<nat>, freq: seq<nat>, k: nat, maxCode: int)
    requires Leafy(heap, len, leaves, freq, k, maxCode) && k < |freq| && len + 1 < |heap|
    ensures freq[k] != 0 ==> k !in leaves && Leafy(heap[len + 1 := k], len + 1, leaves + {k}, freq, k + 1, k)
    ensures freq[k] == 0 ==> k !in leaves && Leafy(heap, len, leaves, freq, k + 1, maxCode)
  {
    if freq[k] != 0 { LeafyMore(heap, len, leaves, k); }
  }

  lemma LeafyNone(heap: seq<nat>, freq: seq<nat>)
    requires |heap| > 0
    ensures Leafy(heap, 0, {}, freq, 0, -1)
  {
    assert heap[1..1] == [];
  }

  lemma NonZeroNone(freq: seq<nat>)
    ensures NonZero(freq, 0) == 0
  {
  }

  lemma NonZeroNext(freq: seq<nat>, k: nat)
    requires k < |freq|
    ensures NonZero(freq, k + 1) == NonZero(freq, k) + if freq[k] != 0 then 1 else 0
  {
  }

  // Collect the symbols in use; the others get length zero.
  method Collect(heap: array<nat>, dl: array<nat>, freq: array<nat>, depth: array<nat>, elems: nat)
    returns (len: nat, maxCode: int, ghost leaves: set<nat>)
    requires Apart(heap, dl, freq, depth) && 2 * elems < heap.Length
    requires elems <= freq.Length == dl.Length == depth.Length
    modifies heap, dl, depth
    ensures Leafy(heap[..], len, leaves, freq[..], elems, maxCode) && len == NonZero(freq[..], elems)
    ensures forall x :: 0 <= x < elems && x !in leaves ==> dl[x] == 0
    ensures forall x <- leaves :: x < depth.Length && depth[x] == 0
  {
    hide Leafy, NonZero;
    len, maxCode, leaves := 0, -1, {};
    LeafyNone(heap[..], freq[..]);
    NonZeroNone(freq[..]);
    for n := 0 to elems
      invariant len <= n && Leafy(heap[..], len, leaves, freq[..], n, maxCode)
      invariant len == NonZero(freq[..], n) && freq[..] == old(freq[..])
      invariant forall x :: 0 <= x < n && x !in leaves ==> dl[x] == 0
      invariant forall x <- leaves :: x < n && depth[x] == 0
    {
      ghost var h := heap[..];
      LeafyNext(h, len, leaves, freq[..], n, maxCode);
      NonZeroNext(freq[..], n);
      if freq[n] != 0 {
        len := len + 1;
        heap[len] := n;
        assert heap[..] == h[len := n];
        leaves := leaves + {n};
        maxCode := n;
        depth[n] := 0;
      } else {
        dl[n] := 0;
      }
    }
  }

  // The heap after one forced symbol.
  lemma LeafyForced(heap: seq<nat>, len: nat, leaves: set<nat>, freq: seq<nat>, elems: nat, maxCode: int, x: nat)
    requires Leafy(heap, len, leaves, freq, elems, maxCode) && len < 2 && 3 <= elems && len + 1 < |heap|
    requires x == if maxCode < 2 then maxCode + 1 else 0
    ensures x < elems && x < 3 && x !in leaves && freq[x] == 0
    ensures Leafy(heap[len + 1 := x], len + 1, leaves + {x}, freq[x := 1], elems, if maxCode < 2 then x else maxCode)
  {
    if maxCode >= 2 { OneLeaf(heap, len, leaves, maxCode); }
    LeafyMore(heap, len, leaves, x);
  }

  lemma OneLeaf(heap: seq<nat>, len: nat, leaves: set<nat>, c: nat)
    requires len < 2 && len < |heap| && multiset(heap[1..len + 1]) == multiset(leaves) && c in leaves
    ensures leaves == {c}
  {
    assert c in multiset(leaves);
    assert len == 1 && heap[1..2] == [heap[1]];
    forall y: nat | y in leaves ensures y == c { assert y in multiset(heap[1..2]); }
  }

  lemma LeafyRange(heap: seq<nat>, len: nat, leaves: set<nat>, freq: seq<nat>, elems: nat, maxCode: int)
    requires Leafy(heap, len, leaves, freq, elems, maxCode)
    ensures -1 <= maxCode < elems && len <= elems
  {
  }

  // The symbols in `forced` had frequency zero and now have one.
  ghost predicate Forced(before: seq<nat>, after: seq<nat>, forced: set<nat>) {
    && |before| == |after| >= 3 && (forall x <- forced :: x < 3 && before[x] == 0)
    && forall x :: 0 <= x < |after| ==> after[x] == if x in forced then 1 else before[x]
  }

  // What the static tree charges for the forced symbols; they have no extra bits.
  ghost function Charge(forced: set<nat>, d: StatDesc): nat
    requires d.hasStatic ==> |d.stree| >= 3
  {
    if !d.hasStatic then 0 else
    (if 0 in forced then d.stree[0] else 0) + (if 1 in forced then d.stree[1] else 0)
      + (if 2 in forced then d.stree[2] else 0)
  }

  lemma ForcedNext(before: seq<nat>, after: seq<nat>, forced: set<nat>, d: StatDesc, x: nat)
    requires Forced(before, after, forced) && x < 3 && after[x] == 0 && (d.hasStatic ==> |d.stree| >= 3)
    ensures x !in forced && Forced(before, after[x := 1], forced + {x})
    ensures Charge(forced + {x}, d) == Charge(forced, d) + if d.hasStatic then d.stree[x] else 0
  {
  }

  lemma ForcedNone(before: seq<nat>, d: StatDesc)
    requires |before| >= 3 && (d.hasStatic ==> |d.stree| >= 3)
    ensures Forced(before, before, {}) && Charge({}, d) == 0
  {
  }

  // One more leaf, of frequency one.
  method ForceOne(heap: array<nat>, freq: array<nat>, depth: array<nat>, elems: nat, len: nat, maxCode0: int,
                  ghost leaves: set<nat>) returns (node: nat, maxCode: int)
    requires heap != freq && heap != depth && freq != depth && 3 <= elems <= freq.Length == depth.Length
      && 2 * elems < heap.Length
    requires Leafy(heap[..], len, leaves, freq[..], elems, maxCode0) && len < 2
    modifies heap, freq, depth
    ensures node < 3 && old(freq[node]) == 0 && freq[..] == old(freq[..])[node := 1]
    ensures Leafy(heap[..], len + 1, leaves + {node}, freq[..], elems, maxCode)
    ensures depth[..] == old(depth[..])[node := 0]
  {
    hide Leafy;
    ghost var h, f := heap[..], freq[..];
    LeafyRange(h, len, leaves, f, elems, maxCode0);
    maxCode := maxCode0;
    node := if maxCode < 2 then maxCode + 1 else 0;
    LeafyForced(h, len, leaves, f, elems, maxCode, node);
    if maxCode < 2 { maxCode := node; }
    heap[len + 1] := node;
    freq[node] := 1;
    depth[node] := 0;
    assert heap[..] == h[len + 1 := node] && freq[..] == f[node := 1];
  }

  // Force at least two codes of non-zero frequency.
  method ForceTwo(heap: array<nat>, freq: array<nat>, depth: array<nat>, elems: nat, d: StatDesc, len0: nat,
                  maxCode0: int, optLen0: int, staticLen0: int, ghost leaves0: set<nat>)
    returns (len: nat, maxCode: int, optLen: int, staticLen: int, ghost leaves: set<nat>, ghost forced: set<nat>)
    requires heap != freq && heap != depth && freq != depth && 3 <= elems <= freq.Length == depth.Length
      && 2 * elems < heap.Length
    requires Leafy(heap[..], len0, leaves0, freq[..], elems, maxCode0) && d.Covers(elems - 1)
    requires forall x <- leaves0 :: x < depth.Length && depth[x] == 0
    modifies heap, freq, depth
    ensures forall x <- leaves :: x < depth.Length && depth[x] == 0
    ensures Leafy(heap[..], len, leaves, freq[..], elems, maxCode) && len == (if len0 < 2 then 2 else len0)
    ensures leaves == leaves0 + forced && Forced(old(freq[..]), freq[..], forced) && |forced| == len - len0
    ensures optLen == optLen0 - (len - len0) && staticLen == staticLen0 - Charge(forced, d)
  {
    hide Leafy, Forced, Charge;
    ForcedNone(freq[..], d);
    len, maxCode, optLen, staticLen, leaves, forced := len0, maxCode0, optLen0, staticLen0, leaves0, {};
    while len < 2
      invariant len0 <= len && (len == len0 || len <= 2) && leaves == leaves0 + forced && |forced| == len - len0
      invariant Leafy(heap[..], len, leaves, freq[..], elems, maxCode) && optLen == optLen0 - (len - len0)
      invariant Forced(old(freq[..]), freq[..], forced) && staticLen == staticLen0 - Charge(forced, d)
      invariant forall x <- leaves :: x < depth.Length && depth[x] == 0
    {
      ghost var f := freq[..];
      var node;
      node, maxCode := ForceOne(heap, freq, depth, elems, len, maxCode, leaves);
      ForcedNext(old(freq[..]), f, forced, d, node);
      len := len + 1;
      optLen := optLen - 1;
      if d.hasStatic { staticLen := staticLen - d.stree[node]; }
      leaves, forced := leaves + {node}, forced + {node};
    }
  }

  // The initial heap: sub-heaps of increasing size.
  method Heapify(heap: array<nat>, len: nat, freq: array<nat>, depth: array<nat>)
    requires heap != freq && heap != depth && 2 <= len && Nodes(heap[..], len, freq[..], depth[..])
    modifies heap
    ensures Nodes(heap[..], len, freq[..], depth[..]) && Heap(heap[..], len, 1, freq[..], depth[..])
    ensures SameBut(heap[..], old(heap[..]), 1, len)
  {
    hide Heap, SameBut, Nodes;
    var n := len / 2;
    ghost var h0: seq<nat> := heap[..];
    HeapBottom(h0, len, n, freq[..], depth[..]);
    while n >= 1
      invariant 0 <= n <= len / 2 && Nodes(heap[..], len, freq[..], depth[..])
      invariant Heap(heap[..], len, n + 1, freq[..], depth[..]) && SameBut(heap[..], h0, 1, len)
    {
      ghost var h: seq<nat> := heap[..];
      PqDownHeap(heap, len, freq, depth, n);
      SameButNext(h0, h, heap[..], n, len);
      n := n - 1;
    }
  }

  lemma HeapBottom(h: seq<nat>, len: nat, n: nat, freq: seq<nat>, depth: seq<nat>)
    requires Nodes(h, len, freq, depth) && n == len / 2 && 1 <= len
    ensures Heap(h, len, n + 1, freq, depth) && SameBut(h, h, 1, len) && len < |h|
  {
  }

  lemma SameButNext(h0: seq<nat>, h: seq<nat>, h': seq<nat>, n: nat, len: nat)
    requires SameBut(h, h0, 1, len) && 1 <= n <= len && |h'| == |h|
    requires multiset(h') == multiset(h) && h'[..n] == h[..n] && h'[len + 1..] == h[len + 1..]
    ensures SameBut(h', h0, 1, len)
  {
    assert h'[..1] == h'[..n][..1] && h[..1] == h[..n][..1];
  }
}
