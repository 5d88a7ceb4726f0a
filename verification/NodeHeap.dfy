/** The priority queue of deps/zlib/trees.c: heap[1..heap_len] with the least frequent node at heap[1]. */
module NodeHeap {

  // smaller(tree, n, m, depth): ties in frequency go to the lesser depth.
  predicate Smaller(freq: seq<nat>, depth: seq<nat>, n: nat, m: nat)
    requires n < |freq| && m < |freq| && |depth| == |freq|
  {
    freq[n] < freq[m] || (freq[n] == freq[m] && depth[n] <= depth[m])
  }

  // Entries 1..len are nodes.
  ghost predicate Nodes(h: seq<nat>, len: nat, freq: seq<nat>, depth: seq<nat>) {
    len < |h| && |freq| == |depth| && forall i :: 1 <= i <= len ==> h[i] < |freq|
  }

  // No son at or below position lo is smaller than its father.
  ghost predicate Heap(h: seq<nat>, len: nat, lo: nat, freq: seq<nat>, depth: seq<nat>)
    requires Nodes(h, len, freq, depth)
  {
    forall j :: 2 <= j <= len && j / 2 >= lo ==> Smaller(freq, depth, h[j / 2], h[j])
  }

  // The same with the entry at k, and its sons, left open; their grandfather is not larger.
  ghost predicate Hole(h: seq<nat>, len: nat, lo: nat, k: nat, freq: seq<nat>, depth: seq<nat>)
    requires Nodes(h, len, freq, depth)
  {
    && (forall j :: 2 <= j <= len && j / 2 >= lo && j / 2 != k ==> Smaller(freq, depth, h[j / 2], h[j]))
    && (forall j :: 2 <= j <= len && j / 2 == k && k / 2 >= lo && k / 2 >= 1 ==> Smaller(freq, depth, h[k / 2], h[j]))
  }

  // The least node is on top.
  lemma {:induction false} TopIsLeast(h: seq<nat>, len: nat, freq: seq<nat>, depth: seq<nat>, i: nat)
    requires Nodes(h, len, freq, depth) && Heap(h, len, 1, freq, depth) && 1 <= i <= len
    ensures Smaller(freq, depth, h[1], h[i])
  {
    if i > 1 { TopIsLeast(h, len, freq, depth, i / 2); }
  }

  // Moving the son at j up keeps the hole's promise one level down.
  lemma HoleDown(h: seq<nat>, len: nat, lo: nat, k: nat, j: nat, freq: seq<nat>, depth: seq<nat>)
    requires Nodes(h, len, freq, depth) && Hole(h, len, lo, k, freq, depth) && 1 <= lo <= k
    requires k <= len && j <= len && j / 2 == k
    requires forall i :: 2 <= i <= len && i / 2 == k ==> Smaller(freq, depth, h[j], h[i])
    requires Smaller(freq, depth, h[j], h[k])
    ensures Nodes(h[k := h[j]][j := h[k]], len, freq, depth)
    ensures Hole(h[k := h[j]][j := h[k]], len, lo, j, freq, depth)
  {
    var g := h[k := h[j]][j := h[k]];
    assert j != k && j / 2 != j;
    forall i | 2 <= i <= len && i / 2 >= lo && i / 2 != j ensures Smaller(freq, depth, g[i / 2], g[i]) {
      if i / 2 == k {
      } else if i == k {
        assert Smaller(freq, depth, h[k / 2], h[j]);
      } else {
        assert i != j;
      }
    }
    forall i | 2 <= i <= len && i / 2 == j ensures Smaller(freq, depth, g[k], g[i]) {
      assert i != j && i != k;
      assert Smaller(freq, depth, h[i / 2], h[i]);
    }
  }

  // A hole whose entry is no larger than its sons is closed.
  lemma HoleClosed(h: seq<nat>, len: nat, lo: nat, k: nat, freq: seq<nat>, depth: seq<nat>)
    requires Nodes(h, len, freq, depth) && Hole(h, len, lo, k, freq, depth)
    requires forall i :: 2 <= i <= len && i / 2 == k ==> Smaller(freq, depth, h[k], h[i])
    ensures Heap(h, len, lo, freq, depth)
  {
  }

  lemma SwapSame(h: seq<nat>, k: nat, j: nat)
    requires k < |h| && j < |h|
    ensures multiset(h[k := h[j]][j := h[k]]) == multiset(h)
  {
  }

  // The smaller of the two sons of k, and whether v may stay above it.
  method PickSon(heap: array<nat>, len: nat, freq: array<nat>, depth: array<nat>, k: nat, v: nat, ghost h: seq<nat>)
    returns (j: nat, stay: bool)
    requires 1 <= k && 2 * k <= len < heap.Length && heap[..][k := v] == h
    requires Nodes(h, len, freq[..], depth[..])
    ensures j <= len && j / 2 == k && heap[j] == h[j]
    ensures forall i :: 2 <= i <= len && i / 2 == k ==> Smaller(freq[..], depth[..], h[j], h[i])
    ensures if stay then forall i :: 2 <= i <= len && i / 2 == k ==> Smaller(freq[..], depth[..], h[k], h[i])
            else Smaller(freq[..], depth[..], h[j], h[k])
  {
    j := 2 * k;
    assert h[k] == v && h[j] == heap[j] && (j < len ==> h[j + 1] == heap[j + 1]);
    if j < len && Smaller(freq[..], depth[..], heap[j + 1], heap[j]) { j := j + 1; }
    SonChosen(h, len, k, j, freq[..], depth[..]);
    stay := Smaller(freq[..], depth[..], v, heap[j]);
    if stay { FatherFits(h, len, k, j, freq[..], depth[..]); }
  }

  /** Restore the heap below k0.  heap[k] is not written until the end; `h` is the heap with v in its place. */
  method PqDownHeap(heap: array<nat>, len: nat, freq: array<nat>, depth: array<nat>, k0: nat)
    requires heap != freq && heap != depth && 1 <= k0 <= len
    requires Nodes(heap[..], len, freq[..], depth[..]) && Heap(heap[..], len, k0 + 1, freq[..], depth[..])
    modifies heap
    ensures Nodes(heap[..], len, freq[..], depth[..]) && Heap(heap[..], len, k0, freq[..], depth[..])
    ensures multiset(heap[..]) == multiset(old(heap[..]))
    ensures heap[..k0] == old(heap[..k0]) && heap[len + 1..] == old(heap[len + 1..])
  {
    hide Heap, Hole, Smaller;
    var k, v := k0, heap[k0];
    ghost var h, h0, fr, dp := heap[..], heap[..], freq[..], depth[..];
    HoleStart(h, len, k0, fr, dp);
    while 2 * k <= len
      invariant k0 <= k <= len && freq[..] == fr && depth[..] == dp
      invariant |h| == heap.Length && heap[..][k := v] == h
      invariant Nodes(h, len, fr, dp) && Hole(h, len, k0, k, fr, dp)
      invariant SameBut(h, h0, k0, len)
      decreases len - k
    {
      var j, stay := PickSon(heap, len, freq, depth, k, v, h);
      if stay {
        HoleClosed(h, len, k0, k, fr, dp);
        break;
      }
      HoleDown(h, len, k0, k, j, fr, dp);
      SwapKeeps(h, h0, k0, len, k, j);
      ghost var h1 := h[k := h[j]][j := h[k]];
      heap[k] := heap[j];
      assert heap[..][j := v] == h1;
      h, k := h1, j;
    }
    if 2 * k > len { HoleClosed(h, len, k0, k, fr, dp); }
    heap[k] := v;
    assert heap[..] == h;
  }

  // The entries from lo to len were permuted.
  ghost predicate SameBut(h: seq<nat>, h0: seq<nat>, lo: nat, len: nat) {
    && |h| == |h0| && lo <= len < |h| && multiset(h) == multiset(h0)
    && h[..lo] == h0[..lo] && h[len + 1..] == h0[len + 1..]
  }

  lemma SwapKeeps(h: seq<nat>, h0: seq<nat>, lo: nat, len: nat, k: nat, j: nat)
    requires SameBut(h, h0, lo, len) && lo <= k <= len && lo <= j <= len
    ensures SameBut(h[k := h[j]][j := h[k]], h0, lo, len)
  {
    SwapSame(h, k, j);
  }

  lemma HoleStart(h: seq<nat>, len: nat, k: nat, freq: seq<nat>, depth: seq<nat>)
    requires Nodes(h, len, freq, depth) && 1 <= k && Heap(h, len, k + 1, freq, depth)
    ensures Hole(h, len, k, k, freq, depth)
  {
  }

  lemma SonChosen(h: seq<nat>, len: nat, k: nat, j: nat, freq: seq<nat>, depth: seq<nat>)
    requires Nodes(h, len, freq, depth) && 1 <= k && j <= len && j / 2 == k
    requires if j == 2 * k then j < len ==> !Smaller(freq, depth, h[j + 1], h[j])
      else Smaller(freq, depth, h[j], h[j - 1])
    ensures forall i :: 2 <= i <= len && i / 2 == k ==> Smaller(freq, depth, h[j], h[i])
  {
    forall i | 2 <= i <= len && i / 2 == k ensures Smaller(freq, depth, h[j], h[i]) {
      assert i == 2 * k || i == 2 * k + 1;
    }
  }

  lemma FatherFits(h: seq<nat>, len: nat, k: nat, j: nat, freq: seq<nat>, depth: seq<nat>)
    requires Nodes(h, len, freq, depth) && 1 <= k <= len && j <= len && j / 2 == k && Smaller(freq, depth, h[k], h[j])
    requires forall i :: 2 <= i <= len && i / 2 == k ==> Smaller(freq, depth, h[j], h[i])
    ensures forall i :: 2 <= i <= len && i / 2 == k ==> Smaller(freq, depth, h[k], h[i])
  {
  }
}
