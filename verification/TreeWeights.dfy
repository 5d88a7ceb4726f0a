/** Frequencies in the forest of build_tree (deps/zlib/trees.c): joining the two least nodes is one step of Huffman's
    algorithm on the weights. */
module TreeWeights {
  import opened HuffmanCost

  // The frequencies, or other values, of the nodes of s below k; and the sum of the frequencies.
  ghost function Weigh<T>(s: set<nat>, val: seq<T>, k: nat): multiset<T>
    requires k <= |val|
  {
    if k == 0 then multiset{}
    else if k - 1 in s then Weigh(s, val, k - 1) + multiset{val[k - 1]}
    else Weigh(s, val, k - 1)
  }

  ghost function Sum(s: set<nat>, freq: seq<nat>, k: nat): nat
    requires k <= |freq|
  {
    if k == 0 then 0 else Sum(s, freq, k - 1) + (if k - 1 in s then freq[k - 1] else 0)
  }

  lemma {:induction false} WeighRemove<T>(s: set<nat>, val: seq<T>, k: nat, n: nat)
    requires k <= |val| && n in s && n < |val|
    ensures n < k ==> Weigh(s, val, k) == Weigh(s - {n}, val, k) + multiset{val[n]}
    ensures n >= k ==> Weigh(s, val, k) == Weigh(s - {n}, val, k)
  {
    if k > 0 {
      WeighRemove(s, val, k - 1, n);
      if k - 1 != n && k - 1 in s && n < k {
        Commute(Weigh(s - {n}, val, k - 1), val[n], val[k - 1]);
      }
    }
  }

  lemma Commute<T>(w: multiset<T>, a: T, b: T)
    ensures w + multiset{a} + multiset{b} == w + multiset{b} + multiset{a}
  {
  }

  lemma {:induction false} SumRemove(s: set<nat>, freq: seq<nat>, k: nat, n: nat)
    requires k <= |freq| && n in s && n < |freq|
    ensures Sum(s, freq, k) == Sum(s - {n}, freq, k) + if n < k then freq[n] else 0
  {
    if k > 0 { SumRemove(s, freq, k - 1, n); }
  }

  lemma {:induction false} WeighSame<T>(s: set<nat>, val: seq<T>, other: seq<T>, k: nat)
    requires k <= |val| && k <= |other| && forall x :: x in s && x < k ==> val[x] == other[x]
    ensures Weigh(s, val, k) == Weigh(s, other, k)
  {
    if k > 0 { WeighSame(s, val, other, k - 1); }
  }

  lemma {:induction false} SumSame(s: set<nat>, freq: seq<nat>, other: seq<nat>, k: nat)
    requires k <= |freq| && k <= |other| && forall x :: x in s && x < k ==> freq[x] == other[x]
    ensures Sum(s, freq, k) == Sum(s, other, k)
  {
    if k > 0 { SumSame(s, freq, other, k - 1); }
  }

  // Every value is that of a node.
  lemma {:induction false} WeighFrom<T>(s: set<nat>, val: seq<T>, k: nat)
    requires k <= |val|
    ensures forall v :: v in Weigh(s, val, k) ==> exists x: nat :: x in s && x < k && val[x] == v
  {
    if k > 0 { WeighFrom(s, val, k - 1); }
  }

  // A node of least frequency.
  lemma WeighLeast(s: set<nat>, freq: seq<nat>, n: nat)
    requires n in s && n < |freq| && forall x :: x in s && x < |freq| ==> freq[n] <= freq[x]
    ensures |Weigh(s, freq, |freq|)| > 0 && Least(Weigh(s, freq, |freq|)) == freq[n]
  {
    hide Weigh;
    WeighRemove(s, freq, |freq|, n);
    WeighFrom(s, freq, |freq|);
    LeastIs(Weigh(s, freq, |freq|), freq[n]);
  }

  // The nodes after a join.
  ghost function After(live: set<nat>, n: nat, m: nat, node: nat): set<nat> {
    live - {n} - {m} + {node}
  }

  // The values after a join: those of n and m are replaced by that of the new node.
  lemma WeighJoin<T>(live: set<nat>, val: seq<T>, n: nat, m: nat, node: nat, v: T)
    requires n in live && m in live && n != m && node !in live && node < |val| && n < |val| && m < |val|
    ensures
      var rest := Weigh(live - {n} - {m}, val, |val|);
      && Weigh(live, val, |val|) == rest + multiset{val[m]} + multiset{val[n]}
      && Weigh(live - {n}, val, |val|) == rest + multiset{val[m]}
      && Weigh(After(live, n, m, node), val[node := v], |val|) == rest + multiset{v}
  {
    hide Weigh;
    var k := |val|;
    var val' := val[node := v];
    var rest := live - {n} - {m};
    WeighRemove(live, val, k, n);
    WeighRemove(live - {n}, val, k, m);
    assert After(live, n, m, node) - {node} == rest;
    WeighRemove(After(live, n, m, node), val', k, node);
    WeighSame(rest, val, val', k);
  }

  lemma SumJoin(live: set<nat>, freq: seq<nat>, n: nat, m: nat, node: nat)
    requires n in live && m in live && n != m && node !in live && node < |freq| && n < |freq| && m < |freq|
    ensures Sum(After(live, n, m, node), freq[node := freq[n] + freq[m]], |freq|) == Sum(live, freq, |freq|)
    ensures freq[n] + freq[m] <= Sum(live, freq, |freq|)
  {
    hide Sum;
    var k := |freq|;
    var freq' := freq[node := freq[n] + freq[m]];
    var rest := live - {n} - {m};
    SumRemove(live, freq, k, n);
    SumRemove(live - {n}, freq, k, m);
    assert After(live, n, m, node) - {node} == rest;
    SumRemove(After(live, n, m, node), freq', k, node);
    SumSame(rest, freq, freq', k);
  }

  /** One join is one step of Huffman's algorithm. */
  lemma JoinIsHuffman(live: set<nat>, freq: seq<nat>, n: nat, m: nat, node: nat)
    requires n in live && m in live && n != m && node !in live && node < |freq| && n < |freq| && m < |freq|
    requires forall x :: x in live && x < |freq| ==> freq[n] <= freq[x]
    requires forall x :: x in live - {n} && x < |freq| ==> freq[m] <= freq[x]
    ensures Huffman(Weigh(live, freq, |freq|))
         == freq[n] + freq[m] + Huffman(Weigh(After(live, n, m, node), freq[node := freq[n] + freq[m]], |freq|))
  {
    hide Weigh, Huffman, Least, IsLeast, Joined, After;
    var a, b := freq[n], freq[m];
    WeighLeast(live, freq, n);
    WeighLeast(live - {n}, freq, m);
    WeighJoin(live, freq, n, m, node, a + b);
    Taken(Weigh(live, freq, |freq|), Weigh(live - {n}, freq, |freq|), Weigh(live - {n} - {m}, freq, |freq|),
          Weigh(After(live, n, m, node), freq[node := a + b], |freq|), a, b);
  }

  lemma Taken(w: multiset<nat>, w1: multiset<nat>, rest: multiset<nat>, next: multiset<nat>, a: nat, b: nat)
    requires w == rest + multiset{b} + multiset{a} && w1 == rest + multiset{b} && next == rest + multiset{a + b}
    requires |w| > 0 && a == Least(w) && |w1| > 0 && b == Least(w1)
    ensures Huffman(w) == a + b + Huffman(next)
  {
    hide Huffman, Least, IsLeast, Joined;
    Undo(rest, b, a);
    HuffmanStep(w, a, b);
  }

  lemma Undo(w: multiset<nat>, b: nat, a: nat)
    ensures w + multiset{b} + multiset{a} - multiset{a} == w + multiset{b} && w + multiset{b} - multiset{b} == w
    ensures |w + multiset{b} + multiset{a}| > 1
  {
  }
}
