/** gen_bitlen of deps/zlib/trees.c: code lengths from the tree that build_tree leaves in heap[], limited to
    max_length, with the cost of the block kept up to date. */
module BitLengths {
  import opened Bits
  import opened Canon
  import opened LengthCounts

  // ---- the tree, by position in the list of nodes ----

  // Positions from j on whose father is at position i.
  function Sons(fat: seq<nat>, i: nat, j: nat): nat
    decreases |fat| - j
  {
    if j >= |fat| then 0 else (if fat[j] == i then 1 else 0) + Sons(fat, i, j + 1)
  }

  /** Nodes listed with the root first and every father before its sons; leaves are the symbols up to
      max_code and every other node has two sons. */
  ghost predicate Listed(order: seq<nat>, dad: seq<nat>, maxCode: nat, fat: seq<nat>) {
    && |order| == |fat| > 0 && order[0] > maxCode
    && (forall i :: 0 <= i < |order| ==> order[i] < |dad|)
    && (forall i, j :: 0 <= i < j < |order| ==> order[i] != order[j])
    && (forall j :: 0 < j < |order| ==> fat[j] < j && order[fat[j]] == dad[order[j]])
    && (forall i: nat :: i < |order| ==> Sons(fat, i, i + 1) == if order[i] <= maxCode then 0 else 2)
  }

  // The sum of val at the fathers of unseen positions, over positions whose father was seen.
  function Open(fat: seq<nat>, val: seq<nat>, j: nat): nat
    decreases |fat| - j
  {
    if j >= |fat| then 0 else (if fat[j] < |val| then val[fat[j]] else 0) + Open(fat, val, j + 1)
  }

  // Seeing one more node opens its two sons.
  lemma {:induction false} OpenMore(fat: seq<nat>, val: seq<nat>, x: nat, j: nat)
    ensures Sons(fat, |val|, j) == 0 ==> Open(fat, val + [x], j) == Open(fat, val, j)
    ensures Sons(fat, |val|, j) == 1 ==> Open(fat, val + [x], j) == Open(fat, val, j) + x
    ensures Sons(fat, |val|, j) == 2 ==> Open(fat, val + [x], j) == Open(fat, val, j) + 2 * x
    decreases |fat| - j
  {
    if j < |fat| { OpenMore(fat, val, x, j + 1); }
  }

  lemma {:induction false} OpenNothing(fat: seq<nat>, j: nat)
    ensures Open(fat, [], j) == 0
    decreases |fat| - j
  {
    if j < |fat| { OpenNothing(fat, j + 1); }
  }

  // ---- lengths ----

  function Cut(l: nat, maxLength: nat): nat {
    if l > maxLength then maxLength else l
  }

  // What a son of a node of length l adds to the Kraft sum.
  function SonWeight(l: nat, maxLength: nat): nat {
    Pow2(maxLength - Cut(l + 1, maxLength))
  }

  // 1 for nodes whose sons are cut.
  function CutsSons(l: nat, maxLength: nat): nat {
    if l >= maxLength then 1 else 0
  }

  function Weights(len: seq<nat>, maxLength: nat): (r: seq<nat>)
    ensures |r| == |len|
  {
    seq(|len|, i requires 0 <= i < |len| => SonWeight(len[i], maxLength))
  }

  function Flags(len: seq<nat>, maxLength: nat): (r: seq<nat>)
    ensures |r| == |len|
  {
    seq(|len|, i requires 0 <= i < |len| => CutsSons(len[i], maxLength))
  }

  // Leaves among the first h nodes, and those of length b.
  function Leaves(order: seq<nat>, maxCode: nat, h: nat): nat
    requires h <= |order|
  {
    if h == 0 then 0 else Leaves(order, maxCode, h - 1) + (if order[h - 1] <= maxCode then 1 else 0)
  }

  function LeavesOf(order: seq<nat>, len: seq<nat>, maxCode: nat, b: nat): nat
    requires |len| <= |order|
  {
    if |len| == 0 then 0 else
      LeavesOf(order, len[..|len| - 1], maxCode, b)
      + (if order[|len| - 1] <= maxCode && len[|len| - 1] == b then 1 else 0)
  }

  /** The balance kept by the first pass.  `cuts` counts internal nodes at max_length: each of them adds one
      unit to the Kraft sum and cuts both its sons. */
  ghost predicate Balance(fat: seq<nat>, len: seq<nat>, count: seq<nat>, overflow: nat, cuts: nat, maxLength: nat)
  {
    && maxLength < |count|
    && Kraft(count, maxLength) + Open(fat, Weights(len, maxLength), |len|) == Pow2(maxLength) + cuts
    && overflow + Open(fat, Flags(len, maxLength), |len|) == 2 * cuts
    && count[maxLength] + cuts >= overflow
  }

  lemma TwoHalves(maxLength: nat)
    requires maxLength > 0
    ensures 2 * SonWeight(0, maxLength) == Pow2(maxLength)
  {
  }

  lemma BalanceStart(fat: seq<nat>, count: seq<nat>, maxLength: nat)
    requires 0 < maxLength < |count| && Sons(fat, 0, 1) == 2 && forall b :: 0 <= b <= maxLength ==> count[b] == 0
    ensures Balance(fat, [0], count, 0, 0, maxLength)
  {
    hide Kraft, Open, Sons, Pow2, SonWeight;
    TwoHalves(maxLength);
    AllZero(count, maxLength);
    OpenNothing(fat, 1);
    OpenMore(fat, [], SonWeight(0, maxLength), 1);
    OpenMore(fat, [], CutsSons(0, maxLength), 1);
    assert Weights([0], maxLength) == [] + [SonWeight(0, maxLength)];
    assert Flags([0], maxLength) == [] + [CutsSons(0, maxLength)];
  }

  // One leaf more.
  lemma BalanceLeaf(fat: seq<nat>, len: seq<nat>, count: seq<nat>, overflow: nat, cuts: nat, maxLength: nat, l: nat,
                    h: nat)
    requires Balance(fat, len, count, overflow, cuts, maxLength) && 0 < h == |len| < |fat| && fat[h] < h
    requires Sons(fat, h, h + 1) == 0 && l == Cut(len[fat[h]] + 1, maxLength)
    ensures Balance(fat, len + [l], count[l := count[l] + 1], overflow + CutsSons(len[fat[h]], maxLength), cuts,
      maxLength)
  {
    hide Kraft, Total, Open, Sons, Weights, Flags, Pow2, SonWeight;
    SeeWeights(fat, len, l, maxLength, h);
    SeeFlags(fat, len, l, maxLength, h);
    assert |len + [l]| == h + 1;
    OneMore(count, l, maxLength);
  }

  // One internal node more.
  lemma BalanceInner(fat: seq<nat>, len: seq<nat>, count: seq<nat>, overflow: nat, cuts: nat, maxLength: nat, l: nat,
                     h: nat)
    requires Balance(fat, len, count, overflow, cuts, maxLength) && 0 < h == |len| < |fat| && fat[h] < h
    requires Sons(fat, h, h + 1) == 2 && l == Cut(len[fat[h]] + 1, maxLength)
    ensures Balance(fat, len + [l], count, overflow + CutsSons(len[fat[h]], maxLength),
                    cuts + CutsSons(l, maxLength), maxLength)
  {
    hide Kraft, Total, Open, Sons, Weights, Flags, Pow2, SonWeight;
    SeeWeights(fat, len, l, maxLength, h);
    SeeFlags(fat, len, l, maxLength, h);
    assert |len + [l]| == h + 1;
    SonPower(l, maxLength);
  }

  lemma SeeOne(fat: seq<nat>, val: seq<nat>, x: nat, h: nat)
    requires h == |val| < |fat| && fat[h] < h
    ensures Sons(fat, h, h + 1) == 0 ==> Open(fat, val + [x], h + 1) + val[fat[h]] == Open(fat, val, h)
    ensures Sons(fat, h, h + 1) == 2 ==> Open(fat, val + [x], h + 1) + val[fat[h]] == Open(fat, val, h) + 2 * x
  {
    hide Sons;
    OpenMore(fat, val, x, h + 1);
  }

  // What seeing the next node does to the two sums.
  lemma SeeWeights(fat: seq<nat>, len: seq<nat>, l: nat, maxLength: nat, h: nat)
    requires 0 < h == |len| < |fat| && fat[h] < h && l == Cut(len[fat[h]] + 1, maxLength)
    ensures
      var w, w' := Open(fat, Weights(len, maxLength), h), Open(fat, Weights(len + [l], maxLength), h + 1);
      && (Sons(fat, h, h + 1) == 0 ==> w' + Pow2(maxLength - l) == w)
      && (Sons(fat, h, h + 1) == 2 ==> w' + Pow2(maxLength - l) == w + 2 * SonWeight(l, maxLength))
  {
    hide Sons, Pow2, Open;
    var w := Weights(len, maxLength);
    assert Weights(len + [l], maxLength) == w + [SonWeight(l, maxLength)];
    assert w[fat[h]] == Pow2(maxLength - l);
    SeeOne(fat, w, SonWeight(l, maxLength), h);
  }

  lemma SeeFlags(fat: seq<nat>, len: seq<nat>, l: nat, maxLength: nat, h: nat)
    requires 0 < h == |len| < |fat| && fat[h] < h
    ensures
      var f, f' := Open(fat, Flags(len, maxLength), h), Open(fat, Flags(len + [l], maxLength), h + 1);
      && (Sons(fat, h, h + 1) == 0 ==> f' + CutsSons(len[fat[h]], maxLength) == f)
      && (Sons(fat, h, h + 1) == 2 ==> f' + CutsSons(len[fat[h]], maxLength) == f + 2 * CutsSons(l, maxLength))
  {
    hide Sons, Open;
    var f := Flags(len, maxLength);
    assert Flags(len + [l], maxLength) == f + [CutsSons(l, maxLength)];
    assert f[fat[h]] == CutsSons(len[fat[h]], maxLength);
    SeeOne(fat, f, CutsSons(l, maxLength), h);
  }

  // The sons of a node weigh as much as it does, or one more when they are cut.
  lemma SonPower(l: nat, maxLength: nat)
    requires l <= maxLength
    ensures 2 * SonWeight(l, maxLength) == Pow2(maxLength - l) + CutsSons(l, maxLength)
  {
  }

  lemma BalanceEnd(fat: seq<nat>, len: seq<nat>, count: seq<nat>, overflow: nat, cuts: nat, maxLength: nat)
    requires Balance(fat, len, count, overflow, cuts, maxLength) && |len| == |fat|
    ensures Kraft(count, maxLength) == Pow2(maxLength) + cuts && overflow == 2 * cuts && count[maxLength] >= cuts
  {
  }

  // ---- cost ----

  // static_tree (its lengths), extra_bits, extra_base and max_length of a tree descriptor.
  datatype StatDesc = StatDesc(hasStatic: bool, stree: seq<nat>, extra: seq<nat>, base: nat, maxLength: nat)
  {
    predicate Covers(maxCode: nat) {
      (hasStatic ==> maxCode < |stree|) && (maxCode < base || maxCode - base < |extra|) && 0 < maxLength <= MAXBITS
    }

    function XBits(n: nat): nat
      requires n < base || n - base < |extra|
    {
      if n >= base then extra[n - base] else 0
    }
  }

  // Bits spent on the leaves among the first |len| nodes, coded with these lengths.
  function Cost(order: seq<nat>, freq: seq<nat>, len: seq<nat>, maxCode: nat, d: StatDesc): nat
    requires |len| <= |order| && maxCode < |freq| && d.Covers(maxCode)
  {
    if len == [] then 0 else
    var k := |len| - 1;
    Cost(order, freq, len[..k], maxCode, d)
    + (if order[k] <= maxCode then freq[order[k]] * (len[k] + d.XBits(order[k])) else 0)
  }

  // The same with the lengths of the static tree.
  function StaticCost(order: seq<nat>, freq: seq<nat>, k: nat, maxCode: nat, d: StatDesc): nat
    requires k <= |order| && maxCode < |freq| && d.Covers(maxCode)
  {
    if k == 0 || !d.hasStatic then 0 else
    StaticCost(order, freq, k - 1, maxCode, d)
    + (if order[k - 1] <= maxCode then freq[order[k - 1]] * (d.stree[order[k - 1]] + d.XBits(order[k - 1])) else 0)
  }

  // ---- the first pass ----

  // The lengths of the nodes seen are in place, and counted.
  ghost predicate Placed(order: seq<nat>, dl: seq<nat>, dad: seq<nat>, len: seq<nat>, count: seq<nat>, maxCode: nat)
  {
    && |len| <= |order| && |dl| == |dad|
    && (forall i :: 0 <= i < |order| ==> order[i] < |dl|)
    && (forall i :: 0 <= i < |len| ==> dl[order[i]] == len[i])
    && (forall i :: |len| <= i < |order| ==> dl[order[i]] == dad[order[i]])
    && (forall n :: 0 <= n < |dl| && n !in order ==> dl[n] == dad[n])
    && (forall b: nat :: b < |count| ==> count[b] == LeavesOf(order, len, maxCode, b))
  }

  lemma PlacedNext(order: seq<nat>, dl: seq<nat>, dad: seq<nat>, len: seq<nat>, count: seq<nat>, maxCode: nat, l: nat)
    requires Placed(order, dl, dad, len, count, maxCode) && |len| < |order| && l < |count|
    requires forall i, j :: 0 <= i < j < |order| ==> order[i] != order[j]
    ensures
      var n := order[|len|];
      Placed(order, dl[n := l], dad, len + [l], if n <= maxCode then count[l := count[l] + 1] else count, maxCode)
  {
    assert (len + [l])[..|len|] == len;
  }

  // The root has length zero, the other nodes between 1 and max_length.
  ghost predicate InRange(len: seq<nat>, maxLength: nat) {
    (|len| > 0 ==> len[0] == 0) && forall i :: 0 < i < |len| ==> 1 <= len[i] <= maxLength
  }

  // The depth of a node in the tree.
  function DepthAt(fat: seq<nat>, i: nat): nat {
    if i == 0 || i >= |fat| || fat[i] >= i then 0 else DepthAt(fat, fat[i]) + 1
  }

  // Lengths are depths, cut to max_length; some were cut exactly when overflow is not zero.
  ghost predicate Deep(fat: seq<nat>, len: seq<nat>, maxLength: nat, overflow: nat) {
    && (forall i: nat :: i < |len| ==> len[i] == Cut(DepthAt(fat, i), maxLength))
    && (overflow == 0 <==> forall i: nat :: i < |len| ==> DepthAt(fat, i) <= maxLength)
  }

  lemma DeepNext(fat: seq<nat>, len: seq<nat>, maxLength: nat, overflow: nat, h: nat)
    requires Deep(fat, len, maxLength, overflow) && 0 < h == |len| < |fat| && fat[h] < h
    ensures Deep(fat, len + [Cut(len[fat[h]] + 1, maxLength)], maxLength, overflow + CutsSons(len[fat[h]], maxLength))
  {
    var up := len[fat[h]];
    var len' := len + [Cut(up + 1, maxLength)];
    assert DepthAt(fat, h) == DepthAt(fat, fat[h]) + 1;
    forall i: nat | i < |len'| ensures len'[i] == Cut(DepthAt(fat, i), maxLength) {
      if i < h { assert len'[i] == len[i]; }
    }
    if overflow == 0 && CutsSons(up, maxLength) == 0 {
      forall i: nat | i < |len'|
        ensures DepthAt(fat, i) <= maxLength { if i < h { assert DepthAt(fat, i) <= maxLength; } }
    }
  }

  // Where the first pass stands after |len| nodes; opt and stat are the costs added so far.
  ghost predicate Pass(order: seq<nat>, fat: seq<nat>, freq: seq<nat>, dad: seq<nat>, maxCode: nat, d: StatDesc,
                       dl: seq<nat>, len: seq<nat>, count: seq<nat>, overflow: nat, cuts: nat, opt: int, stat: int)
    requires maxCode < |freq| && d.Covers(maxCode)
  {
    && Placed(order, dl, dad, len, count, maxCode) && 0 < |len| && |count| == MAXBITS + 1
    && InRange(len, d.maxLength) && Deep(fat, len, d.maxLength, overflow)
    && Balance(fat, len, count, overflow, cuts, d.maxLength)
    && Total(count, d.maxLength) == Leaves(order, maxCode, |len|)
    && opt == Cost(order, freq, len, maxCode, d) && stat == StaticCost(order, freq, |len|, maxCode, d)
  }

  lemma PassStart(order: seq<nat>, fat: seq<nat>, freq: seq<nat>, dad: seq<nat>, maxCode: nat, d: StatDesc,
                  count: seq<nat>)
    requires maxCode < |freq| && d.Covers(maxCode) && Listed(order, dad, maxCode, fat)
    requires |count| == MAXBITS + 1 && forall b :: 0 <= b < |count| ==> count[b] == 0
    ensures Pass(order, fat, freq, dad, maxCode, d, dad[order[0] := 0], [0], count, 0, 0, 0, 0)
  {
    hide Kraft, Total, Open, Sons, Pow2, Balance;
    BalanceStart(fat, count, d.maxLength);
    AllZero(count, d.maxLength);
    var len: seq<nat> := [0];
    assert len[..0] == [];
    assert Leaves(order, maxCode, 1) == Leaves(order, maxCode, 0) == 0;
    assert Cost(order, freq, len, maxCode, d) == Cost(order, freq, [], maxCode, d) == 0;
    assert StaticCost(order, freq, 1, maxCode, d) == 0;
    forall b: nat ensures LeavesOf(order, len, maxCode, b) == 0 {
      assert LeavesOf(order, len, maxCode, b) == LeavesOf(order, [], maxCode, b);
    }
  }

  // A leaf: counted, and paid for.
  lemma PassLeaf(order: seq<nat>, fat: seq<nat>, freq: seq<nat>, dad: seq<nat>, maxCode: nat, d: StatDesc, dl: seq<nat>,
                 len: seq<nat>, count: seq<nat>, overflow: nat, cuts: nat, opt: int, stat: int, l: nat, n: nat)
    requires maxCode < |freq| && d.Covers(maxCode) && Listed(order, dad, maxCode, fat) && |len| < |order|
    requires Pass(order, fat, freq, dad, maxCode, d, dl, len, count, overflow, cuts, opt, stat)
    requires n == order[|len|] <= maxCode && l == Cut(len[fat[|len|]] + 1, d.maxLength)
    ensures Pass(order, fat, freq, dad, maxCode, d, dl[n := l], len + [l], count[l := count[l] + 1],
                 overflow + CutsSons(len[fat[|len|]], d.maxLength), cuts, opt + freq[n] * (l + d.XBits(n)),
                 stat + (if d.hasStatic then freq[n] * (d.stree[n] + d.XBits(n)) else 0))
  {
    hide Kraft, Total, Open, Sons, Pow2, Balance, Placed, StatDesc.XBits, Deep;
    var h := |len|;
    PlacedFacts(order, dl, dad, len, count, maxCode);
    PlacedNext(order, dl, dad, len, count, maxCode, l);
    BalanceLeaf(fat, len, count, overflow, cuts, d.maxLength, l, h);
    OneMore(count, l, d.maxLength);
    DeepNext(fat, len, d.maxLength, overflow, h);
    assert (len + [l])[..h] == len;
  }

  lemma PlacedFacts(order: seq<nat>, dl: seq<nat>, dad: seq<nat>, len: seq<nat>, count: seq<nat>, maxCode: nat)
    requires Placed(order, dl, dad, len, count, maxCode)
    ensures |dl| == |dad| && |len| <= |order| && forall i :: 0 <= i < |order| ==> order[i] < |dl|
  {
  }

  // An internal node.
  lemma PassInner(order: seq<nat>, fat: seq<nat>, freq: seq<nat>, dad: seq<nat>, maxCode: nat, d: StatDesc,
                  dl: seq<nat>, len: seq<nat>, count: seq<nat>, overflow: nat, cuts: nat, opt: int, stat: int, l: nat,
                  n: nat)
    requires maxCode < |freq| && d.Covers(maxCode) && Listed(order, dad, maxCode, fat) && |len| < |order|
    requires Pass(order, fat, freq, dad, maxCode, d, dl, len, count, overflow, cuts, opt, stat)
    requires n == order[|len|] > maxCode && l == Cut(len[fat[|len|]] + 1, d.maxLength)
    ensures Pass(order, fat, freq, dad, maxCode, d, dl[n := l], len + [l], count,
                 overflow + CutsSons(len[fat[|len|]], d.maxLength), cuts + CutsSons(l, d.maxLength), opt, stat)
  {
    hide Kraft, Total, Open, Sons, Pow2, Balance, Placed, StatDesc.XBits, Deep;
    var h := |len|;
    PlacedFacts(order, dl, dad, len, count, maxCode);
    PlacedNext(order, dl, dad, len, count, maxCode, l);
    BalanceInner(fat, len, count, overflow, cuts, d.maxLength, l, h);
    DeepNext(fat, len, d.maxLength, overflow, h);
    assert (len + [l])[..h] == len;
  }

  // The father's length is in place before its sons are reached.
  lemma FatherFirst(order: seq<nat>, fat: seq<nat>, dad: seq<nat>, maxCode: nat, dl: seq<nat>, len: seq<nat>,
                    count: seq<nat>)
    requires Listed(order, dad, maxCode, fat) && Placed(order, dl, dad, len, count, maxCode) && 0 < |len| < |order|
    ensures
      var n := order[|len|];
      n < |dl| && dl[n] < |dl| && dl[n] == order[fat[|len|]] && dl[dl[n]] == len[fat[|len|]]
  {
  }

  method FirstPass(dl: array<nat>, freq: array<nat>, heap: array<nat>, heapMax: nat, maxCode: nat, d: StatDesc,
                   blCount: array<nat>, optLen0: int, staticLen0: int, ghost fat: seq<nat>)
    returns (overflow: nat, optLen: int, staticLen: int, ghost len: seq<nat>, ghost cuts: nat)
    requires heapMax < heap.Length && Listed(heap[heapMax..], dl[..], maxCode, fat)
    requires d.Covers(maxCode) && maxCode < freq.Length && blCount.Length == MAXBITS + 1
    requires heap != dl && heap != blCount && dl != blCount && freq != dl && freq != blCount
    modifies dl, blCount
    ensures |len| == heap.Length - heapMax
    ensures Pass(heap[heapMax..], fat, freq[..], old(dl[..]), maxCode, d, dl[..], len, blCount[..], overflow, cuts,
                 optLen - optLen0, staticLen - staticLen0)
  {
    hide Pass, Listed, StatDesc.Covers, StatDesc.XBits;
    ghost var order, dad, fr := heap[heapMax..], dl[..], freq[..];
    optLen, staticLen, overflow, cuts := optLen0, staticLen0, 0, 0;
    for bits := 0 to MAXBITS + 1
      invariant forall b :: 0 <= b < bits ==> blCount[b] == 0
      modifies blCount
    {
      blCount[bits] := 0;
    }
    PassStart(order, fat, fr, dad, maxCode, d, blCount[..]);
    ListedFacts(order, dad, maxCode, fat);
    assert order[0] == heap[heapMax];
    dl[heap[heapMax]] := 0;  // root of the heap
    len := [0];
    assert dl[..] == dad[order[0] := 0];
    for h := heapMax + 1 to heap.Length
      invariant |len| == h - heapMax && heap[heapMax..] == order && freq[..] == fr
      invariant Pass(order, fat, fr, dad, maxCode, d, dl[..], len, blCount[..], overflow, cuts,
                     optLen - optLen0, staticLen - staticLen0)
    {
      var n := heap[h];
      ghost var p, count, was, cut := |len|, blCount[..], dl[..], overflow;
      assert n == order[p];
      PassFacts(order, fat, fr, dad, maxCode, d, was, len, count, overflow, cuts, optLen - optLen0,
        staticLen - staticLen0);
      var bits: nat := dl[dl[n]] + 1;
      if bits > d.maxLength { bits, overflow := d.maxLength, overflow + 1; }
      dl[n] := bits;
      assert dl[..] == was[n := bits];
      if n <= maxCode {
        PassLeaf(order, fat, fr, dad, maxCode, d, was, len, count, cut, cuts, optLen - optLen0, staticLen - staticLen0,
          bits, n);
        blCount[bits] := blCount[bits] + 1;
        assert blCount[..] == count[bits := count[bits] + 1];
        optLen, staticLen := Pay(n, freq[n], bits, d, maxCode, optLen, staticLen);
      } else {
        PassInner(order, fat, fr, dad, maxCode, d, was, len, count, cut, cuts, optLen - optLen0, staticLen - staticLen0,
          bits, n);
        cuts := cuts + CutsSons(bits, d.maxLength);
      }
      len := len + [bits];
    }
  }

  // Add what symbol n costs to opt_len and static_len.
  method Pay(n: nat, f: nat, bits: nat, d: StatDesc, ghost maxCode: nat, opt: int, stat: int)
    returns (opt': int, stat': int)
    requires n <= maxCode && d.Covers(maxCode)
    ensures opt' == opt + f * (bits + d.XBits(n))
    ensures stat' == stat + if d.hasStatic then f * (d.stree[n] + d.XBits(n)) else 0
  {
    var xbits := d.XBits(n);
    opt' := opt + f * (bits + xbits);
    stat' := if d.hasStatic then stat + f * (d.stree[n] + xbits) else stat;
  }

  lemma ListedFacts(order: seq<nat>, dad: seq<nat>, maxCode: nat, fat: seq<nat>)
    requires Listed(order, dad, maxCode, fat)
    ensures |order| > 0 && order[0] < |dad|
  {
  }

  // What one round of the loop needs to know.
  lemma PassFacts(order: seq<nat>, fat: seq<nat>, freq: seq<nat>, dad: seq<nat>, maxCode: nat, d: StatDesc,
                  dl: seq<nat>, len: seq<nat>, count: seq<nat>, overflow: nat, cuts: nat, opt: int, stat: int)
    requires maxCode < |freq| && d.Covers(maxCode) && Listed(order, dad, maxCode, fat) && |len| < |order|
    requires Pass(order, fat, freq, dad, maxCode, d, dl, len, count, overflow, cuts, opt, stat)
    ensures
      var n, up := order[|len|], fat[|len|];
      && n < |dl| && dl[n] < |dl| && up < |len| && dl[dl[n]] == len[up] && len[up] <= d.maxLength <= MAXBITS
  {
    hide Balance, Total, Leaves, Cost, StaticCost, Deep;
    FatherFirst(order, fat, dad, maxCode, dl, len, count);
  }

  // ---- the second pass ----

  // Leaves of length b from position h on.
  function Tail(order: seq<nat>, len: seq<nat>, maxCode: nat, b: nat, h: nat): nat
    requires |len| == |order|
    decreases |order| - h
  {
    if h >= |order| then 0
      else (if order[h] <= maxCode && len[h] == b then 1 else 0) + Tail(order, len, maxCode, b, h + 1)
  }

  lemma {:induction false} TailAgree(order: seq<nat>, len: seq<nat>, other: seq<nat>, maxCode: nat, b: nat, h: nat)
    requires |len| == |order| == |other| && forall i :: h <= i < |order| ==> len[i] == other[i]
    ensures Tail(order, len, maxCode, b, h) == Tail(order, other, maxCode, b, h)
    decreases |order| - h
  {
    if h < |order| { TailAgree(order, len, other, maxCode, b, h + 1); }
  }

  lemma {:induction false} TailIsAll(order: seq<nat>, len: seq<nat>, maxCode: nat, b: nat, h: nat)
    requires |len| == |order| && h <= |order|
    ensures LeavesOf(order, len[..h], maxCode, b) + Tail(order, len, maxCode, b, h) == LeavesOf(order, len, maxCode, b)
    decreases |order| - h
  {
    if h == |order| {
      assert len[..h] == len;
    } else {
      assert len[..h + 1][..h] == len[..h];
      TailIsAll(order, len, maxCode, b, h + 1);
    }
  }

  lemma {:induction false} NoLeaves(order: seq<nat>, len: seq<nat>, maxCode: nat, b: nat, h: nat)
    requires |len| == |order| && h <= |order| && Leaves(order, maxCode, h) == 0
    ensures LeavesOf(order, len[..h], maxCode, b) == 0
  {
    if h > 0 {
      assert len[..h][..h - 1] == len[..h - 1];
      NoLeaves(order, len, maxCode, b, h - 1);
    }
  }

  // Changing one length changes the cost by that much.
  lemma {:induction false} CostChange(order: seq<nat>, freq: seq<nat>, len: seq<nat>, maxCode: nat, d: StatDesc, i: nat,
                                      l: nat)
    requires i < |len| <= |order| && maxCode < |freq| && d.Covers(maxCode) && order[i] <= maxCode
    ensures Cost(order, freq, len[i := l], maxCode, d) == Cost(order, freq, len, maxCode, d)
      + (l - len[i]) * freq[order[i]]
    decreases |len|
  {
    hide StatDesc.XBits;
    var k := |len| - 1;
    if i == k {
      assert len[i := l][..k] == len[..k];
      Distribute(freq[order[i]], l, len[i], d.XBits(order[i]));
    } else {
      assert len[i := l][..k] == len[..k][i := l];
      CostChange(order, freq, len[..k], maxCode, d, i, l);
    }
  }

  lemma Distribute(f: nat, l: nat, m: nat, x: nat)
    ensures f * (l + x) == f * (m + x) + (l - m) * f
  {
  }

  // Leaves from position h on have their new lengths, the longest last.
  ghost predicate Sorted(order: seq<nat>, len: seq<nat>, maxCode: nat, h: nat, low: nat, high: nat)
    requires |len| == |order|
  {
    && (forall i :: h <= i < |order| && order[i] <= maxCode ==> low <= len[i] <= high)
    && (forall i, j :: h <= i < j < |order| && order[i] <= maxCode && order[j] <= maxCode ==> len[i] <= len[j])
  }

  // The leaves still to be numbered: n of length `bits`, and all the shorter ones.
  ghost predicate Counted(order: seq<nat>, len: seq<nat>, maxCode: nat, count: seq<nat>, h: nat, bits: nat, n: nat)
    requires |len| == |order|
  {
    && h <= |order| && 1 <= bits < |count|
    && (forall b: nat :: bits < b < |count| ==> Tail(order, len, maxCode, b, h) == count[b])
    && Tail(order, len, maxCode, bits, h) + n == count[bits]
    && (forall b: nat :: b < bits ==> Tail(order, len, maxCode, b, h) == 0)
    && Leaves(order, maxCode, h) == n + Total(count, bits - 1)
  }

  lemma CountedLeaf(order: seq<nat>, len: seq<nat>, maxCode: nat, count: seq<nat>, g: nat, h: nat, bits: nat, n: nat)
    requires |len| == |order| && Counted(order, len, maxCode, count, h, bits, n) && n > 0 && h == g + 1
      && order[g] <= maxCode
    ensures Counted(order, len[g := bits], maxCode, count, g, bits, n - 1)
  {
    hide Total;
    var l2 := len[g := bits];
    forall b: nat ensures Tail(order, l2, maxCode, b, g) == Tail(order, len, maxCode, b, h)
      + (if b == bits then 1 else 0) {
      TailAgree(order, len, l2, maxCode, b, h);
    }
  }

  lemma CountedSkip(order: seq<nat>, len: seq<nat>, maxCode: nat, count: seq<nat>, g: nat, h: nat, bits: nat, n: nat)
    requires |len| == |order| && Counted(order, len, maxCode, count, h, bits, n) && h == g + 1 && order[g] > maxCode
    ensures Counted(order, len, maxCode, count, g, bits, n)
  {
    hide Total;
    forall b: nat ensures Tail(order, len, maxCode, b, g) == Tail(order, len, maxCode, b, h) { }
  }

  lemma CountedNext(order: seq<nat>, len: seq<nat>, maxCode: nat, count: seq<nat>, h: nat, bits: nat)
    requires |len| == |order| && Counted(order, len, maxCode, count, h, bits, 0) && bits > 1
    ensures Counted(order, len, maxCode, count, h, bits - 1, count[bits - 1])
  {
    hide Tail;
  }

  lemma CountedEnd(order: seq<nat>, len: seq<nat>, maxCode: nat, count: seq<nat>, h: nat)
    requires |len| == |order| && Counted(order, len, maxCode, count, h, 1, 0) && count[0] == 0
    ensures forall b: nat :: 0 < b < |count| ==> LeavesOf(order, len, maxCode, b) == count[b]
    ensures Leaves(order, maxCode, h) == 0
  {
    forall b: nat | 0 < b < |count| ensures LeavesOf(order, len, maxCode, b) == count[b] {
      TailIsAll(order, len, maxCode, b, h);
      NoLeaves(order, len, maxCode, b, h);
    }
  }

  // Some leaf is still ahead.
  lemma LeafAhead(order: seq<nat>, len: seq<nat>, maxCode: nat, count: seq<nat>, h: nat, bits: nat, n: nat)
    requires |len| == |order| && Counted(order, len, maxCode, count, h, bits, n) && n > 0
    ensures h > 0
  {
  }

  // The lengths in place of the nodes' dads.
  ghost predicate Holds(order: seq<nat>, dl: seq<nat>, len: seq<nat>)
  {
    && |len| == |order|
    && (forall i :: 0 <= i < |order| ==> order[i] < |dl| && dl[order[i]] == len[i])
  }

  lemma SortedNext(order: seq<nat>, len: seq<nat>, maxCode: nat, g: nat, bits: nat, high: nat)
    requires |len| == |order| && g < |order| && bits <= high && Sorted(order, len, maxCode, g + 1, bits, high)
    ensures order[g] <= maxCode ==> Sorted(order, len[g := bits], maxCode, g, bits, high)
    ensures order[g] > maxCode ==> Sorted(order, len, maxCode, g, bits, high)
  {
  }

  // Give the lengths out again, longest first, scanning the leaves in increasing frequency.
  method Reassign(dl: array<nat>, freq: array<nat>, heap: array<nat>, heapMax: nat, maxCode: nat, d: StatDesc,
                  blCount: array<nat>, optLen0: int, ghost len0: seq<nat>)
    returns (optLen: int, ghost len: seq<nat>)
    requires heapMax < heap.Length && d.Covers(maxCode) && maxCode < freq.Length && blCount.Length == MAXBITS + 1
    requires heap != dl && freq != dl && blCount != dl
    requires Holds(heap[heapMax..], dl[..], len0)
    requires forall i, j :: heapMax <= i < j < heap.Length ==> heap[i] != heap[j]
    requires blCount[0] == 0 && (forall b :: d.maxLength < b <= MAXBITS ==> blCount[b] == 0)
    requires Leaves(heap[heapMax..], maxCode, heap.Length - heapMax) == Total(blCount[..], d.maxLength)
    modifies dl
    ensures Holds(heap[heapMax..], dl[..], len)
    ensures forall b: nat :: 0 < b <= MAXBITS ==> LeavesOf(heap[heapMax..], len, maxCode, b) == blCount[b]
    ensures Sorted(heap[heapMax..], len, maxCode, 0, 1, d.maxLength)
    ensures optLen - optLen0 ==
      Cost(heap[heapMax..], freq[..], len, maxCode, d) - Cost(heap[heapMax..], freq[..], len0, maxCode, d)
    ensures forall n :: 0 <= n < dl.Length && n !in heap[heapMax..] ==> dl[n] == old(dl[n])
  {
    hide Counted, Sorted, Cost, Leaves, Total, LeavesOf;
    ghost var order, count, fr := heap[heapMax..], blCount[..], freq[..];
    var h := heap.Length;
    optLen, len := optLen0, len0;
    CountedStart(order, len, maxCode, count, d.maxLength);
    var bits := d.maxLength;
    while true
      invariant 1 <= bits <= d.maxLength && heapMax <= h <= heap.Length && blCount[..] == count && freq[..] == fr
      invariant Holds(order, dl[..], len) && heap[heapMax..] == order
      invariant Counted(order, len, maxCode, count, h - heapMax, bits, count[bits])
      invariant Sorted(order, len, maxCode, h - heapMax, bits, d.maxLength)
      invariant optLen - optLen0 == Cost(order, fr, len, maxCode, d) - Cost(order, fr, len0, maxCode, d)
      invariant forall n :: 0 <= n < dl.Length && n !in order ==> dl[n] == old(dl[n])
      decreases bits
    {
      h, optLen, len := ReassignOne(dl, freq, heap, heapMax, maxCode, d, blCount, bits, h, optLen, len);
      if bits == 1 { break; }
      CountedNext(order, len, maxCode, count, h - heapMax, bits);
      SortedLower(order, len, maxCode, h - heapMax, bits, d.maxLength);
      bits := bits - 1;
    }
    CountedEnd(order, len, maxCode, count, h - heapMax);
    SortedAll(order, len, maxCode, h - heapMax, d.maxLength);
  }

  method ReassignOne(dl: array<nat>, freq: array<nat>, heap: array<nat>, heapMax: nat, maxCode: nat, d: StatDesc,
                     blCount: array<nat>, bits: nat, h0: nat, optLen0: int, ghost len0: seq<nat>)
    returns (h: nat, optLen: int, ghost len: seq<nat>)
    requires heapMax < heap.Length && d.Covers(maxCode) && maxCode < freq.Length && blCount.Length == MAXBITS + 1
    requires heap != dl && freq != dl && blCount != dl && 1 <= bits <= d.maxLength && heapMax <= h0 <= heap.Length
    requires Holds(heap[heapMax..], dl[..], len0)
    requires forall i, j :: heapMax <= i < j < heap.Length ==> heap[i] != heap[j]
    requires Counted(heap[heapMax..], len0, maxCode, blCount[..], h0 - heapMax, bits, blCount[bits])
    requires Sorted(heap[heapMax..], len0, maxCode, h0 - heapMax, bits, d.maxLength)
    modifies dl
    ensures heapMax <= h <= h0 && Holds(heap[heapMax..], dl[..], len)
    ensures Counted(heap[heapMax..], len, maxCode, blCount[..], h - heapMax, bits, 0)
    ensures Sorted(heap[heapMax..], len, maxCode, h - heapMax, bits, d.maxLength)
    ensures optLen - optLen0 ==
      Cost(heap[heapMax..], freq[..], len, maxCode, d) - Cost(heap[heapMax..], freq[..], len0, maxCode, d)
    ensures forall n :: 0 <= n < dl.Length && n !in heap[heapMax..] ==> dl[n] == old(dl[n])
  {
    hide Counted, Sorted, Cost;
    ghost var order, count, fr := heap[heapMax..], blCount[..], freq[..];
    h, optLen, len := h0, optLen0, len0;
    var n := blCount[bits];
    while n != 0
      invariant heapMax <= h <= h0 && blCount[..] == count && freq[..] == fr
      invariant Holds(order, dl[..], len) && heap[heapMax..] == order
      invariant Counted(order, len, maxCode, count, h - heapMax, bits, n)
      invariant Sorted(order, len, maxCode, h - heapMax, bits, d.maxLength)
      invariant optLen - optLen0 == Cost(order, fr, len, maxCode, d) - Cost(order, fr, len0, maxCode, d)
      invariant forall n :: 0 <= n < dl.Length && n !in order ==> dl[n] == old(dl[n])
      decreases h
    {
      LeafAhead(order, len, maxCode, count, h - heapMax, bits, n);
      h := h - 1;
      var m := heap[h];
      ghost var g := h - heapMax;
      assert m == order[g];
      SortedNext(order, len, maxCode, g, bits, d.maxLength);
      if m > maxCode {
        CountedSkip(order, len, maxCode, count, g, g + 1, bits, n);
        continue;
      }
      CountedLeaf(order, len, maxCode, count, g, g + 1, bits, n);
      CostChange(order, fr, len, maxCode, d, g, bits);
      if dl[m] != bits {
        optLen := optLen + (bits - dl[m]) * freq[m];
        dl[m] := bits;
      }
      len := len[g := bits];
      n := n - 1;
    }
  }

  lemma CountedStart(order: seq<nat>, len: seq<nat>, maxCode: nat, count: seq<nat>, maxLength: nat)
    requires |len| == |order| && 1 <= maxLength < |count| && (forall b :: maxLength < b < |count| ==> count[b] == 0)
    requires Leaves(order, maxCode, |order|) == Total(count, maxLength)
    ensures Counted(order, len, maxCode, count, |order|, maxLength, count[maxLength])
    ensures Sorted(order, len, maxCode, |order|, maxLength, maxLength)
  {
  }

  lemma SortedLower(order: seq<nat>, len: seq<nat>, maxCode: nat, h: nat, bits: nat, high: nat)
    requires |len| == |order| && Sorted(order, len, maxCode, h, bits, high) && bits > 0
    ensures Sorted(order, len, maxCode, h, bits - 1, high)
  {
  }

  lemma {:induction false} SortedAll(order: seq<nat>, len: seq<nat>, maxCode: nat, h: nat, high: nat)
    requires |len| == |order| && h <= |order| && Sorted(order, len, maxCode, h, 1, high)
      && Leaves(order, maxCode, h) == 0
    ensures Sorted(order, len, maxCode, 0, 1, high)
  {
    if h > 0 { SortedAll(order, len, maxCode, h - 1, high); }
  }

  // ---- who keeps the depth of its leaf ----

  // Depths of the nodes, cut to max_length, and how many leaves have each.
  function Cuts(fat: seq<nat>, maxLength: nat): (r: seq<nat>)
    ensures |r| == |fat|
  {
    seq(|fat|, i requires 0 <= i < |fat| => Cut(DepthAt(fat, i), maxLength))
  }

  function CutCounts(order: seq<nat>, fat: seq<nat>, maxCode: nat, maxLength: nat): (r: seq<nat>)
    requires |order| == |fat|
    ensures |r| == MAXBITS + 1
  {
    seq(MAXBITS + 1, b requires 0 <= b => LeavesOf(order, Cuts(fat, maxLength), maxCode, b))
  }

  // Leaves less deep than `first` have their depth as length.
  ghost predicate Keeps(order: seq<nat>, fat: seq<nat>, len: seq<nat>, maxCode: nat, first: nat)
    requires |len| == |order|
  {
    forall i: nat :: i < |order| && order[i] <= maxCode && DepthAt(fat, i) < first ==> len[i] == DepthAt(fat, i)
  }

  // Of two leaves on the list, the second less deep than `first`, the first is not deeper than the second.
  ghost predicate InOrder(order: seq<nat>, fat: seq<nat>, maxCode: nat, first: nat) {
    forall i: nat, j: nat ::
      i < j < |order| && order[i] <= maxCode && order[j] <= maxCode && DepthAt(fat, j) < first ==>
      DepthAt(fat, i) <= DepthAt(fat, j)
  }

  /** What the length limit changes: the counts go down from `first` on, the lengths are dealt out along the list, and
      leaves less deep than `first` keep their depth exactly when the list has them in order. */
  ghost predicate Shortened(order: seq<nat>, fat: seq<nat>, len: seq<nat>, maxCode: nat, count: seq<nat>,
                            maxLength: nat, first: nat)
  {
    && |len| == |order| == |fat| && Sorted(order, len, maxCode, 0, 1, maxLength)
    && Lowered(CutCounts(order, fat, maxCode, maxLength), count, first, maxLength)
    && (Keeps(order, fat, len, maxCode, first) <==> InOrder(order, fat, maxCode, first))
  }

  // Where two lists of lengths agree about length v, they have as many leaves of it.
  lemma {:induction false} AgreeOn(order: seq<nat>, a: seq<nat>, c: seq<nat>, maxCode: nat, v: nat, h: nat)
    requires |a| == |order| == |c| && h <= |order|
    requires forall i :: 0 <= i < h && order[i] <= maxCode && (a[i] == v || c[i] == v) ==> a[i] == c[i]
    ensures LeavesOf(order, a[..h], maxCode, v) == LeavesOf(order, c[..h], maxCode, v)
  {
    if h > 0 {
      assert a[..h][..h - 1] == a[..h - 1] && c[..h][..h - 1] == c[..h - 1];
      AgreeOn(order, a, c, maxCode, v, h - 1);
    }
  }

  lemma {:induction false} SomeLater(order: seq<nat>, len: seq<nat>, maxCode: nat, v: nat, h: nat) returns (j: nat)
    requires |len| == |order| && Tail(order, len, maxCode, v, h) > 0
    ensures h <= j < |order| && order[j] <= maxCode && len[j] == v
    decreases |order| - h
  {
    if order[h] <= maxCode && len[h] == v { j := h; } else { j := SomeLater(order, len, maxCode, v, h + 1); }
  }

  // The first place where a has a leaf of length v and c does not; later c has one that a has not matched.
  lemma LaterMatch(order: seq<nat>, a: seq<nat>, c: seq<nat>, maxCode: nat, v: nat, h: nat) returns (j: nat)
    requires |a| == |order| == |c| && h < |order| && order[h] <= maxCode && a[h] == v && c[h] != v
    requires forall i :: 0 <= i < h && order[i] <= maxCode && (a[i] == v || c[i] == v) ==> a[i] == c[i]
    requires LeavesOf(order, a, maxCode, v) == LeavesOf(order, c, maxCode, v)
    ensures h < j < |order| && order[j] <= maxCode && c[j] == v
  {
    hide LeavesOf;
    AgreeOn(order, a, c, maxCode, v, h);
    TailIsAll(order, a, maxCode, v, h);
    TailIsAll(order, c, maxCode, v, h);
    j := SomeLater(order, c, maxCode, v, h + 1);
  }

  // Lengths in order, as many of each below `first` as there are depths in order: they are the same leaves.
  lemma {:induction false} KeptTo(order: seq<nat>, fat: seq<nat>, len: seq<nat>, maxCode: nat, maxLength: nat,
                                  first: nat, h: nat)
    requires |len| == |order| == |fat| && h <= |order| && first <= maxLength
    requires Sorted(order, len, maxCode, 0, 1, maxLength) && InOrder(order, fat, maxCode, first)
    requires forall b: nat :: b < first ==>
      LeavesOf(order, len, maxCode, b) == LeavesOf(order, Cuts(fat, maxLength), maxCode, b)
    ensures forall i :: 0 <= i < h && order[i] <= maxCode && (len[i] < first || Cuts(fat, maxLength)[i] < first) ==>
      len[i] == Cuts(fat, maxLength)[i]
    decreases h
  {
    hide LeavesOf, DepthAt;
    if h > 0 {
      KeptTo(order, fat, len, maxCode, maxLength, first, h - 1);
      var c, i := Cuts(fat, maxLength), h - 1;
      if order[i] <= maxCode && len[i] != c[i] {
        if len[i] < c[i] && len[i] < first {
          var j := LaterMatch(order, len, c, maxCode, len[i], i);
          assert false;
        } else if c[i] < len[i] && c[i] < first {
          var j := LaterMatch(order, c, len, maxCode, c[i], i);
          assert false;
        }
      }
    }
  }

  // If every leaf of length v in c is one in a, and they have as many, they are the same.
  lemma {:induction false} NoOthers(order: seq<nat>, a: seq<nat>, c: seq<nat>, maxCode: nat, v: nat, h: nat)
    requires |a| == |order| == |c| && h <= |order|
    requires forall i :: 0 <= i < |order| && order[i] <= maxCode && c[i] == v ==> a[i] == v
    ensures LeavesOf(order, c[..h], maxCode, v) <= LeavesOf(order, a[..h], maxCode, v)
    ensures LeavesOf(order, c[..h], maxCode, v) == LeavesOf(order, a[..h], maxCode, v) ==>
      forall i :: 0 <= i < h && order[i] <= maxCode && a[i] == v ==> c[i] == v
    decreases h
  {
    if h > 0 {
      assert a[..h][..h - 1] == a[..h - 1] && c[..h][..h - 1] == c[..h - 1];
      NoOthers(order, a, c, maxCode, v, h - 1);
    }
  }

  lemma KeepsIsInOrder(order: seq<nat>, fat: seq<nat>, len: seq<nat>, maxCode: nat, maxLength: nat, first: nat)
    requires |len| == |order| == |fat| && first <= maxLength && Sorted(order, len, maxCode, 0, 1, maxLength)
    requires forall b: nat :: b < first ==>
      LeavesOf(order, len, maxCode, b) == LeavesOf(order, Cuts(fat, maxLength), maxCode, b)
    ensures Keeps(order, fat, len, maxCode, first) <==> InOrder(order, fat, maxCode, first)
  {
    hide LeavesOf, DepthAt;
    var c := Cuts(fat, maxLength);
    if InOrder(order, fat, maxCode, first) { KeptTo(order, fat, len, maxCode, maxLength, first, |order|); }
    if Keeps(order, fat, len, maxCode, first) {
      forall i: nat, j: nat | i < j < |order| && order[i] <= maxCode && order[j] <= maxCode && DepthAt(fat, j) < first
        ensures DepthAt(fat, i) <= DepthAt(fat, j)
      {
        var v := len[i];
        assert v <= len[j] == DepthAt(fat, j) < first;
        NoOthers(order, len, c, maxCode, v, |order|);
        assert len[..|order|] == len && c[..|order|] == c;
        assert c[i] == v;
      }
    }
  }

  // ---- the whole routine ----

  lemma {:induction false} NoLeafAtZero(order: seq<nat>, len: seq<nat>, maxCode: nat, maxLength: nat)
    requires |len| <= |order| && |order| > 0 && order[0] > maxCode && InRange(len, maxLength)
    ensures LeavesOf(order, len, maxCode, 0) == 0
  {
    if |len| > 0 { NoLeafAtZero(order, len[..|len| - 1], maxCode, maxLength); }
  }

  lemma {:induction false} NoLeafAbove(order: seq<nat>, len: seq<nat>, maxCode: nat, maxLength: nat, b: nat)
    requires |len| <= |order| && InRange(len, maxLength) && b > maxLength
    ensures LeavesOf(order, len, maxCode, b) == 0
  {
    if |len| > 0 { NoLeafAbove(order, len[..|len| - 1], maxCode, maxLength, b); }
  }

  // Leaves have lengths between 1 and max_length, counted in `count`, whose Kraft sum is one.
  ghost predicate Limited(order: seq<nat>, len: seq<nat>, maxCode: nat, count: seq<nat>, maxLength: nat)
  {
    && |len| == |order| && 0 < maxLength <= MAXBITS && |count| == MAXBITS + 1
    && (forall i :: 0 <= i < |order| && order[i] <= maxCode ==> 1 <= len[i] <= maxLength)
    && count[0] == 0 && (forall b: nat :: 0 < b <= MAXBITS ==> count[b] == LeavesOf(order, len, maxCode, b))
    && (forall b: nat :: maxLength < b <= MAXBITS ==> count[b] == 0)
    && Kraft(count, maxLength) == Pow2(maxLength)
  }

  lemma {:induction false} LeafPositive(order: seq<nat>, len: seq<nat>, maxCode: nat, maxLength: nat)
    requires |len| == |order| && Sorted(order, len, maxCode, 0, 1, maxLength)
    ensures LeavesOf(order, len, maxCode, 0) == 0
  {
    ZeroFree(order, len, maxCode, |order|);
    assert len[..|order|] == len;
  }

  lemma {:induction false} ZeroFree(order: seq<nat>, len: seq<nat>, maxCode: nat, h: nat)
    requires |len| == |order| && h <= |order| && forall i :: 0 <= i < |order| && order[i] <= maxCode ==> len[i] > 0
    ensures LeavesOf(order, len[..h], maxCode, 0) == 0
  {
    if h > 0 {
      assert len[..h][..h - 1] == len[..h - 1];
      ZeroFree(order, len, maxCode, h - 1);
    }
  }

  /** gen_bitlen. */
  method GenBitlen(dl: array<nat>, freq: array<nat>, heap: array<nat>, heapMax: nat, maxCode: nat, d: StatDesc,
                   blCount: array<nat>, optLen0: int, staticLen0: int, ghost fat: seq<nat>)
    returns (optLen: int, staticLen: int, ghost len: seq<nat>, ghost first: nat)
    requires heapMax < heap.Length && Listed(heap[heapMax..], dl[..], maxCode, fat)
    requires Leaves(heap[heapMax..], maxCode, heap.Length - heapMax) <= Pow2(d.maxLength)
    requires d.Covers(maxCode) && maxCode < freq.Length && blCount.Length == MAXBITS + 1
    requires heap != dl && heap != blCount && dl != blCount && freq != dl && freq != blCount
    modifies dl, blCount
    ensures Holds(heap[heapMax..], dl[..], len)
    ensures Limited(heap[heapMax..], len, maxCode, blCount[..], d.maxLength)
    ensures Total(blCount[..], d.maxLength) == Leaves(heap[heapMax..], maxCode, heap.Length - heapMax)
    ensures optLen == optLen0 + Cost(heap[heapMax..], freq[..], len, maxCode, d)
    ensures staticLen == staticLen0 + StaticCost(heap[heapMax..], freq[..], heap.Length - heapMax, maxCode, d)
    ensures forall n :: 0 <= n < dl.Length && n !in heap[heapMax..] ==> dl[n] == old(dl[n])
    // lengths within the limit are the depths of the leaves
    ensures (forall i: nat :: i < |len| ==> DepthAt(fat, i) <= d.maxLength) ==>
      forall i: nat :: i < |len| ==> len[i] == DepthAt(fat, i)
    // beyond the limit leaves move down, the deepest first
    ensures (exists i: nat :: i < |len| && DepthAt(fat, i) > d.maxLength) ==>
      Shortened(heap[heapMax..], fat, len, maxCode, blCount[..], d.maxLength, first)
  {
    hide Pass, Listed, Cost, StaticCost, Leaves, Kraft, Total, Pow2, Limited, LeavesOf, Lowered, Sorted, Keeps, InOrder,
         Shortened, CutCounts;
    first := 0;
    ghost var order, dad := heap[heapMax..], dl[..];
    ListedDistinct(heap[heapMax..], dl[..], maxCode, fat, heap[..], heapMax);
    var overflow;
    ghost var cuts;
    overflow, optLen, staticLen, len, cuts :=
      FirstPass(dl, freq, heap, heapMax, maxCode, d, blCount, optLen0, staticLen0, fat);
    PassEnd(order, fat, freq[..], dad, maxCode, d, dl[..], len, blCount[..], overflow, cuts, optLen - optLen0,
            staticLen - staticLen0);
    if overflow == 0 { return; }
    ghost var count := blCount[..];
    first := Spread(blCount, d.maxLength, overflow);
    AboveSame(count, blCount[..], first, d.maxLength);
    optLen, len := Reassign(dl, freq, heap, heapMax, maxCode, d, blCount, optLen, len);
    LimitedAfter(order, len, maxCode, blCount[..], d.maxLength);
    ShortenedAfter(order, fat, len, maxCode, count, blCount[..], d.maxLength, first);
  }

  lemma AboveSame(before: seq<nat>, after: seq<nat>, first: nat, l: nat)
    requires Lowered(before, after, first, l)
    ensures forall b :: l < b < |after| ==> after[b] == before[b]
  {
  }

  lemma ShortenedAfter(order: seq<nat>, fat: seq<nat>, len: seq<nat>, maxCode: nat, before: seq<nat>, count: seq<nat>,
                       maxLength: nat, first: nat)
    requires |len| == |order| == |fat| && Sorted(order, len, maxCode, 0, 1, maxLength)
    requires before == CutCounts(order, fat, maxCode, maxLength) && Lowered(before, count, first, maxLength)
    requires maxLength <= MAXBITS && before[0] == 0
      && forall b: nat :: 0 < b <= MAXBITS ==> LeavesOf(order, len, maxCode, b) == count[b]
    ensures Shortened(order, fat, len, maxCode, count, maxLength, first)
  {
    hide LeavesOf, Keeps, InOrder, Sparse, Cuts;
    LeafPositive(order, len, maxCode, maxLength);
    forall b: nat | b < first
      ensures LeavesOf(order, len, maxCode, b) == LeavesOf(order, Cuts(fat, maxLength), maxCode, b) {
      assert count[b] == before[b];
    }
    KeepsIsInOrder(order, fat, len, maxCode, maxLength, first);
  }

  lemma ListedDistinct(order: seq<nat>, dad: seq<nat>, maxCode: nat, fat: seq<nat>, heap: seq<nat>, heapMax: nat)
    requires heapMax <= |heap| && order == heap[heapMax..] && Listed(order, dad, maxCode, fat)
    ensures forall i, j :: heapMax <= i < j < |heap| ==> heap[i] != heap[j]
  {
    forall i, j | heapMax <= i < j < |heap| ensures heap[i] != heap[j] {
      assert order[i - heapMax] != order[j - heapMax];
    }
  }

  lemma LimitedAfter(order: seq<nat>, len: seq<nat>, maxCode: nat, count: seq<nat>, maxLength: nat)
    requires |len| == |order| && 0 < maxLength <= MAXBITS && |count| == MAXBITS + 1 && count[0] == 0
    requires forall b: nat :: 0 < b <= MAXBITS ==> LeavesOf(order, len, maxCode, b) == count[b]
    requires Sorted(order, len, maxCode, 0, 1, maxLength)
    requires forall i: nat :: maxLength < i < |count| ==> count[i] == 0
    requires Kraft(count, maxLength) == Pow2(maxLength)
    ensures Limited(order, len, maxCode, count, maxLength)
  {
    hide LeavesOf, Kraft;
  }

  // What the first pass has established when it ends.
  lemma PassEnd(order: seq<nat>, fat: seq<nat>, freq: seq<nat>, dad: seq<nat>, maxCode: nat, d: StatDesc,
                dl: seq<nat>, len: seq<nat>, count: seq<nat>, overflow: nat, cuts: nat, opt: int, stat: int)
    requires maxCode < |freq| && d.Covers(maxCode) && Listed(order, dad, maxCode, fat) && |len| == |order|
    requires Pass(order, fat, freq, dad, maxCode, d, dl, len, count, overflow, cuts, opt, stat)
    ensures Holds(order, dl, len) && forall n :: 0 <= n < |dl| && n !in order ==> dl[n] == dad[n]
    ensures opt == Cost(order, freq, len, maxCode, d) && stat == StaticCost(order, freq, |order|, maxCode, d)
    ensures |count| == MAXBITS + 1 && count[0] == 0 && forall b: nat :: d.maxLength < b <= MAXBITS ==> count[b] == 0
    ensures Total(count, d.maxLength) == Leaves(order, maxCode, |order|)
    // twice the excess of the Kraft sum were cut, and enough leaves are at max_length to undo it
    ensures overflow == 2 * cuts && Kraft(count, d.maxLength) == Pow2(d.maxLength) + cuts && count[d.maxLength] >= cuts
    ensures overflow == 0 ==> Limited(order, len, maxCode, count, d.maxLength)
    ensures Deep(fat, len, d.maxLength, overflow) && |fat| == |order|
      && count == CutCounts(order, fat, maxCode, d.maxLength)
  {
    hide Deep, Kraft, Total, Pow2, Cost, StaticCost, Leaves, LeavesOf, Balance, Sons;
    BalanceEnd(fat, len, count, overflow, cuts, d.maxLength);
    NoLeafAtZero(order, len, maxCode, d.maxLength);
    forall b: nat | d.maxLength < b <= MAXBITS ensures count[b] == 0 {
      NoLeafAbove(order, len, maxCode, d.maxLength, b);
    }
    DeepCuts(fat, len, d.maxLength, overflow);
  }

  lemma DeepCuts(fat: seq<nat>, len: seq<nat>, maxLength: nat, overflow: nat)
    requires Deep(fat, len, maxLength, overflow) && |len| == |fat|
    ensures len == Cuts(fat, maxLength)
  {
  }

  // ---- lengths by symbol ----

  lemma {:induction false} CountUpdate(lens: seq<nat>, s: nat, v: nat, n: nat, b: nat)
    requires s < |lens| && n <= |lens|
    ensures CountTo(lens[s := v], n, b) + (if s < n && lens[s] == b then 1 else 0)
         == CountTo(lens, n, b) + (if s < n && v == b then 1 else 0)
  {
    if n > 0 { CountUpdate(lens, s, v, n - 1, b); }
  }

  // Lengths of the symbols among the first k nodes; the others are zero.
  function SymbolLens(order: seq<nat>, len: seq<nat>, maxCode: nat): (lens: seq<nat>)
    requires |len| <= |order|
    ensures |lens| == maxCode + 1
  {
    if |len| == 0 then seq(maxCode + 1, _ => 0) else
    var k := |len| - 1;
    var lens := SymbolLens(order, len[..k], maxCode);
    if order[k] <= maxCode then lens[order[k] := len[k]] else lens
  }

  lemma {:induction false} ZeroCount(n: nat, k: nat, b: nat)
    requires b > 0 && k <= n
    ensures CountTo(seq(n, _ => 0), k, b) == 0
  {
    if k > 0 { ZeroCount(n, k - 1, b); }
  }

  lemma {:induction false} SymbolLensAt(order: seq<nat>, len: seq<nat>, maxCode: nat, s: nat)
    requires |len| <= |order| && s <= maxCode && forall i, j :: 0 <= i < j < |order| ==> order[i] != order[j]
    ensures (exists i :: 0 <= i < |len| && order[i] == s && SymbolLens(order, len, maxCode)[s] == len[i])
         || ((forall i :: 0 <= i < |len| ==> order[i] != s) && SymbolLens(order, len, maxCode)[s] == 0)
    decreases |len|
  {
    if |len| > 0 {
      var k := |len| - 1;
      SymbolLensAt(order, len[..k], maxCode, s);
      if order[k] == s { assert SymbolLens(order, len, maxCode)[s] == len[k]; }
      else if exists i :: 0 <= i < k && order[i] == s && SymbolLens(order, len[..k], maxCode)[s] == len[..k][i] {
        var i :| 0 <= i < k && order[i] == s && SymbolLens(order, len[..k], maxCode)[s] == len[..k][i];
        assert SymbolLens(order, len, maxCode)[s] == len[i];
      }
    }
  }

  lemma {:induction false} SymbolCount(order: seq<nat>, len: seq<nat>, maxCode: nat, b: nat)
    requires |len| <= |order| && b > 0 && forall i, j :: 0 <= i < j < |order| ==> order[i] != order[j]
    ensures Count(SymbolLens(order, len, maxCode), b) == LeavesOf(order, len, maxCode, b)
    decreases |len|
  {
    hide CountTo;
    if |len| == 0 {
      ZeroCount(maxCode + 1, maxCode + 1, b);
    } else {
      var k := |len| - 1;
      SymbolCount(order, len[..k], maxCode, b);
      if order[k] <= maxCode {
        SymbolLensAt(order, len[..k], maxCode, order[k]);
        CountUpdate(SymbolLens(order, len[..k], maxCode), order[k], len[k], maxCode + 1, b);
      }
    }
  }

  lemma {:induction false} AllOfLength(order: seq<nat>, len: seq<nat>, maxCode: nat, b: nat)
    requires |len| <= |order|
    ensures LeavesOf(order, len, maxCode, b) <= Leaves(order, maxCode, |len|)
    ensures LeavesOf(order, len, maxCode, b) == Leaves(order, maxCode, |len|) ==>
      forall i :: 0 <= i < |len| && order[i] <= maxCode ==> len[i] == b
    decreases |len|
  {
    if |len| > 0 { AllOfLength(order, len[..|len| - 1], maxCode, b); }
  }

  // There are no more leaves than symbols.
  lemma LeavesBound(order: seq<nat>, maxCode: nat)
    requires forall i, j :: 0 <= i < j < |order| ==> order[i] != order[j]
    ensures Leaves(order, maxCode, |order|) <= maxCode + 1
  {
    var ones := seq(|order|, _ => 1);
    SymbolCount(order, ones, maxCode, 1);
    OnesLeaves(order, maxCode, |order|);
    assert ones[..|order|] == ones;
  }

  lemma {:induction false} OnesLeaves(order: seq<nat>, maxCode: nat, h: nat)
    requires h <= |order|
    ensures LeavesOf(order, seq(|order|, _ => 1)[..h], maxCode, 1) == Leaves(order, maxCode, h)
  {
    var ones := seq(|order|, _ => 1);
    if h > 0 {
      OnesLeaves(order, maxCode, h - 1);
      assert ones[..h][..h - 1] == ones[..h - 1];
    }
  }

  /** The code lengths of the symbols form a complete code. */
  lemma LimitedComplete(order: seq<nat>, dl: seq<nat>, len: seq<nat>, maxCode: nat, count: seq<nat>, maxLength: nat)
    requires Limited(order, len, maxCode, count, maxLength) && Holds(order, dl, len) && maxCode < |dl|
    requires forall i, j :: 0 <= i < j < |order| ==> order[i] != order[j]
    requires forall s :: 0 <= s <= maxCode && s !in order ==> dl[s] == 0
    ensures Complete(dl[..maxCode + 1]) && ValidLens(dl[..maxCode + 1])
    ensures forall b: nat :: 0 < b <= MAXBITS ==> count[b] == Count(dl[..maxCode + 1], b)
    ensures forall s :: 0 <= s <= maxCode ==> (dl[s] > 0 <==> s in order) && dl[s] <= maxLength
  {
    hide Kraft, CountTo, LeavesOf, Complete;
    var lens := dl[..maxCode + 1];
    forall s | 0 <= s <= maxCode ensures lens[s] == SymbolLens(order, len, maxCode)[s] {
      SymbolLensAt(order, len, maxCode, s);
    }
    assert lens == SymbolLens(order, len, maxCode);
    forall b: nat | 0 < b <= MAXBITS ensures count[b] == Count(lens, b) { SymbolCount(order, len, maxCode, b); }
    KraftComplete(lens, count, maxLength);
  }
}
