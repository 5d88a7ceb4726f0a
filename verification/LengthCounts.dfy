/** How many leaves of a Huffman tree have each code length, and the overflow loop of gen_bitlen in
    deps/zlib/trees.c that brings these numbers back to a complete code. */
module LengthCounts {
  import opened Bits
  import opened Canon

  // The sum of count[b] * 2^(l-b) over b <= l.
  function Kraft(count: seq<nat>, l: nat): nat
    requires l < |count|
  {
    if l == 0 then count[0] else 2 * Kraft(count, l - 1) + count[l]
  }

  // The number of leaves of length at most l.
  function Total(count: seq<nat>, l: nat): nat
    requires l < |count|
  {
    if l == 0 then count[0] else Total(count, l - 1) + count[l]
  }

  lemma {:induction false} Agree(a: seq<nat>, b: seq<nat>, l: nat)
    requires l < |a| && l < |b| && forall i :: 0 <= i <= l ==> a[i] == b[i]
    ensures Kraft(a, l) == Kraft(b, l) && Total(a, l) == Total(b, l)
  {
    if l > 0 { Agree(a, b, l - 1); }
  }

  // One more leaf of length b.
  lemma {:induction false} OneMore(count: seq<nat>, b: nat, l: nat)
    requires b <= l < |count|
    ensures Kraft(count[b := count[b] + 1], l) == Kraft(count, l) + Pow2(l - b)
    ensures Total(count[b := count[b] + 1], l) == Total(count, l) + 1
    decreases l
  {
    var more := count[b := count[b] + 1];
    if b == l {
      if l > 0 { Agree(more, count, l - 1); }
    } else {
      OneMore(count, b, l - 1);
    }
  }

  lemma OneLess(count: seq<nat>, b: nat, l: nat)
    requires b <= l < |count| && count[b] > 0
    ensures Kraft(count, l) == Kraft(count[b := count[b] - 1], l) + Pow2(l - b)
    ensures Total(count, l) == Total(count[b := count[b] - 1], l) + 1
  {
    var less := count[b := count[b] - 1];
    OneMore(less, b, l);
    assert less[b := less[b] + 1] == count;
  }

  lemma {:induction false} AllZero(count: seq<nat>, l: nat)
    requires l < |count| && forall i :: 0 <= i <= l ==> count[i] == 0
    ensures Kraft(count, l) == 0 == Total(count, l)
  {
    if l > 0 { AllZero(count, l - 1); }
  }

  // Over-full lengths of no more than 2^l leaves cannot all be l.
  lemma SomeShorter(count: seq<nat>, l: nat)
    requires 0 < l < |count| && Kraft(count, l) > Pow2(l) >= Total(count, l)
    ensures exists b :: 0 <= b < l && count[b] > 0
  {
    if forall b :: 0 <= b < l ==> count[b] == 0 { AllZero(count, l - 1); }
  }

  // A leaf of length b becomes the father of two leaves, one of them taken from length l.
  function MoveDown(count: seq<nat>, b: nat, l: nat): (r: seq<nat>)
    requires b < l < |count| && count[b] > 0 && count[l] > 0
    ensures |r| == |count|
  {
    var c1 := count[b := count[b] - 1];
    var c2 := c1[b + 1 := c1[b + 1] + 2];
    c2[l := c2[l] - 1]
  }

  // It takes one unit of excess away and keeps the number of leaves.
  lemma MoveDownFacts(count: seq<nat>, b: nat, l: nat)
    requires b < l < |count| && count[b] > 0 && count[l] > 0
    ensures Kraft(MoveDown(count, b, l), l) == Kraft(count, l) - 1
    ensures Total(MoveDown(count, b, l), l) == Total(count, l)
  {
    assert Pow2(l - b) == 2 * Pow2(l - (b + 1)) && Pow2(l - l) == 1;
    hide Kraft, Total, Pow2;
    var c1 := count[b := count[b] - 1];
    var c2 := c1[b + 1 := c1[b + 1] + 2];
    OneLess(count, b, l);
    TwoMore(c1, b + 1, l);
    OneLess(c2, l, l);
  }

  lemma TwoMore(count: seq<nat>, b: nat, l: nat)
    requires b <= l < |count|
    ensures Kraft(count[b := count[b] + 2], l) == Kraft(count, l) + 2 * Pow2(l - b)
    ensures Total(count[b := count[b] + 2], l) == Total(count, l) + 2
  {
    hide Kraft, Total, Pow2;
    var more := count[b := count[b] + 1];
    OneMore(count, b, l);
    OneMore(more, b, l);
    assert more[b := more[b] + 1] == count[b := count[b] + 2];
  }

  // Between `first` and l every length has at most two leaves, and two only if no longer one below l has any.
  ghost predicate Sparse(count: seq<nat>, first: nat, l: nat)
    requires l < |count|
  {
    forall b :: first < b < l ==> count[b] <= 2 && (count[b] == 2 ==> forall i :: b < i < l ==> count[i] == 0)
  }

  /** Leaves were moved down from `first` on, always from the greatest length below l that had any: shorter lengths
      keep theirs, `first` loses some, and what lies between was emptied and refilled from above. */
  ghost predicate Lowered(before: seq<nat>, after: seq<nat>, first: nat, l: nat) {
    && |before| == |after| > l && 1 <= first < l
    && (forall b :: 0 <= b < first ==> after[b] == before[b])
    && after[first] < before[first] && Sparse(after, first, l)
    && (forall b :: l < b < |after| ==> after[b] == before[b])
  }

  // A leaf of the greatest length below l that has any.
  ghost predicate Deepest(count: seq<nat>, b: nat, l: nat) {
    b < l < |count| && count[b] > 0 && forall i :: b < i < l ==> count[i] == 0
  }

  lemma LoweredFirst(before: seq<nat>, b: nat, l: nat)
    requires Deepest(before, b, l) && 1 <= b && before[l] > 0
    ensures Lowered(before, MoveDown(before, b, l), b, l)
  {
  }

  lemma LoweredNext(before: seq<nat>, count: seq<nat>, first: nat, b: nat, l: nat)
    requires Lowered(before, count, first, l) && Deepest(count, b, l) && 1 <= b && count[l] > 0
    ensures Lowered(before, MoveDown(count, b, l), if b < first then b else first, l)
  {
  }

  /** The do-while loop of gen_bitlen: `overflow` nodes had their length cut to max_length, which is
      twice the excess of the Kraft sum. */
  method Spread(blCount: array<nat>, maxLength: nat, overflow: nat) returns (ghost first: nat)
    requires 0 < maxLength < blCount.Length && blCount[0] == 0 && overflow > 0 && overflow % 2 == 0
    requires Kraft(blCount[..], maxLength) == Pow2(maxLength) + overflow / 2
    requires Total(blCount[..], maxLength) <= Pow2(maxLength) && blCount[maxLength] >= overflow / 2
    modifies blCount
    ensures Kraft(blCount[..], maxLength) == Pow2(maxLength)
    ensures Total(blCount[..], maxLength) == Total(old(blCount[..]), maxLength)
    ensures Lowered(old(blCount[..]), blCount[..], first, maxLength) && blCount[0] == 0
  {
    hide Kraft, Total, Pow2, Lowered, MoveDown;
    var over: int := overflow;
    ghost var before: seq<nat> := blCount[..];
    first := 0;
    while over > 0
      invariant over >= 0 && over % 2 == 0 && blCount[0] == 0 && blCount[maxLength] >= over / 2
      invariant Kraft(blCount[..], maxLength) == Pow2(maxLength) + over / 2
      invariant Total(blCount[..], maxLength) == Total(before, maxLength)
      invariant if over == overflow then blCount[..] == before else Lowered(before, blCount[..], first, maxLength)
    {
      ghost var count: seq<nat> := blCount[..];
      var bits := MoveLeaf(blCount, maxLength);
      MoveDownFacts(count, bits, maxLength);
      if over == overflow {
        LoweredFirst(before, bits, maxLength);
        first := bits;
      } else {
        LoweredNext(before, count, first, bits, maxLength);
        first := if bits < first then bits else first;
      }
      over := over - 2;
    }
  }

  // One round: the leaf moved down is one of the greatest length below max_length.
  method MoveLeaf(blCount: array<nat>, maxLength: nat) returns (bits: nat)
    requires 0 < maxLength < blCount.Length && blCount[0] == 0 && blCount[maxLength] > 0
    requires Kraft(blCount[..], maxLength) > Pow2(maxLength) >= Total(blCount[..], maxLength)
    modifies blCount
    ensures Deepest(old(blCount[..]), bits, maxLength) && bits >= 1
    ensures blCount[..] == MoveDown(old(blCount[..]), bits, maxLength) && blCount[0] == 0
    ensures blCount[maxLength] >= old(blCount[maxLength]) - 1
  {
    hide Kraft, Total, Pow2;
    bits := maxLength - 1;
    ghost var count := blCount[..];
    SomeShorter(count, maxLength);
    ghost var b0 :| 0 <= b0 < maxLength && count[b0] > 0;
    assert b0 >= 1;
    while blCount[bits] == 0
      invariant 1 <= b0 <= bits < maxLength && forall i :: bits < i < maxLength ==> blCount[i] == 0
      decreases bits
    {
      bits := bits - 1;
    }
    blCount[bits] := blCount[bits] - 1;
    blCount[bits + 1] := blCount[bits + 1] + 2;
    blCount[maxLength] := blCount[maxLength] - 1;
    assert blCount[..] == MoveDown(count, bits, maxLength);
  }

  // ---- the counts that result are determined ----

  // How much of the Kraft sum the leaves of lengths b to l-1 take beyond what as many leaves of length l would.
  function Room(count: seq<nat>, b: nat, l: nat): nat
    requires l <= |count|
    decreases l - b
  {
    if b >= l then 0 else count[b] * (Pow2(l - b) - 1) + Room(count, b + 1, l)
  }

  lemma Times(a: nat, w: nat)
    ensures (a + 1) * w == a * w + w
  {
  }

  lemma {:induction false} RoomLess(count: seq<nat>, b: nat, l: nat, j: nat)
    requires b < l <= |count| && count[b] > 0
    ensures Room(count, j, l) ==
      Room(count[b := count[b] - 1], j, l) + if j <= b then Pow2(l - b) - 1 else 0
    decreases l - j
  {
    hide Pow2;
    if j < l {
      RoomLess(count, b, l, j + 1);
      if j == b { Times(count[b] - 1, Pow2(l - b) - 1); }
    }
  }

  lemma {:induction false} RoomZero(count: seq<nat>, l: nat, j: nat)
    requires l <= |count| && forall i :: j <= i < l ==> count[i] == 0
    ensures Room(count, j, l) == 0
    decreases l - j
  {
    if j < l { RoomZero(count, l, j + 1); }
  }

  // The Kraft sum is the number of leaves and the room they take.
  lemma {:induction false} KraftIsRoom(count: seq<nat>, l: nat)
    requires l < |count|
    ensures Kraft(count, l) == Total(count, l) + Room(count, 0, l)
    decreases Total(count, l)
  {
    hide Kraft, Total, Room, Pow2;
    if forall i :: 0 <= i <= l ==> count[i] == 0 {
      AllZero(count, l);
      RoomZero(count, l, 0);
    } else {
      var b :| 0 <= b <= l && count[b] > 0;
      OneLess(count, b, l);
      KraftIsRoom(count[b := count[b] - 1], l);
      if b < l {
        RoomLess(count, b, l, 0);
      } else {
        RoomSame(count, count[b := count[b] - 1], 0, l);
        LastPower();
      }
    }
  }

  lemma LastPower()
    ensures Pow2(0) == 1
  {
  }

  lemma {:induction false} RoomSame(a: seq<nat>, b: seq<nat>, j: nat, l: nat)
    requires l <= |a| && l <= |b| && forall i :: j <= i < l ==> a[i] == b[i]
    ensures Room(a, j, l) == Room(b, j, l)
    decreases l - j
  {
    if j < l { RoomSame(a, b, j + 1, l); }
  }

  // Sparse lengths take less room than one more leaf of the length before them.
  lemma {:induction false} SparseRoom(count: seq<nat>, b: nat, l: nat)
    requires b < l < |count| && Sparse(count, b, l)
    ensures Room(count, b + 1, l) + 1 < Pow2(l - b)
    decreases l - b
  {
    var n := Pow2(l - b);
    assert n == 2 * Pow2(l - b - 1);
    if b + 1 == l {
      assert Pow2(1) == 2 * Pow2(0) && Pow2(0) == 1;
    } else {
      hide Pow2;
      if count[b + 1] == 2 {
        RoomZero(count, l, b + 2);
      } else {
        SparseRoom(count, b + 1, l);
      }
    }
  }

  lemma Digit(x: nat, y: nat, w: nat, r: nat, s: nat)
    requires r < w && s < w && x * w + r == y * w + s
    ensures x == y && r == s
  {
    if x < y { TimesMono(x + 1, y, w); Times(x, w); }
    if y < x { TimesMono(y + 1, x, w); Times(y, w); }
  }

  lemma TimesMono(x: nat, y: nat, w: nat)
    requires x <= y
    ensures x * w <= y * w
  {
  }

  lemma {:induction false} SparseUnique(a: seq<nat>, c: seq<nat>, b: nat, l: nat)
    requires b < l < |a| && l < |c| && Sparse(a, b, l) && Sparse(c, b, l) && Room(a, b + 1, l) == Room(c, b + 1, l)
    ensures forall i :: b < i < l ==> a[i] == c[i]
    decreases l - b
  {
    hide Pow2;
    if b + 1 < l {
      SparseRoom(a, b + 1, l);
      SparseRoom(c, b + 1, l);
      Digit(a[b + 1], c[b + 1], Pow2(l - b - 1) - 1, Room(a, b + 2, l), Room(c, b + 2, l));
      SparseUnique(a, c, b + 1, l);
    }
  }

  lemma {:induction false} RoomBefore(a: seq<nat>, c: seq<nat>, j: nat, b: nat, l: nat)
    requires j <= b <= l && l <= |a| && l <= |c| && (forall i :: j <= i < b ==> a[i] == c[i])
    requires Room(a, j, l) == Room(c, j, l)
    ensures Room(a, b, l) == Room(c, b, l)
    decreases b - j
  {
    hide Pow2;
    if j < b { RoomBefore(a, c, j + 1, b, l); }
  }

  // Which length is the first to lose leaves is determined.
  lemma FirstUnique(before: seq<nat>, a: seq<nat>, f: nat, c: seq<nat>, g: nat, l: nat)
    requires Lowered(before, a, f, l) && Lowered(before, c, g, l) && Room(a, 0, l) == Room(c, 0, l)
    ensures f >= g
  {
    if f < g {
      RoomBefore(a, c, 0, f, l);
      SparseRoom(a, f, l);
      var w := Pow2(l - f) - 1;
      Times(a[f], w);
      TimesMono(a[f] + 1, c[f], w);
    }
  }

  /** Counts of the same Kraft sum and the same number of leaves that come from the same ones in this way are equal. */
  lemma LoweredUnique(before: seq<nat>, a: seq<nat>, f: nat, c: seq<nat>, g: nat, l: nat)
    requires Lowered(before, a, f, l) && Lowered(before, c, g, l)
    requires Kraft(a, l) == Kraft(c, l) && Total(a, l) == Total(c, l)
    ensures f == g && a == c
  {
    hide Kraft, Pow2, Total;
    KraftIsRoom(a, l);
    KraftIsRoom(c, l);
    FirstUnique(before, a, f, c, g, l);
    FirstUnique(before, c, g, a, f, l);
    RoomBefore(a, c, 0, f, l);
    SparseRoom(a, f, l);
    SparseRoom(c, f, l);
    Digit(a[f], c[f], Pow2(l - f) - 1, Room(a, f + 1, l), Room(c, f + 1, l));
    SparseUnique(a, c, f, l);
    TotalLast(a, c, l);
    forall i: nat | i < |a| ensures a[i] == c[i] { }
  }

  lemma TotalLast(a: seq<nat>, c: seq<nat>, l: nat)
    requires 0 < l < |a| && l < |c| && (forall i :: 0 <= i < l ==> a[i] == c[i]) && Total(a, l) == Total(c, l)
    ensures a[l] == c[l]
  {
    Agree(a, c, l - 1);
  }

  // ---- completeness in the sense of RFC 1951 ----

  lemma {:induction false} BaseIsKraft(lens: seq<nat>, count: seq<nat>, l: nat)
    requires l <= MAXBITS < |count| && count[0] == 0 && forall b :: 1 <= b <= MAXBITS ==> count[b] == Count(lens, b)
    ensures Base(lens, l + 1) == Shl(Kraft(count, l), MAXBITS - l)
  {
    hide CountTo;
    if l == 0 {
      ShlZero(MAXBITS);
    } else {
      BaseIsKraft(lens, count, l - 1);
      ShlShl(Kraft(count, l - 1), 1, MAXBITS - l);
      assert Shl(Kraft(count, l - 1), 1) == 2 * Kraft(count, l - 1);
      ShlAdd(2 * Kraft(count, l - 1), count[l], MAXBITS - l);
    }
  }

  lemma {:induction false} KraftAbove(count: seq<nat>, l: nat, k: nat)
    requires l <= k < |count| && forall i :: l < i <= k ==> count[i] == 0
    ensures Kraft(count, k) == Shl(Kraft(count, l), k - l)
    decreases k - l
  {
    if l < k { KraftAbove(count, l, k - 1); }
  }

  // A Kraft sum of exactly one makes the code complete.
  lemma KraftComplete(lens: seq<nat>, count: seq<nat>, maxLength: nat)
    requires maxLength <= MAXBITS < |count| && count[0] == 0
    requires forall b :: 1 <= b <= MAXBITS ==> count[b] == Count(lens, b)
    requires forall i :: maxLength < i <= MAXBITS ==> count[i] == 0
    requires Kraft(count, maxLength) == Pow2(maxLength)
    ensures Complete(lens)
  {
    hide CountTo, Kraft, Base;
    KraftAbove(count, maxLength, MAXBITS);
    BaseIsKraft(lens, count, MAXBITS);
    ShlPow2(maxLength, MAXBITS - maxLength);
    assert Shl(Kraft(count, MAXBITS), 0) == Kraft(count, MAXBITS);
  }

  // Two leaves with a Kraft sum of one both have length one.
  lemma {:induction false} TwoLeaves(count: seq<nat>, l: nat)
    requires 0 < l < |count| && count[0] == 0 && Total(count, l) <= 2
    ensures Total(count, l) == 0 ==> Kraft(count, l) == 0
    ensures Total(count, l) == 1 ==> Kraft(count, l) <= Pow2(l - 1)
    ensures Total(count, l) == 2 ==> Kraft(count, l) <= Pow2(l)
    ensures Total(count, l) == 2 && Kraft(count, l) == Pow2(l) ==> count[1] == 2
  {
    if l == 1 {
      assert Kraft(count, 0) == 0 == Total(count, 0) && Pow2(1) == 2 && Pow2(0) == 1;
    } else {
      TwoLeaves(count, l - 1);
      Pow2Mono(1, l - 1);
      assert Pow2(1) == 2;
    }
  }
}
