/** Equal frequencies and the length limit of gen_bitlen: a list as build_tree makes it on which symbols that need not
    change exchange their lengths. */
module LimitTies {
  import opened Bits
  import opened Canon
  import opened LengthCounts
  import opened BitLengths

  // The nodes build_tree lists for the frequencies 1, 1, 3, 4, 4, 4, 1, 4 of eight symbols, their frequencies, the
  // fathers of all nodes, and the positions of the fathers on the list.
  const ORDER: seq<nat> := [14, 13, 11, 12, 10, 3, 7, 4, 5, 9, 2, 8, 1, 6, 0]
  const FREQS: seq<nat> := [22, 14, 8, 8, 6, 4, 4, 4, 4, 3, 3, 2, 1, 1, 1]
  const DADS: seq<nat> := [8, 9, 10, 12, 11, 11, 8, 12, 9, 10, 13, 14, 13, 14, 0]
  const FAT: seq<nat> := [0, 0, 0, 1, 1, 3, 3, 2, 2, 4, 4, 9, 9, 11, 11]

  lemma SonsOf(i: nat)
    requires i < 15
    ensures Sons(FAT, i, i + 1) == if ORDER[i] <= 7 then 0 else 2
  {
  }

  // Where each node stands on the list.
  const PLACE: seq<nat> := [14, 12, 10, 5, 7, 8, 13, 6, 11, 9, 4, 2, 3, 1, 0]

  lemma Placed(i: nat)
    requires i < 15
    ensures ORDER[i] < 15 && PLACE[ORDER[i]] == i
  {
  }

  lemma Distinct(i: nat, j: nat)
    requires i < j < 15
    ensures ORDER[i] != ORDER[j]
  {
    hide *;
    Placed(i);
    Placed(j);
  }

  lemma FatherOf(j: nat)
    requires 0 < j < 15
    ensures FAT[j] < j && ORDER[FAT[j]] == DADS[ORDER[j]]
  {
  }

  lemma Lengths()
    ensures |ORDER| == |FREQS| == |DADS| == |FAT| == 15 && ORDER[0] > 7
  {
  }

  lemma Tied()
    ensures Listed(ORDER, DADS, 7, FAT)
  {
    hide ORDER, FAT, DADS, Sons;
    Lengths();
    forall i: nat | i < |ORDER| ensures ORDER[i] < |DADS| && Sons(FAT, i, i + 1) == if ORDER[i] <= 7 then 0 else 2 {
      Placed(i);
      SonsOf(i);
    }
    forall i, j | 0 <= i < j < |ORDER| ensures ORDER[i] != ORDER[j] { Distinct(i, j); }
    forall j | 0 < j < |ORDER| ensures FAT[j] < j && ORDER[FAT[j]] == DADS[ORDER[j]] { FatherOf(j); }
  }

  lemma TwoDepths()
    ensures DepthAt(FAT, 7) == 2 && DepthAt(FAT, 5) == 3 && ORDER[5] == 3 && ORDER[7] == 4
  {
  }

  lemma Frequencies(i: nat)
    requires 0 < i < 15
    ensures FREQS[i] <= FREQS[i - 1]
  {
  }

  // Depths cut to 4, and the numbers of leaves that have them.
  const CUTS: seq<nat> := [0, 1, 1, 2, 2, 3, 3, 2, 2, 3, 3, 4, 4, 4, 4]
  const COUNTS: seq<nat> := [0, 0, 2, 3, 3, 0, 0, 0, 0, 0, 0, 0, 0, 0, 0, 0]
  // What is left of these numbers.
  const AFTER: seq<nat> := [0, 0, 2, 2, 4, 0, 0, 0, 0, 0, 0, 0, 0, 0, 0, 0]

  lemma {:induction false} DepthIs(i: nat)
    requires i < 15
    ensures Cut(DepthAt(FAT, i), 4) == CUTS[i]
  {
  }

  lemma CutsAre()
    ensures Cuts(FAT, 4) == CUTS
  {
    hide FAT, CUTS, DepthAt, Cut;
    Lengths();
    CutsLength();
    forall i: nat | i < 15 ensures Cut(DepthAt(FAT, i), 4) == CUTS[i] { DepthIs(i); }
  }

  lemma CutsLength()
    ensures |CUTS| == 15
  {
  }

  lemma CountIs(b: nat)
    requires b < 16
    ensures LeavesOf(ORDER, CUTS, 7, b) == COUNTS[b]
  {
    TailIsAll(ORDER, CUTS, 7, b, 0);
    assert Tail(ORDER, CUTS, 7, b, 0) == COUNTS[b];
  }

  lemma CountsAre()
    ensures |FAT| == |ORDER| && CutCounts(ORDER, FAT, 7, 4) == COUNTS
  {
    hide ORDER, FAT, CUTS, COUNTS, LeavesOf, Cuts;
    Lengths();
    CutsAre();
    CountsLength();
    forall b: nat | b < 16 ensures LeavesOf(ORDER, Cuts(FAT, 4), 7, b) == COUNTS[b] { CountIs(b); }
  }

  lemma CountsLength()
    ensures |COUNTS| == 16
  {
  }

  lemma AfterIs()
    ensures Lowered(COUNTS, AFTER, 3, 4) && Kraft(AFTER, 4) == Pow2(4) && Total(AFTER, 4) == 8
  {
  }

  /** The list is in order of frequency, every father before its sons, and the first length
      to lose a leaf is 3; yet symbol 4, of depth 2, stands behind symbol 3, of depth 3, and with max_length
      4 not all the symbols less deep than 3 keep their depth, whatever gen_bitlen makes of the list. */
  lemma TiedList(len: seq<nat>, count: seq<nat>, first: nat)
    requires |count| == MAXBITS + 1 && Kraft(count, 4) == Pow2(4) && Total(count, 4) == 8
    requires Shortened(ORDER, FAT, len, 7, count, 4, first)
    ensures Listed(ORDER, DADS, 7, FAT) && count == AFTER && first == 3 && !Keeps(ORDER, FAT, len, 7, first)
    ensures |FREQS| == |ORDER| && forall i: nat :: 0 < i < |ORDER| ==> FREQS[i] <= FREQS[i - 1]
  {
    hide ORDER, FAT, DADS, FREQS, COUNTS, AFTER, Listed, DepthAt, Lowered, Sorted, CutCounts, Keeps, Kraft, Total, Pow2;
    CountsAre();
    AfterIs();
    LoweredUnique(COUNTS, count, first, AFTER, 3, 4);
    Tied();
    Lengths();
    TwoDepths();
    assert !InOrder(ORDER, FAT, 7, 3);
    forall i: nat | 0 < i < |ORDER| ensures FREQS[i] <= FREQS[i - 1] { Frequencies(i); }
  }
}
