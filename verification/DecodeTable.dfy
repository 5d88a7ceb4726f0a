/** Decoding tables of deps/zlib/inftrees.c: entries, two-level lookup, and what it means for
    a table to agree with the canonical code. */
module DecodeTable {
  import opened Bits
  import opened Canon
  import opened SymbolOrder

  datatype Entry = Entry(op: nat, bits: nat, val: nat)

  datatype CodeType = CODES | LENS | DISTS

  const ENOUGH_LENS: nat := 852
  const ENOUGH_DISTS: nat := 592

  // lbase[31]: length codes 257..285, and two that do not exist.
  function LengthBase(i: nat): nat {
    match i
    case 0 => 3 case 1 => 4 case 2 => 5 case 3 => 6 case 4 => 7 case 5 => 8 case 6 => 9 case 7 => 10
    case 8 => 11 case 9 => 13 case 10 => 15 case 11 => 17 case 12 => 19 case 13 => 23 case 14 => 27
    case 15 => 31 case 16 => 35 case 17 => 43 case 18 => 51 case 19 => 59 case 20 => 67 case 21 => 83
    case 22 => 99 case 23 => 115 case 24 => 131 case 25 => 163 case 26 => 195 case 27 => 227 case 28 => 258
    case 29 => 0 case _ => 0
  }

  // lext[31].
  function LengthExtra(i: nat): nat {
    match i
    case 0 => 16 case 1 => 16 case 2 => 16 case 3 => 16 case 4 => 16 case 5 => 16 case 6 => 16 case 7 => 16
    case 8 => 17 case 9 => 17 case 10 => 17 case 11 => 17 case 12 => 18 case 13 => 18 case 14 => 18
    case 15 => 18 case 16 => 19 case 17 => 19 case 18 => 19 case 19 => 19 case 20 => 20 case 21 => 20
    case 22 => 20 case 23 => 20 case 24 => 21 case 25 => 21 case 26 => 21 case 27 => 21 case 28 => 16
    case 29 => 78 case _ => 68
  }

  // dbase[32].
  function DistBase(i: nat): nat {
    match i
    case 0 => 1 case 1 => 2 case 2 => 3 case 3 => 4 case 4 => 5 case 5 => 7 case 6 => 9 case 7 => 13
    case 8 => 17 case 9 => 25 case 10 => 33 case 11 => 49 case 12 => 65 case 13 => 97 case 14 => 129
    case 15 => 193 case 16 => 257 case 17 => 385 case 18 => 513 case 19 => 769 case 20 => 1025 case 21 => 1537
    case 22 => 2049 case 23 => 3073 case 24 => 4097 case 25 => 6145 case 26 => 8193 case 27 => 12289
    case 28 => 16385 case 29 => 24577 case 30 => 0 case _ => 0
  }

  // dext[32].
  function DistExtra(i: nat): nat {
    match i
    case 0 => 16 case 1 => 16 case 2 => 16 case 3 => 16 case 4 => 17 case 5 => 17 case 6 => 18 case 7 => 18
    case 8 => 19 case 9 => 19 case 10 => 20 case 11 => 20 case 12 => 21 case 13 => 21 case 14 => 22
    case 15 => 22 case 16 => 23 case 17 => 23 case 18 => 24 case 19 => 24 case 20 => 25 case 21 => 25
    case 22 => 26 case 23 => 26 case 24 => 27 case 25 => 27 case 26 => 28 case 27 => 28 case 28 => 29
    case 29 => 29 case 30 => 64 case _ => 64
  }

  // Number of symbols the base and extra tables can serve.
  function MaxSymbols(t: CodeType): nat {
    match t case CODES => 19 case LENS => 288 case DISTS => 32
  }

  // The entry for symbol s when `bits` bits of its code are still to be dropped.
  function MakeEntry(t: CodeType, s: nat, bits: nat): Entry
    requires s < MaxSymbols(t)
  {
    match t
    case CODES => Entry(0, bits, s)
    case LENS =>
      if s < 256 then Entry(0, bits, s)
      else if s > 256 then Entry(LengthExtra(s - 257), bits, LengthBase(s - 257))
      else Entry(96, bits, 0)
    case DISTS => Entry(DistExtra(s), bits, DistBase(s))
  }

  const INVALID: Entry := Entry(64, 1, 0)

  // op & 0xf0 == 0 and op != 0: the entry points to a sub-table.
  predicate IsLink(e: Entry) { 0 < e.op < 16 }

  // Two-level lookup of the bits y: the final entry and the number of bits it drops in all.
  function Resolve(tab: seq<Entry>, root: nat, y: nat): (r: (Entry, nat)) {
    if Low(y, root) >= |tab| then (INVALID, 0) else
    var e := tab[Low(y, root)];
    if !IsLink(e) then (e, e.bits) else
    var j := e.val + Low(Shr(y, e.bits), e.op);
    if j >= |tab| then (INVALID, 0) else (tab[j], e.bits + tab[j].bits)
  }

  // Looking up y finds symbol s.  `low`, `next` and `curr` describe the sub-table in progress.
  ghost predicate Hit(tab: seq<Entry>, t: CodeType, lens: seq<nat>, root: nat,
                      low: int, next: nat, curr: nat, s: nat, y: nat)
    requires HasCode(lens, s) && |lens| <= MaxSymbols(t)
  {
    var i := Low(y, root);
    && i < |tab|
    && if lens[s] <= root then tab[i] == MakeEntry(t, s, lens[s]) else
       var e := tab[i];
       var j := e.val + Low(Shr(y, root), e.op);
       && e.bits == root && IsLink(e) && e.val >= Pow2(root)
       && (if i == low then e == Entry(curr, root, next) else e.val + Pow2(e.op) <= next)
       && j < |tab| && tab[j] == MakeEntry(t, s, lens[s] - root)
       && lens[s] - root <= e.op
  }

  // The first k symbols of the order can be looked up.
  ghost predicate Done(tab: seq<Entry>, t: CodeType, lens: seq<nat>, work: seq<nat>, root: nat,
                       low: int, next: nat, curr: nat, k: nat)
    requires IsOrder(lens, work) && k <= |work| && |lens| <= MaxSymbols(t)
  {
    forall j: nat, y: nat :: j < k && Matches(lens, work[j], y) ==>
      Hit(tab, t, lens, root, low, next, curr, work[j], y)
  }

  // What a caller of the finished table relies on.
  ghost predicate Decodes(tab: seq<Entry>, t: CodeType, lens: seq<nat>, root: nat)
    requires |lens| <= MaxSymbols(t)
  {
    forall s: nat, y: nat :: HasCode(lens, s) && Matches(lens, s, y) ==>
      Resolve(tab, root, y) == (MakeEntry(t, s, Resolve(tab, root, y).0.bits), lens[s])
  }

  // Only root entries for longer codes are links, and they all drop the root bits.
  ghost predicate LinksDropRoot(tab: seq<Entry>, root: nat) {
    Pow2(root) <= |tab| && forall i :: 0 <= i < Pow2(root) && IsLink(tab[i]) ==> tab[i].bits == root
  }

  // A table with no sub-tables.
  ghost predicate Flat(tab: seq<Entry>, root: nat) {
    Pow2(root) <= |tab| && forall i :: 0 <= i < Pow2(root) ==> !IsLink(tab[i])
  }

  lemma EntryNoLink(t: CodeType, s: nat, bits: nat)
    requires s < MaxSymbols(t)
    ensures !IsLink(MakeEntry(t, s, bits))
  {
  }

  lemma HitResolves(tab: seq<Entry>, t: CodeType, lens: seq<nat>, root: nat,
                    low: int, next: nat, curr: nat, s: nat, y: nat)
    requires HasCode(lens, s) && |lens| <= MaxSymbols(t)
    requires Hit(tab, t, lens, root, low, next, curr, s, y)
    ensures Resolve(tab, root, y) == (MakeEntry(t, s, Resolve(tab, root, y).0.bits), lens[s])
  {
    hide Pow2, Low, Shr;
  }

  // Writing root entries for symbol k, all of whose index bits end in its code.
  lemma RootFill(tab: seq<Entry>, tab': seq<Entry>, t: CodeType, lens: seq<nat>, work: seq<nat>,
                 root: nat, low: int, next: nat, curr: nat, k: nat)
    requires IsOrder(lens, work) && k < |work| && |lens| <= MaxSymbols(t) && NotOverSubscribed(lens)
    requires |tab'| == |tab| >= Pow2(root) && lens[work[k]] <= root
    requires forall i :: 0 <= i < |tab| ==>
      tab'[i] == if i < Pow2(root) && Low(i, lens[work[k]]) == Huff(lens, work[k])
                 then MakeEntry(t, work[k], lens[work[k]]) else tab[i]
    requires Done(tab, t, lens, work, root, low, next, curr, k)
    requires forall j :: 0 <= j < k ==> lens[work[j]] <= root
    ensures Done(tab', t, lens, work, root, low, next, curr, k + 1)
  {
    hide Pow2, Low, Shr, Huff, Offset, CountTo, Index, NotOverSubscribed, MakeEntry;
    forall j: nat, y: nat | j < k + 1 && Matches(lens, work[j], y)
      ensures Hit(tab', t, lens, root, low, next, curr, work[j], y)
    {
      LowLow(y, lens[work[k]], root);
      if j < k {
        assert work[j] != work[k];
        OtherRootSlot(lens, work[j], work[k], y, root);
        assert Hit(tab, t, lens, root, low, next, curr, work[j], y);
      }
    }
  }

  lemma OtherRootSlot(lens: seq<nat>, s: nat, t: nat, y: nat, root: nat)
    requires HasCode(lens, s) && HasCode(lens, t) && s != t && NotOverSubscribed(lens)
    requires Matches(lens, s, y) && lens[t] <= root
    ensures Low(Low(y, root), lens[t]) != Huff(lens, t)
  {
    LowLow(y, lens[t], root);
    if Low(y, lens[t]) == Huff(lens, t) { MatchUnique(lens, s, t, y); }
  }

  lemma OtherSubSlot(lens: seq<nat>, s: nat, t: nat, y: nat, root: nat, curr: nat)
    requires HasCode(lens, s) && HasCode(lens, t) && s != t && NotOverSubscribed(lens)
    requires Matches(lens, s, y) && root < lens[t] <= root + curr
    requires Low(y, root) == Low(Huff(lens, t), root)
    ensures Low(Low(Shr(y, root), curr), lens[t] - root) != Shr(Huff(lens, t), root)
  {
    hide Pow2, Low, Shr, Shl, Rev, Base, CountTo, Pos;
    var l := lens[t];
    LowLow(Shr(y, root), l - root, curr);
    ShrLow(y, root, l);
    LowLow(y, root, l);
    Split(Low(y, l), root);
    Split(Huff(lens, t), root);
    if Low(Shr(y, root), l - root) == Shr(Huff(lens, t), root) { MatchUnique(lens, s, t, y); }
  }

  // Writing the entries of symbol k in the sub-table at `next`.
  lemma SubFill(tab: seq<Entry>, tab': seq<Entry>, t: CodeType, lens: seq<nat>, work: seq<nat>,
                root: nat, low: nat, next: nat, curr: nat, k: nat)
    requires IsOrder(lens, work) && k < |work| && |lens| <= MaxSymbols(t) && NotOverSubscribed(lens)
    requires |tab'| == |tab| && root < lens[work[k]] <= root + curr && 0 < curr < 16
    requires next >= Pow2(root) && next + Pow2(curr) <= |tab| && low < Pow2(root)
    requires low == Low(Huff(lens, work[k]), root) && tab[low] == Entry(curr, root, next)
    requires forall i :: 0 <= i < |tab| ==>
      tab'[i] == if next <= i < next + Pow2(curr)
                    && Low(i - next, lens[work[k]] - root) == Shr(Huff(lens, work[k]), root)
                 then MakeEntry(t, work[k], lens[work[k]] - root) else tab[i]
    requires Done(tab, t, lens, work, root, low, next, curr, k)
    ensures Done(tab', t, lens, work, root, low, next, curr, k + 1)
  {
    forall j: nat, y: nat | j < k + 1 && Matches(lens, work[j], y)
      ensures Hit(tab', t, lens, root, low, next, curr, work[j], y)
    {
      if j == k {
        SubFillNew(tab, tab', t, lens, work, root, low, next, curr, k, y);
      } else {
        SubFillOld(tab, tab', t, lens, work, root, low, next, curr, k, j, y);
      }
    }
  }

  lemma SubFillNew(tab: seq<Entry>, tab': seq<Entry>, t: CodeType, lens: seq<nat>, work: seq<nat>,
                   root: nat, low: nat, next: nat, curr: nat, k: nat, y: nat)
    requires IsOrder(lens, work) && k < |work| && |lens| <= MaxSymbols(t)
    requires |tab'| == |tab| && root < lens[work[k]] <= root + curr && 0 < curr < 16
    requires next >= Pow2(root) && next + Pow2(curr) <= |tab| && low < Pow2(root)
    requires low == Low(Huff(lens, work[k]), root) && tab[low] == Entry(curr, root, next)
    requires forall i :: 0 <= i < |tab| ==>
      tab'[i] == if next <= i < next + Pow2(curr)
                    && Low(i - next, lens[work[k]] - root) == Shr(Huff(lens, work[k]), root)
                 then MakeEntry(t, work[k], lens[work[k]] - root) else tab[i]
    requires Matches(lens, work[k], y)
    ensures Hit(tab', t, lens, root, low, next, curr, work[k], y)
  {
    hide Pow2, Low, Shr, Huff, Offset, CountTo, Index, MakeEntry;
    var l := lens[work[k]];
    LowLow(y, root, l);
    ShrLow(y, root, l);
    LowLow(Shr(y, root), l - root, curr);
    assert Low(y, root) == low;
    assert tab'[low] == Entry(curr, root, next);
    var j := Low(Shr(y, root), curr);
    assert tab'[next + j] == MakeEntry(t, work[k], l - root);
  }

  lemma SubFillOld(tab: seq<Entry>, tab': seq<Entry>, t: CodeType, lens: seq<nat>, work: seq<nat>,
                   root: nat, low: nat, next: nat, curr: nat, k: nat, j: nat, y: nat)
    requires IsOrder(lens, work) && j < k < |work| && |lens| <= MaxSymbols(t) && NotOverSubscribed(lens)
    requires |tab'| == |tab| && root < lens[work[k]] <= root + curr
    requires next >= Pow2(root) && next + Pow2(curr) <= |tab|
    requires low == Low(Huff(lens, work[k]), root)
    requires forall i :: 0 <= i < |tab| ==>
      tab'[i] == if next <= i < next + Pow2(curr)
                    && Low(i - next, lens[work[k]] - root) == Shr(Huff(lens, work[k]), root)
                 then MakeEntry(t, work[k], lens[work[k]] - root) else tab[i]
    requires Matches(lens, work[j], y)
    requires Hit(tab, t, lens, root, low, next, curr, work[j], y)
    ensures Hit(tab', t, lens, root, low, next, curr, work[j], y)
  {
    hide Base, Pow2, Shr, Low, CountTo, Rev, Pos, Index, Offset, Count;
    var s, l, i := work[k], lens[work[k]], Low(y, root);
    assert tab'[i] == tab[i];
    if lens[work[j]] > root {
      var e := tab[i];
      var w := Low(Shr(y, root), e.op);
      if i == low {
        assert s != work[j];
        OtherSubSlot(lens, work[j], s, y, root, curr);
      }
      assert tab'[e.val + w] == tab[e.val + w];
    }
  }

  // Pointing root entry `low'` at a fresh sub-table, when no earlier code goes through it.
  lemma NewSubtable(tab: seq<Entry>, tab': seq<Entry>, t: CodeType, lens: seq<nat>, work: seq<nat>, root: nat,
                    low: int, next: nat, curr: nat, low': nat, next': nat, curr': nat, k: nat)
    requires IsOrder(lens, work) && k < |work| && |lens| <= MaxSymbols(t)
    requires low' < Pow2(root) <= next + Pow2(curr) == next' <= |tab|
    requires tab' == tab[low' := Entry(curr', root, next')]
    requires Done(tab, t, lens, work, root, low, next, curr, k)
    requires forall j: nat, y: nat :: j < k && Matches(lens, work[j], y) ==> Low(y, root) != low'
    ensures Done(tab', t, lens, work, root, low', next', curr', k)
  {
    forall j: nat, y: nat | j < k && Matches(lens, work[j], y)
      ensures Hit(tab', t, lens, root, low', next', curr', work[j], y)
    {
      HitSurvives(tab, tab', t, lens, root, low, next, curr, low', next', curr', work[j], y);
    }
  }

  lemma HitSurvives(tab: seq<Entry>, tab': seq<Entry>, t: CodeType, lens: seq<nat>, root: nat,
                    low: int, next: nat, curr: nat, low': nat, next': nat, curr': nat, s: nat, y: nat)
    requires HasCode(lens, s) && |lens| <= MaxSymbols(t)
    requires low' < Pow2(root) <= next + Pow2(curr) == next' <= |tab|
    requires tab' == tab[low' := Entry(curr', root, next')]
    requires Hit(tab, t, lens, root, low, next, curr, s, y)
    requires Low(y, root) != low'
    ensures Hit(tab', t, lens, root, low', next', curr', s, y)
  {
    hide Pow2, Shr, Low;
    assert tab'[Low(y, root)] == tab[Low(y, root)];
  }

  // Two numbers with the same low root bits lie in the same block of 2^(MAXBITS-root) positions.
  lemma SameRootBits(y: nat, z: nat, root: nat)
    requires root <= MAXBITS
    ensures Low(y, root) == Low(z, root)
       <==> Shr(Rev(y, MAXBITS), MAXBITS - root) == Shr(Rev(z, MAXBITS), MAXBITS - root)
  {
    RevPrefix(y, root, MAXBITS);
    RevPrefix(z, root, MAXBITS);
    RevLow(y, root, root);
    RevLow(z, root, root);
    RevRev(Low(y, root), root);
    RevRev(Low(z, root), root);
  }

  // Stepping by 2^m from a multiple of 2^m into another block of 2^n lands on its first position.
  lemma CrossBoundary(p: nat, m: nat, n: nat)
    requires m <= n && Low(p, m) == 0 && Shr(p, n) != Shr(p + Pow2(m), n)
    ensures Low(p + Pow2(m), n) == 0
  {
    hide Pow2, Low, Shr, Shl, Rev;
    var r := Low(p, n);
    Split(p, n);
    LowLow(p, m, n);
    Split(r, m);
    ShrBound(r, n - m, m);
    ShlLess(Shr(r, m), Pow2(n - m), m);
    ShlPow2(n - m, m);
    assert r + Pow2(m) <= Pow2(n);
    if r + Pow2(m) < Pow2(n) {
      SplitUnique(r + Pow2(m), Shr(p, n), n);
      assert false;
    } else {
      ShlSucc(Shr(p, n), n);
      ShrShl(Shr(p, n) + 1, n);
    }
  }

  // Two symbols go through the same root entry exactly when they start in the same block.
  lemma SameBlock(lens: seq<nat>, s: nat, t: nat, root: nat)
    requires HasCode(lens, s) && HasCode(lens, t) && NotOverSubscribed(lens) && root <= MAXBITS
    ensures Low(Huff(lens, s), root) == Low(Huff(lens, t), root)
       <==> Shr(Pos(lens, s), MAXBITS - root) == Shr(Pos(lens, t), MAXBITS - root)
  {
    CodeBounds(lens, s);
    CodeBounds(lens, t);
    RevRev(Pos(lens, s), MAXBITS);
    RevRev(Pos(lens, t), MAXBITS);
    SameRootBits(Huff(lens, s), Huff(lens, t), root);
  }

  lemma BlockStart(lens: seq<nat>, work: seq<nat>, k: nat, root: nat)
    requires IsOrder(lens, work) && 0 < k < |work| && NotOverSubscribed(lens) && root <= MAXBITS
    requires lens[work[k - 1]] <= root || Low(Huff(lens, work[k]), root) != Low(Huff(lens, work[k - 1]), root)
    ensures Low(Pos(lens, work[k]), MAXBITS - root) == 0
  {
    hide Base, Pow2, Shr, Low, CountTo, Rev;
    var s, t := work[k - 1], work[k];
    var m, n := MAXBITS - lens[s], MAXBITS - root;
    Consecutive(lens, work, k - 1);
    PosMultiple(lens, s);
    SameBlock(lens, s, t, root);
    StepIntoBlock(Pos(lens, s), m, n);
  }

  lemma StepIntoBlock(p: nat, m: nat, n: nat)
    requires Low(p, m) == 0
    requires n <= m || Shr(p, n) != Shr(p + Pow2(m), n)
    ensures Low(p + Pow2(m), n) == 0
  {
    if n <= m {
      ShlOne(m);
      MultipleAdd(p, 1, m, m);
      LowLow(p + Pow2(m), n, m);
      ZeroLow(n);
    } else {
      CrossBoundary(p, m, n);
    }
  }

  lemma ZeroLow(n: nat)
    ensures Low(0, n) == 0
  {
    LowSmall(0, n);
  }

  // When symbol k opens a block, no earlier code goes through its root entry.
  lemma FreshRoot(lens: seq<nat>, work: seq<nat>, k: nat, root: nat, j: nat, y: nat)
    requires IsOrder(lens, work) && j < k < |work| && NotOverSubscribed(lens) && root <= MAXBITS
    requires Low(Pos(lens, work[k]), MAXBITS - root) == 0
    requires Matches(lens, work[j], y)
    ensures Low(y, root) != Low(Huff(lens, work[k]), root)
  {
    hide Pow2, Low, Shr, Shl, Rev, Base, CountTo, Offset, Index, Pos;
    var s, t, x := work[j], work[k], Rev(y, MAXBITS);
    MatchIsCover(lens, s, y);
    IndexOrdered(lens, s, t);
    Ordered(lens, s, t);
    CodeBounds(lens, t);
    RevRev(Pos(lens, t), MAXBITS);
    SameRootBits(y, Huff(lens, t), root);
    Split(x, MAXBITS - root);
    Split(Pos(lens, t), MAXBITS - root);
    ShlLess(Shr(Pos(lens, t), MAXBITS - root), Shr(x, MAXBITS - root), MAXBITS - root);
  }

  // Symbols at or after k in the block of k have codes of at most l bits.
  lemma BlockLengths(lens: seq<nat>, work: seq<nat>, k: nat, root: nat, l: nat, j: nat)
    requires IsOrder(lens, work) && k <= j < |work| && NotOverSubscribed(lens)
    requires root <= MAXBITS && l <= MAXBITS
    requires Low(Pos(lens, work[k]), MAXBITS - root) == 0
    requires Base(lens, l + 1) >= Pos(lens, work[k]) + Pow2(MAXBITS - root)
    requires Low(Huff(lens, work[j]), root) == Low(Huff(lens, work[k]), root)
    ensures lens[work[j]] <= l
  {
    hide Pow2, Low, Shr, Shl, Rev, CountTo, Offset, Index;
    var s, t := work[j], work[k];
    SameBlock(lens, s, t, root);
    Split(Pos(lens, s), MAXBITS - root);
    Split(Pos(lens, t), MAXBITS - root);
    if lens[s] > l { BaseMono(lens, l + 1, lens[s]); }
  }
}
