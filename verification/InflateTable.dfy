/** inflate_table of deps/zlib/inftrees.c: builds the two-level decoding table in place. */
module InflateTable {
  import opened Bits
  import opened Canon
  import opened SymbolOrder
  import opened DecodeTable

  // ---- length counts, bounds, and the Kraft check ----

  method CountLengths(lens: seq<nat>) returns (count: array<nat>)
    requires ValidLens(lens)
    ensures fresh(count) && count.Length == MAXBITS + 1
    ensures forall l :: 0 <= l <= MAXBITS ==> count[l] == Count(lens, l)
  {
    count := new nat[MAXBITS + 1](_ => 0);
    for sym := 0 to |lens|
      invariant forall l :: 0 <= l <= MAXBITS ==> count[l] == CountTo(lens, sym, l)
    {
      count[lens[sym]] := count[lens[sym]] + 1;
    }
  }

  method MaxLength(count: array<nat>) returns (max: nat)
    requires count.Length == MAXBITS + 1
    ensures max <= MAXBITS && (max == 0 || count[max] != 0)
    ensures forall l :: max < l <= MAXBITS ==> count[l] == 0
  {
    max := MAXBITS;
    while max >= 1
      invariant max <= MAXBITS
      invariant forall l :: max < l <= MAXBITS ==> count[l] == 0
    {
      if count[max] != 0 { break; }
      max := max - 1;
    }
  }

  method MinLength(count: array<nat>, max: nat) returns (min: nat)
    requires count.Length == MAXBITS + 1 && 1 <= max <= MAXBITS && count[max] != 0
    ensures 1 <= min <= max && count[min] != 0
    ensures forall l :: 1 <= l < min ==> count[l] == 0
  {
    min := 1;
    while min < max
      invariant 1 <= min <= max
      invariant forall l :: 1 <= l < min ==> count[l] == 0
    {
      if count[min] != 0 { break; }
      min := min + 1;
    }
  }

  // `left` is the number of unused codes of the length reached; negative means over-subscribed.
  method CheckLengths(lens: seq<nat>, count: array<nat>) returns (left: int)
    requires count.Length == MAXBITS + 1
    requires forall l :: 0 <= l <= MAXBITS ==> count[l] == Count(lens, l)
    ensures left >= 0 ==> left + Base(lens, MAXBITS + 1) == Pow2(MAXBITS)
    ensures left < 0 <==> !NotOverSubscribed(lens)
  {
    hide Base, Shl, Pow2, CountTo;
    left := 1;
    var len := 1;
    KraftEnds(lens, 1);
    while len <= MAXBITS
      invariant 1 <= len <= MAXBITS + 1
      invariant left >= 0 && Shl(left, MAXBITS - (len - 1)) + Base(lens, len) == Pow2(MAXBITS)
    {
      ghost var before := left;
      left := 2 * left - count[len];
      KraftStep(lens, len, before);
      if left < 0 {
        BaseMono(lens, len + 1, MAXBITS + 1);
        return;
      }
      len := len + 1;
    }
    KraftEnds(lens, left);
  }

  lemma KraftEnds(lens: seq<nat>, left: nat)
    ensures Shl(1, MAXBITS) == Pow2(MAXBITS) && Base(lens, 1) == 0
    ensures Shl(left, 0) == left
  {
    ShlOne(MAXBITS);
  }

  lemma ShlTwice(x: nat)
    ensures Shl(x, 1) == 2 * x
  {
  }

  lemma BaseNext(lens: seq<nat>, len: nat)
    requires 1 <= len <= MAXBITS
    ensures Base(lens, len + 1) == Base(lens, len) + Shl(Count(lens, len), MAXBITS - len)
  {
  }

  lemma KraftStep(lens: seq<nat>, len: nat, left: nat)
    requires 1 <= len <= MAXBITS
    requires Shl(left, MAXBITS - (len - 1)) + Base(lens, len) == Pow2(MAXBITS)
    ensures 2 * left >= Count(lens, len) ==>
      Shl(2 * left - Count(lens, len), MAXBITS - len) + Base(lens, len + 1) == Pow2(MAXBITS)
    ensures 2 * left < Count(lens, len) ==> Base(lens, len + 1) > Pow2(MAXBITS)
  {
    hide Shl, Base, CountTo, Pow2;
    var c := Count(lens, len);
    ShlShl(left, 1, MAXBITS - len);
    ShlTwice(left);
    BaseNext(lens, len);
    if 2 * left >= c {
      ShlAdd(2 * left - c, c, MAXBITS - len);
    } else {
      ShlLess(2 * left, c, MAXBITS - len);
    }
  }

  // ---- the counting sort ----

  ghost predicate PlacedAt(lens: seq<nat>, work: seq<nat>, i: nat, k: nat) {
    k < |work| && HasCode(lens, work[k]) && work[k] < i && Index(lens, work[k]) == k
  }

  // k is a place for a symbol below i of length l.
  ghost predicate Slot(lens: seq<nat>, i: nat, l: nat, k: nat)
    requires i <= |lens|
  {
    1 <= l <= MAXBITS && Offset(lens, l) <= k < Offset(lens, l) + CountTo(lens, i, l)
  }

  // The symbols below i are in their final places.
  ghost predicate Placed(lens: seq<nat>, work: seq<nat>, i: nat)
    requires i <= |lens|
  {
    forall l: nat, k: nat :: Slot(lens, i, l, k) ==> PlacedAt(lens, work, i, k)
  }

  lemma {:induction false} OffsetTotal(lens: seq<nat>, n: nat, l: nat)
    requires n <= |lens|
    ensures OffsetTo(lens, n, l) <= n
  {
    if n > 0 {
      OffsetTotal(lens, n - 1, l);
      OffsetToStep(lens, n, l);
    } else {
      OffsetNone(lens, l);
    }
  }

  function OffsetTo(lens: seq<nat>, n: nat, l: nat): nat
    requires n <= |lens|
  {
    if l <= 1 then 0 else OffsetTo(lens, n, l - 1) + CountTo(lens, n, l - 1)
  }

  lemma {:induction false} OffsetToStep(lens: seq<nat>, n: nat, l: nat)
    requires 0 < n <= |lens|
    ensures OffsetTo(lens, n, l) == OffsetTo(lens, n - 1, l) + (if 0 < lens[n - 1] < l then 1 else 0)
  {
    if l > 1 { OffsetToStep(lens, n, l - 1); }
  }

  lemma {:induction false} OffsetNone(lens: seq<nat>, l: nat)
    ensures OffsetTo(lens, 0, l) == 0
  {
    if l > 1 { OffsetNone(lens, l - 1); }
  }

  lemma {:induction false} OffsetAll(lens: seq<nat>, l: nat)
    ensures Offset(lens, l) == OffsetTo(lens, |lens|, l)
  {
    if l > 1 { OffsetAll(lens, l - 1); }
  }

  lemma {:induction false} FindLength(lens: seq<nat>, k: nat, l: nat) returns (r: nat)
    requires k < Offset(lens, l)
    ensures 1 <= r < l && Offset(lens, r) <= k < Offset(lens, r + 1)
  {
    if k < Offset(lens, l - 1) { r := FindLength(lens, k, l - 1); } else { r := l - 1; }
  }

  lemma PlacedStep(lens: seq<nat>, work: seq<nat>, work': seq<nat>, i: nat)
    requires ValidLens(lens) && i < |lens| && Placed(lens, work, i)
    requires lens[i] != 0 ==> Index(lens, i) < |work| && work' == work[Index(lens, i) := i]
    requires lens[i] == 0 ==> work' == work
    ensures Placed(lens, work', i + 1)
  {
    var n := i + 1;
    forall l: nat, k: nat | Slot(lens, n, l, k)
      ensures PlacedAt(lens, work', n, k)
    {
      if !(lens[i] == l && k == Index(lens, i)) {
        assert Slot(lens, i, l, k);
        assert PlacedAt(lens, work, i, k);
      }
    }
  }

  lemma NonePlaced(lens: seq<nat>, work: seq<nat>)
    ensures Placed(lens, work, 0)
  {
  }

  lemma PlacedAll(lens: seq<nat>, work: seq<nat>, total: nat)
    requires total == Offset(lens, MAXBITS + 1) <= |work| && Placed(lens, work, |lens|)
    ensures IsOrder(lens, work[..total])
  {
    forall k: nat | k < total
      ensures PlacedAt(lens, work, |lens|, k)
    {
      var l := FindLength(lens, k, MAXBITS + 1);
      assert Slot(lens, |lens|, l, k);
    }
    assert forall k :: 0 <= k < total ==> PlacedAt(lens, work, |lens|, k) && work[..total][k] == work[k];
  }

  lemma OrderFits(lens: seq<nat>)
    ensures Offset(lens, MAXBITS + 1) <= |lens|
  {
    OffsetAll(lens, MAXBITS + 1);
    OffsetTotal(lens, |lens|, MAXBITS + 1);
  }

  method SortSymbols(lens: seq<nat>, count: array<nat>, work: array<nat>)
    requires ValidLens(lens) && work.Length >= |lens| && count != work
    requires count.Length == MAXBITS + 1
    requires forall l :: 0 <= l <= MAXBITS ==> count[l] == Count(lens, l)
    modifies work
    ensures Offset(lens, MAXBITS + 1) <= work.Length
    ensures IsOrder(lens, work[..Offset(lens, MAXBITS + 1)])
  {
    hide Offset, Placed;
    var offs := StartOffsets(lens, count);
    OrderFits(lens);
    NonePlaced(lens, work[..]);
    for sym := 0 to |lens|
      invariant forall l :: 1 <= l <= MAXBITS ==> offs[l] == Offset(lens, l) + CountTo(lens, sym, l)
      invariant Placed(lens, work[..], sym)
    {
      ghost var before := work[..];
      if lens[sym] != 0 {
        IndexBounds(lens, sym);
        work[offs[lens[sym]]] := sym;
        offs[lens[sym]] := offs[lens[sym]] + 1;
      }
      PlacedStep(lens, before, work[..], sym);
    }
    PlacedAll(lens, work[..], Offset(lens, MAXBITS + 1));
    assert work[..][..Offset(lens, MAXBITS + 1)] == work[..Offset(lens, MAXBITS + 1)];
  }

  lemma NextOffset(lens: seq<nat>, l: nat)
    ensures Offset(lens, l + 1) == if l == 0 then 0 else Offset(lens, l) + Count(lens, l)
  {
  }

  method StartOffsets(lens: seq<nat>, count: array<nat>) returns (offs: array<nat>)
    requires count.Length == MAXBITS + 1
    requires forall l :: 0 <= l <= MAXBITS ==> count[l] == Count(lens, l)
    ensures fresh(offs) && offs.Length == MAXBITS + 1
    ensures forall l :: 1 <= l <= MAXBITS ==> offs[l] == Offset(lens, l)
  {
    hide CountTo, Offset;
    offs := new nat[MAXBITS + 1](_ => 0);
    NextOffset(lens, 0);
    for len := 1 to MAXBITS
      invariant forall l :: 1 <= l <= len ==> offs[l] == Offset(lens, l)
    {
      NextOffset(lens, len);
      offs[len + 1] := offs[len] + count[len];
    }
  }

  // ---- filling the tables ----

  // Write `here` at every index of the table at `base` whose low `bits` bits are j0.
  method Replicate(tab: array<Entry>, base: nat, j0: nat, bits: nat, curr: nat, here: Entry)
    requires bits <= curr && j0 < Pow2(bits) && base + Pow2(curr) <= tab.Length
    modifies tab
    ensures forall i :: 0 <= i < tab.Length ==>
      tab[i] == if base <= i < base + Pow2(curr) && Low(i - base, bits) == j0 then here else old(tab[i])
  {
    hide Pow2, Low, Shr, Shl, Filled;
    var incr, fill := Pow2(bits), Pow2(curr);
    ghost var n: nat := Pow2(curr - bits);
    ShlPow2(curr - bits, bits);
    forall i: int ensures !Filled(i, base, curr, bits, j0, n) { FilledEnds(i, base, curr, bits, j0); }
    while fill != 0
      invariant fill == Shl(n, bits) && n <= Pow2(curr - bits)
      invariant forall i :: 0 <= i < tab.Length ==>
        tab[i] == if Filled(i, base, curr, bits, j0, n) then here else old(tab[i])
    {
      FilledStep(0, base, curr, bits, j0, n);
      fill := fill - incr;
      forall i: int
        ensures Filled(i, base, curr, bits, j0, n - 1) <==>
                Filled(i, base, curr, bits, j0, n) || i == base + j0 + fill
      {
        FilledStep(i, base, curr, bits, j0, n);
      }
      n := n - 1;
      tab[base + j0 + fill] := here;
    }
    FilledStep(0, base, curr, bits, j0, n);
    forall i: int
      ensures Filled(i, base, curr, bits, j0, 0) <==> base <= i < base + Pow2(curr) && Low(i - base, bits) == j0
    {
      FilledEnds(i, base, curr, bits, j0);
    }
  }

  // Index i has been written once the fill offset has come down to n steps.
  ghost predicate Filled(i: int, base: nat, curr: nat, bits: nat, j0: nat, n: nat) {
    base <= i < base + Pow2(curr) && Low(i - base, bits) == j0 && Shr(i - base, bits) >= n
  }

  lemma FilledEnds(i: int, base: nat, curr: nat, bits: nat, j0: nat)
    requires bits <= curr
    ensures !Filled(i, base, curr, bits, j0, Pow2(curr - bits))
    ensures Filled(i, base, curr, bits, j0, 0) <==> base <= i < base + Pow2(curr) && Low(i - base, bits) == j0
  {
    if base <= i { ShrBound(i - base, curr - bits, bits); }
  }

  lemma FilledStep(i: int, base: nat, curr: nat, bits: nat, j0: nat, n: nat)
    requires bits <= curr && n <= Pow2(curr - bits) && j0 < Pow2(bits)
    ensures Shl(n, bits) == 0 <==> n == 0
    ensures n > 0 ==> Shl(n, bits) == Shl(n - 1, bits) + Pow2(bits) && j0 + Shl(n - 1, bits) < Pow2(curr)
    ensures n > 0 ==>
      (Filled(i, base, curr, bits, j0, n - 1) <==>
       Filled(i, base, curr, bits, j0, n) || i == base + j0 + Shl(n - 1, bits))
  {
    hide Pow2, Low, Shr, Shl;
    if n == 0 {
      ShlZero(bits);
    } else {
      ShlSucc(n - 1, bits);
      SplitUnique(j0, n - 1, bits);
      ShrBound(j0 + Shl(n - 1, bits), curr - bits, bits);
      if i >= base { Split(i - base, bits); }
    }
  }

  // The code after h when codes of len bits are counted with their bits reversed.
  function BackInc(h: nat, len: nat): nat {
    if len == 0 then 0
    else if Shr(h, len - 1) % 2 == 0 then Low(h, len - 1) + Pow2(len - 1)
    else BackInc(h, len - 1)
  }

  lemma {:induction false} BackIncLow(h: nat, n: nat, len: nat)
    requires len <= n
    ensures BackInc(Low(h, n), len) == BackInc(h, len)
    decreases len
  {
    if len > 0 {
      BackIncLow(h, n, len - 1);
      LowLow(h, len - 1, n);
      ShrLow(h, len - 1, n);
    }
  }

  // Counting backwards on the reversed code is counting forwards on the code.
  lemma {:induction false} BackIncReverses(c: nat, len: nat)
    requires c < Pow2(len)
    ensures BackInc(Rev(c, len), len) == if c + 1 < Pow2(len) then Rev(c + 1, len) else 0
  {
    if len > 0 {
      var h, r := Rev(c, len), Rev(c / 2, len - 1);
      RevParts(c, len);
      BackIncReverses(c / 2, len - 1);
      BackIncLow(h, len - 1, len - 1);
      RevHalves(c + 1, len);
      hide Rev, Low, Shr;
      if c % 2 == 0 {
        assert (c + 1) / 2 == c / 2;
      } else {
        assert (c + 1) / 2 == c / 2 + 1;
      }
    }
  }

  lemma RevHalves(c: nat, len: nat)
    requires len > 0
    ensures Rev(c, len) == (if c % 2 == 1 then Pow2(len - 1) else 0) + Rev(c / 2, len - 1)
  {
  }

  lemma RevParts(c: nat, len: nat)
    requires len > 0
    ensures Low(Rev(c, len), len - 1) == Rev(c / 2, len - 1) && Shr(Rev(c, len), len - 1) == c % 2
  {
    ShlOne(len - 1);
    ShlZero(len - 1);
    SplitUnique(Rev(c / 2, len - 1), c % 2, len - 1);
    RevHalves(c, len);
    hide Rev, Low, Shr;
  }

  method BackwardIncrement(huff: nat, len: nat) returns (next: nat)
    requires 1 <= len
    ensures next == BackInc(huff, len)
  {
    // `bit` is the position of the single bit of incr, -1 once incr has been shifted out
    var bit: int := len - 1;
    while bit >= 0 && Shr(huff, bit) % 2 == 1
      invariant -1 <= bit < len
      invariant BackInc(huff, len) == BackInc(huff, bit + 1)
    {
      bit := bit - 1;
    }
    if bit >= 0 {
      next := Low(huff, bit) + Pow2(bit);
    } else {
      next := 0;
    }
  }

  // The increment goes from each symbol's code to the next one's, and from the last to zero.
  lemma NextHuff(lens: seq<nat>, work: seq<nat>, k: nat)
    requires IsOrder(lens, work) && k < |work| && NotOverSubscribed(lens)
    ensures k + 1 < |work| ==> BackInc(Huff(lens, work[k]), lens[work[k]]) == Huff(lens, work[k + 1])
    ensures k + 1 == |work| && Complete(lens) ==> BackInc(Huff(lens, work[k]), lens[work[k]]) == 0
  {
    hide Base, Pow2, CountTo, Pos, Offset, Index, Shr, Shl, Low, Rev, BackInc;
    var s, l := work[k], lens[work[k]];
    var c, m := CodeOf(lens, s), MAXBITS - l;
    CodeBounds(lens, s);
    BackIncReverses(c, l);
    ShlSucc(c, m);
    ShlBound(c + 1, l, m);
    if k + 1 < |work| {
      var t := work[k + 1];
      Consecutive(lens, work, k);
      CodeBounds(lens, t);
      assert Pos(lens, t) == Shl(c + 1, m) < Pow2(MAXBITS);
      ShrShl(c + 1, m);
      RevOfMultiple(Pos(lens, t), l, MAXBITS);
    } else {
      LastPos(lens, work);
    }
  }

  // ---- table sizes ----

  // Longest code a sub-table must hold: all codes reaching to `target` fit, or it is the longest code.
  function SubLength(lens: seq<nat>, target: nat, max: nat, l: nat): (r: nat)
    requires l <= max <= MAXBITS
    ensures l <= r <= max
    decreases max - l
  {
    if l == max || Base(lens, l + 1) >= target then l else SubLength(lens, target, max, l + 1)
  }

  // Symbol k is the first to go through its root entry, and its code does not fit the root table.
  ghost predicate Opens(lens: seq<nat>, work: seq<nat>, root: nat, k: nat)
    requires IsOrder(lens, work) && 0 < k < |work|
  {
    lens[work[k]] > root
    && (lens[work[k - 1]] <= root || Low(Huff(lens, work[k]), root) != Low(Huff(lens, work[k - 1]), root))
  }

  // Entries of the sub-table symbol k opens.
  ghost function SubSize(lens: seq<nat>, work: seq<nat>, root: nat, max: nat, k: nat): nat
    requires IsOrder(lens, work) && k < |work| && root <= lens[work[k]] <= max <= MAXBITS
  {
    Pow2(SubLength(lens, Pos(lens, work[k]) + Pow2(MAXBITS - root), max, lens[work[k]]) - root)
  }

  // Entries in use once symbol k has its table.
  ghost function SizeTo(lens: seq<nat>, work: seq<nat>, root: nat, max: nat, k: nat): nat
    requires IsOrder(lens, work) && k < |work| && max <= MAXBITS && IsMax(lens, max)
  {
    if k == 0 then Pow2(root)
    else SizeTo(lens, work, root, max, k - 1)
         + (if Opens(lens, work, root, k) then SubSize(lens, work, root, max, k) else 0)
  }

  lemma {:induction false} SizeMono(lens: seq<nat>, work: seq<nat>, root: nat, max: nat, j: nat, k: nat)
    requires IsOrder(lens, work) && j <= k < |work| && IsMax(lens, max)
    ensures SizeTo(lens, work, root, max, j) <= SizeTo(lens, work, root, max, k)
    decreases k - j
  {
    hide Opens, SubSize, IsMax, IsOrder;
    if j < k { SizeMono(lens, work, root, max, j, k - 1); }
  }

  function RootBits(bits: nat, min: nat, max: nat): nat {
    var r := if bits > max then max else bits;
    if r < min then min else r
  }

  // The whole table for these lengths stays below the space kept for it.
  ghost predicate TableFits(t: CodeType, lens: seq<nat>, bits: nat) {
    NoCodes(lens) || exists work: seq<nat> {:trigger IsOrder(lens, work)} ::
      && IsOrder(lens, work) && |work| > 0 && IsMax(lens, lens[work[|work| - 1]])
      && !TooBig(t, SizeTo(lens, work, RootBits(bits, lens[work[0]], lens[work[|work| - 1]]),
                           lens[work[|work| - 1]], |work| - 1))
  }

  // There is only one order.
  lemma OrderUnique(lens: seq<nat>, a: seq<nat>, b: seq<nat>)
    requires IsOrder(lens, a) && IsOrder(lens, b)
    ensures a == b
  {
    forall k | 0 <= k < |a| ensures a[k] == b[k] { OrderHolds(lens, b, a[k]); }
  }

  // ---- size of a new sub-table ----

  // count[] still holds the symbols from the k-th on.
  ghost predicate Remaining(lens: seq<nat>, count: seq<nat>, len: nat, k: nat) {
    && |count| == MAXBITS + 1 && 0 < len <= MAXBITS
    && count[len] + k == Offset(lens, len + 1)
    && forall l :: len < l <= MAXBITS ==> count[l] == Count(lens, l)
  }

  // Position reached after the symbols from the k-th on with codes shorter than l.
  lemma RemainingEnd(lens: seq<nat>, work: seq<nat>, count: seq<nat>, k: nat)
    requires IsOrder(lens, work) && k < |work| && Remaining(lens, count, lens[work[k]], k)
    ensures Pos(lens, work[k]) + Shl(count[lens[work[k]]], MAXBITS - lens[work[k]]) == Base(lens, lens[work[k]] + 1)
  {
    var s, l := work[k], lens[work[k]];
    ShlAdd(CountTo(lens, s, l), count[l], MAXBITS - l);
    assert CountTo(lens, s, l) + count[l] == Count(lens, l);
  }

  // Grow the sub-table until the codes that share its root entry fit.
  method SubtableBits(lens: seq<nat>, ghost work: seq<nat>, count: array<nat>, ghost k: nat,
                      len: nat, root: nat, max: nat) returns (curr: nat)
    requires IsOrder(lens, work) && k < |work| && len == lens[work[k]] && count.Length == MAXBITS + 1
    requires Remaining(lens, count[..], len, k) && root < len <= max <= MAXBITS
    ensures len <= root + curr <= max
    ensures root + curr == max || Base(lens, root + curr + 1) >= Pos(lens, work[k]) + Pow2(MAXBITS - root)
    ensures root + curr == SubLength(lens, Pos(lens, work[k]) + Pow2(MAXBITS - root), max, len)
  {
    hide Base, Shl, Pow2, CountTo, Pos, Offset;
    curr := len - root;
    var left: int := Pow2(curr);
    ghost var reached := Pos(lens, work[k]);
    ShlPow2(curr, MAXBITS - len);
    while curr + root < max
      invariant len <= root + curr <= max
      invariant left > 0 && Shl(left, MAXBITS - (root + curr)) + reached == Pos(lens, work[k]) + Pow2(MAXBITS - root)
      invariant reached == if root + curr == len then Pos(lens, work[k]) else Base(lens, root + curr)
      invariant SubLength(lens, Pos(lens, work[k]) + Pow2(MAXBITS - root), max, len)
             == SubLength(lens, Pos(lens, work[k]) + Pow2(MAXBITS - root), max, root + curr)
    {
      ghost var l, before := root + curr, left;
      left := left - count[curr + root];
      ReachedStep(lens, work, count[..], k, l, before, reached);
      reached := Base(lens, l + 1);
      if left <= 0 { break; }
      curr := curr + 1;
      left := 2 * left;
    }
  }

  lemma ReachedStep(lens: seq<nat>, work: seq<nat>, count: seq<nat>, k: nat, l: nat, left: nat, reached: nat)
    requires IsOrder(lens, work) && k < |work| && Remaining(lens, count, lens[work[k]], k)
    requires lens[work[k]] <= l < MAXBITS
    requires reached == if l == lens[work[k]] then Pos(lens, work[k]) else Base(lens, l)
    ensures count[l] >= left ==> Base(lens, l + 1) >= Shl(left, MAXBITS - l) + reached
    ensures count[l] < left ==> Base(lens, l + 1) < Shl(left, MAXBITS - l) + reached
    ensures count[l] < left ==>
      Shl(2 * (left - count[l]), MAXBITS - (l + 1)) + Base(lens, l + 1) == Shl(left, MAXBITS - l) + reached
  {
    if l == lens[work[k]] { RemainingEnd(lens, work, count, k); }
    assert Base(lens, l + 1) == reached + Shl(count[l], MAXBITS - l);
    if count[l] >= left {
      ShlLess(left, count[l], MAXBITS - l);
    } else {
      ShlAdd(left - count[l], count[l], MAXBITS - l);
      ShlLess(count[l], left, MAXBITS - l);
      ShlShl(left - count[l], 1, MAXBITS - (l + 1));
      assert Shl(left - count[l], 1) == 2 * (left - count[l]);
    }
  }

  // ---- the main loop ----

  // The symbols that share the current sub-table fit in it.
  ghost predicate Fits(lens: seq<nat>, work: seq<nat>, root: nat, low: int, curr: nat, k: nat)
    requires IsOrder(lens, work)
  {
    forall j :: k <= j < |work| && Low(Huff(lens, work[j]), root) == low ==> lens[work[j]] <= root + curr
  }

  // State of the loop variables huff, next, curr, drop, low and used before symbol k is entered.
  ghost predicate Ready(tab: seq<Entry>, t: CodeType, lens: seq<nat>, work: seq<nat>, root: nat,
                        low: int, next: nat, curr: nat, drop: nat, k: nat)
    requires IsOrder(lens, work) && k < |work|
  {
    && next + Pow2(curr) <= |tab| && 1 <= root <= MAXBITS && Pow2(root) <= |tab|
    && if drop == 0 then low == -1 && next == 0 && curr == root && lens[work[k]] <= root
       else && drop == root < lens[work[k]] <= root + curr && 0 < curr < 16
            && low == Low(Huff(lens, work[k]), root) && next >= Pow2(root)
            && tab[low] == Entry(curr, root, next)
            && Fits(lens, work, root, low, curr, k)
  }

  lemma ReadyFacts(tab: seq<Entry>, t: CodeType, lens: seq<nat>, work: seq<nat>, root: nat,
                   low: int, next: nat, curr: nat, drop: nat, k: nat)
    requires IsOrder(lens, work) && k < |work| && Ready(tab, t, lens, work, root, low, next, curr, drop, k)
    ensures next + Pow2(curr) <= |tab| && drop <= lens[work[k]] <= drop + curr && (drop != 0 ==> 0 <= low < |tab|)
  {
    hide Pow2, Low, Huff, Fits, Offset, CountTo;
  }

  // Enter symbol k in the table being filled.
  method EnterSymbol(tab: array<Entry>, at: nat, t: CodeType, lens: seq<nat>, ghost work: seq<nat>, ghost root: nat,
                     ghost low: int, next: nat, curr: nat, drop: nat, ghost k: nat, sym: nat, len: nat, huff: nat)
    requires IsOrder(lens, work) && k < |work| && |lens| <= MaxSymbols(t) && NotOverSubscribed(lens)
    requires at <= tab.Length && Ready(tab[at..], t, lens, work, root, low, next, curr, drop, k)
    requires Done(tab[at..], t, lens, work, root, low, next, curr, k)
    requires sym == work[k] && len == lens[sym] && huff == Huff(lens, sym)
    modifies tab
    ensures Done(tab[at..], t, lens, work, root, low, next, curr, k + 1)
    ensures drop != 0 ==> tab[at..][low] == old(tab[at..][low])
    ensures forall i :: 0 <= i < tab.Length && !(at + next <= i < at + next + Pow2(curr)) ==> tab[i] == old(tab[i])
  {
    hide Pow2, Low, Shr, Base, CountTo, Offset, Index, Pos, Rev, Huff, Fits, Done, NotOverSubscribed, Ready;
    ReadyFacts(tab[at..], t, lens, work, root, low, next, curr, drop, k);
    var here := MakeEntry(t, sym, len - drop);
    ghost var before := tab[at..];
    HuffIndex(lens, sym, drop);
    Replicate(tab, at + next, Shr(huff, drop), len - drop, curr, here);
    ghost var after := tab[at..];
    assert forall i :: 0 <= i < |after| ==> after[i] == tab[at + i] && before[i] == old(tab[at + i]);
    Entered(before, after, t, lens, work, root, low, next, curr, drop, k);
  }

  lemma Entered(before: seq<Entry>, after: seq<Entry>, t: CodeType, lens: seq<nat>, work: seq<nat>, root: nat,
                low: int, next: nat, curr: nat, drop: nat, k: nat)
    requires IsOrder(lens, work) && k < |work| && |lens| <= MaxSymbols(t) && NotOverSubscribed(lens)
    requires |after| == |before| && Ready(before, t, lens, work, root, low, next, curr, drop, k)
    requires Done(before, t, lens, work, root, low, next, curr, k)
    requires forall i :: 0 <= i < |after| ==>
      after[i] == if next <= i < next + Pow2(curr)
        && Low(i - next, lens[work[k]] - drop) == Shr(Huff(lens, work[k]), drop)
                  then MakeEntry(t, work[k], lens[work[k]] - drop) else before[i]
    ensures Done(after, t, lens, work, root, low, next, curr, k + 1) && (drop != 0 ==> after[low] == before[low])
  {
    hide Pow2, Low, Shr, Base, CountTo, Offset, Index, Pos, Rev, Huff, Fits, Done, NotOverSubscribed, MakeEntry;
    if drop == 0 {
      ShrNone(Huff(lens, work[k]));
      EarlierShort(lens, work, k);
      RootFill(before, after, t, lens, work, root, low, next, curr, k);
    } else {
      SubFill(before, after, t, lens, work, root, low, next, curr, k);
    }
  }

  lemma ShrNone(x: nat)
    ensures Shr(x, 0) == x
  {
  }

  lemma HuffIndex(lens: seq<nat>, s: nat, drop: nat)
    requires HasCode(lens, s) && NotOverSubscribed(lens) && drop <= lens[s]
    ensures Shr(Huff(lens, s), drop) < Pow2(lens[s] - drop)
  {
    hide Pow2, Low, Shr, Shl, Rev, Base, CountTo, Pos;
    CodeBounds(lens, s);
    ShrBound(Huff(lens, s), lens[s] - drop, drop);
  }

  lemma {:induction false} EarlierShort(lens: seq<nat>, work: seq<nat>, k: nat)
    requires IsOrder(lens, work) && k < |work|
    ensures forall j :: 0 <= j <= k ==> lens[work[j]] <= lens[work[k]]
  {
    if k > 0 {
      EarlierShort(lens, work, k - 1);
      Consecutive(lens, work, k - 1);
    }
  }

  // The entries kept for a table.
  function Space(t: CodeType, bits: nat): nat {
    match t case LENS => ENOUGH_LENS case DISTS => ENOUGH_DISTS case CODES => Pow2(bits)
  }

  ghost predicate IsMax(lens: seq<nat>, max: nat) {
    0 < max <= MAXBITS && Count(lens, max) > 0 && forall s: nat :: HasCode(lens, s) ==> lens[s] <= max
  }

  // Symbol k needs a sub-table of its own.
  lemma NeedsSubtable(lens: seq<nat>, work: seq<nat>, root: nat, low: int, drop: nat, k: nat, l: nat, max: nat)
    requires IsOrder(lens, work) && 0 < k < |work| && NotOverSubscribed(lens) && root <= MAXBITS
    requires if drop == 0 then lens[work[k - 1]] <= root else low == Low(Huff(lens, work[k - 1]), root)
    requires Low(Huff(lens, work[k]), root) != low
    requires l <= max <= MAXBITS && IsMax(lens, max)
    requires l == max ||
      Base(lens, l + 1) >= Pos(lens, work[k]) + Pow2(MAXBITS - root)
    requires root <= l
    ensures forall j: nat, y: nat :: j < k && Matches(lens, work[j], y) ==>
      Low(y, root) != Low(Huff(lens, work[k]), root)
    ensures Fits(lens, work, root, Low(Huff(lens, work[k]), root), l - root, k)
  {
    hide Pow2, Low, Shr, Base, CountTo, Offset, Index, Pos, Rev, Huff;
    BlockStart(lens, work, k, root);
    forall j: nat, y: nat | j < k && Matches(lens, work[j], y)
      ensures Low(y, root) != Low(Huff(lens, work[k]), root)
    {
      FreshRoot(lens, work, k, root, j, y);
    }
    forall j | k <= j < |work| && Low(Huff(lens, work[j]), root) == Low(Huff(lens, work[k]), root)
      ensures lens[work[j]] <= root + (l - root)
    {
      if l < max { BlockLengths(lens, work, k, root, l, j); }
    }
  }

  // Bookkeeping of count[] when symbol k has been entered.
  lemma RemainingNext(lens: seq<nat>, work: seq<nat>, count: seq<nat>, k: nat, max: nat)
    requires IsOrder(lens, work) && k < |work| && IsMax(lens, max)
    requires Remaining(lens, count, lens[work[k]], k)
    ensures count[lens[work[k]]] > 0
    ensures
      var count' := count[lens[work[k]] := count[lens[work[k]]] - 1];
      && (k + 1 < |work| ==> Remaining(lens, count', lens[work[k + 1]], k + 1))
      && (count'[lens[work[k]]] == 0 && lens[work[k]] == max <==> k + 1 == |work|)
      && (count'[lens[work[k]]] != 0 ==> k + 1 < |work| && lens[work[k + 1]] == lens[work[k]])
  {
    var l := lens[work[k]];
    IndexBounds(lens, work[k]);
    OffsetMono(lens, l + 1, MAXBITS + 1);
    if k + 1 < |work| {
      var l' := lens[work[k + 1]];
      Consecutive(lens, work, k);
      IndexBounds(lens, work[k + 1]);
      if k + 1 < Offset(lens, l + 1) { LengthAt(lens, work, k + 1, l); }
      if l < l' { OffsetMono(lens, l + 1, l'); }
    }
    OffsetMono(lens, max + 1, MAXBITS + 1);
    if l < max { OffsetMono(lens, l + 1, max); }
  }

  lemma FitsStep(lens: seq<nat>, work: seq<nat>, root: nat, low: int, curr: nat, drop: nat, k: nat)
    requires IsOrder(lens, work) && 0 < k < |work|
    requires drop != 0 ==> Fits(lens, work, root, low, curr, k - 1)
    ensures drop != 0 ==> Fits(lens, work, root, low, curr, k)
    ensures drop != 0 && Low(Huff(lens, work[k]), root) == low ==> lens[work[k]] <= root + curr
    ensures lens[work[k - 1]] <= lens[work[k]]
  {
    Consecutive(lens, work, k - 1);
  }

  predicate TooBig(t: CodeType, used: nat) {
    (t == LENS && used >= ENOUGH_LENS) || (t == DISTS && used >= ENOUGH_DISTS)
  }

  // The table space a caller provides.
  ghost predicate HasRoom(tab: array<Entry>, at: nat, t: CodeType, root: nat, max: nat) {
    at + Space(t, root) <= tab.Length
    && (t == CODES ==> max <= root)
  }

  // Start the sub-table for symbol k; `full` reports that the table space is used up.
  method OpenSubtable(tab: array<Entry>, at: nat, t: CodeType, lens: seq<nat>, ghost work: seq<nat>, count: array<nat>,
                      root: nat, max: nat, ghost low: int, next: nat, curr: nat, ghost drop: nat, used: nat,
                      ghost k: nat, len: nat, huff: nat)
    returns (full: bool, low': nat, next': nat, curr': nat, used': nat)
    requires IsOrder(lens, work) && 0 < k < |work| && |lens| <= MaxSymbols(t) && NotOverSubscribed(lens)
    requires HasRoom(tab, at, t, root, max) && at + used <= tab.Length && IsMax(lens, max) && max <= MAXBITS
    requires count.Length == MAXBITS + 1 && Remaining(lens, count[..], len, k)
    requires len == lens[work[k]] && huff == Huff(lens, work[k]) && 1 <= root < len && Low(huff, root) != low
    requires if drop == 0 then lens[work[k - 1]] <= root else low == Low(Huff(lens, work[k - 1]), root)
    requires next + Pow2(curr) == used && Pow2(root) <= used
    requires Done(tab[at..], t, lens, work, root, low, next, curr, k)
    modifies tab
    ensures used' == used + Pow2(curr') && next' == used && full == TooBig(t, used')
    ensures Opens(lens, work, root, k) && Pow2(curr') == SubSize(lens, work, root, max, k)
    ensures full ==> forall i :: 0 <= i < tab.Length ==> tab[i] == old(tab[i])
    ensures !full ==> at + used' <= tab.Length
    ensures !full ==> Ready(tab[at..], t, lens, work, root, low', next', curr', root, k)
    ensures !full ==> Done(tab[at..], t, lens, work, root, low', next', curr', k)
    ensures forall i :: 0 <= i < tab.Length && !(at <= i < at + used) ==> tab[i] == old(tab[i])
  {
    hide Pow2, Low, Shr, Base, CountTo, Offset, Index, Pos, Rev, Huff, Fits, Done, Remaining;
    assert HasCode(lens, work[k]);
    next' := next + Pow2(curr);
    curr' := SubtableBits(lens, work, count, k, len, root, max);
    used' := used + Pow2(curr');
    low' := Low(huff, root);
    full := TooBig(t, used');
    if !full {
      ghost var before := tab[at..];
      tab[at + low'] := Entry(curr', root, next');
      ghost var after := tab[at..];
      assert after == before[low' := Entry(curr', root, next')];
      NeedsSubtable(lens, work, root, low, drop, k, root + curr', max);
      NewSubtable(before, after, t, lens, work, root, low, next, curr, low', next', curr', k);
    }
  }

  lemma FillStart(tab: seq<Entry>, t: CodeType, lens: seq<nat>, ord: seq<nat>, root: nat, max: nat)
    requires IsOrder(lens, ord) && |ord| > 0 && |lens| <= MaxSymbols(t)
    requires lens[ord[0]] <= root <= MAXBITS && Pow2(root) <= |tab|
    ensures Huff(lens, ord[0]) == 0
    ensures Ready(tab, t, lens, ord, root, -1, 0, root, 0, 0)
    ensures Done(tab, t, lens, ord, root, -1, 0, root, 0)
  {
    FirstPos(lens, ord);
    RevZero(MAXBITS);
  }

  lemma RoomForRoot(tab: array<Entry>, at: nat, t: CodeType, lens: seq<nat>, root: nat, max: nat)
    requires HasRoom(tab, at, t, root, max) && !TooBig(t, Pow2(root)) && IsMax(lens, max) && root <= max
    ensures root <= max <= MAXBITS && at <= tab.Length && Pow2(root) <= tab.Length - at
  {
  }

  lemma SizeStep(lens: seq<nat>, ord: seq<nat>, root: nat, max: nat, k: nat)
    requires IsOrder(lens, ord) && k < |ord| && IsMax(lens, max)
    ensures k == 0 ==> SizeTo(lens, ord, root, max, 0) == Pow2(root)
    ensures k > 0 ==> SizeTo(lens, ord, root, max, k) == SizeTo(lens, ord, root, max, k - 1)
                      + (if Opens(lens, ord, root, k) then SubSize(lens, ord, root, max, k) else 0)
    ensures k > 0 ==> lens[ord[k]] <= max && lens[ord[k - 1]] <= max
  {
  }

  lemma SingleCode(h: nat)
    requires h == 0
    ensures BackInc(h, 1) == 1 && Pow2(1) == 2
  {
    assert Low(0, 0) == 0 && Shr(0, 0) == 0;
  }

  // Enter every symbol.  On return `huff` is the code after the last one.
  method FillTables(tab: array<Entry>, at: nat, t: CodeType, lens: seq<nat>, work: array<nat>, ghost ord: seq<nat>,
                    count: array<nat>, root: nat, min: nat, max: nat)
    returns (full: bool, used: nat, huff: nat, ghost low: int, ghost next: nat, ghost curr: nat)
    requires |ord| > 0 && |ord| <= work.Length && work[..|ord|] == ord && IsOrder(lens, ord)
    requires |lens| <= MaxSymbols(t) && NotOverSubscribed(lens) && IsMax(lens, max)
    requires HasRoom(tab, at, t, root, max) && count != work && min <= root <= max && lens[ord[0]] == min
    requires count.Length == MAXBITS + 1 && Remaining(lens, count[..], min, 0) && !TooBig(t, Pow2(root))
    modifies tab, count
    ensures !full ==> used == next + Pow2(curr) && used >= Pow2(root) && at + used <= tab.Length && !TooBig(t, used)
    ensures !full ==> Done(tab[at..], t, lens, ord, root, low, next, curr, |ord|)
    ensures full ==> t != CODES
    ensures full <==> TooBig(t, SizeTo(lens, ord, root, max, |ord| - 1))
    ensures !full && Complete(lens) ==> huff == 0
    ensures !full && max == 1 && |ord| == 1 ==> used == 2 && huff == 1
    ensures forall i :: 0 <= i < tab.Length && !(at <= i < at + used) ==> tab[i] == old(tab[i])
  {
    hide Pow2, Low, Shr, Base, CountTo, Offset, Index, Pos, Rev, Huff, Fits, Done, Remaining, BackInc, IsMax, SizeTo,
         SubSize;
    var sym: nat, len: nat, drop: nat, cur: nat, nxt: nat := 0, min, 0, root, 0;
    used := Pow2(root);
    var lw: int := -1;
    huff := 0;
    assert root <= max <= MAXBITS && Pow2(root) <= |tab[at..]| by { RoomForRoot(tab, at, t, lens, root, max); }
    FillStart(tab[at..], t, lens, ord, root, max);
    SingleCode(0);
    SizeStep(lens, ord, root, max, 0);
    while true
      invariant sym < |ord| && len == lens[ord[sym]] && huff == Huff(lens, ord[sym])
      invariant work[..|ord|] == ord && count.Length == MAXBITS + 1 && Remaining(lens, count[..], len, sym)
      invariant used == nxt + Pow2(cur) && Pow2(root) <= used && at + used <= tab.Length && !TooBig(t, used)
      invariant drop == 0 ==> used == Pow2(root)
      invariant used == SizeTo(lens, ord, root, max, sym)
      invariant Ready(tab[at..], t, lens, ord, root, lw, nxt, cur, drop, sym)
      invariant Done(tab[at..], t, lens, ord, root, lw, nxt, cur, sym)
      invariant forall i :: 0 <= i < tab.Length && !(at <= i < at + used) ==> tab[i] == old(tab[i])
      decreases |ord| - sym
    {
      EnterSymbol(tab, at, t, lens, ord, root, lw, nxt, cur, drop, sym, work[sym], len, huff);
      huff := BackwardIncrement(huff, len);
      NextHuff(lens, ord, sym);
      ghost var counts := count[..];
      RemainingNext(lens, ord, counts, sym, max);
      count[len] := count[len] - 1;
      assert count[..] == counts[len := counts[len] - 1];
      sym := sym + 1;
      if count[len] == 0 {
        if len == max { break; }
        len := lens[work[sym]];
      }
      FitsStep(lens, ord, root, lw, cur, drop, sym);
      SizeStep(lens, ord, root, max, sym);
      if len > root && Low(huff, root) != lw {
        full, lw, nxt, cur, used := OpenSubtable(tab, at, t, lens, ord, count, root, max, lw, nxt, cur, drop, used,
                                                 sym, len, huff);
        if full {
          SizeMono(lens, ord, root, max, sym, |ord| - 1);
          low, next, curr := lw, nxt, cur;
          return;
        }
        drop := root;
      }
    }
    full, low, next, curr := false, lw, nxt, cur;
  }

  // ---- the whole routine ----

  const TABLE_OK: int := 0
  const INVALID_CODE: int := -1
  const NOT_ENOUGH: int := 1

  // The set of lengths is one the routine accepts: not over-subscribed, and complete unless it
  // is a single one-bit code of a length or distance alphabet.
  ghost predicate Accepted(t: CodeType, lens: seq<nat>) {
    Complete(lens) || (t != CODES && SingleBit(lens)) || NoCodes(lens)
  }

  ghost predicate NoCodes(lens: seq<nat>) {
    forall s: nat :: !HasCode(lens, s)
  }

  // One symbol has a code and that code is one bit long.
  ghost predicate SingleBit(lens: seq<nat>) {
    exists s: nat :: HasCode(lens, s) && lens[s] == 1 && forall r: nat :: HasCode(lens, r) ==> r == s
  }

  lemma {:induction false} CountPositive(lens: seq<nat>, s: nat, n: nat, l: nat)
    requires s < n <= |lens| && lens[s] == l
    ensures CountTo(lens, n, l) > 0
  {
    if s < n - 1 { CountPositive(lens, s, n - 1, l); }
  }

  lemma {:induction false} CountWitness(lens: seq<nat>, n: nat, l: nat) returns (s: nat)
    requires n <= |lens| && CountTo(lens, n, l) > 0
    ensures s < n && lens[s] == l && (0 < l <= MAXBITS ==> HasCode(lens, s))
  {
    if lens[n - 1] == l { s := n - 1; } else { s := CountWitness(lens, n - 1, l); }
  }

  // The largest length found in count[] is the largest length in use.
  lemma MaxFacts(lens: seq<nat>, max: nat)
    requires ValidLens(lens) && max <= MAXBITS && (max == 0 || Count(lens, max) != 0)
    requires forall l :: max < l <= MAXBITS ==> Count(lens, l) == 0
    ensures if max == 0 then NoCodes(lens) else IsMax(lens, max) && !NoCodes(lens)
  {
    forall s: nat | HasCode(lens, s) ensures lens[s] <= max {
      CountPositive(lens, s, |lens|, lens[s]);
      assert Count(lens, lens[s]) > 0;
    }
    if max > 0 {
      var s := CountWitness(lens, |lens|, max);
      assert HasCode(lens, s);
    }
  }

  // An incomplete set with no code longer than one bit is a single one-bit code.
  lemma IncompleteOneBit(lens: seq<nat>, max: nat)
    requires ValidLens(lens) && IsMax(lens, max) && NotOverSubscribed(lens) && !Complete(lens)
    ensures max == 1 <==> SingleBit(lens)
    ensures max == 1 ==> Offset(lens, MAXBITS + 1) == 1
  {
    if max == 1 {
      assert forall l :: 1 < l <= MAXBITS ==> Count(lens, l) == 0 by {
        forall l | 1 < l <= MAXBITS ensures Count(lens, l) == 0 {
          if Count(lens, l) > 0 { var s := CountWitness(lens, |lens|, l); }
        }
      }
      OnlyOnes(lens, MAXBITS + 1);
      OneOfHalf(Count(lens, 1));
      var s := CountWitness(lens, |lens|, 1);
      assert HasCode(lens, s);
      forall r: nat | HasCode(lens, r) ensures r == s {
        if r != s { TwoCount(lens, if r < s then r else s, if r < s then s else r, |lens|); }
      }
    } else if SingleBit(lens) {
      var s: nat :| HasCode(lens, s) && lens[s] == 1 && forall r: nat :: HasCode(lens, r) ==> r == s;
      var r := CountWitness(lens, |lens|, max);
    }
  }

  lemma OneOfHalf(c: nat)
    requires 0 < c && Shl(c, MAXBITS - 1) < Pow2(MAXBITS)
    ensures c == 1
  {
    assert Pow2(1) == 2;
    ShlPow2(1, MAXBITS - 1);
    ShlLess(c, 2, MAXBITS - 1);
  }

  lemma {:induction false} OnlyOnes(lens: seq<nat>, l: nat)
    requires 2 <= l <= MAXBITS + 1 && forall i :: 1 < i <= MAXBITS ==> Count(lens, i) == 0
    ensures Base(lens, l) == Shl(Count(lens, 1), MAXBITS - 1) && Offset(lens, l) == Count(lens, 1)
  {
    if l > 2 {
      OnlyOnes(lens, l - 1);
      ShlZero(MAXBITS - (l - 1));
    }
  }

  lemma TwoCount(lens: seq<nat>, r: nat, s: nat, n: nat)
    requires r < s < n <= |lens| && lens[r] == lens[s] == 1
    ensures CountTo(lens, n, 1) >= 2
  {
    CountPositive(lens, r, s, 1);
    CountToMono(lens, s + 1, n, 1);
  }

  ghost predicate NoMatch(lens: seq<nat>, y: nat) {
    forall s: nat :: HasCode(lens, s) ==> !Matches(lens, s, y)
  }

  // Bits that start with no code at all look up the invalid-code marker.
  ghost predicate Rejects(tab: seq<Entry>, lens: seq<nat>, root: nat) {
    forall y: nat :: NoMatch(lens, y) ==> Resolve(tab, root, y) == (INVALID, 1)
  }

  // Lookups stay inside the counted entries.
  lemma HitPrefix(suffix: seq<Entry>, t: CodeType, lens: seq<nat>, root: nat, low: int, next: nat, curr: nat,
                  s: nat, y: nat)
    requires HasCode(lens, s) && |lens| <= MaxSymbols(t) && Pow2(root) <= next + Pow2(curr) <= |suffix|
    requires Hit(suffix, t, lens, root, low, next, curr, s, y)
    ensures Hit(suffix[..next + Pow2(curr)], t, lens, root, low, next, curr, s, y)
  {
    hide Pow2, Low, Shr;
  }

  lemma FinishDecodes(suffix: seq<Entry>, t: CodeType, lens: seq<nat>, ord: seq<nat>, root: nat,
                      low: int, next: nat, curr: nat)
    requires IsOrder(lens, ord) && |lens| <= MaxSymbols(t) && Pow2(root) <= next + Pow2(curr) <= |suffix|
    requires Done(suffix, t, lens, ord, root, low, next, curr, |ord|)
    ensures Decodes(suffix[..next + Pow2(curr)], t, lens, root)
  {
    hide Pow2, Low, Shr, Base, CountTo, Offset, Pos, Rev, Resolve, Hit;
    var tab := suffix[..next + Pow2(curr)];
    forall s: nat, y: nat | HasCode(lens, s) && Matches(lens, s, y)
      ensures Resolve(tab, root, y) == (MakeEntry(t, s, Resolve(tab, root, y).0.bits), lens[s])
    {
      OrderHolds(lens, ord, s);
      assert Hit(suffix, t, lens, root, low, next, curr, ord[Index(lens, s)], y);
      HitPrefix(suffix, t, lens, root, low, next, curr, s, y);
      HitResolves(tab, t, lens, root, low, next, curr, s, y);
    }
  }

  lemma FinishLinks(suffix: seq<Entry>, t: CodeType, lens: seq<nat>, ord: seq<nat>, root: nat,
                    low: int, next: nat, curr: nat, n: nat)
    requires IsOrder(lens, ord) && |lens| <= MaxSymbols(t) && Pow2(root) <= n <= |suffix| && Complete(lens)
    requires Done(suffix, t, lens, ord, root, low, next, curr, |ord|)
    ensures LinksDropRoot(suffix[..n], root)
    ensures (forall s: nat :: HasCode(lens, s) ==> lens[s] <= root) ==> Flat(suffix[..n], root)
  {
    hide Pow2, Low, Shr, Base, CountTo, Offset, Pos, Rev, MakeEntry;
    forall i | 0 <= i < Pow2(root)
      ensures IsLink(suffix[i]) ==>
        suffix[i].bits == root && exists s: nat :: HasCode(lens, s) && lens[s] > root
    {
      var s := MatchExists(lens, i);
      OrderHolds(lens, ord, s);
      LowSmall(i, root);
      assert Hit(suffix, t, lens, root, low, next, curr, ord[Index(lens, s)], i);
      EntryNoLink(t, s, lens[s]);
    }
  }

  lemma {:induction false} OffsetZero(lens: seq<nat>, min: nat)
    requires forall l :: 1 <= l < min ==> Count(lens, l) == 0
    ensures Offset(lens, min) == 0
  {
    if min > 1 { OffsetZero(lens, min - 1); }
  }

  lemma StartFacts(lens: seq<nat>, ord: seq<nat>, count: seq<nat>, min: nat)
    requires IsOrder(lens, ord) && |count| == MAXBITS + 1 && 1 <= min <= MAXBITS && count[min] != 0
    requires forall l :: 0 <= l <= MAXBITS ==> count[l] == Count(lens, l)
    requires forall l :: 1 <= l < min ==> count[l] == 0
    ensures |ord| > 0 && lens[ord[0]] == min && Remaining(lens, count, min, 0)
  {
    OffsetZero(lens, min);
    OffsetMono(lens, min + 1, MAXBITS + 1);
    LengthAt(lens, ord, 0, min);
  }

  // Which sets of lengths pass the checks made before the table is built.
  lemma AcceptedFacts(t: CodeType, lens: seq<nat>, left: int, max: nat)
    requires ValidLens(lens) && IsMax(lens, max) && !NoCodes(lens)
    requires left >= 0 ==> left + Base(lens, MAXBITS + 1) == Pow2(MAXBITS)
    requires left < 0 <==> !NotOverSubscribed(lens)
    ensures Accepted(t, lens) <==> left == 0 || (left > 0 && t != CODES && max == 1)
    ensures left > 0 && max == 1 ==> Offset(lens, MAXBITS + 1) == 1
  {
    if left > 0 {
      IncompleteOneBit(lens, max);
    } else if left < 0 && SingleBit(lens) {
      SingleBitFits(lens);
      assert false;
    }
  }

  lemma SingleBitFits(lens: seq<nat>)
    requires ValidLens(lens) && SingleBit(lens)
    ensures NotOverSubscribed(lens)
  {
    hide Shl, Base, CountTo, SingleBit, Offset;
    SingleCounts(lens);
    OnlyOnes(lens, MAXBITS + 1);
    ShlLess(Count(lens, 1), 2, MAXBITS - 1);
    ShlPow2(1, MAXBITS - 1);
  }

  lemma SingleCounts(lens: seq<nat>)
    requires ValidLens(lens) && SingleBit(lens)
    ensures Count(lens, 1) < 2 && forall l :: 1 < l <= MAXBITS ==> Count(lens, l) == 0
  {
    hide CountTo;
    var s: nat :| HasCode(lens, s) && lens[s] == 1 && forall r: nat :: HasCode(lens, r) ==> r == s;
    forall l | 1 < l <= MAXBITS ensures Count(lens, l) == 0 {
      if Count(lens, l) > 0 { var r := CountWitness(lens, |lens|, l); }
    }
    if Count(lens, 1) >= 2 { var r, r' := TwoWitnesses(lens, |lens|); }
  }

  lemma TwoWitnesses(lens: seq<nat>, n: nat) returns (r: nat, s: nat)
    requires n <= |lens| && CountTo(lens, n, 1) >= 2
    ensures r < s < n && HasCode(lens, r) && HasCode(lens, s)
    decreases n
  {
    if lens[n - 1] == 1 { r := CountWitness(lens, n - 1, 1); s := n - 1; } else { r, s := TwoWitnesses(lens, n - 1); }
  }

  lemma CompleteRejects(tab: seq<Entry>, lens: seq<nat>, root: nat)
    requires Complete(lens)
    ensures Rejects(tab, lens, root)
  {
    forall y: nat ensures !NoMatch(lens, y) { var s := MatchExists(lens, y); }
  }

  lemma LowOne(y: nat)
    ensures Low(y, 1) < 2
  {
  }

  lemma OneBitCode(lens: seq<nat>, ord: seq<nat>)
    requires IsOrder(lens, ord) && |ord| == 1 && lens[ord[0]] == 1
    ensures (forall y: nat :: Matches(lens, ord[0], y) <==> Low(y, 1) == 0) && Low(0, 1) == 0
  {
    hide Pow2, Shr, Base, CountTo, Offset, Index, Pos;
    FirstPos(lens, ord);
    RevZero(MAXBITS);
    LowSmall(0, 1);
  }

  // A single one-bit code is the bit 0; the other entry becomes the invalid-code marker.
  lemma SingleBitTable(suffix: seq<Entry>, t: CodeType, lens: seq<nat>, ord: seq<nat>, low: int, next: nat, curr: nat)
    requires |lens| <= MaxSymbols(t) && IsOrder(lens, ord) && |ord| == 1 && lens[ord[0]] == 1
    requires Done(suffix, t, lens, ord, 1, low, next, curr, 1) && |suffix| >= 2
    ensures Decodes([suffix[0], INVALID], t, lens, 1) && Rejects([suffix[0], INVALID], lens, 1)
    ensures Flat([suffix[0], INVALID], 1)
  {
    hide Pow2, IsOrder, Matches, Done, Decodes, Rejects;
    OneBitCode(lens, ord);
    OneBitEntry(suffix, t, lens, ord, low, next, curr);
    OneBitTable([suffix[0], INVALID], t, lens, ord);
    TwoEntries();
  }

  lemma TwoEntries()
    ensures Pow2(1) == 2
  {
  }

  lemma OneBitEntry(suffix: seq<Entry>, t: CodeType, lens: seq<nat>, ord: seq<nat>, low: int, next: nat, curr: nat)
    requires |lens| <= MaxSymbols(t) && IsOrder(lens, ord) && |ord| == 1 && lens[ord[0]] == 1 && suffix != []
    requires Done(suffix, t, lens, ord, 1, low, next, curr, 1) && Matches(lens, ord[0], 0) && Low(0, 1) == 0
    ensures suffix[0] == MakeEntry(t, ord[0], 1) && !IsLink(suffix[0])
  {
    hide Pow2, Shr, Low, Huff, Offset, Index, CountTo;
    assert Hit(suffix, t, lens, 1, low, next, curr, ord[0], 0);
  }

  lemma OneBitTable(tab: seq<Entry>, t: CodeType, lens: seq<nat>, ord: seq<nat>)
    requires |lens| <= MaxSymbols(t) && IsOrder(lens, ord) && |ord| == 1 && lens[ord[0]] == 1
    requires tab == [MakeEntry(t, ord[0], 1), INVALID] && !IsLink(tab[0])
    requires forall y: nat :: Matches(lens, ord[0], y) <==> Low(y, 1) == 0
    ensures Decodes(tab, t, lens, 1) && Rejects(tab, lens, 1)
  {
    hide Pow2, Shr, Offset, CountTo, Huff, Low, Index;
    forall s: nat, y: nat | HasCode(lens, s) && Matches(lens, s, y)
      ensures Resolve(tab, 1, y) == (MakeEntry(t, s, Resolve(tab, 1, y).0.bits), lens[s])
    {
      OrderHolds(lens, ord, s);
    }
    forall y: nat | NoMatch(lens, y)
      ensures Resolve(tab, 1, y) == (INVALID, 1)
    {
      LowOne(y);
      assert !Matches(lens, ord[0], y);
    }
  }

  method InflateTable(t: CodeType, lens: seq<nat>, bits: nat, tab: array<Entry>, at: nat, work: array<nat>)
    returns (ret: int, used: nat, root: nat)
    requires ValidLens(lens) && |lens| <= MaxSymbols(t) && work.Length >= |lens|
    // lens of the code length code are 3-bit numbers and 7 root bits are asked for
    requires t == CODES ==> 0 < bits && forall i :: 0 <= i < |lens| ==> lens[i] <= bits
    requires at + Space(t, bits) <= tab.Length
    modifies tab, work
    ensures ret == TABLE_OK || ret == INVALID_CODE || (ret == NOT_ENOUGH && t != CODES)
    ensures ret == INVALID_CODE <==> !Accepted(t, lens)
    ensures ret == TABLE_OK <==> Buildable(t, lens, bits)
    ensures ret == TABLE_OK ==>
      && at + used <= tab.Length && 1 <= root <= MAXBITS && Pow2(root) <= used && !TooBig(t, used)
      && Decodes(tab[at..at + used], t, lens, root)
      && Rejects(tab[at..at + used], lens, root)
      && LinksDropRoot(tab[at..at + used], root) && (t == CODES ==> Flat(tab[at..at + used], root))
    ensures Accepted(t, lens) && RootOnly(t, lens, bits) ==> ret == TABLE_OK && root == bits
    ensures forall i :: 0 <= i < tab.Length && !(at <= i < at + used) ==> tab[i] == old(tab[i])
  {
    hide Pow2, Low, Shr, Base, CountTo, Offset, Pos, Rev, Huff, Fits, Done, Remaining, IsMax, Resolve, Index,
         SingleBit, NoCodes, Accepted, Decodes, Rejects, IsOrder, TableFits, RootOnly;
    used, root := 0, 0;
    var count := CountLengths(lens);
    var max := MaxLength(count);
    MaxFacts(lens, max);
    if max == 0 {
      NothingToRoot(t, lens, bits);
      EmptyTable(t, lens, [INVALID, INVALID], bits);
      tab[at], tab[at + 1] := INVALID, INVALID;
      ret, used, root := TABLE_OK, 2, 1;
      assert tab[at..at + used] == [INVALID, INVALID];
      return;
    }
    var min := MinLength(count, max);
    root := if bits > max then max else bits;
    root := if root < min then min else root;
    assert root == RootBits(bits, min, max);
    var left := CheckLengths(lens, count);
    AcceptedFacts(t, lens, left, max);
    if left < 0 { return INVALID_CODE, used, root; }
    if left > 0 && (t == CODES || max != 1) { return INVALID_CODE, used, root; }
    SortSymbols(lens, count, work);
    StartFacts(lens, work[..Offset(lens, MAXBITS + 1)], count[..], min);
    RootSuffices(t, lens, work[..Offset(lens, MAXBITS + 1)], bits, min, max);
    if TooBig(t, Pow2(root)) {
      RootTooBig(t, lens, work[..Offset(lens, MAXBITS + 1)], bits, min, max);
      return NOT_ENOUGH, used, root;
    }
    ret, used := BuildTables(tab, at, t, lens, work, count, bits, root, min, max, left);
  }

  lemma EmptyTable(t: CodeType, lens: seq<nat>, tab: seq<Entry>, bits: nat)
    requires NoCodes(lens) && tab == [INVALID, INVALID] && |lens| <= MaxSymbols(t)
    ensures Buildable(t, lens, bits) && Decodes(tab, t, lens, 1) && Rejects(tab, lens, 1) && Flat(tab, 1)
    ensures Pow2(1) == 2 && (bits > 0 ==> Pow2(bits) >= 2)
  {
    if bits > 0 { Pow2Mono(1, bits); }
    forall y: nat ensures Resolve(tab, 1, y) == (INVALID, 1) { LowOne(y); }
  }

  lemma CodesFlat(lens: seq<nat>, root: nat, max: nat)
    requires IsMax(lens, max)
    ensures max <= root ==> forall s: nat :: HasCode(lens, s) ==> lens[s] <= root
  {
  }

  lemma RootRange(tab: array<Entry>, at: nat, t: CodeType, lens: seq<nat>, bits: nat, root: nat, min: nat, max: nat)
    requires IsMax(lens, max) && 1 <= min <= max
    requires root == RootBits(bits, min, max)
    requires t == CODES ==> 0 < bits && forall i :: 0 <= i < |lens| ==> lens[i] <= bits
    requires at + Space(t, bits) <= tab.Length
    ensures HasRoom(tab, at, t, root, max) && min <= root <= max <= MAXBITS
  {
    if t == CODES {
      var s := CountWitness(lens, |lens|, max);
      assert max <= bits;
      Pow2Mono(root, bits);
    }
  }

  lemma FitsFacts(t: CodeType, lens: seq<nat>, ord: seq<nat>, bits: nat, min: nat, max: nat)
    requires IsOrder(lens, ord) && |ord| > 0 && IsMax(lens, max) && lens[ord[0]] == min
    ensures TableFits(t, lens, bits) <==> !TooBig(t, SizeTo(lens, ord, RootBits(bits, min, max), max, |ord| - 1))
  {
    hide SizeTo, Base, CountTo;
    var last := |ord| - 1;
    assert lens[ord[last]] == max by {
      var s := CountWitness(lens, |lens|, max);
      OrderHolds(lens, ord, s);
      EarlierShort(lens, ord, last);
    }
    assert HasCode(lens, ord[0]) && !NoCodes(lens);
    if TableFits(t, lens, bits) {
      var work: seq<nat> :|
        && IsOrder(lens, work) && |work| > 0 && IsMax(lens, lens[work[|work| - 1]])
        && !TooBig(t, SizeTo(lens, work, RootBits(bits, lens[work[0]], lens[work[|work| - 1]]),
                             lens[work[|work| - 1]], |work| - 1));
      OrderUnique(lens, work, ord);
    }
  }

  // The root table alone is too big.
  lemma SizeStart(lens: seq<nat>, ord: seq<nat>, root: nat, max: nat)
    requires IsOrder(lens, ord) && |ord| > 0 && IsMax(lens, max)
    ensures SizeTo(lens, ord, root, max, 0) == Pow2(root)
  {
    hide Pow2, IsMax;
  }

  lemma RootTooBig(t: CodeType, lens: seq<nat>, ord: seq<nat>, bits: nat, min: nat, max: nat)
    requires IsOrder(lens, ord) && |ord| > 0 && IsMax(lens, max) && lens[ord[0]] == min
    requires TooBig(t, Pow2(RootBits(bits, min, max)))
    ensures !TableFits(t, lens, bits)
  {
    hide SizeTo, Pow2, IsOrder, IsMax, TableFits;
    var root := RootBits(bits, min, max);
    SizeStart(lens, ord, root, max);
    FitsFacts(t, lens, ord, bits, min, max);
    SizeMono(lens, ord, root, max, 0, |ord| - 1);
  }

  // The routine returns 0.
  ghost predicate Buildable(t: CodeType, lens: seq<nat>, bits: nat) {
    Accepted(t, lens) && (t == CODES || TableFits(t, lens, bits))
  }

  method BuildTables(tab: array<Entry>, at: nat, t: CodeType, lens: seq<nat>, work: array<nat>, count: array<nat>,
                     bits: nat, root: nat, min: nat, max: nat, left: int) returns (ret: int, used: nat)
    requires ValidLens(lens) && |lens| <= MaxSymbols(t) && IsMax(lens, max) && count != work
    requires left >= 0 && left + Base(lens, MAXBITS + 1) == Pow2(MAXBITS)
    requires left > 0 ==> max == 1 && t != CODES && Offset(lens, MAXBITS + 1) == 1
    requires Offset(lens, MAXBITS + 1) <= work.Length && IsOrder(lens, work[..Offset(lens, MAXBITS + 1)])
    requires count.Length == MAXBITS + 1 && 1 <= min <= max && count[min] != 0
    requires forall l :: 0 <= l <= MAXBITS ==> count[l] == Count(lens, l)
    requires forall l :: 1 <= l < min ==> count[l] == 0
    requires root == RootBits(bits, min, max)
    requires t == CODES ==> 0 < bits && forall i :: 0 <= i < |lens| ==> lens[i] <= bits
    requires at + Space(t, bits) <= tab.Length
    requires !TooBig(t, Pow2(root))
    modifies tab, count
    ensures ret == TABLE_OK || (ret == NOT_ENOUGH && t != CODES)
    ensures t != CODES ==> (ret == TABLE_OK <==> TableFits(t, lens, bits))
    ensures ret == TABLE_OK ==>
      && at + used <= tab.Length && 1 <= root <= MAXBITS && Pow2(root) <= used && !TooBig(t, used)
      && Decodes(tab[at..at + used], t, lens, root)
      && Rejects(tab[at..at + used], lens, root)
      && LinksDropRoot(tab[at..at + used], root) && (t == CODES ==> Flat(tab[at..at + used], root))
    ensures forall i :: 0 <= i < tab.Length && !(at <= i < at + used) ==> tab[i] == old(tab[i])
  {
    hide Pow2, Low, Shr, Base, CountTo, Offset, Pos, Rev, Huff, Fits, Done, Remaining, IsMax, Resolve, Index,
         Decodes, Rejects, TableFits, SizeTo;
    ghost var ord := work[..Offset(lens, MAXBITS + 1)];
    RootRange(tab, at, t, lens, bits, root, min, max);
    StartFacts(lens, ord, count[..], min);
    FitsFacts(t, lens, ord, bits, min, max);
    var full, huff;
    ghost var low, next, curr;
    full, used, huff, low, next, curr := FillTables(tab, at, t, lens, work, ord, count, root, min, max);
    if full { return NOT_ENOUGH, used; }
    label filled:
    FinishDecodes(tab[at..], t, lens, ord, root, low, next, curr);
    assert tab[at..][..used] == tab[at..at + used];
    if left == 0 {
      CompleteRejects(tab[at..at + used], lens, root);
      FinishLinks(tab[at..], t, lens, ord, root, low, next, curr, used);
      CodesFlat(lens, root, max);
    } else {
      SingleBitTable(tab[at..], t, lens, ord, low, next, curr);
    }
    if huff != 0 {
      tab[at + huff] := INVALID;
      assert tab[at..at + used] == [old@filled(tab[at..])[0], INVALID];
    }
    ret := TABLE_OK;
  }

  // ---- accepted lengths form a code ----

  lemma AcceptedNotOver(t: CodeType, lens: seq<nat>)
    requires ValidLens(lens) && Accepted(t, lens)
    ensures NotOverSubscribed(lens)
  {
    if SingleBit(lens) {
      SingleBitFits(lens);
    } else if NoCodes(lens) {
      Unoccupied(lens, MAXBITS + 1);
    }
  }

  lemma {:induction false} Unoccupied(lens: seq<nat>, l: nat)
    requires NoCodes(lens) && l <= MAXBITS + 1
    ensures Base(lens, l) == 0
  {
    if l > 1 {
      Unoccupied(lens, l - 1);
      if Count(lens, l - 1) > 0 { var s := CountWitness(lens, |lens|, l - 1); }
      ShlZero(MAXBITS - (l - 1));
    }
  }

  // A code that fits the root table needs no more than that.
  lemma RootTableFits(t: CodeType, lens: seq<nat>, ord: seq<nat>, bits: nat, max: nat)
    requires IsOrder(lens, ord) && |ord| > 0 && IsMax(lens, max) && max <= bits && !TooBig(t, Pow2(max))
    ensures TableFits(t, lens, bits)
  {
    hide SizeTo, Pow2, TableFits, CountTo, Offset;
    var min := lens[ord[0]];
    FitsFacts(t, lens, ord, bits, min, max);
    FlatSize(lens, ord, max, |ord| - 1);
  }

  // The longest code is as long as the root index, and the root table fits.
  ghost predicate RootOnly(t: CodeType, lens: seq<nat>, bits: nat) {
    && bits > 0 && !TooBig(t, Pow2(bits)) && (forall s: nat :: HasCode(lens, s) ==> lens[s] <= bits)
    && exists s: nat :: HasCode(lens, s) && lens[s] == bits
  }

  lemma RootSuffices(t: CodeType, lens: seq<nat>, ord: seq<nat>, bits: nat, min: nat, max: nat)
    requires IsOrder(lens, ord) && |ord| > 0 && IsMax(lens, max) && lens[ord[0]] == min
    ensures RootOnly(t, lens, bits) ==> TableFits(t, lens, bits) && RootBits(bits, min, max) == bits
  {
    hide TableFits, CountTo;
    if RootOnly(t, lens, bits) {
      var s: nat :| HasCode(lens, s) && lens[s] == bits;
      var r := CountWitness(lens, |lens|, max);
      assert max == bits;
      assert HasCode(lens, ord[0]);
      RootTableFits(t, lens, ord, bits, max);
    }
  }

  lemma NothingToRoot(t: CodeType, lens: seq<nat>, bits: nat)
    requires NoCodes(lens)
    ensures !RootOnly(t, lens, bits)
  {
  }

  lemma {:induction false} FlatSize(lens: seq<nat>, ord: seq<nat>, max: nat, k: nat)
    requires IsOrder(lens, ord) && k < |ord| && IsMax(lens, max)
    ensures SizeTo(lens, ord, max, max, k) == Pow2(max)
  {
    if k > 0 { FlatSize(lens, ord, max, k - 1); }
  }
}
