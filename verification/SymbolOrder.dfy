/** The order in which inflate_table visits symbols: by length, then by symbol. */
module SymbolOrder {
  import opened Bits
  import opened Canon

  // Number of symbols with a code shorter than l: the index of the first symbol of length l.
  function Offset(lens: seq<nat>, l: nat): nat {
    if l <= 1 then 0 else Offset(lens, l - 1) + Count(lens, l - 1)
  }

  function Index(lens: seq<nat>, s: nat): nat
    requires HasCode(lens, s)
  {
    Offset(lens, lens[s]) + CountTo(lens, s, lens[s])
  }

  // work[k] is the k-th symbol of the order, for every k.
  ghost predicate IsOrder(lens: seq<nat>, work: seq<nat>) {
    && |work| == Offset(lens, MAXBITS + 1)
    && forall k :: 0 <= k < |work| ==> HasCode(lens, work[k]) && Index(lens, work[k]) == k
  }

  lemma {:induction false} OffsetMono(lens: seq<nat>, a: nat, b: nat)
    requires a <= b
    ensures Offset(lens, a) <= Offset(lens, b)
    decreases b - a
  {
    if a < b { OffsetMono(lens, a, b - 1); }
  }

  lemma IndexBounds(lens: seq<nat>, s: nat)
    requires HasCode(lens, s)
    ensures Offset(lens, lens[s]) <= Index(lens, s) < Offset(lens, lens[s] + 1) <= Offset(lens, MAXBITS + 1)
  {
    CountToMono(lens, s + 1, |lens|, lens[s]);
    OffsetMono(lens, lens[s] + 1, MAXBITS + 1);
  }

  lemma IndexOrdered(lens: seq<nat>, s: nat, t: nat)
    requires HasCode(lens, s) && HasCode(lens, t)
    ensures Before(lens, s, t) <==> Index(lens, s) < Index(lens, t)
    ensures s == t <==> Index(lens, s) == Index(lens, t)
  {
    IndexBounds(lens, s);
    IndexBounds(lens, t);
    if lens[s] < lens[t] {
      OffsetMono(lens, lens[s] + 1, lens[t]);
    } else if lens[t] < lens[s] {
      OffsetMono(lens, lens[t] + 1, lens[s]);
    } else if s < t {
      CountToMono(lens, s + 1, t, lens[s]);
    } else if t < s {
      CountToMono(lens, t + 1, s, lens[s]);
    }
  }

  lemma OrderHolds(lens: seq<nat>, work: seq<nat>, s: nat)
    requires IsOrder(lens, work) && HasCode(lens, s)
    ensures Index(lens, s) < |work| && work[Index(lens, s)] == s
  {
    IndexBounds(lens, s);
    IndexOrdered(lens, s, work[Index(lens, s)]);
  }

  // Within the order the length is determined by where the index falls.
  lemma LengthAt(lens: seq<nat>, work: seq<nat>, k: nat, l: nat)
    requires IsOrder(lens, work) && k < |work|
    requires Offset(lens, l) <= k < Offset(lens, l + 1)
    ensures lens[work[k]] == l
  {
    var s := work[k];
    IndexBounds(lens, s);
    if lens[s] < l {
      OffsetMono(lens, lens[s] + 1, l);
    } else if l < lens[s] {
      OffsetMono(lens, l + 1, lens[s]);
    }
  }

  // Consecutive symbols own consecutive intervals.
  lemma {:induction false} Consecutive(lens: seq<nat>, work: seq<nat>, k: nat)
    requires IsOrder(lens, work) && k + 1 < |work|
    ensures Pos(lens, work[k + 1]) == Pos(lens, work[k]) + Size(lens, work[k])
    ensures lens[work[k]] <= lens[work[k + 1]]
  {
    var s, t := work[k], work[k + 1];
    IndexOrdered(lens, s, t);
    IndexBounds(lens, s);
    IndexBounds(lens, t);
    var l := lens[s];
    ShlSucc(CountTo(lens, s, l), MAXBITS - l);
    if lens[t] > l {
      OffsetMono(lens, l + 1, lens[t]);
      SkipEmpty(lens, l + 1, lens[t]);
      ShlZero(MAXBITS - lens[t]);
    }
  }

  // No symbols between two lengths: both the offset and the position stand still.
  lemma {:induction false} SkipEmpty(lens: seq<nat>, a: nat, b: nat)
    requires 0 < a <= b <= MAXBITS + 1 && Offset(lens, a) == Offset(lens, b)
    ensures Base(lens, a) == Base(lens, b)
    decreases b - a
  {
    if a < b {
      OffsetMono(lens, a, b - 1);
      SkipEmpty(lens, a, b - 1);
      ShlZero(MAXBITS - (b - 1));
    }
  }

  // The first and the last symbol sit at the two ends of the occupied range.
  lemma FirstPos(lens: seq<nat>, work: seq<nat>)
    requires IsOrder(lens, work) && |work| > 0
    ensures Pos(lens, work[0]) == 0
  {
    var s := work[0];
    OffsetMono(lens, 1, lens[s]);
    SkipEmpty(lens, 1, lens[s]);
    ShlZero(MAXBITS - lens[s]);
  }

  lemma LastPos(lens: seq<nat>, work: seq<nat>)
    requires IsOrder(lens, work) && |work| > 0
    ensures Pos(lens, work[|work| - 1]) + Size(lens, work[|work| - 1]) == Base(lens, MAXBITS + 1)
  {
    var s := work[|work| - 1];
    var l := lens[s];
    IndexBounds(lens, s);
    OffsetMono(lens, l + 1, MAXBITS + 1);
    SkipEmpty(lens, l + 1, MAXBITS + 1);
    ShlSucc(CountTo(lens, s, l), MAXBITS - l);
  }
}
