/** The canonical Huffman code of section 3.2.2 of RFC 1951, seen as a tiling: every symbol
    owns an interval of the numbers below 2^MAXBITS, shorter codes first and, within one
    length, lower symbols first.  A 15-bit window of the stream, read first bit most
    significant, decodes to the symbol whose interval holds it. */
module Canon {
  import opened Bits

  const MAXBITS: nat := 15

  ghost predicate ValidLens(lens: seq<nat>) {
    forall i :: 0 <= i < |lens| ==> lens[i] <= MAXBITS
  }

  // How many of the first n symbols have length l.
  function CountTo(lens: seq<nat>, n: nat, l: nat): (c: nat)
    requires n <= |lens|
    ensures c <= n
  {
    if n == 0 then 0 else CountTo(lens, n - 1, l) + (if lens[n - 1] == l then 1 else 0)
  }

  function Count(lens: seq<nat>, l: nat): nat {
    CountTo(lens, |lens|, l)
  }

  // Where the codes of length l start.
  function Base(lens: seq<nat>, l: nat): nat
    requires l <= MAXBITS + 1
  {
    if l <= 1 then 0 else Base(lens, l - 1) + Shl(Count(lens, l - 1), MAXBITS - (l - 1))
  }

  ghost predicate NotOverSubscribed(lens: seq<nat>) {
    Base(lens, MAXBITS + 1) <= Pow2(MAXBITS)
  }

  ghost predicate Complete(lens: seq<nat>) {
    Base(lens, MAXBITS + 1) == Pow2(MAXBITS)
  }

  ghost predicate HasCode(lens: seq<nat>, s: nat) {
    s < |lens| && 0 < lens[s] <= MAXBITS
  }

  // First position owned by symbol s, and the number of positions it owns.
  function Pos(lens: seq<nat>, s: nat): nat
    requires HasCode(lens, s)
  {
    Base(lens, lens[s]) + Shl(CountTo(lens, s, lens[s]), MAXBITS - lens[s])
  }

  function Size(lens: seq<nat>, s: nat): nat
    requires HasCode(lens, s)
  {
    Pow2(MAXBITS - lens[s])
  }

  // The integer code of RFC 1951, and the same code with its bits reversed, as it is sent.
  function CodeOf(lens: seq<nat>, s: nat): nat
    requires HasCode(lens, s)
  {
    Shr(Pos(lens, s), MAXBITS - lens[s])
  }

  function Huff(lens: seq<nat>, s: nat): nat
    requires HasCode(lens, s)
  {
    Rev(Pos(lens, s), MAXBITS)
  }

  // The bits y start with the code of s.
  predicate Matches(lens: seq<nat>, s: nat, y: nat)
    requires HasCode(lens, s)
  {
    Low(y, lens[s]) == Huff(lens, s)
  }

  predicate Covers(lens: seq<nat>, s: nat, x: nat)
    requires HasCode(lens, s)
  {
    Pos(lens, s) <= x < Pos(lens, s) + Size(lens, s)
  }

  lemma {:induction false} CountToMono(lens: seq<nat>, m: nat, n: nat, l: nat)
    requires m <= n <= |lens|
    ensures CountTo(lens, m, l) <= CountTo(lens, n, l)
    decreases n - m
  {
    if m < n { CountToMono(lens, m, n - 1, l); }
  }

  lemma {:induction false} BaseMono(lens: seq<nat>, a: nat, b: nat)
    requires a <= b <= MAXBITS + 1
    ensures Base(lens, a) <= Base(lens, b)
    decreases b - a
  {
    if a < b { BaseMono(lens, a, b - 1); }
  }

  lemma {:induction false} BaseMultiple(lens: seq<nat>, l: nat, n: nat)
    requires 0 < l <= MAXBITS + 1 && n + l <= MAXBITS + 1
    ensures Low(Base(lens, l), n) == 0
  {
    if l > 1 {
      BaseMultiple(lens, l - 1, n);
      MultipleAdd(Base(lens, l - 1), Count(lens, l - 1), n, MAXBITS - (l - 1));
    } else {
      LowSmall(0, n);
    }
  }

  lemma {:induction false} MultipleAdd(x: nat, k: nat, n: nat, m: nat)
    requires Low(x, n) == 0 && n <= m
    ensures Low(x + Shl(k, m), n) == 0
  {
    Split(x, n);
    ShlShl(k, m - n, n);
    ShlAdd(Shr(x, n), Shl(k, m - n), n);
    ShrShl(Shr(x, n) + Shl(k, m - n), n);
  }

  lemma PosMultiple(lens: seq<nat>, s: nat)
    requires HasCode(lens, s)
    ensures Low(Pos(lens, s), MAXBITS - lens[s]) == 0
  {
    BaseMultiple(lens, lens[s], MAXBITS - lens[s]);
    MultipleAdd(Base(lens, lens[s]), CountTo(lens, s, lens[s]), MAXBITS - lens[s], MAXBITS - lens[s]);
  }

  // A symbol's interval ends before the codes of the next length start.
  lemma PosEnd(lens: seq<nat>, s: nat)
    requires HasCode(lens, s)
    ensures Pos(lens, s) + Size(lens, s) <= Base(lens, lens[s] + 1) <= Base(lens, MAXBITS + 1)
  {
    var l := lens[s];
    CountToMono(lens, s + 1, |lens|, l);
    ShlLess(CountTo(lens, s, l), Count(lens, l), MAXBITS - l);
    BaseMono(lens, l + 1, MAXBITS + 1);
  }

  // s comes before t in the order of the code.
  predicate Before(lens: seq<nat>, s: nat, t: nat)
    requires HasCode(lens, s) && HasCode(lens, t)
  {
    lens[s] < lens[t] || (lens[s] == lens[t] && s < t)
  }

  lemma Ordered(lens: seq<nat>, s: nat, t: nat)
    requires HasCode(lens, s) && HasCode(lens, t) && Before(lens, s, t)
    ensures Pos(lens, s) + Size(lens, s) <= Pos(lens, t)
  {
    if lens[s] < lens[t] {
      PosEnd(lens, s);
      BaseMono(lens, lens[s] + 1, lens[t]);
    } else {
      CountToMono(lens, s + 1, t, lens[s]);
      ShlLess(CountTo(lens, s, lens[s]), CountTo(lens, t, lens[s]), MAXBITS - lens[s]);
    }
  }

  lemma CodeBounds(lens: seq<nat>, s: nat)
    requires HasCode(lens, s) && NotOverSubscribed(lens)
    ensures Pos(lens, s) == Shl(CodeOf(lens, s), MAXBITS - lens[s])
    ensures Pos(lens, s) + Size(lens, s) <= Pow2(MAXBITS)
    ensures CodeOf(lens, s) < Pow2(lens[s])
    ensures Huff(lens, s) == Rev(CodeOf(lens, s), lens[s]) < Pow2(lens[s])
  {
    PosMultiple(lens, s);
    PosEnd(lens, s);
    Split(Pos(lens, s), MAXBITS - lens[s]);
    ShrBound(Pos(lens, s), lens[s], MAXBITS - lens[s]);
    RevOfMultiple(Pos(lens, s), lens[s], MAXBITS);
  }

  // Starting with the code of s, and falling in the interval of s, are the same thing.
  lemma MatchIsCover(lens: seq<nat>, s: nat, y: nat)
    requires HasCode(lens, s) && NotOverSubscribed(lens)
    ensures Matches(lens, s, y) <==> Covers(lens, s, Rev(y, MAXBITS))
  {
    hide Pow2, Low, Shr, Shl, Rev, Base, CountTo;
    var l, x := lens[s], Rev(y, MAXBITS);
    CodeBounds(lens, s);
    RevPrefix(y, l, MAXBITS);
    RevLow(y, l, l);
    RevRev(Low(y, l), l);
    RevRev(CodeOf(lens, s), l);
    assert Matches(lens, s, y) <==> Shr(x, MAXBITS - l) == CodeOf(lens, s);
    Split(x, MAXBITS - l);
    ShlLess(Shr(x, MAXBITS - l), CodeOf(lens, s), MAXBITS - l);
    ShlLess(CodeOf(lens, s), Shr(x, MAXBITS - l), MAXBITS - l);
  }

  // Prefix freedom: no bit string starts with the codes of two symbols.
  lemma MatchUnique(lens: seq<nat>, s: nat, t: nat, y: nat)
    requires HasCode(lens, s) && HasCode(lens, t) && NotOverSubscribed(lens)
    requires Matches(lens, s, y) && Matches(lens, t, y)
    ensures s == t
  {
    MatchIsCover(lens, s, y);
    MatchIsCover(lens, t, y);
    if s != t {
      if Before(lens, s, t) { Ordered(lens, s, t); } else { Ordered(lens, t, s); }
    }
  }

  // Every bit string starts with some code when the code is complete.
  lemma {:induction false} SomeCover(lens: seq<nat>, l: nat, x: nat) returns (s: nat)
    requires 0 < l <= MAXBITS + 1 && x < Base(lens, l)
    ensures HasCode(lens, s) && Covers(lens, s, x)
    decreases l
  {
    if l > 1 && x < Base(lens, l - 1) {
      s := SomeCover(lens, l - 1, x);
    } else {
      s := CoverInLength(lens, |lens|, l - 1, x);
    }
  }

  lemma {:induction false} CoverInLength(lens: seq<nat>, n: nat, l: nat, x: nat) returns (s: nat)
    requires n <= |lens| && 0 < l <= MAXBITS
    requires Base(lens, l) <= x < Base(lens, l) + Shl(CountTo(lens, n, l), MAXBITS - l)
    ensures HasCode(lens, s) && Covers(lens, s, x)
    decreases n
  {
    if n == 0 {
      ShlZero(MAXBITS - l);
      assert false;
    } else if lens[n - 1] == l {
      ShlSucc(CountTo(lens, n - 1, l), MAXBITS - l);
      if x < Base(lens, l) + Shl(CountTo(lens, n - 1, l), MAXBITS - l) {
        s := CoverInLength(lens, n - 1, l, x);
      } else {
        s := n - 1;
      }
    } else {
      s := CoverInLength(lens, n - 1, l, x);
    }
  }

  lemma MatchExists(lens: seq<nat>, y: nat) returns (s: nat)
    requires Complete(lens)
    ensures HasCode(lens, s) && Matches(lens, s, y)
  {
    s := SomeCover(lens, MAXBITS + 1, Rev(y, MAXBITS));
    MatchIsCover(lens, s, y);
  }
}
