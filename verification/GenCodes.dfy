/** bi_reverse and gen_codes of deps/zlib/trees.c: the encoder's side of the canonical code. */
module GenCodes {
  import opened Bits
  import opened Canon

  // Reverse the first len bits of a code.
  method BiReverse(code: nat, len: nat) returns (res: nat)
    requires 1 <= len
    ensures res == Rev(code, len)
  {
    // res is kept shifted up by one, as the loop ends with `res >> 1`
    hide Shr, Shl;
    var c, n := code, len;
    res := 0;
    ReversedStart(code, len);
    while n > 0
      invariant n <= len && c == Shr(code, len - n)
      invariant res == 2 * Rev(code, len - n)
    {
      ReversedStep(code, len - n);
      res := res + c % 2;
      c, res := c / 2, 2 * res;
      n := n - 1;
    }
    res := res / 2;
  }

  lemma ReversedStart(code: nat, len: nat)
    ensures Shr(code, 0) == code && Rev(code, 0) == 0
  {
  }

  lemma ReversedStep(code: nat, k: nat)
    ensures Shr(code, k + 1) == Shr(code, k) / 2
    ensures Rev(code, k + 1) == 2 * Rev(code, k) + Shr(code, k) % 2
  {
    ShrShr(code, k, 1);
    assert Shr(Shr(code, k), 1) == Shr(code, k) / 2;
    RevTop(code, k + 1);
  }

  // First code of length l.
  lemma FirstCode(lens: seq<nat>, l: nat)
    requires 1 <= l <= MAXBITS && NotOverSubscribed(lens)
    ensures Shl(Shr(Base(lens, l), MAXBITS - l), MAXBITS - l) == Base(lens, l)
    ensures Shr(Base(lens, l), MAXBITS - l) <= Pow2(l)
    ensures l > 1 ==>
      Shr(Base(lens, l), MAXBITS - l) == 2 * (Shr(Base(lens, l - 1), MAXBITS - (l - 1)) + Count(lens, l - 1))
  {
    hide Shl, Shr, Pow2, Base, CountTo;
    BaseMultiple(lens, l, MAXBITS - l);
    Split(Base(lens, l), MAXBITS - l);
    BaseMono(lens, l, MAXBITS + 1);
    ShlBound(Shr(Base(lens, l), MAXBITS - l), l, MAXBITS - l);
    if l > 1 { NextFirstCode(lens, l); }
  }

  lemma NextBase(lens: seq<nat>, l: nat)
    requires 1 < l <= MAXBITS
    ensures Base(lens, l) == Base(lens, l - 1) + Shl(Count(lens, l - 1), MAXBITS - (l - 1))
  {
  }

  lemma Double(c: nat)
    ensures Shl(c, 1) == 2 * c
  {
    assert Shl(c, 0) == c;
  }

  lemma NextFirstCode(lens: seq<nat>, l: nat)
    requires 1 < l <= MAXBITS && NotOverSubscribed(lens)
    ensures Shr(Base(lens, l), MAXBITS - l) == 2 * (Shr(Base(lens, l - 1), MAXBITS - (l - 1)) + Count(lens, l - 1))
  {
    hide Shl, Shr, Pow2, Base, CountTo;
    var m := MAXBITS - (l - 1);
    var c := Shr(Base(lens, l - 1), m) + Count(lens, l - 1);
    NextBase(lens, l);
    Double(c);
    BaseMultiple(lens, l - 1, m);
    Split(Base(lens, l - 1), m);
    ShlAdd(Shr(Base(lens, l - 1), m), Count(lens, l - 1), m);
    ShlShl(c, 1, MAXBITS - l);
    ShrShl(2 * c, MAXBITS - l);
  }

  lemma CodeIsRank(lens: seq<nat>, s: nat)
    requires HasCode(lens, s) && NotOverSubscribed(lens)
    ensures CodeOf(lens, s) == Shr(Base(lens, lens[s]), MAXBITS - lens[s]) + CountTo(lens, s, lens[s])
  {
    hide Shl, Shr, Pow2, Base, CountTo;
    var l := lens[s];
    FirstCode(lens, l);
    ShlAdd(Shr(Base(lens, l), MAXBITS - l), CountTo(lens, s, l), MAXBITS - l);
    ShrShl(Shr(Base(lens, l), MAXBITS - l) + CountTo(lens, s, l), MAXBITS - l);
  }

  // Starting codes for each length.  The running code is a 16-bit variable; nothing is lost in it.
  method NextCodes(lens: seq<nat>, blCount: array<nat>) returns (next: array<nat>)
    requires ValidLens(lens) && NotOverSubscribed(lens) && blCount.Length == MAXBITS + 1
    requires blCount[0] == 0 && forall l :: 1 <= l <= MAXBITS ==> blCount[l] == Count(lens, l)
    ensures fresh(next) && next.Length == MAXBITS + 1
    ensures forall l :: 1 <= l <= MAXBITS ==> next[l] == Shr(Base(lens, l), MAXBITS - l)
  {
    hide Shr, Shl, Base, CountTo, Pow2, Low;
    next := new nat[MAXBITS + 1](_ => 0);
    var code := 0;
    FirstIsZero(lens);
    for bits := 1 to MAXBITS + 1
      invariant bits == 1 ==> code == 0
      invariant bits > 1 ==> code == Shr(Base(lens, bits - 1), MAXBITS - (bits - 1))
      invariant forall l :: 1 <= l < bits ==> next[l] == Shr(Base(lens, l), MAXBITS - l)
    {
      FirstCode(lens, bits);
      Fits16(bits, 2 * (code + blCount[bits - 1]));
      code := Low(2 * (code + blCount[bits - 1]), 16);
      next[bits] := code;
    }
  }

  lemma FirstIsZero(lens: seq<nat>)
    ensures Shr(Base(lens, 1), MAXBITS - 1) == 0
  {
    Pow2Mono(0, MAXBITS - 1);
    LowSmall(0, MAXBITS - 1);
  }

  lemma Fits16(l: nat, v: nat)
    requires l <= MAXBITS
    ensures v <= Pow2(l) ==> Low(v, 16) == v
  {
    Pow2Mono(l, 16);
    if v <= Pow2(l) { Pow2Mono(l, 15); LowSmall(v, 16); }
  }

  method GenCodes(lens: seq<nat>, blCount: array<nat>, code: array<nat>)
    requires ValidLens(lens) && NotOverSubscribed(lens) && blCount.Length == MAXBITS + 1
    requires blCount[0] == 0 && forall l :: 1 <= l <= MAXBITS ==> blCount[l] == Count(lens, l)
    requires code.Length >= |lens| && code != blCount
    modifies code
    ensures forall s: nat :: HasCode(lens, s) ==> code[s] == Huff(lens, s)
  {
    hide Shr, Shl, Base, Pow2, Low, Pos, Rev;
    var next := NextCodes(lens, blCount);
    for n := 0 to |lens|
      invariant forall l :: 1 <= l <= MAXBITS ==>
        next[l] == Shr(Base(lens, l), MAXBITS - l) + CountTo(lens, n, l)
      invariant forall s: nat :: s < n && HasCode(lens, s) ==> code[s] == Huff(lens, s)
    {
      var len := lens[n];
      if len == 0 { continue; }
      CodeIsRank(lens, n);
      CodeBounds(lens, n);
      var r := BiReverse(next[len], len);
      next[len] := next[len] + 1;
      code[n] := r;
    }
  }
}
