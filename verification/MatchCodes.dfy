/** Length and distance codes: the tables tr_static_init of deps/zlib/trees.c generates for the
    encoder, and their agreement with the base and extra tables of deps/zlib/inftrees.c. */
module MatchCodes {
  import opened Bits
  import opened DecodeTable

  // extra_lbits[29].
  function ExtraLBits(i: nat): nat {
    match i
    case 0 => 0 case 1 => 0 case 2 => 0 case 3 => 0 case 4 => 0 case 5 => 0 case 6 => 0 case 7 => 0
    case 8 => 1 case 9 => 1 case 10 => 1 case 11 => 1 case 12 => 2 case 13 => 2 case 14 => 2 case 15 => 2
    case 16 => 3 case 17 => 3 case 18 => 3 case 19 => 3 case 20 => 4 case 21 => 4 case 22 => 4 case 23 => 4
    case 24 => 5 case 25 => 5 case 26 => 5 case 27 => 5 case _ => 0
  }

  // extra_dbits[30].
  function ExtraDBits(i: nat): nat {
    match i
    case 0 => 0 case 1 => 0 case 2 => 0 case 3 => 0 case 4 => 1 case 5 => 1 case 6 => 2 case 7 => 2
    case 8 => 3 case 9 => 3 case 10 => 4 case 11 => 4 case 12 => 5 case 13 => 5 case 14 => 6 case 15 => 6
    case 16 => 7 case 17 => 7 case 18 => 8 case 19 => 8 case 20 => 9 case 21 => 9 case 22 => 10 case 23 => 10
    case 24 => 11 case 25 => 11 case 26 => 12 case 27 => 12 case 28 => 13 case _ => 13
  }

  const LENGTH_CODES: nat := 29
  const D_CODES: nat := 30

  // First normalized length (match length - 3) of each code.
  function BaseLength(c: nat): nat
    requires c < LENGTH_CODES
  {
    if c == 0 then 0 else BaseLength(c - 1) + Pow2(ExtraLBits(c - 1))
  }

  // First distance - 1 of each code.
  function BaseDist(c: nat): nat
    requires c < D_CODES
  {
    if c == 0 then 0 else BaseDist(c - 1) + Pow2(ExtraDBits(c - 1))
  }

  function LengthCodeFrom(lc: nat, c: nat): nat
    requires c < LENGTH_CODES
  {
    if c == 0 || BaseLength(c) <= lc then c else LengthCodeFrom(lc, c - 1)
  }

  function DistCodeFrom(d: nat, c: nat): nat
    requires c < D_CODES
  {
    if c == 0 || BaseDist(c) <= d then c else DistCodeFrom(d, c - 1)
  }

  function LengthCodeShort(lc: nat): nat {
    LengthCodeFrom(lc, 27)
  }

  // Length 258 has a code of its own; the others go by their base.
  function LengthCode(lc: nat): nat {
    if lc == 255 then 28 else LengthCodeShort(lc)
  }

  // The extra bits sent with a length code.
  function LengthRest(lc: nat): int {
    var c := LengthCode(lc);
    if c >= 28 then 0 else lc - BaseLength(c)
  }

  function DistCode(d: nat): nat {
    DistCodeFrom(d, 29)
  }

  lemma {:induction false} LengthCodeFromRange(lc: nat, c: nat)
    requires c < LENGTH_CODES - 1 && lc < BaseLength(c) + Pow2(ExtraLBits(c))
    ensures LengthCodeFrom(lc, c) <= c
    ensures BaseLength(LengthCodeFrom(lc, c)) <= lc
            < BaseLength(LengthCodeFrom(lc, c)) + Pow2(ExtraLBits(LengthCodeFrom(lc, c)))
  {
    hide Pow2, ExtraLBits;
    if c > 0 && lc < BaseLength(c) { LengthCodeFromRange(lc, c - 1); }
  }

  lemma {:induction false} DistCodeFromRange(d: nat, c: nat)
    requires c < D_CODES && d < BaseDist(c) + Pow2(ExtraDBits(c))
    ensures DistCodeFrom(d, c) <= c
    ensures BaseDist(DistCodeFrom(d, c)) <= d < BaseDist(DistCodeFrom(d, c)) + Pow2(ExtraDBits(DistCodeFrom(d, c)))
  {
    hide Pow2, ExtraDBits;
    if c > 0 && d < BaseDist(c) { DistCodeFromRange(d, c - 1); }
  }

  // The encoder's bases are the decoder's, shifted by the smallest length and distance, and
  // both sides count the same extra bits.
  lemma LengthTablesAgree(c: nat)
    requires c < LENGTH_CODES
    ensures c < 28 ==> LengthBase(c) == BaseLength(c) + 3
    ensures DecodeTable.LengthExtra(c) == 16 + ExtraLBits(c)
    ensures c == 28 ==> BaseLength(c) == 256 && LengthBase(c) == 258
  {
    hide BaseLength;
    LengthBases();
  }

  lemma DistTablesAgree(c: nat)
    requires c < D_CODES
    ensures DistBase(c) == BaseDist(c) + 1
    ensures DistExtra(c) == 16 + ExtraDBits(c)
  {
    hide BaseDist;
    DistBases();
  }

  lemma LengthBases()
    ensures BaseLength(0) == 0 && BaseLength(1) == 1 && BaseLength(2) == 2 && BaseLength(3) == 3 && BaseLength(4) == 4
    ensures BaseLength(5) == 5 && BaseLength(6) == 6 && BaseLength(7) == 7 && BaseLength(8) == 8 && BaseLength(9) == 10
    ensures BaseLength(10) == 12 && BaseLength(11) == 14 && BaseLength(12) == 16 && BaseLength(13) == 20
      && BaseLength(14) == 24
    ensures BaseLength(15) == 28 && BaseLength(16) == 32 && BaseLength(17) == 40 && BaseLength(18) == 48
      && BaseLength(19) == 56
    ensures BaseLength(20) == 64 && BaseLength(21) == 80 && BaseLength(22) == 96 && BaseLength(23) == 112
      && BaseLength(24) == 128
    ensures BaseLength(25) == 160 && BaseLength(26) == 192 && BaseLength(27) == 224 && BaseLength(28) == 256
  {
    hide BaseLength, Pow2;
    SmallPowers();
    FirstBases();
    NextBase(0); NextBase(1); NextBase(2); NextBase(3); NextBase(4); NextBase(5); NextBase(6); NextBase(7);
    NextBase(8); NextBase(9); NextBase(10); NextBase(11); NextBase(12); NextBase(13); NextBase(14); NextBase(15);
    NextBase(16); NextBase(17); NextBase(18); NextBase(19); NextBase(20); NextBase(21); NextBase(22); NextBase(23);
    NextBase(24); NextBase(25); NextBase(26); NextBase(27);
  }

  lemma DistBases()
    ensures BaseDist(0) == 0 && BaseDist(1) == 1 && BaseDist(2) == 2 && BaseDist(3) == 3 && BaseDist(4) == 4
    ensures BaseDist(5) == 6 && BaseDist(6) == 8 && BaseDist(7) == 12 && BaseDist(8) == 16 && BaseDist(9) == 24
    ensures BaseDist(10) == 32 && BaseDist(11) == 48 && BaseDist(12) == 64 && BaseDist(13) == 96 && BaseDist(14) == 128
    ensures BaseDist(15) == 192 && BaseDist(16) == 256 && BaseDist(17) == 384 && BaseDist(18) == 512
      && BaseDist(19) == 768
    ensures BaseDist(20) == 1024 && BaseDist(21) == 1536 && BaseDist(22) == 2048 && BaseDist(23) == 3072
      && BaseDist(24) == 4096
    ensures BaseDist(25) == 6144 && BaseDist(26) == 8192 && BaseDist(27) == 12288 && BaseDist(28) == 16384
      && BaseDist(29) == 24576
  {
  }

  lemma FirstBases()
    ensures BaseLength(0) == 0 && BaseDist(0) == 0
  {
  }

  lemma SmallPowers()
    ensures Pow2(0) == 1 && Pow2(1) == 2 && Pow2(2) == 4 && Pow2(3) == 8 && Pow2(4) == 16 && Pow2(5) == 32
    ensures Pow2(6) == 64 && Pow2(7) == 128 && Pow2(8) == 256 && Pow2(9) == 512 && Pow2(10) == 1024
    ensures Pow2(11) == 2048 && Pow2(12) == 4096 && Pow2(13) == 8192
  {
  }

  lemma PowZero()
    ensures Pow2(ExtraLBits(28)) == 1
  {
  }

  // Where the tables start, change step and end.
  lemma Marks()
    ensures BaseLength(0) == 0 && BaseLength(28) == 256 && BaseLength(27) + Pow2(ExtraLBits(27)) == 256
    ensures BaseDist(0) == 0 && BaseDist(16) == 256 && BaseDist(29) + Pow2(ExtraDBits(29)) == 32768
    ensures Shl(2, 7) == 256 && Shl(256, 7) == 32768
  {
    LengthTablesAgree(28);
    DistTablesAgree(16);
    DistTablesAgree(29);
    SmallPowers();
  }

  // Code and extra bits of a match length, as the decoder reads them back.
  lemma LengthRoundTrip(lc: nat)
    requires lc < 256
    ensures
      var c := LengthCode(lc);
      && c < LENGTH_CODES && (c < 28 ==> BaseLength(c) <= lc)
      && 0 <= LengthRest(lc) < Pow2(ExtraLBits(c))
      && LengthBase(c) + LengthRest(lc) == lc + 3 && DecodeTable.LengthExtra(c) == 16 + ExtraLBits(c)
  {
    hide Pow2, ExtraLBits, LengthCodeFrom, BaseLength;
    LengthTablesAgree(28);
    PowZero();
    Marks();
    if lc != 255 {
      LengthCodeFromRange(lc, 27);
      LengthTablesAgree(LengthCode(lc));
    }
  }

  lemma DistRoundTrip(d: nat)
    requires d < 32768
    ensures
      var c := DistCode(d);
      && c < D_CODES && BaseDist(c) <= d
      && d - BaseDist(c) < Pow2(ExtraDBits(c))
      && DistBase(c) + (d - BaseDist(c)) == d + 1 && DistExtra(c) == 16 + ExtraDBits(c)
  {
    hide Pow2, ExtraDBits, DistCodeFrom, BaseDist;
    Marks();
    DistCodeFromRange(d, 29);
    DistTablesAgree(DistCode(d));
  }

  // ---- the generator ----

  // Between two bases the code stands still.
  lemma {:induction false} LengthCodeIs(lc: nat, c: nat, k: nat)
    requires k <= c < LENGTH_CODES - 1
    requires BaseLength(k) <= lc < BaseLength(k) + Pow2(ExtraLBits(k))
    ensures LengthCodeFrom(lc, c) == k
  {
    hide Pow2, ExtraLBits;
    if k < c {
      BaseLengthMono(k + 1, c);
      LengthCodeIs(lc, c - 1, k);
    }
  }

  lemma {:induction false} BaseLengthMono(a: nat, b: nat)
    requires a <= b < LENGTH_CODES
    ensures BaseLength(a) <= BaseLength(b)
    decreases b - a
  {
    hide Pow2, ExtraLBits;
    if a < b { BaseLengthMono(a, b - 1); }
  }

  lemma LengthCodeAt(lc: nat, k: nat)
    requires k < LENGTH_CODES - 1 && BaseLength(k) <= lc < BaseLength(k) + Pow2(ExtraLBits(k))
    ensures LengthCodeShort(lc) == k
  {
    LengthCodeIs(lc, 27, k);
  }

  lemma DistCodeAt(d: nat, k: nat)
    requires k < D_CODES && BaseDist(k) <= d < BaseDist(k) + Pow2(ExtraDBits(k))
    ensures DistCode(d) == k
  {
    DistCodeIs(d, 29, k);
  }

  lemma NextBase(c: nat)
    requires c < LENGTH_CODES - 1
    ensures BaseLength(c + 1) == BaseLength(c) + Pow2(ExtraLBits(c))
  {
  }

  lemma NextDist(c: nat)
    requires c < D_CODES - 1
    ensures BaseDist(c + 1) == BaseDist(c) + Pow2(ExtraDBits(c))
  {
  }

  ghost predicate LengthBasesTo(b: seq<nat>, n: nat)
    requires n <= LENGTH_CODES
  {
    n <= |b| && forall c :: 0 <= c < n ==> b[c] == BaseLength(c)
  }

  ghost predicate DistBasesTo(b: seq<nat>, n: nat)
    requires n <= D_CODES
  {
    n <= |b| && forall c :: 0 <= c < n ==> b[c] == BaseDist(c)
  }

  // The inner loop of the generator: n entries from `from` on get the code.
  method FillCode(table: array<nat>, from: nat, n: nat, code: nat)
    requires from + n <= table.Length
    modifies table
    ensures forall i :: 0 <= i < table.Length ==> table[i] == if from <= i < from + n then code else old(table[i])
  {
    for k := 0 to n
      invariant forall i :: 0 <= i < table.Length ==> table[i] == if from <= i < from + k then code else old(table[i])
    {
      table[from + k] := code;
    }
  }

  method InitLengthCodes() returns (lengthCode: array<nat>, baseLength: array<nat>)
    ensures fresh(lengthCode) && fresh(baseLength) && lengthCode.Length == 256 && baseLength.Length == LENGTH_CODES
    ensures forall lc :: 0 <= lc < 256 ==> lengthCode[lc] == LengthCode(lc)
    ensures LengthBasesTo(baseLength[..], LENGTH_CODES - 1)
  {
    hide Pow2, LengthCodeFrom, LengthCodeShort, ExtraLBits, BaseLength;
    lengthCode, baseLength := new nat[256](_ => 0), new nat[LENGTH_CODES](_ => 0);
    var length := 0;
    LengthEnds();
    for code := 0 to LENGTH_CODES - 1
      invariant length == BaseLength(code)
      invariant LengthBasesTo(baseLength[..], code)
      invariant forall lc :: 0 <= lc < length && lc < 256 ==> lengthCode[lc] == LengthCodeShort(lc)
    {
      ghost var bases := baseLength[..];
      baseLength[code] := length;
      ghost var bases' := baseLength[..];
      assert bases' == bases[code := length];
      NextBase(code);
      BaseLengthMono(code + 1, 28);
      var n := Pow2(ExtraLBits(code));
      FillCode(lengthCode, length, n, code);
      forall lc | length <= lc < length + n ensures LengthCodeShort(lc) == code { LengthCodeAt(lc, code); }
      length := length + n;
      assert baseLength[..] == bases';
    }
    lengthCode[length - 1] := 28;
  }

  lemma {:induction false} DistCodeIs(d: nat, c: nat, k: nat)
    requires k <= c < D_CODES
    requires BaseDist(k) <= d < BaseDist(k) + Pow2(ExtraDBits(k))
    ensures DistCodeFrom(d, c) == k
  {
    hide Pow2, ExtraDBits;
    if k < c {
      BaseDistMono(k + 1, c);
      DistCodeIs(d, c - 1, k);
    }
  }

  lemma {:induction false} BaseDistMono(a: nat, b: nat)
    requires a <= b < D_CODES
    ensures BaseDist(a) <= BaseDist(b)
    decreases b - a
  {
    hide Pow2, ExtraDBits;
    if a < b { BaseDistMono(a, b - 1); }
  }

  // Two tables of 256: small distances one by one, the others in steps of 128.
  ghost predicate DistTable(distCode: seq<nat>) {
    && |distCode| == 512
    && (forall d :: 0 <= d < 256 ==> distCode[d] == DistCode(d))
    && (forall d: nat :: 2 <= Shr(d, 7) < 256 ==> distCode[256 + Shr(d, 7)] == DistCode(d))
  }

  method InitDistCodes() returns (distCode: array<nat>, baseDist: array<nat>)
    ensures fresh(distCode) && fresh(baseDist) && distCode.Length == 512 && baseDist.Length == D_CODES
      && DistTable(distCode[..])
    ensures DistBasesTo(baseDist[..], D_CODES)
  {
    hide Pow2, DistCode, DistCodeFrom, Shr, Shl, ExtraDBits, BaseDist;
    distCode, baseDist := new nat[512](_ => 0), new nat[D_CODES](_ => 0);
    var dist := 0;
    Marks();
    for code := 0 to 16
      invariant dist == BaseDist(code)
      invariant DistBasesTo(baseDist[..], code)
      invariant forall d :: 0 <= d < dist && d < 256 ==> distCode[d] == DistCode(d)
    {
      ghost var bases := baseDist[..];
      baseDist[code] := dist;
      ghost var bases' := baseDist[..];
      assert bases' == bases[code := dist];
      NextDist(code);
      BaseDistMono(code + 1, 16);
      var n := Pow2(ExtraDBits(code));
      FillCode(distCode, dist, n, code);
      forall d | dist <= d < dist + n ensures DistCode(d) == code { DistCodeAt(d, code); }
      dist := dist + n;
      assert baseDist[..] == bases';
    }
    InitLargeDists(distCode, baseDist, dist / 128);
  }

  lemma LengthEnds()
    ensures BaseLength(0) == 0 && BaseLength(28) == 256
  {
    Marks();
  }

  lemma LargeMarks()
    ensures BaseDist(16) == 256 && Shl(2, 7) == 256 && Shl(256, 7) == 32768
  {
    Marks();
  }

  // From here on the distances are divided by 128.
  method InitLargeDists(distCode: array<nat>, baseDist: array<nat>, start: nat)
    requires distCode.Length == 512 && baseDist.Length == D_CODES && distCode != baseDist && start == 2
    requires DistBasesTo(baseDist[..], 16)
    requires forall d :: 0 <= d < 256 ==> distCode[d] == DistCode(d)
    modifies distCode, baseDist
    ensures DistTable(distCode[..])
    ensures DistBasesTo(baseDist[..], D_CODES)
  {
    hide Pow2, DistCode, DistCodeFrom, Shr, Shl, ExtraDBits, BaseDist;
    LargeMarks();
    var dist := start;
    for code := 16 to D_CODES
      invariant 2 <= dist <= 256 && Shl(dist, 7) == (if code < 30 then BaseDist(code) else 32768)
      invariant DistBasesTo(baseDist[..], code)
      invariant forall d :: 0 <= d < 256 ==> distCode[d] == DistCode(d)
      invariant forall d: nat :: 2 <= Shr(d, 7) < dist ==> distCode[256 + Shr(d, 7)] == DistCode(d)
    {
      ghost var bases := baseDist[..];
      baseDist[code] := Shl(dist, 7);
      ghost var bases' := baseDist[..];
      assert bases' == bases[code := Shl(dist, 7)];
      StepEnd(code, dist);
      var n := Pow2(ExtraDBits(code) - 7);
      FillCode(distCode, 256 + dist, n, code);
      forall d: nat | dist <= Shr(d, 7) < dist + n
        ensures DistCode(d) == code
      {
        StepCode(d, code, dist, Shr(d, 7) - dist);
      }
      dist := dist + n;
      assert baseDist[..] == bases';
    }
    ShlLess(dist, 256, 7);
  }

  lemma BigStep(code: nat)
    requires 16 <= code < 30
    ensures ExtraDBits(code) >= 7
  {
  }

  lemma StepEnd(code: nat, first: nat)
    requires 16 <= code < 30 && Shl(first, 7) == BaseDist(code)
    ensures ExtraDBits(code) >= 7
    ensures Shl(first + Pow2(ExtraDBits(code) - 7), 7) == (if code < 29 then BaseDist(code + 1) else 32768)
    ensures first + Pow2(ExtraDBits(code) - 7) <= 256
  {
    hide Pow2, Shl, BaseDist, ExtraDBits;
    BigStep(code);
    NextStart(code);
    StepSum(first, ExtraDBits(code) - 7, BaseDist(code) + Pow2(ExtraDBits(code)));
  }

  lemma NextStart(code: nat)
    requires code < 30
    ensures BaseDist(code) + Pow2(ExtraDBits(code)) == (if code < 29 then BaseDist(code + 1) else 32768) <= 32768
  {
    hide Pow2, ExtraDBits, BaseDist;
    Marks();
    if code < 29 { NextDist(code); BaseDistMono(code + 1, 29); }
  }

  lemma StepSum(first: nat, k: nat, next: nat)
    requires next == Shl(first, 7) + Pow2(k + 7) <= 32768
    ensures Shl(first + Pow2(k), 7) == next && first + Pow2(k) <= 256
  {
    ShlAdd(first, Pow2(k), 7);
    ShlPow2(k, 7);
    ShlLess(256, first + Pow2(k), 7);
    assert Shl(256, 7) == 32768;
  }

  lemma StepCode(d: nat, code: nat, first: nat, n: nat)
    requires 16 <= code < 30 && Shl(first, 7) == BaseDist(code)
    requires ExtraDBits(code) >= 7 && n < Pow2(ExtraDBits(code) - 7) && Shr(d, 7) == first + n
    ensures DistCode(d) == code
  {
    hide ExtraDBits;
    hide Pow2, Shl, Shr, Low, BaseDist, DistCode;
    var k := ExtraDBits(code) - 7;
    Split(d, 7);
    ShlAdd(first, n, 7);
    ShlPow2(k, 7);
    ShlLess(n, Pow2(k), 7);
    DistCodeAt(d, code);
  }

  // The d_code macro.
  method DCode(distCode: array<nat>, dist: nat) returns (c: nat)
    requires DistTable(distCode[..]) && dist < 32768
    ensures c == DistCode(dist)
  {
    BigDist(dist);
    c := if dist < 256 then distCode[..][dist] else distCode[..][256 + Shr(dist, 7)];
  }

  lemma BigDist(dist: nat)
    requires dist < 32768
    ensures Shr(dist, 7) < 256 && (dist >= 256 ==> Shr(dist, 7) >= 2)
  {
    assert Pow2(7) == 128;
    ShlPow2(7, 8);
    assert Pow2(8) == 256;
    ShrBound(dist, 8, 7);
    if dist >= 256 {
      ShrMono(256, dist, 7);
      assert Shr(256, 7) == 2;
    }
  }
}
