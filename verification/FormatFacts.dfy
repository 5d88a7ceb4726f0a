/** The constants of RFC 1951 as the RFC itself gives them, in other words than the definitions the model computes with:
    the order of the code length code, the fixed codes of section 3.2.6, and the marks of section 3.2.4. */
module FormatFacts {
  import opened Bits
  import opened BitStream
  import opened Canon
  import opened CodeLengthCoding
  import opened DecodeTable
  import opened Rfc1951
  import opened Lz77
  import opened Block
  import Compress
  import GenCodes

  // ---- the order of the code length code ----

  function Distance(a: int, b: int): nat {
    if a <= b then b - a else a - b
  }

  /** The three run symbols and zero come first; then the lengths by their distance from 8, the lower one first. */
  lemma OrderByDistance(i: nat)
    requires i < 19
    ensures i < 3 ==> Order(i) == 16 + i
    ensures i == 3 ==> Order(i) == 0
    ensures i > 3 ==> Order(i) == if i % 2 == 0 then 8 + (i - 4) / 2 else 7 - (i - 5) / 2
    ensures forall j :: 3 < j < i ==> (
      || Distance(8, Order(j)) < Distance(8, Order(i))
      || (Distance(8, Order(j)) == Distance(8, Order(i)) && Order(j) < Order(i)))
  {
  }

  /** The length sent i-th belongs to the i-th symbol of that order; symbols whose rank is not sent have none. */
  lemma SentInOrder(have: seq<nat>, i: nat)
    requires |have| <= 19 && i < 19
    ensures ByOrder(have)[Order(i)] == if i < |have| then have[i] else 0
  {
    OrderRank(i);
  }

  // ---- the fixed codes ----

  // Codes of section 3.2.6: 00110000 to 10111111, 110010000 to 111111111, 0000000 to 0010111, 11000000 to 11000111.
  function FixedCode(s: nat): nat {
    if s <= 143 then 0x30 + s
    else if s <= 255 then 0x190 + (s - 144)
    else if s <= 279 then s - 256
    else 0xc0 + (s - 280)
  }

  lemma FixedStart(l: nat)
    requires 7 <= l <= 9
    ensures Shr(Base(FixedCodes().ll, l), MAXBITS - l) == if l == 7 then 0 else if l == 8 then 48 else 400
  {
    hide FixedCodes, CountTo, Base, Shl, Shr, Pow2;
    var ll := FixedCodes().ll;
    forall k: nat ensures Count(ll, k) == (if k == 7 then 24 else if k == 8 then 152 else if k == 9 then 112 else 0) {
      FixedCounts(k);
    }
    BaseFlat(ll, 1, 7);
    FixedStarts(ll);
  }

  lemma FixedStarts(ll: seq<nat>)
    requires Count(ll, 7) == 24 && Count(ll, 8) == 152 && Base(ll, 7) == Base(ll, 1)
    ensures Shr(Base(ll, 7), 8) == 0 && Shr(Base(ll, 8), 7) == 48 && Shr(Base(ll, 9), 6) == 400
  {
    assert Shl(24, 8) == 6144 && Shl(152, 7) == 19456;
    assert Base(ll, 1) == 0;
    assert Base(ll, 8) == Base(ll, 7) + Shl(Count(ll, 7), 8);
    assert Base(ll, 9) == Base(ll, 8) + Shl(Count(ll, 8), 7);
    assert Shr(0, 8) == 0 && Shr(6144, 7) == 48 && Shr(25600, 6) == 400;
  }

  lemma FixedSegments()
    ensures
      var ll := FixedCodes().ll;
      && |ll| == 288 && (forall i :: 0 <= i < 144 ==> ll[i] == 8) && (forall i :: 144 <= i < 256 ==> ll[i] == 9)
      && (forall i :: 256 <= i < 280 ==> ll[i] == 7) && (forall i :: 280 <= i < 288 ==> ll[i] == 8)
  {
  }

  lemma NoneBefore(lens: seq<nat>, l: nat)
    ensures CountTo(lens, 0, l) == 0
  {
  }

  // Earlier symbols with a code of the same length.
  lemma FixedRank(s: nat)
    requires s < 288
    ensures
      var ll := FixedCodes().ll;
      CountTo(ll, s, ll[s]) ==
        if s <= 143 then s else if s <= 255 then s - 144 else if s <= 279 then s - 256 else 144 + (s - 280)
  {
    hide CountTo, FixedCodes;
    var ll := FixedCodes().ll;
    FixedSegments();
    var l := ll[s];
    NoneBefore(ll, l);
    CountSegment(ll, 0, if s < 144 then s else 144, 8, l);
    if s >= 144 { CountSegment(ll, 144, if s < 256 then s else 256, 9, l); }
    if s >= 256 { CountSegment(ll, 256, if s < 280 then s else 280, 7, l); }
    if s >= 280 { CountSegment(ll, 280, s, 8, l); }
  }

  lemma DistanceCode(s: nat)
    requires s < 32
    ensures HasCode(FixedCodes().dl, s) && FixedCodes().dl[s] == 5 && CodeOf(FixedCodes().dl, s) == s
  {
    hide Base, Shl, Shr, Pow2;
    var dl := FixedCodes().dl;
    FixedComplete();
    forall l: nat ensures Count(dl, l) == (if l == 5 then 32 else 0) { FixedCounts(l); }
    BaseFlat(dl, 1, 5);
    CountSegment(dl, 0, s, 5, 5);
    Compress.BaseOne(dl);
    Compress.ShrNone(MAXBITS - 5);
    GenCodes.CodeIsRank(dl, s);
  }

  /** The fixed code of every literal and length symbol, and of every distance symbol, as section 3.2.6 lists them. */
  lemma FixedCodesListed(s: nat)
    ensures s < 288 ==> HasCode(FixedCodes().ll, s) && CodeOf(FixedCodes().ll, s) == FixedCode(s)
    ensures s < 288 ==> FixedCodes().ll[s] == if s <= 143 then 8 else if s <= 255 then 9 else if s <= 279 then 7 else 8
    ensures s < 32 ==> HasCode(FixedCodes().dl, s) && FixedCodes().dl[s] == 5 && CodeOf(FixedCodes().dl, s) == s
  {
    hide FixedCodes, CountTo, Base, Shl, Shr, Pow2;
    FixedComplete();
    FixedSegments();
    var ll, dl := FixedCodes().ll, FixedCodes().dl;
    if s < 288 {
      FixedStart(ll[s]);
      FixedRank(s);
      GenCodes.CodeIsRank(ll, s);
    }
    if s < 32 {
      DistanceCode(s);
    }
  }

  // ---- lengths, distances and runs ----

  /** Section 3.2.5: after the first four codes of length, and the first two of distance, the number of extra bits grows
      by one with every four and every two codes, and the bases go on where the codes before end; 258 has its own. */
  lemma LengthTable(c: nat)
    requires c < 29
    ensures c < 8 ==> LengthBase(c) == 3 + c && LengthExtra(c) == 16
    ensures 8 <= c < 28 ==>
      LengthExtra(c) == 16 + (c - 4) / 4 && LengthBase(c) == 3 + (4 + c % 4) * Pow2((c - 4) / 4)
    ensures c == 28 ==> LengthBase(c) == 258 && LengthExtra(c) == 16
  {
    SmallPowers();
    hide Pow2;
  }

  lemma DistanceTable(c: nat)
    requires c < 30
    ensures c < 4 ==> DistBase(c) == 1 + c && DistExtra(c) == 16
    ensures c >= 4 ==> DistExtra(c) == 16 + (c - 2) / 2 && DistBase(c) == 1 + (2 + c % 2) * Pow2((c - 2) / 2)
  {
    SmallPowers();
    hide Pow2;
  }

  lemma SmallPowers()
    ensures Pow2(1) == 2 && Pow2(2) == 4 && Pow2(3) == 8 && Pow2(4) == 16 && Pow2(5) == 32 && Pow2(6) == 64
    ensures Pow2(7) == 128 && Pow2(8) == 256 && Pow2(9) == 512 && Pow2(10) == 1024 && Pow2(11) == 2048
    ensures Pow2(12) == 4096 && Pow2(13) == 8192
  {
  }

  /** Section 3.2.7: the symbols 16, 17 and 18 stand for runs of 3 to 6, 3 to 10 and 11 to 138 lengths; the first is
      that of extra bits that are all zero, the last that of extra bits that are all one. */
  lemma RunsRead(cl: seq<nat>, b: seq<bool>, s: nat, n: nat)
    requires Rfc1951.Decode(cl, b) == Sym(s, n) && 16 <= s <= 18 && n + 7 <= |b|
    ensures
      var extra := if s == 16 then 2 else if s == 17 then 3 else 7;
      && ReadOp(cl, b).Some? && ReadOp(cl, b).value.1 == n + extra
      && var op, bits := ReadOp(cl, b).value.0, b[n..n + extra];
         && op.Symbol() == s && op.InRange() && op.ExtraBits() == extra
         && (NoneSet(bits) ==> op == if s == 16 then Rep(3) else if s == 17 then Zeros3(3) else Zeros11(11))
         && (AllSet(bits) ==> op == if s == 16 then Rep(6) else if s == 17 then Zeros3(10) else Zeros11(138))
  {
    hide Rfc1951.Decode, Val, Pow2, NoneSet, AllSet;
    var bits := b[n..n + if s == 16 then 2 else if s == 17 then 3 else 7];
    SmallPowers();
    ValBounds(bits);
  }

  predicate NoneSet(b: seq<bool>) {
    forall i :: 0 <= i < |b| ==> !b[i]
  }

  predicate AllSet(b: seq<bool>) {
    forall i :: 0 <= i < |b| ==> b[i]
  }

  lemma ValBounds(b: seq<bool>)
    ensures Val(b) < Pow2(|b|)
    ensures NoneSet(b) ==> Val(b) == 0
    ensures AllSet(b) ==> Val(b) == Pow2(|b|) - 1
  {
    hide Val, Pow2;
    if NoneSet(b) { ZeroVal(b); }
    if AllSet(b) { OnesVal(b); }
  }

  lemma {:induction false} ZeroVal(b: seq<bool>)
    requires forall i :: 0 <= i < |b| ==> !b[i]
    ensures Val(b) == 0
  {
    if b != [] { ZeroVal(b[1..]); }
  }

  lemma {:induction false} OnesVal(b: seq<bool>)
    requires forall i :: 0 <= i < |b| ==> b[i]
    ensures Val(b) == Pow2(|b|) - 1
  {
    if b != [] { OnesVal(b[1..]); }
  }

  // ---- the marks of a flush ----

  /** The empty stored block: after the padding the four octets 00 00 ff ff. */
  lemma SyncMarkBits(pad: seq<bool>)
    ensures 0 < Pow2(16) && StoredBits(pad, [], false) ==
      [false, false, false] + (pad + BytesBits([0, 0, 0xff, 0xff]))
  {
    hide BytesBits, BitsOf, TypeBits, Pow2;
    Pow16();
    ThreeBits(0, false);
    Halves();
    TwoOctets(0, 0);
    TwoOctets(0xffff, 0xff);
    BytesBitsConcat([0, 0], [0xff, 0xff]);
    assert [0, 0] + [0xff, 0xff] == [0, 0, 0xff, 0xff];
    NoBytes();
  }

  lemma TwoOctets(v: nat, b: Byte)
    requires Shr(v, 8) == b && BitsOf(v, 8) == BitsOf(b, 8)
    ensures BitsOf(v, 16) == BytesBits([b, b])
  {
    hide BitsOf, BytesBits;
    BitsOfConcat(v, 8, 8);
    BytesBitsOne(b);
    BytesBitsConcat([b], [b]);
    assert [b] + [b] == [b, b];
  }

  lemma Halves()
    ensures Shr(0, 8) == 0 && Shr(0xffff, 8) == 0xff && BitsOf(0xffff, 8) == BitsOf(0xff, 8)
  {
    Pow2Mono(8, 8);
    assert Low(0xffff, 8) == 0xff;
    BitsOfLow(0xffff, 8, 8);
  }

  lemma NoBytes()
    ensures BytesBits([]) == []
  {
  }

  lemma ThreeBits(t: nat, last: bool)
    requires t < 4
    ensures TypeBits(t, last) == [last, t % 2 == 1, t >= 2]
  {
    var v := 2 * t + if last then 1 else 0;
    assert BitsOf(v / 8, 0) == [];
    assert BitsOf(v / 4, 1) == [v / 4 % 2 == 1] + BitsOf(v / 8, 0);
    assert BitsOf(v / 2, 2) == [v / 2 % 2 == 1] + BitsOf(v / 4, 1);
  }

  /** The empty block with the fixed codes: ten bits, all zero but the one that says fixed. */
  lemma AlignMarkBits()
    ensures FixedBits([], false) == [false, true, false] + seq(7, _ => false)
  {
    hide FixedCodes, Huff, BitsOf, TypeBits, Pow2, Shl, Shr, Base, Rev, CodeOf, Pos, FixedCode, CountTo;
    FixedCodesAll([]);
    EndCode();
    ThreeBits(1, false);
    ZeroBits(7);
    assert TokensBits(FixedCodes(), []) == [];
  }

  lemma EndCode()
    ensures HasCode(FixedCodes().ll, 256) && FixedCodes().ll[256] == 7 && Huff(FixedCodes().ll, 256) == 0
  {
    hide FixedCodes, Pow2, Shl, Shr, Base, Rev, CodeOf, Pos, CountTo;
    FixedCodesListed(256);
    FixedComplete();
    CodeBounds(FixedCodes().ll, 256);
    RevZero(7);
  }

  lemma {:induction false} ZeroBits(n: nat)
    ensures BitsOf(0, n) == seq(n, _ => false)
  {
    if n > 0 { ZeroBits(n - 1); }
  }
}
