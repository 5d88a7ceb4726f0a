/** Checksums of particular texts, and the residue: what a receiver finds who includes the checksum itself. */
module CrcValues {
  import opened Bits
  import opened BitStream
  import opened CrcRegister
  import opened Crc32
  import opened CrcCombine

  // On machine words, hidden in what follows from each other.
  function Odd(v: bv32): bool { v & 1 != 0 }
  function Half(v: bv32): bv32 { v >> 1 }
  function Sum(v: bv32, w: bv32): bv32 { v ^ w }

  // Bit i of a machine word.
  function BitOf(v: bv32, i: nat): bool {
    if i == 0 then Odd(v) else BitOf(Half(v), i - 1)
  }

  function Bv(v: bv32): Word {
    seq(32, i requires 0 <= i < 32 => BitOf(v, i))
  }

  lemma BitNext(v: bv32, i: nat)
    ensures BitOf(v, 0) == Odd(v) && BitOf(v, i + 1) == BitOf(Half(v), i)
  {
    hide Odd, Half;
  }

  lemma {:induction false} BitSum(v: bv32, w: bv32, i: nat)
    ensures BitOf(Sum(v, w), i) == (BitOf(v, i) != BitOf(w, i))
    decreases i
  {
    hide Odd, Half, Sum;
    OddSum(v, w);
    HalfSum(v, w);
    if i > 0 { BitSum(Half(v), Half(w), i - 1); }
  }

  lemma HalfSum(v: bv32, w: bv32)
    ensures Half(Sum(v, w)) == Sum(Half(v), Half(w))
  {
  }

  lemma OddSum(v: bv32, w: bv32)
    ensures Odd(Sum(v, w)) == (Odd(v) != Odd(w))
  {
  }

  // The first k bits are those of the number n.
  predicate Agree(v: bv32, n: nat, k: nat)
    decreases k
  {
    k == 0 || (Odd(v) == (n % 2 == 1) && Agree(Half(v), n / 2, k - 1))
  }

  lemma {:induction false} AgreeBits(v: bv32, n: nat, k: nat, i: nat)
    requires Agree(v, n, k) && i < k
    ensures BitOf(v, i) == BitsOf(n, k)[i]
    decreases k
  {
    hide Odd, Half;
    if i > 0 { AgreeBits(Half(v), n / 2, k - 1, i - 1); }
  }

  lemma AgreeAll(v: bv32, n: nat)
    requires Agree(v, n, 32)
    ensures Bv(v) == BitsOf(n, 32)
  {
    hide BitOf, BitsOf, Agree;
    forall i: nat | i < 32 ensures Bv(v)[i] == BitsOf(n, 32)[i] { AgreeBits(v, n, 32, i); }
  }

  function One(b: bool): nat { if b then 1 else 0 }

  lemma AgreeFour(v: bv32, w: bv32, n: nat, m: nat, k: nat)
    requires w == Half(Half(Half(Half(v)))) && Agree(w, m, k)
    requires n == 16 * m + One(Odd(v)) + 2 * One(Odd(Half(v))) + 4 * One(Odd(Half(Half(v))))
      + 8 * One(Odd(Half(Half(Half(v)))))
    ensures Agree(v, n, k + 4)
  {
    hide Agree, One, Odd, Half;
    var v1 := Half(v);
    var v2 := Half(v1);
    var v3 := Half(v2);
    var m3 := 2 * m + One(Odd(v3));
    var m2 := 2 * m3 + One(Odd(v2));
    var m1 := 2 * m2 + One(Odd(v1));
    AgreeOne(v3, m, k);
    AgreeOne(v2, m3, k + 1);
    AgreeOne(v1, m2, k + 2);
    AgreeOne(v, m1, k + 3);
  }

  lemma AgreeOne(v: bv32, m: nat, k: nat)
    requires Agree(Half(v), m, k)
    ensures Agree(v, 2 * m + One(Odd(v)), k + 1)
  {
    hide Odd, Half, One;
    LowOne(m, Odd(v));
  }

  lemma LowOne(m: nat, b: bool)
    ensures ((2 * m + One(b)) % 2 == 1) == b && (2 * m + One(b)) / 2 == m
  {
  }

  lemma {:induction false} AgreeZero(k: nat)
    ensures Agree(0, 0, k)
    decreases k
  {
    if k > 0 { AgreeZero(k - 1); }
  }

  lemma PolyDigits()
    ensures Bv(0xedb88320) == BitsOf(0xedb88320, 32)
  {
    hide Agree, Bv, BitsOf;
    AgreeZero(0);
    AgreeFour(0xe, 0, 0xe, 0, 0);
    AgreeFour(0xed, 0xe, 0xed, 0xe, 4);
    AgreeFour(0xedb, 0xed, 0xedb, 0xed, 8);
    AgreeFour(0xedb8, 0xedb, 0xedb8, 0xedb, 12);
    AgreeFour(0xedb88, 0xedb8, 0xedb88, 0xedb8, 16);
    AgreeFour(0xedb883, 0xedb88, 0xedb883, 0xedb88, 20);
    AgreeFour(0xedb8832, 0xedb883, 0xedb8832, 0xedb883, 24);
    AgreeFour(0xedb88320, 0xedb8832, 0xedb88320, 0xedb8832, 28);
    AgreeAll(0xedb88320, 0xedb88320);
  }

  lemma OnesDigits()
    ensures Bv(0xffffffff) == BitsOf(0xffffffff, 32)
  {
    hide Agree, Bv, BitsOf;
    AgreeZero(0);
    AgreeFour(0xf, 0, 0xf, 0, 0);
    AgreeFour(0xff, 0xf, 0xff, 0xf, 4);
    AgreeFour(0xfff, 0xff, 0xfff, 0xff, 8);
    AgreeFour(0xffff, 0xfff, 0xffff, 0xfff, 12);
    AgreeFour(0xfffff, 0xffff, 0xfffff, 0xffff, 16);
    AgreeFour(0xffffff, 0xfffff, 0xffffff, 0xfffff, 20);
    AgreeFour(0xfffffff, 0xffffff, 0xfffffff, 0xffffff, 24);
    AgreeFour(0xffffffff, 0xfffffff, 0xffffffff, 0xfffffff, 28);
    AgreeAll(0xffffffff, 0xffffffff);
  }

  lemma {:induction false} AllOnes(n: nat, i: nat)
    requires i < n
    ensures BitsOf(Pow2(n) - 1, n)[i]
  {
    assert (Pow2(n) - 1) / 2 == Pow2(n - 1) - 1;
    if i > 0 { AllOnes(n - 1, i - 1); }
  }

  lemma Power32()
    ensures Pow2(32) == 0x1_0000_0000
  {
    assert Pow2(8) == 256;
    ShlPow2(8, 8);
    assert Shl(256, 8) == 0x1_0000;
    ShlPow2(16, 8);
    assert Shl(0x1_0000, 8) == 0x100_0000;
    ShlPow2(24, 8);
    assert Shl(0x100_0000, 8) == 0x1_0000_0000;
  }

  lemma Ones()
    ensures Bv(0xffffffff) == Not(Zero())
  {
    hide Bv, BitsOf, Pow2;
    OnesDigits();
    Power32();
    forall i: nat | i < 32 ensures BitsOf(0xffffffff, 32)[i] { AllOnes(32, i); }
  }

  lemma SumIs(v: bv32, w: bv32)
    ensures Bv(Sum(v, w)) == Xor(Bv(v), Bv(w))
  {
    hide BitOf, Sum;
    forall i: nat | i < 32 ensures BitOf(Sum(v, w), i) == (BitOf(v, i) != BitOf(w, i)) { BitSum(v, w, i); }
  }

  lemma NotIs(v: bv32)
    ensures Not(Bv(v)) == Bv(Sum(v, 0xffffffff))
  {
    hide Bv, Sum;
    Ones();
    SumIs(v, 0xffffffff);
  }

  // ---- the register ----

  function Shifted(v: bv32): bv32 {
    if Odd(v) then Sum(0xedb88320, Half(v)) else Half(v)
  }

  lemma BitEight(v: bv32, i: nat)
    ensures BitOf(v, i + 8) == BitOf(Half(Half(Half(Half(Half(Half(Half(Half(v)))))))), i)
  {
    hide BitOf, Half;
    var v2 := Half(Half(v));
    var v4 := Half(Half(v2));
    var v6 := Half(Half(v4));
    BitTwo(v, i + 6);
    BitTwo(v2, i + 4);
    BitTwo(v4, i + 2);
    BitTwo(v6, i);
  }

  lemma BitTwo(v: bv32, i: nat)
    ensures BitOf(v, i + 2) == BitOf(Half(Half(v)), i)
  {
    hide Half, Odd;
  }

  function DropOctet(v: bv32): bv32 { v >> 8 }

  lemma HalfEight(v: bv32)
    ensures Half(Half(Half(Half(Half(Half(Half(Half(v)))))))) == DropOctet(v)
  {
  }

  lemma DownBit(v: bv32, i: nat)
    ensures BitOf(v, i + 8) == BitOf(DropOctet(v), i)
  {
    hide BitOf, Half, DropOctet;
    BitEight(v, i);
    HalfEight(v);
  }

  lemma TopBit(v: bv32)
    ensures !BitOf(v, 32)
  {
    hide BitOf, Half, DropOctet, Odd;
    DownBit(v, 24);
    DownBit(DropOctet(v), 16);
    DownBit(DropOctet(DropOctet(v)), 8);
    DownBit(DropOctet(DropOctet(DropOctet(v))), 0);
    BitNext(DropOctet(DropOctet(DropOctet(DropOctet(v)))), 0);
    NothingLeft(v);
  }

  lemma NothingLeft(v: bv32)
    ensures !Odd(DropOctet(DropOctet(DropOctet(DropOctet(v)))))
  {
  }

  lemma HalfIs(v: bv32)
    ensures Bv(Half(v)) == Bv(v)[1..] + [false]
  {
    hide BitOf, Half;
    TopBit(v);
    forall i: nat | i < 32 ensures Bv(Half(v))[i] == (Bv(v)[1..] + [false])[i] { BitNext(v, i); }
  }

  lemma ShiftedIsStep(v: bv32)
    ensures Bv(Shifted(v)) == Step(Bv(v))
  {
    hide BitsOf, BitOf, Odd, Half, Sum;
    BitNext(v, 0);
    PolyConstant();
    PolyDigits();
    HalfIs(v);
    SumIs(0xedb88320, Half(v));
  }

  // Eight zero bits.
  function Eight(v: bv32): bv32 {
    Shifted(Shifted(Shifted(Shifted(Shifted(Shifted(Shifted(Shifted(v))))))))
  }

  lemma TwoIs(v: bv32)
    ensures Bv(Shifted(Shifted(v))) == Zeros(Bv(v), 2)
  {
    hide Shifted, Bv, Step;
    ShiftedIsStep(v);
    ShiftedIsStep(Shifted(v));
    assert Zeros(Step(Step(Bv(v))), 0) == Step(Step(Bv(v)));
  }

  lemma EightIs(v: bv32)
    ensures Bv(Eight(v)) == Zeros(Bv(v), 8)
  {
    hide Shifted, Bv, Zeros;
    var v2 := Shifted(Shifted(v));
    var v4 := Shifted(Shifted(v2));
    var v6 := Shifted(Shifted(v4));
    TwoIs(v);
    TwoIs(v2);
    TwoIs(v4);
    TwoIs(v6);
    ZerosPlus(Bv(v), 2, 2);
    ZerosPlus(Bv(v), 4, 2);
    ZerosPlus(Bv(v), 6, 2);
  }

  // One octet n, as the machine word b.
  lemma OctetIs(c: bv32, b: bv32, n: Byte, r: bv32)
    requires Agree(b, n, 32) && Eight(Sum(c, b)) == r
    ensures Register(Bv(c), BytesBits([n])) == Bv(r)
  {
    hide Bv, Zeros, Register, BitsOf, Agree, Eight, BytesBits, Xor;
    FeedByte(Bv(c), n);
    AgreeAll(b, n);
    NumberIs(n);
    SumIs(c, b);
    EightIs(Sum(c, b));
  }

  lemma NumberIs(n: Byte)
    ensures Number(n) == BitsOf(n, 32)
  {
    hide BitsOf;
    assert Pow2(8) == 256;
    LowSmall(n, 8);
    BitsOfConcat(n, 8, 24);
    NoBits(24);
  }

  lemma {:induction false} NoBits(n: nat)
    ensures BitsOf(0, n) == Fill(n)
  {
    if n > 0 { NoBits(n - 1); }
  }

  // One more octet of a text.
  lemma Longer(start: Word, s: seq<Byte>, c: bv32, b: bv32, n: Byte, r: bv32)
    requires Register(start, BytesBits(s)) == Bv(c) && Agree(b, n, 32) && Eight(Sum(c, b)) == r
    ensures Register(start, BytesBits(s + [n])) == Bv(r)
  {
    hide Bv, Register, Agree, Eight, BytesBits;
    OctetIs(c, b, n, r);
    BytesBitsConcat(s, [n]);
    RegisterConcat(start, BytesBits(s), BytesBits([n]));
  }

  lemma Nothing(start: Word)
    ensures Register(start, BytesBits([])) == start
  {
  }

  // The checksum of a text from the register it leaves.
  lemma FromRegister(s: seq<Byte>, c: bv32, n: nat)
    requires Register(Not(Zero()), BytesBits(s)) == Bv(c) && Agree(Sum(c, 0xffffffff), n, 32)
    ensures Crc(Zero(), s) == BitsOf(n, 32)
  {
    hide Bv, Register, Agree, BytesBits, BitsOf, Not;
    NotIs(c);
    AgreeAll(Sum(c, 0xffffffff), n);
  }

  /** The octet zero has the checksum d202ef8d. */
  lemma OfZero()
    ensures Crc(Zero(), [0]) == BitsOf(0xd202ef8d, 32)
  {
    hide Bv, Register, Agree, BytesBits, BitsOf, Not;
    AgreeZero(32);
    Ones();
    Nothing(Not(Zero()));
    Longer(Not(Zero()), [], 0xffffffff, 0, 0, 0x2dfd1072);
    assert [] + [0] == [0];
    ZeroDigits();
    FromRegister([0], 0x2dfd1072, 0xd202ef8d);
  }

  lemma ZeroDigits()
    ensures Agree(0xd202ef8d, 0xd202ef8d, 32)
  {
    hide Agree;
    AgreeZero(0);
    AgreeFour(0xd, 0, 0xd, 0, 0);
    AgreeFour(0xd2, 0xd, 0xd2, 0xd, 4);
    AgreeFour(0xd20, 0xd2, 0xd20, 0xd2, 8);
    AgreeFour(0xd202, 0xd20, 0xd202, 0xd20, 12);
    AgreeFour(0xd202e, 0xd202, 0xd202e, 0xd202, 16);
    AgreeFour(0xd202ef, 0xd202e, 0xd202ef, 0xd202e, 20);
    AgreeFour(0xd202ef8, 0xd202ef, 0xd202ef8, 0xd202ef, 24);
    AgreeFour(0xd202ef8d, 0xd202ef8, 0xd202ef8d, 0xd202ef8, 28);
  }

  lemma CheckDigits()
    ensures Agree(0xcbf43926, 0xcbf43926, 32)
  {
    hide Agree;
    AgreeZero(0);
    AgreeFour(0xc, 0, 0xc, 0, 0);
    AgreeFour(0xcb, 0xc, 0xcb, 0xc, 4);
    AgreeFour(0xcbf, 0xcb, 0xcbf, 0xcb, 8);
    AgreeFour(0xcbf4, 0xcbf, 0xcbf4, 0xcbf, 12);
    AgreeFour(0xcbf43, 0xcbf4, 0xcbf43, 0xcbf4, 16);
    AgreeFour(0xcbf439, 0xcbf43, 0xcbf439, 0xcbf43, 20);
    AgreeFour(0xcbf4392, 0xcbf439, 0xcbf4392, 0xcbf439, 24);
    AgreeFour(0xcbf43926, 0xcbf4392, 0xcbf43926, 0xcbf4392, 28);
  }

  lemma ResidueDigits()
    ensures Agree(0x2144df1c, 0x2144df1c, 32)
  {
    hide Agree;
    AgreeZero(0);
    AgreeFour(0x2, 0, 0x2, 0, 0);
    AgreeFour(0x21, 0x2, 0x21, 0x2, 4);
    AgreeFour(0x214, 0x21, 0x214, 0x21, 8);
    AgreeFour(0x2144, 0x214, 0x2144, 0x214, 12);
    AgreeFour(0x2144d, 0x2144, 0x2144d, 0x2144, 16);
    AgreeFour(0x2144df, 0x2144d, 0x2144df, 0x2144d, 20);
    AgreeFour(0x2144df1, 0x2144df, 0x2144df1, 0x2144df, 24);
    AgreeFour(0x2144df1c, 0x2144df1, 0x2144df1c, 0x2144df1, 28);
  }

  lemma FigureDigits(b: bv32, n: nat)
    requires 0x31 <= n <= 0x39
    requires b == match n
      case 0x31 => 0x31 case 0x32 => 0x32 case 0x33 => 0x33 case 0x34 => 0x34 case 0x35 => 0x35 case 0x36 => 0x36
      case 0x37 => 0x37 case 0x38 => 0x38 case _ => 0x39
    ensures Agree(b, n, 32)
  {
    hide Agree;
    AgreeZero(24);
    AgreeFour(3, 0, 3, 0, 24);
    AgreeFour(b, 3, n, 3, 28);
  }

  // The register after the figures 1 to 3.
  lemma Figures3()
    ensures Register(Not(Zero()), BytesBits([0x31, 0x32, 0x33])) == Bv(0x77b79c2d)
  {
    hide Bv, Register, Agree, BytesBits, BitsOf, Not;
    var o := Not(Zero());
    Ones();
    Nothing(o);
    var s: seq<Byte> := [];
    FigureDigits(0x31, 0x31);
    Longer(o, s, 0xffffffff, 0x31, 0x31, 0x7c231048);
    s := s + [0x31];
    FigureDigits(0x32, 0x32);
    Longer(o, s, 0x7c231048, 0x32, 0x32, 0xb0acbb32);
    s := s + [0x32];
    FigureDigits(0x33, 0x33);
    Longer(o, s, 0xb0acbb32, 0x33, 0x33, 0x77b79c2d);
    s := s + [0x33];
    assert s == [0x31, 0x32, 0x33];
  }

  // The register after the figures 1 to 6.
  lemma Figures6()
    ensures Register(Not(Zero()), BytesBits([0x31, 0x32, 0x33, 0x34, 0x35, 0x36])) == Bv(0xf68d2c9e)
  {
    hide Bv, Register, Agree, BytesBits, BitsOf, Not;
    var o := Not(Zero());
    Figures3();
    var s: seq<Byte> := [0x31, 0x32, 0x33];
    FigureDigits(0x34, 0x34);
    Longer(o, s, 0x77b79c2d, 0x34, 0x34, 0x641c1f5c);
    s := s + [0x34];
    FigureDigits(0x35, 0x35);
    Longer(o, s, 0x641c1f5c, 0x35, 0x35, 0x340ac5e3);
    s := s + [0x35];
    FigureDigits(0x36, 0x36);
    Longer(o, s, 0x340ac5e3, 0x36, 0x36, 0xf68d2c9e);
    s := s + [0x36];
    assert s == [0x31, 0x32, 0x33, 0x34, 0x35, 0x36];
  }

  // The register after the figures 1 to 9.
  lemma Figures9()
    ensures Register(Not(Zero()), BytesBits([0x31, 0x32, 0x33, 0x34, 0x35, 0x36, 0x37, 0x38, 0x39])) == Bv(0x340bc6d9)
  {
    hide Bv, Register, Agree, BytesBits, BitsOf, Not;
    var o := Not(Zero());
    Figures6();
    var s: seq<Byte> := [0x31, 0x32, 0x33, 0x34, 0x35, 0x36];
    FigureDigits(0x37, 0x37);
    Longer(o, s, 0xf68d2c9e, 0x37, 0x37, 0xaffc9660);
    s := s + [0x37];
    FigureDigits(0x38, 0x38);
    Longer(o, s, 0xaffc9660, 0x38, 0x38, 0x651f2550);
    s := s + [0x38];
    FigureDigits(0x39, 0x39);
    Longer(o, s, 0x651f2550, 0x39, 0x39, 0x340bc6d9);
    s := s + [0x39];
    assert s == [0x31, 0x32, 0x33, 0x34, 0x35, 0x36, 0x37, 0x38, 0x39];
  }

  /** The check value of the algorithm: the text 123456789 has the checksum cbf43926. */
  lemma OfFigures()
    ensures Crc(Zero(), [0x31, 0x32, 0x33, 0x34, 0x35, 0x36, 0x37, 0x38, 0x39]) == BitsOf(0xcbf43926, 32)
  {
    hide Bv, Register, Agree, BytesBits, BitsOf, Not;
    Figures9();
    CheckDigits();
    FromRegister([0x31, 0x32, 0x33, 0x34, 0x35, 0x36, 0x37, 0x38, 0x39], 0x340bc6d9, 0xcbf43926);
  }

  // ---- the residue ----

  // The octets of a checksum, low one first.
  function Octets(c: Word): seq<Byte> {
    [Byte0(c), Byte1(c), Byte2(c), Byte3(c)]
  }

  lemma OctetBits(c: Word)
    ensures BytesBits(Octets(c)) == c
  {
    hide AsByte, BitsOf, BytesBits;
    FourBits(Octets(c));
    AsByteBits(c[..8]);
    AsByteBits(c[8..16]);
    AsByteBits(c[16..24]);
    AsByteBits(c[24..]);
  }

  // A register that is fed its own complement.
  lemma OwnComplement(r: Word)
    ensures Register(r, Not(r)) == Bv(0xdebb20e3)
  {
    hide Bv, Register, Zeros, BitOf;
    RegisterWord(r, Not(r));
    Ones();
    assert Xor(r, Pad(Not(r))) == Not(Zero());
    hide Xor, Not, Pad;
    assert Eight(0xffffffff) == 0x2dfd1072 && Eight(0x2dfd1072) == 0xbe26ed00;
    assert Eight(0xbe26ed00) == 0xbe26ed && Eight(0xbe26ed) == 0xdebb20e3;
    EightIs(0xffffffff);
    EightIs(0x2dfd1072);
    EightIs(0xbe26ed00);
    EightIs(0xbe26ed);
    ZerosPlus(Bv(0xffffffff), 8, 8);
    ZerosPlus(Bv(0xffffffff), 16, 8);
    ZerosPlus(Bv(0xffffffff), 24, 8);
  }

  /** Whatever the text and the start value: with its own checksum behind it, it has the checksum 2144df1c. */
  lemma Residue(crc: Word, buf: seq<Byte>)
    ensures Crc(crc, buf + Octets(Crc(crc, buf))) == BitsOf(0x2144df1c, 32)
  {
    hide Register, BytesBits, BitsOf, Octets, Agree, Bv, Not;
    var r := Register(Not(crc), BytesBits(buf));
    OctetBits(Not(r));
    BytesBitsConcat(buf, Octets(Not(r)));
    RegisterConcat(Not(crc), BytesBits(buf), Not(r));
    OwnComplement(r);
    NotIs(0xdebb20e3);
    ResidueDigits();
    AgreeAll(0x2144df1c, 0x2144df1c);
  }
}
