/** The CRC-32 shift register of section 8 of RFC 1952, one bit at a time, and its linearity over GF(2).  A word is its
    32 bits, least significant first, so `c & 1` is c[0] and `c >> n` is c[n..] with zeros behind. */
module CrcRegister {
  import opened BitStream

  type Word = w: seq<bool> | |w| == 32 witness seq(32, _ => false)

  function Fill(n: nat): (z: seq<bool>)
    ensures |z| == n && forall i :: 0 <= i < n ==> !z[i]
  {
    seq(n, _ => false)
  }

  // A shorter number as a word.
  function Pad(b: seq<bool>): Word
    requires |b| <= 32
  {
    b + Fill(32 - |b|)
  }

  function Zero(): Word { Fill(32) }

  function Unit(n: nat): Word
    requires n < 32
  {
    Fill(n) + [true] + Fill(31 - n)
  }

  function Xor(a: Word, b: Word): Word {
    seq(32, i requires 0 <= i < 32 => a[i] != b[i])
  }

  function Not(a: Word): Word {
    seq(32, i requires 0 <= i < 32 => !a[i])
  }

  // Terms of the polynomial, except x^32.
  const TERMS: seq<nat> := [0, 1, 2, 4, 5, 7, 8, 10, 11, 12, 16, 22, 23, 26]

  // The lowest power is in the most significant bit.
  function Poly(): Word {
    seq(32, i requires 0 <= i < 32 => 31 - i in TERMS)
  }

  // Multiply by x: shift right, and add the polynomial if a one was shifted out.
  function Step(c: Word): Word {
    if c[0] then Xor(Poly(), c[1..] + [false]) else c[1..] + [false]
  }

  // The register after k zero bits.
  function Zeros(c: Word, k: nat): Word
    decreases k
  {
    if k == 0 then c else Zeros(Step(c), k - 1)
  }

  // One incoming bit.
  function Feed(c: Word, bit: bool): Word {
    Step([c[0] != bit] + c[1..])
  }

  function Register(c: Word, bits: seq<bool>): Word
    decreases |bits|
  {
    if bits == [] then c else Register(Feed(c, bits[0]), bits[1..])
  }

  /** The checksum of buf continued from crc, by the bit-serial definition. */
  function Crc(crc: Word, buf: seq<Byte>): Word {
    Not(Register(Not(crc), BytesBits(buf)))
  }

  // ---- linearity ----

  lemma StepAt(c: Word, i: nat)
    requires i < 32
    ensures Step(c)[i] == ((i < 31 && c[i + 1]) != (c[0] && Poly()[i]))
  {
    hide Poly;
  }

  lemma StepLinear(a: Word, b: Word)
    ensures Step(Xor(a, b)) == Xor(Step(a), Step(b))
  {
    hide Step, Poly;
    forall i: nat | i < 32 ensures Step(Xor(a, b))[i] == Xor(Step(a), Step(b))[i] {
      StepAt(Xor(a, b), i);
      StepAt(a, i);
      StepAt(b, i);
    }
  }

  /** Zero bits act linearly. */
  lemma {:induction false} ZerosLinear(a: Word, b: Word, k: nat)
    ensures Zeros(Xor(a, b), k) == Xor(Zeros(a, k), Zeros(b, k))
    decreases k
  {
    hide Step, Xor;
    if k > 0 {
      StepLinear(a, b);
      ZerosLinear(Step(a), Step(b), k - 1);
    }
  }

  lemma {:induction false} ZerosPlus(c: Word, j: nat, k: nat)
    ensures Zeros(c, j + k) == Zeros(Zeros(c, j), k)
    decreases j
  {
    hide Step;
    if j > 0 { ZerosPlus(Step(c), j - 1, k); }
  }

  lemma {:induction false} ZerosOfZero(k: nat)
    ensures Zeros(Zero(), k) == Zero()
  {
    assert Step(Zero()) == Zero();
    if k > 0 { ZerosOfZero(k - 1); }
  }

  // A one shifted out is what brings the polynomial in; zeros only move the rest down.
  lemma {:induction false} ShiftOut(c: Word, m: nat)
    requires m <= 32 && forall i :: 0 <= i < m ==> !c[i]
    ensures Zeros(c, m) == c[m..] + Fill(m)
    decreases m
  {
    if m > 0 {
      var d := c[1..] + [false];
      assert Step(c) == d;
      ShiftOut(d, m - 1);
      assert d[m - 1..] + Fill(m - 1) == c[m..] + Fill(m);
    } else {
      assert c[0..] + Fill(0) == c;
    }
  }

  lemma {:induction false} RegisterConcat(c: Word, a: seq<bool>, b: seq<bool>)
    ensures Register(c, a + b) == Register(Register(c, a), b)
    decreases |a|
  {
    hide Feed;
    if a == [] {
      assert a + b == b;
    } else {
      assert (a + b)[1..] == a[1..] + b;
      RegisterConcat(Feed(c, a[0]), a[1..], b);
    }
  }

  lemma FeedPad(c: Word, bits: seq<bool>)
    requires 0 < |bits| <= 32
    ensures Step(Xor(c, Pad(bits))) == Xor(Feed(c, bits[0]), Pad(bits[1..]))
  {
    hide Step;
    var first := [c[0] != bits[0]] + c[1..];
    var rest := Pad([false] + bits[1..]);
    assert Xor(c, Pad(bits)) == Xor(first, rest);
    StepLinear(first, rest);
    StepOfEven(bits[1..]);
  }

  lemma StepOfEven(b: seq<bool>)
    requires |b| < 32
    ensures Step(Pad([false] + b)) == Pad(b)
  {
    hide Poly;
  }

  /** Up to 32 incoming bits at once: add them as a number, then let the register run. */
  lemma {:induction false} RegisterWord(c: Word, bits: seq<bool>)
    requires |bits| <= 32
    ensures Register(c, bits) == Zeros(Xor(c, Pad(bits)), |bits|)
    decreases |bits|
  {
    hide Step, Feed;
    if bits == [] {
      assert Xor(c, Pad(bits)) == c;
    } else {
      FeedPad(c, bits);
      RegisterWord(Feed(c, bits[0]), bits[1..]);
    }
  }

  lemma FeedAffine(c: Word, bit: bool)
    ensures Feed(c, bit) == Xor(Step(c), Feed(Zero(), bit))
  {
    hide Step, Poly;
    var z := [Zero()[0] != bit] + Zero()[1..];
    assert [c[0] != bit] + c[1..] == Xor(c, z);
    StepLinear(c, z);
  }

  /** The register is affine in its start value: the data's own contribution does not depend on it. */
  lemma {:induction false} RegisterAffine(c: Word, bits: seq<bool>)
    ensures Register(c, bits) == Xor(Zeros(c, |bits|), Register(Zero(), bits))
    decreases |bits|
  {
    hide Step, Feed;
    if bits == [] {
      assert Xor(c, Zero()) == c;
    } else {
      var z := Feed(Zero(), bits[0]);
      FeedAffine(c, bits[0]);
      RegisterAffine(Feed(c, bits[0]), bits[1..]);
      RegisterAffine(z, bits[1..]);
      var n := |bits| - 1;
      ZerosLinear(Step(c), z, n);
      var s, t, r := Zeros(Step(c), n), Zeros(z, n), Register(Zero(), bits[1..]);
      assert Xor(Xor(s, t), r) == Xor(s, Xor(t, r));
    }
  }
}
