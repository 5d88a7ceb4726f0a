/** gf2_matrix_times, gf2_matrix_square and crc32_combine_ of deps/zlib/crc32.c. */
module CrcCombine {
  import opened BitStream
  import opened CrcRegister

  const GF2_DIM: nat := 32

  // The columns selected by the first n bits of the vector, added up.
  function SumTo(mat: seq<Word>, v: Word, n: nat): Word
    requires n <= |mat| == GF2_DIM
  {
    if n == 0 then Zero() else
    var sum := SumTo(mat, v, n - 1);
    if v[n - 1] then Xor(sum, mat[n - 1]) else sum
  }

  // The matrix of k zero bits.
  ghost predicate Operator(mat: seq<Word>, k: nat) {
    |mat| == GF2_DIM && forall n :: 0 <= n < GF2_DIM ==> mat[n] == Zeros(Unit(n), k)
  }

  lemma {:induction false} SumIsZeros(mat: seq<Word>, k: nat, v: Word, n: nat)
    requires Operator(mat, k) && n <= GF2_DIM
    ensures SumTo(mat, v, n) == Zeros(Pad(v[..n]), k)
    decreases n
  {
    hide Zeros;
    if n == 0 {
      assert Pad(v[..0]) == Zero();
      ZerosOfZero(k);
    } else {
      SumIsZeros(mat, k, v, n - 1);
      if v[n - 1] {
        assert Pad(v[..n]) == Xor(Pad(v[..n - 1]), Unit(n - 1));
        ZerosLinear(Pad(v[..n - 1]), Unit(n - 1), k);
      } else {
        assert Pad(v[..n]) == Pad(v[..n - 1]);
      }
    }
  }

  // A linear map is determined by its columns.
  lemma OperatorActs(mat: seq<Word>, k: nat, v: Word)
    requires Operator(mat, k)
    ensures SumTo(mat, v, GF2_DIM) == Zeros(v, k)
  {
    SumIsZeros(mat, k, v, GF2_DIM);
    assert Pad(v[..GF2_DIM]) == v;
  }

  lemma {:induction false} NoMoreBits(mat: seq<Word>, v: Word, n: nat, m: nat)
    requires n <= m <= |mat| == GF2_DIM && forall i :: n <= i < m ==> !v[i]
    ensures SumTo(mat, v, m) == SumTo(mat, v, n)
    decreases m
  {
    if n < m { NoMoreBits(mat, v, n, m - 1); }
  }

  method Times(mat: array<Word>, v: Word) returns (sum: Word)
    requires mat.Length == GF2_DIM
    ensures sum == SumTo(mat[..], v, GF2_DIM)
  {
    hide Xor;
    sum := Zero();
    var vec, i := v, 0;
    while vec != Zero()
      invariant i <= GF2_DIM && vec == v[i..] + Fill(i) && sum == SumTo(mat[..], v, i)
      decreases GF2_DIM - i
    {
      assert i < GF2_DIM;
      if vec[0] { sum := Xor(sum, mat[i]); }
      vec := vec[1..] + [false];
      i := i + 1;
      assert v[i - 1..][1..] == v[i..];
    }
    forall j | i <= j < GF2_DIM ensures !v[j] { assert vec[j - i] == v[j]; }
    NoMoreBits(mat[..], v, i, GF2_DIM);
  }

  method Square(square: array<Word>, mat: array<Word>, ghost k: nat)
    requires square.Length == GF2_DIM && mat.Length == GF2_DIM && square != mat && Operator(mat[..], k)
    modifies square
    ensures Operator(square[..], 2 * k)
  {
    hide Zeros, SumTo, Unit;
    for n := 0 to GF2_DIM
      invariant forall i :: 0 <= i < n ==> square[i] == Zeros(Unit(i), 2 * k)
    {
      square[n] := Times(mat, mat[n]);
      OperatorActs(mat[..], k, mat[n]);
      ZerosPlus(Unit(n), k, k);
    }
  }

  lemma OneBitOf(v: nat, w: nat, b: bool, n: nat)
    requires v == 2 * w + (if b then 1 else 0)
    ensures BitsOf(v, n + 1) == [b] + BitsOf(w, n)
  {
  }

  lemma Nibble(v: nat, w: nat, a: bool, b: bool, c: bool, d: bool, n: nat)
    requires v == 16 * w + (if a then 1 else 0) + (if b then 2 else 0) + (if c then 4 else 0) + (if d then 8 else 0)
    ensures BitsOf(v, n + 4) == [a, b, c, d] + BitsOf(w, n)
  {
    hide BitsOf;
    var v3 := 2 * w + if d then 1 else 0;
    var v2 := 2 * v3 + if c then 1 else 0;
    var v1 := 2 * v2 + if b then 1 else 0;
    OneBitOf(v, v1, a, n + 3);
    OneBitOf(v1, v2, b, n + 2);
    OneBitOf(v2, v3, c, n + 1);
    OneBitOf(v3, w, d, n);
  }

  // The constant in the source, digit by digit.
  lemma PolyConstant()
    ensures BitsOf(0xedb88320, 32) == Poly()
  {
    hide BitsOf;
    Nibble(0xedb88320, 0xedb8832, false, false, false, false, 28);
    Nibble(0xedb8832, 0xedb883, false, true, false, false, 24);
    Nibble(0xedb883, 0xedb88, true, true, false, false, 20);
    Nibble(0xedb88, 0xedb8, false, false, false, true, 16);
    Nibble(0xedb8, 0xedb, false, false, false, true, 12);
    Nibble(0xedb, 0xed, true, true, false, true, 8);
    Nibble(0xed, 0xe, true, false, true, true, 4);
    Nibble(0xe, 0x0, false, true, true, true, 0);
    assert BitsOf(0, 0) == [];
  }

  // One zero bit moves a one down, and turns the last one into the polynomial.
  lemma UnitStep(n: nat)
    requires n < GF2_DIM
    ensures Zeros(Unit(n), 1) == if n == 0 then Poly() else Unit(n - 1)
  {
    hide Poly;
    assert Zeros(Unit(n), 1) == Step(Unit(n)) by { assert Zeros(Step(Unit(n)), 0) == Step(Unit(n)); }
    if n == 0 {
      assert Xor(Poly(), Unit(0)[1..] + [false]) == Poly();
    } else {
      assert Unit(n)[1..] + [false] == Unit(n - 1);
    }
  }

  method OneBit(odd: array<Word>)
    requires odd.Length == GF2_DIM
    modifies odd
    ensures Operator(odd[..], 1)
  {
    hide Zeros, Poly, Unit, BitsOf;
    PolyConstant();
    UnitStep(0);
    odd[0] := BitsOf(0xedb88320, 32);
    var row := Unit(0);
    for n := 1 to GF2_DIM
      invariant row == Unit(n - 1) && forall i :: 0 <= i < n ==> odd[i] == Zeros(Unit(i), 1)
    {
      UnitStep(n);
      odd[n] := row;
      Doubled(n - 1);
      row := [false] + row[..31];
    }
  }

  lemma Doubled(n: nat)
    requires n < GF2_DIM
    ensures n < 31 ==> [false] + Unit(n)[..31] == Unit(n + 1)
  {
  }

  // The bits of the length still to be applied, at the scale of the current operator.
  lemma Halved(done: nat, k: nat, len: nat, total: nat)
    requires done + 2 * k * len == total
    ensures (done + if len % 2 == 1 then 2 * k else 0) + 2 * (2 * k) * (len / 2) == total
  {
    assert len == 2 * (len / 2) + len % 2;
    assert 2 * k * len == 2 * k * (2 * (len / 2)) + 2 * k * (len % 2);
  }

  /** The do-while loop of crc32_combine_: len zero bytes are applied to the checksum, by repeated squaring. */
  method ApplyZeros(crc: Word, len: nat) returns (r: Word)
    requires len > 0
    ensures r == Zeros(crc, 8 * len)
  {
    hide Zeros, Operator, SumTo;
    var even, odd := new Word[GF2_DIM](_ => Zero()), new Word[GF2_DIM](_ => Zero());
    OneBit(odd);
    Square(even, odd, 1);
    Square(odd, even, 2);
    var rest := len;
    ghost var done, k := 0, 4;
    r := crc;
    NoneDone(crc);
    while true
      invariant Operator(odd[..], k) && r == Zeros(crc, done) && done + 2 * k * rest == 8 * len
      decreases rest
    {
      Square(even, odd, k);
      Halved(done, k, rest, 8 * len);
      r, done := ApplyBit(even, r, rest, 2 * k, crc, done);
      rest, k := rest / 2, 2 * k;
      if rest == 0 { break; }
      Square(odd, even, k);
      Halved(done, k, rest, 8 * len);
      r, done := ApplyBit(odd, r, rest, 2 * k, crc, done);
      rest, k := rest / 2, 2 * k;
      if rest == 0 { break; }
    }
  }

  lemma NoneDone(crc: Word)
    ensures Zeros(crc, 0) == crc
  {
  }

  method ApplyBit(mat: array<Word>, c: Word, len: nat, ghost k: nat, ghost crc: Word, ghost done: nat)
    returns (r: Word, ghost done': nat)
    requires mat.Length == GF2_DIM && Operator(mat[..], k) && c == Zeros(crc, done)
    ensures done' == done + (if len % 2 == 1 then k else 0) && r == Zeros(crc, done')
  {
    hide Zeros, Operator, SumTo;
    r, done' := c, done;
    if len % 2 == 1 {
      r := Times(mat, c);
      OperatorActs(mat[..], k, c);
      ZerosPlus(crc, done, k);
      done' := done + k;
    }
  }

  // The contribution of the second part does not depend on the first.
  lemma Joined(start: Word, a: seq<Byte>, b: seq<Byte>)
    ensures Xor(Zeros(Crc(start, a), 8 * |b|), Crc(Zero(), b)) == Crc(start, a + b)
  {
    hide Register, Zeros, BytesBits;
    var u, v := BytesBits(a), BytesBits(b);
    var ra, ones, k := Register(Not(start), u), Not(Zero()), 8 * |b|;
    BytesBitsConcat(a, b);
    RegisterConcat(Not(start), u, v);
    RegisterAffine(ra, v);
    RegisterAffine(ones, v);
    assert Crc(start, a) == Xor(ra, ones);
    ZerosLinear(ra, ones, k);
    Cancel(Zeros(ra, k), Zeros(ones, k), Register(Zero(), v));
  }

  lemma Cancel(x: Word, y: Word, z: Word)
    ensures Xor(Xor(x, y), Not(Xor(y, z))) == Not(Xor(x, z))
  {
  }

  /** crc32_combine_: from the checksums of two parts, that of their concatenation; a length that is not positive
      leaves the first one as it is. */
  method Combine(crc1: Word, crc2: Word, len2: int) returns (r: Word)
    ensures len2 <= 0 ==> r == crc1
    ensures forall start: Word, a: seq<Byte>, b: seq<Byte> ::
      crc1 == Crc(start, a) && crc2 == Crc(Zero(), b) && len2 == |b| ==> r == Crc(start, a + b)
  {
    hide Zeros, Crc, Xor;
    if len2 <= 0 {
      forall start: Word, a: seq<Byte>, b: seq<Byte> | crc1 == Crc(start, a) && crc2 == Crc(Zero(), b) && len2 == |b|
        ensures crc1 == Crc(start, a + b)
      {
        assert a + b == a;
      }
      return crc1;
    }
    r := ApplyZeros(crc1, len2);
    forall start: Word, a: seq<Byte>, b: seq<Byte> | crc1 == Crc(start, a) && crc2 == Crc(Zero(), b) && len2 == |b|
      ensures Xor(r, crc2) == Crc(start, a + b)
    {
      Joined(start, a, b);
    }
    r := Xor(r, crc2);
  }
}
