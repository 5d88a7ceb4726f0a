/** The rolling hash of deps/zlib/deflate.c (UPDATE_HASH): three bytes push everything older out of it, and equal
    hashes of strings with two equal bytes have an equal third. */
module RollingHash {
  import opened Bits
  import opened BitStream

  // Bitwise exclusive or.
  function Xor(x: nat, y: nat): nat
    decreases x + y
  {
    if x == 0 then y else if y == 0 then x else
    (if x % 2 != y % 2 then 1 else 0) + 2 * Xor(x / 2, y / 2)
  }

  lemma XorStep(x: nat, y: nat)
    ensures Xor(x, y) % 2 == (if x % 2 != y % 2 then 1 else 0) && Xor(x, y) / 2 == Xor(x / 2, y / 2)
  {
    if x != 0 && y != 0 { Halves(if x % 2 != y % 2 then 1 else 0, Xor(x / 2, y / 2)); }
  }

  lemma Halves(b: nat, h: nat)
    requires b < 2
    ensures (b + 2 * h) % 2 == b && (b + 2 * h) / 2 == h
  {
  }

  lemma XorNothing()
    ensures Xor(0, 0) == 0
  {
  }

  // Cutting off the high bits commutes with the exclusive or.
  lemma {:induction false} LowXor(x: nat, y: nat, n: nat)
    ensures Low(Xor(x, y), n) == Xor(Low(x, n), Low(y, n))
  {
    hide Xor;
    if n == 0 {
      XorNothing();
    } else {
      XorStep(x, y);
      LowXor(x / 2, y / 2, n - 1);
      XorStep(Low(x, n), Low(y, n));
      Halves(x % 2, Low(x / 2, n - 1));
      Halves(y % 2, Low(y / 2, n - 1));
      var z := Xor(Low(x, n), Low(y, n));
      assert z == z % 2 + 2 * (z / 2);
    }
  }

  lemma {:induction false} XorCancels(x: nat, a: nat, b: nat)
    requires Xor(x, a) == Xor(x, b)
    ensures a == b
    decreases x + a + b
  {
    if x + a + b > 0 {
      XorStep(x, a);
      XorStep(x, b);
      XorCancels(x / 2, a / 2, b / 2);
    }
  }

  // h = ((h << shift) ^ c) & mask, for a hash of `bits` bits.
  function Update(h: nat, c: nat, shift: nat, bits: nat): (r: nat)
    ensures r < Pow2(bits)
  {
    Low(Xor(Shl(h, shift), c), bits)
  }

  // Hashes that agree in their low k bits agree in k + shift bits after an update.
  lemma UpdateAgrees(h: nat, g: nat, c: nat, k: nat, shift: nat, bits: nat)
    requires Low(h, k) == Low(g, k)
    ensures Low(Update(h, c, shift, bits), if k + shift < bits then k + shift else bits)
         == Low(Update(g, c, shift, bits), if k + shift < bits then k + shift else bits)
  {
    hide Low, Shl, Xor;
    var n := if k + shift < bits then k + shift else bits;
    LowOfShl(h, k, shift);
    LowOfShl(g, k, shift);
    LowAt(Shl(h, shift), Shl(g, shift), k + shift, n);
    LowXor(Shl(h, shift), c, n);
    LowXor(Shl(g, shift), c, n);
    LowLow(Xor(Shl(h, shift), c), n, bits);
    LowLow(Xor(Shl(g, shift), c), n, bits);
  }

  lemma {:induction false} LowOfShl(x: nat, k: nat, s: nat)
    ensures Low(Shl(x, s), k + s) == Shl(Low(x, k), s)
  {
    if s > 0 {
      LowOfShl(x, k, s - 1);
      Halves(0, Shl(x, s - 1));
    }
  }

  lemma LowAt(x: nat, y: nat, m: nat, n: nat)
    requires Low(x, m) == Low(y, m) && n <= m
    ensures Low(x, n) == Low(y, n)
  {
    hide Low;
    LowLow(x, n, m);
    LowLow(y, n, m);
  }

  // The hash of three bytes.
  function Hash3(a: nat, b: nat, c: nat, shift: nat, bits: nat): (r: nat)
    ensures r < Pow2(bits)
  {
    Update(Update(Update(0, a, shift, bits), b, shift, bits), c, shift, bits)
  }

  /** Whatever was hashed before, three updates leave the hash of the three bytes. */
  lemma ThreeForget(h: nat, a: nat, b: nat, c: nat, shift: nat, bits: nat)
    requires 3 * shift >= bits
    ensures Update(Update(Update(h, a, shift, bits), b, shift, bits), c, shift, bits) == Hash3(a, b, c, shift, bits)
  {
    hide Update, Low;
    NoBits(h);
    NoBits(0);
    var h1, g1 := Update(h, a, shift, bits), Update(0, a, shift, bits);
    var h2, g2 := Update(h1, b, shift, bits), Update(g1, b, shift, bits);
    var h3, g3 := Update(h2, c, shift, bits), Update(g2, c, shift, bits);
    UpdateAgrees(h, 0, a, 0, shift, bits);
    var k1 := if shift < bits then shift else bits;
    UpdateAgrees(h1, g1, b, k1, shift, bits);
    var k2 := if k1 + shift < bits then k1 + shift else bits;
    UpdateAgrees(h2, g2, c, k2, shift, bits);
    LowSmall(h3, bits);
    LowSmall(g3, bits);
  }

  lemma NoBits(h: nat)
    ensures Low(h, 0) == 0
  {
  }

  /** Equal hashes and two equal bytes imply an equal third byte. */
  lemma ThirdByte(a: nat, b: nat, c: Byte, d: Byte, shift: nat, bits: nat)
    requires Hash3(a, b, c, shift, bits) == Hash3(a, b, d, shift, bits) && bits >= 8
    ensures c == d
  {
    hide Low, Shl, Xor;
    var z := Shl(Update(Update(0, a, shift, bits), b, shift, bits), shift);
    LowXor(z, c, bits);
    LowXor(z, d, bits);
    XorCancels(Low(z, bits), Low(c, bits), Low(d, bits));
    Pow2Mono(8, bits);
    ByteBelow();
    LowSmall(c, bits);
    LowSmall(d, bits);
  }

  lemma ByteBelow()
    ensures Pow2(8) == 256
  {
  }
}
