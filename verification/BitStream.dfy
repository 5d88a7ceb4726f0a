/** Bit strings in transmission order, first bit least significant, and bytes as bit strings. */
module BitStream {
  import opened Bits

  type Byte = b: nat | b < 256

  function Val(b: seq<bool>): (v: nat)
    ensures v < Pow2(|b|)
  {
    if b == [] then 0 else (if b[0] then 1 else 0) + 2 * Val(b[1..])
  }

  function BitsOf(v: nat, n: nat): (b: seq<bool>)
    ensures |b| == n
  {
    if n == 0 then [] else [v % 2 == 1] + BitsOf(v / 2, n - 1)
  }

  function BytesBits(s: seq<Byte>): (b: seq<bool>)
    ensures |b| == 8 * |s|
  {
    if s == [] then [] else BitsOf(s[0], 8) + BytesBits(s[1..])
  }

  lemma {:induction false} ValBitsOf(v: nat, n: nat)
    ensures Val(BitsOf(v, n)) == Low(v, n)
  {
    if n > 0 {
      ValBitsOf(v / 2, n - 1);
      assert BitsOf(v, n)[1..] == BitsOf(v / 2, n - 1);
    }
  }

  lemma ValOfBits(v: nat, n: nat)
    requires v < Pow2(n)
    ensures Val(BitsOf(v, n)) == v
  {
    ValBitsOf(v, n);
    LowSmall(v, n);
  }

  lemma {:induction false} BitsOfVal(b: seq<bool>)
    ensures BitsOf(Val(b), |b|) == b
  {
    if b != [] {
      BitsOfVal(b[1..]);
      assert Val(b) / 2 == Val(b[1..]);
    }
  }

  lemma {:induction false} BitsOfConcat(v: nat, m: nat, n: nat)
    ensures BitsOf(v, m + n) == BitsOf(v, m) + BitsOf(Shr(v, m), n)
  {
    if m > 0 { BitsOfConcat(v / 2, m - 1, n); }
  }

  lemma {:induction false} BitsOfLow(v: nat, m: nat, n: nat)
    requires m <= n
    ensures BitsOf(Low(v, n), m) == BitsOf(v, m)
  {
    if m > 0 {
      BitsOfLow(v / 2, m - 1, n - 1);
      assert Low(v, n) / 2 == Low(v / 2, n - 1);
    }
  }

  // Appending a value above an m-bit one concatenates their bits.
  lemma BitsOfAppend(lo: nat, hi: nat, m: nat, n: nat)
    requires lo < Pow2(m)
    ensures BitsOf(lo + Shl(hi, m), m + n) == BitsOf(lo, m) + BitsOf(hi, n)
  {
    BitsOfConcat(lo + Shl(hi, m), m, n);
    SplitUnique(lo, hi, m);
    BitsOfLow(lo + Shl(hi, m), m, m);
  }

  lemma {:induction false} ValConcat(a: seq<bool>, b: seq<bool>)
    ensures Val(a + b) == Val(a) + Shl(Val(b), |a|)
  {
    if a == [] {
      assert a + b == b;
    } else {
      assert (a + b)[1..] == a[1..] + b;
      ValConcat(a[1..], b);
    }
  }

  // Reading n bits is masking; dropping them is shifting.
  lemma ValTake(b: seq<bool>, n: nat)
    requires n <= |b|
    ensures Low(Val(b), n) == Val(b[..n]) && Shr(Val(b), n) == Val(b[n..])
  {
    hide Pow2, Low, Shr, Shl, Val;
    assert b == b[..n] + b[n..];
    ValConcat(b[..n], b[n..]);
    SplitUnique(Val(b[..n]), Val(b[n..]), n);
  }

  lemma {:induction false} BytesBitsConcat(a: seq<Byte>, b: seq<Byte>)
    ensures BytesBits(a + b) == BytesBits(a) + BytesBits(b)
  {
    if a == [] {
      assert a + b == b;
    } else {
      assert (a + b)[1..] == a[1..] + b;
      BytesBitsConcat(a[1..], b);
    }
  }

  lemma BytesBitsOne(c: Byte)
    ensures BytesBits([c]) == BitsOf(c, 8)
  {
    assert BytesBits([c]) == BitsOf(c, 8) + BytesBits([]);
  }

  // The k-th byte of the stream, as bits.
  lemma {:induction false} BytesBitsAt(s: seq<Byte>, k: nat)
    requires k < |s|
    ensures BytesBits(s)[8 * k..8 * k + 8] == BitsOf(s[k], 8)
  {
    if k > 0 {
      BytesBitsAt(s[1..], k - 1);
      assert BytesBits(s)[8 * k..8 * k + 8] == BytesBits(s[1..])[8 * (k - 1)..8 * (k - 1) + 8];
    }
  }
}
