/** Shifts, masks and bit reversal on naturals, written by recursion on the bit count so that
    every proof stays in linear arithmetic:  Shl is `x << n`, Shr is `x >> n`, and
    Low is `x & ((1 << n) - 1)`. */
module Bits {
  datatype Option<T> = None | Some(value: T)

  function Pow2(n: nat): (p: nat)
    ensures p >= 1
  {
    if n == 0 then 1 else 2 * Pow2(n - 1)
  }

  function Shl(x: nat, n: nat): nat {
    if n == 0 then x else 2 * Shl(x, n - 1)
  }

  function Shr(x: nat, n: nat): nat {
    if n == 0 then x else Shr(x / 2, n - 1)
  }

  function Low(x: nat, n: nat): (r: nat)
    ensures r < Pow2(n)
  {
    if n == 0 then 0 else x % 2 + 2 * Low(x / 2, n - 1)
  }

  lemma {:induction false} ShlOne(n: nat)
    ensures Shl(1, n) == Pow2(n)
  {
    if n > 0 { ShlOne(n - 1); }
  }

  lemma {:induction false} ShlAdd(a: nat, b: nat, n: nat)
    ensures Shl(a + b, n) == Shl(a, n) + Shl(b, n)
  {
    if n > 0 { ShlAdd(a, b, n - 1); }
  }

  lemma {:induction false} ShlShl(x: nat, m: nat, n: nat)
    ensures Shl(Shl(x, m), n) == Shl(x, m + n)
  {
    if n > 0 { ShlShl(x, m, n - 1); }
  }

  lemma ShlPow2(m: nat, n: nat)
    ensures Shl(Pow2(m), n) == Pow2(m + n)
  {
    ShlOne(m); ShlShl(1, m, n); ShlOne(m + n);
  }

  lemma ShlSucc(a: nat, n: nat)
    ensures Shl(a + 1, n) == Shl(a, n) + Pow2(n)
  {
    ShlAdd(a, 1, n); ShlOne(n);
  }

  lemma {:induction false} ShlLess(a: nat, b: nat, n: nat)
    ensures a < b ==> Shl(a, n) + Pow2(n) <= Shl(b, n)
    ensures a <= b <==> Shl(a, n) <= Shl(b, n)
    ensures a < b <==> Shl(a, n) < Shl(b, n)
  {
    if n > 0 { ShlLess(a, b, n - 1); }
  }

  lemma {:induction false} ShlZero(n: nat)
    ensures Shl(0, n) == 0
  {
    if n > 0 { ShlZero(n - 1); }
  }

  lemma {:induction false} Pow2Mono(a: nat, b: nat)
    requires a <= b
    ensures Pow2(a) <= Pow2(b)
    ensures a < b ==> 2 * Pow2(a) <= Pow2(b)
    decreases b - a
  {
    if a < b { Pow2Mono(a, b - 1); }
  }

  lemma {:induction false} ShlBound(x: nat, m: nat, n: nat)
    ensures x < Pow2(m) <==> Shl(x, n) < Pow2(m + n)
    ensures x <= Pow2(m) <==> Shl(x, n) <= Pow2(m + n)
  {
    if n > 0 { ShlBound(x, m, n - 1); }
  }

  // Every number is its low n bits plus the rest shifted back up.
  lemma {:induction false} Split(x: nat, n: nat)
    ensures x == Low(x, n) + Shl(Shr(x, n), n)
  {
    if n > 0 { Split(x / 2, n - 1); }
  }

  // ... and that is the only way to split it.
  lemma {:induction false} SplitUnique(lo: nat, hi: nat, n: nat)
    requires lo < Pow2(n)
    ensures Low(lo + Shl(hi, n), n) == lo
    ensures Shr(lo + Shl(hi, n), n) == hi
  {
    if n > 0 {
      SplitUnique(lo / 2, hi, n - 1);
      var x := lo + Shl(hi, n);
      assert x / 2 == lo / 2 + Shl(hi, n - 1) && x % 2 == lo % 2;
    }
  }

  lemma ShrShl(x: nat, n: nat)
    ensures Shr(Shl(x, n), n) == x && Low(Shl(x, n), n) == 0
  {
    SplitUnique(0, x, n);
  }

  lemma LowSmall(x: nat, n: nat)
    requires x < Pow2(n)
    ensures Low(x, n) == x && Shr(x, n) == 0
  {
    ShlZero(n); SplitUnique(x, 0, n);
  }

  lemma {:induction false} ShrShr(x: nat, m: nat, n: nat)
    ensures Shr(Shr(x, m), n) == Shr(x, m + n)
  {
    if m > 0 { ShrShr(x / 2, m - 1, n); }
  }

  lemma {:induction false} ShrMono(a: nat, b: nat, n: nat)
    requires a <= b
    ensures Shr(a, n) <= Shr(b, n)
  {
    if n > 0 { ShrMono(a / 2, b / 2, n - 1); }
  }

  lemma {:induction false} ShrBound(x: nat, m: nat, n: nat)
    ensures x < Pow2(m + n) <==> Shr(x, n) < Pow2(m)
  {
    if n > 0 { ShrBound(x / 2, m, n - 1); }
  }

  lemma {:induction false} LowLow(x: nat, m: nat, n: nat)
    requires m <= n
    ensures Low(Low(x, n), m) == Low(x, m)
  {
    if m > 0 {
      LowLow(x / 2, m - 1, n - 1);
      assert Low(x, n) / 2 == Low(x / 2, n - 1);
    }
  }

  lemma {:induction false} ShrLow(x: nat, m: nat, n: nat)
    requires m <= n
    ensures Shr(Low(x, n), m) == Low(Shr(x, m), n - m)
  {
    if m > 0 {
      ShrLow(x / 2, m - 1, n - 1);
      assert Low(x, n) / 2 == Low(x / 2, n - 1);
    }
  }

  // ---- bit reversal of an n-bit number ----

  function Rev(y: nat, n: nat): (r: nat)
    ensures r < Pow2(n)
    decreases n
  {
    if n == 0 then 0 else (if y % 2 == 1 then Pow2(n - 1) else 0) + Rev(y / 2, n - 1)
  }

  lemma {:induction false} RevZero(n: nat)
    ensures Rev(0, n) == 0
  {
    if n > 0 { RevZero(n - 1); }
  }

  // The other end of the recursion: the top bit of y comes out at the bottom.
  lemma {:induction false} RevTop(y: nat, n: nat)
    requires n > 0
    ensures Rev(y, n) == 2 * Rev(y, n - 1) + Shr(y, n - 1) % 2
    decreases n
  {
    if n > 1 { RevTop(y / 2, n - 1); }
  }

  lemma {:induction false} RevLow(y: nat, m: nat, n: nat)
    requires m <= n
    ensures Rev(Low(y, n), m) == Rev(y, m)
    decreases m
  {
    if m > 0 {
      RevLow(y / 2, m - 1, n - 1);
      assert Low(y, n) / 2 == Low(y / 2, n - 1);
    }
  }

  // The low m bits of y, reversed, are the top m bits of y reversed.
  lemma {:induction false} RevPrefix(y: nat, m: nat, n: nat)
    requires m <= n
    ensures Shr(Rev(y, n), n - m) == Rev(y, m)
    decreases n
  {
    if m < n {
      RevPrefix(y, m, n - 1);
      RevTop(y, n);
      assert Rev(y, n) / 2 == Rev(y, n - 1);
    }
  }

  // Dropping m low bits of y drops the top m bits of its reversal.
  lemma {:induction false} RevSuffix(y: nat, m: nat, n: nat)
    requires m <= n
    ensures Low(Rev(y, n), n - m) == Rev(Shr(y, m), n - m)
    decreases m
  {
    if m == 0 {
      LowSmall(Rev(y, n), n);
    } else {
      RevSuffix(y / 2, m - 1, n - 1);
      if y % 2 == 1 { LowAddPow2(Rev(y / 2, n - 1), n - m, n - 1); }
    }
  }

  lemma {:induction false} LowAddPow2(x: nat, m: nat, n: nat)
    requires m <= n
    ensures Low(Pow2(n) + x, m) == Low(x, m)
  {
    if m > 0 {
      LowAddPow2(x / 2, m - 1, n - 1);
      assert (Pow2(n) + x) / 2 == Pow2(n - 1) + x / 2;
    }
  }

  lemma {:induction false} RevRev(y: nat, n: nat)
    requires y < Pow2(n)
    ensures Rev(Rev(y, n), n) == y
    decreases n
  {
    hide Shr, Low, Shl;
    if n > 0 {
      var r := Rev(y, n);
      RevTop(y, n);
      TopBit(y, n);
      assert r / 2 == Rev(y, n - 1) && r % 2 == Shr(y, n - 1);
      RevLow(y, n - 1, n - 1);
      RevRev(Low(y, n - 1), n - 1);
    }
  }

  lemma TopBit(y: nat, n: nat)
    requires 0 < n && y < Pow2(n)
    ensures Shr(y, n - 1) < 2
    ensures y == Low(y, n - 1) + if Shr(y, n - 1) == 1 then Pow2(n - 1) else 0
  {
    ShrBound(y, 1, n - 1);
    Split(y, n - 1);
    ShlOne(n - 1);
    ShlZero(n - 1);
  }

  // A reversed multiple of 2^(n-l) is an l-bit number.
  lemma RevOfMultiple(q: nat, l: nat, n: nat)
    requires l <= n && Low(q, n - l) == 0
    ensures Rev(q, n) < Pow2(l)
    ensures Rev(q, n) == Rev(Shr(q, n - l), l)
  {
    RevSuffix(q, n - l, n);
    RevPrefix(q, n - l, n);
    RevLow(q, n - l, n - l);
    RevZero(n - l);
    Split(Rev(q, n), l);
    ShlZero(l);
  }
}
