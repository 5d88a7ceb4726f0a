/** deps/zlib/adler32.c against the per-byte definition in section 8.2 of RFC 1950. `adler | (sum2 << 16)` is an
    addition, since adler is below 65536. */
module Adler32 {
  import opened Bits
  import opened BitStream

  const BASE: nat := 65521
  const NMAX: nat := 5552
  const U32: nat := 0x1_0000_0000

  // ---- the definition ----

  datatype Sums = Sums(a: nat, b: nat) {
    predicate Valid() { a < BASE && b < BASE }
    function Packed(): nat { a + 0x10000 * b }
  }

  function Next(s: Sums, c: Byte): Sums {
    var a := (s.a + c) % BASE;
    Sums(a, (s.b + a) % BASE)
  }

  function Adler(s: Sums, buf: seq<Byte>): Sums {
    if buf == [] then s else Next(Adler(s, buf[..|buf| - 1]), buf[|buf| - 1])
  }

  lemma {:induction false} AdlerValid(s: Sums, buf: seq<Byte>)
    requires s.Valid()
    ensures Adler(s, buf).Valid()
  {
    if buf != [] { AdlerValid(s, buf[..|buf| - 1]); }
  }

  lemma {:induction false} AdlerConcat(s: Sums, x: seq<Byte>, y: seq<Byte>)
    ensures Adler(s, x + y) == Adler(Adler(s, x), y)
    decreases |y|
  {
    if y == [] {
      assert x + y == x;
    } else {
      var n := |y| - 1;
      assert (x + y)[..|x + y| - 1] == x + y[..n];
      AdlerConcat(s, x, y[..n]);
    }
  }

  // ---- reductions without division ----

  // 65536 leaves 15
  function Chop(a: nat): (r: nat)
    ensures r % BASE == a % BASE
  {
    var tmp := a / 0x10000;
    ChopMod(a % 0x10000, tmp);
    a % 0x10000 + 16 * tmp - tmp
  }

  lemma ChopMod(lo: nat, tmp: nat)
    ensures (lo + 15 * tmp) % BASE == (lo + 0x10000 * tmp) % BASE
  {
    Multiple(lo + 15 * tmp, tmp);
  }

  lemma {:induction false} Multiple(x: int, k: nat)
    ensures (x + k * BASE) % BASE == x % BASE
    decreases k
  {
    if k > 0 {
      Multiple(x, k - 1);
      assert x + k * BASE == x + (k - 1) * BASE + BASE;
    }
  }

  function Mod28(a: nat): (r: nat)
    requires a < 0x1000_0000
    ensures r == a % BASE
  {
    var c := Chop(a);
    assert c < 2 * BASE;
    Within2(c)
  }

  function Mod(a: nat): (r: nat)
    requires a < U32
    ensures r == a % BASE
  {
    var c := Chop(a);
    assert c < 0x1000_0000;
    Mod28(c)
  }

  function Mod63(a: nat): (r: nat)
    requires a < 0x8000_0000_0000_0000
    ensures r == a % BASE
  {
    var tmp := a / U32;
    Multiple(a % U32 + 225 * tmp, 65551 * tmp);
    assert 65551 * BASE + 225 == U32;
    var c := a % U32 + 256 * tmp - 32 * tmp + tmp;
    assert (c + 65551 * tmp * BASE) == a;
    Within2(Chop(Chop(c)))
  }

  // if (a >= BASE) a -= BASE
  function Within2(x: nat): (r: nat)
    requires x < 2 * BASE
    ensures r == x % BASE
  {
    if x >= BASE then x - BASE else x
  }

  // ---- sums whose reduction is put off ----

  // adler and sum2 stand for the sums of the first i bytes.
  ghost predicate Stands(adler: nat, sum2: nat, s: Sums, buf: seq<Byte>, i: nat) {
    i <= |buf| && adler % BASE == Adler(s, buf[..i]).a && sum2 % BASE == Adler(s, buf[..i]).b
  }

  // Two 16-bit halves, reduced.
  function Reduced(a: nat, b: nat): (s: Sums)
    ensures s.Valid() && (a < BASE && b < BASE ==> s == Sums(a, b))
  {
    Sums(a % BASE, b % BASE)
  }

  lemma StandsNone(a: nat, b: nat, buf: seq<Byte>)
    ensures Stands(a, b, Reduced(a, b), buf, 0)
  {
  }

  lemma StandsNext(adler: nat, sum2: nat, s: Sums, buf: seq<Byte>, i: nat)
    requires Stands(adler, sum2, s, buf, i) && i < |buf|
    ensures Stands(adler + buf[i], sum2 + adler + buf[i], s, buf, i + 1)
  {
    var next, p := buf[..i + 1], Adler(s, buf[..i]);
    assert next[..|next| - 1] == buf[..i] && next[|next| - 1] == buf[i];
    assert Adler(s, next) == Next(p, buf[i]);
    AddMod(adler, buf[i]);
    AddMod2(sum2, adler + buf[i]);
    hide Adler;
  }

  lemma StandsMod(adler: nat, sum2: nat, s: Sums, buf: seq<Byte>, i: nat)
    requires Stands(adler, sum2, s, buf, i)
    ensures Stands(adler % BASE, sum2 % BASE, s, buf, i)
    ensures i == |buf| ==> Sums(adler % BASE, sum2 % BASE) == Adler(s, buf)
  {
    hide Adler;
    ModMod(adler);
    ModMod(sum2);
    if i == |buf| { assert buf[..i] == buf; }
  }

  lemma ModMod(x: nat)
    ensures x % BASE % BASE == x % BASE
  {
  }

  function Tri(n: nat): nat {
    if n == 0 then 0 else Tri(n - 1) + n
  }

  lemma {:induction false} TriClosed(n: nat)
    ensures 2 * Tri(n) == n * (n + 1)
  {
    if n > 0 { TriClosed(n - 1); }
  }

  // The most sum2 can be after n bytes from halves of at most `top`.
  function Bound(n: nat, top: nat): nat {
    255 * Tri(n) + (n + 1) * top
  }

  /** NMAX is the largest number of bytes whose sums fit 32 bits, from reduced sums; from any 16-bit halves they fit as
      well. */
  lemma NmaxIsLargest(n: nat)
    ensures Bound(n, BASE - 1) < U32 <==> n <= NMAX
    ensures n <= NMAX ==> Bound(n, 0xffff) < U32
  {
    if n <= NMAX {
      BoundMono(n, NMAX, BASE - 1);
      BoundMono(n, NMAX, 0xffff);
      TriClosed(NMAX);
    } else {
      BoundMono(NMAX + 1, n, BASE - 1);
      TriClosed(NMAX + 1);
    }
  }

  lemma {:induction false} BoundMono(m: nat, n: nat, top: nat)
    requires m <= n
    ensures Bound(m, top) <= Bound(n, top)
    decreases n
  {
    if m < n {
      BoundMono(m, n - 1, top);
      BoundNext(n - 1, top);
    }
  }

  ghost predicate Small(adler: nat, sum2: nat, n: nat) {
    adler <= 0xffff + 255 * n && sum2 <= Bound(n, 0xffff)
  }

  // n more bytes, without reduction; nothing exceeds 32 bits.
  method AddBytes(adler0: nat, sum20: nat, ghost s: Sums, buf: seq<Byte>, from: nat, n: nat)
    returns (adler: nat, sum2: nat)
    requires Stands(adler0, sum20, s, buf, from) && adler0 < 0x10000 && sum20 < 0x10000 && from + n <= |buf|
      && n <= NMAX
    ensures Stands(adler, sum2, s, buf, from + n) && Small(adler, sum2, n) && adler < U32 && sum2 < U32
  {
    hide Stands, Bound;
    adler, sum2 := adler0, sum20;
    BoundZero(0xffff);
    var i := 0;
    while i < n
      invariant i <= n && Stands(adler, sum2, s, buf, from + i) && Small(adler, sum2, i)
    {
      StandsNext(adler, sum2, s, buf, from + i);
      BoundNext(i, 0xffff);
      adler := adler + buf[from + i];
      sum2 := sum2 + adler;
      NmaxIsLargest(i + 1);
      assert adler < U32 && sum2 < U32;
      i := i + 1;
    }
    NmaxIsLargest(n);
  }

  lemma BoundZero(top: nat)
    ensures Bound(0, top) == top
  {
  }

  lemma BoundNext(n: nat, top: nat)
    ensures Bound(n + 1, top) == Bound(n, top) + 255 * (n + 1) + top
  {
    assert (n + 2) * top == (n + 1) * top + top;
  }

  // The halves of a checksum.
  function Low16(x: nat): (r: nat)
    ensures r < 0x10000
  {
    x % 0x10000
  }

  function High16(x: nat): (r: nat)
    ensures r < 0x10000
  {
    x / 0x10000 % 0x10000
  }

  /** adler32(): the definition, from any start value and for every length, except for one case: a single byte after a
      second half so large that one subtraction does not reduce the sum. No checksum has such a half. A null buffer
      gives the initial value. */
  method Adler32(adler0: nat, buf: Option<seq<Byte>>) returns (r: nat)
    ensures buf.None? ==> r == 1
    ensures buf.Some? ==>
      var a, b, data := Low16(adler0), High16(adler0), buf.value;
      var right := Adler(Reduced(a, b), data).Packed();
      && right < U32 && (a < BASE && b < BASE ==> r == right == Adler(Sums(a, b), data).Packed())
      && r == right + (if |data| == 1 && b + (a + data[0]) % BASE >= 2 * BASE then 0x10000 * BASE else 0)
      && Low16(r) < BASE && (High16(r) < BASE <==> r == right)
  {
    hide Stands, Adler, Small, Low16, High16, Reduced;
    if buf.None? { return 1; }
    var a, b, data := Low16(adler0), High16(adler0), buf.value;
    AdlerValid(Reduced(a, b), data);
    Halves(Adler(Reduced(a, b), data));
    if |data| == 1 { r := OneByte(a, b, data); }
    else if |data| < 16 { r := FewBytes(a, b, data); }
    else { r := ManyBytes(a, b, data); }
  }

  method OneByte(a: nat, b: nat, data: seq<Byte>) returns (r: nat)
    requires a < 0x10000 && b < 0x10000 && |data| == 1
    ensures r == Adler(Reduced(a, b), data).Packed() + if b + (a + data[0]) % BASE < 2 * BASE then 0 else 0x10000 * BASE
    ensures Low16(r) < BASE && (High16(r) < BASE <==> b + (a + data[0]) % BASE < 2 * BASE)
  {
    hide Adler, Reduced, Low16, High16;
    var adler, sum2 := Within2(a + data[0]), b;
    sum2 := sum2 + adler;
    if sum2 >= BASE { sum2 := sum2 - BASE; }
    r := Sums(adler, sum2).Packed();
    Halves(Sums(adler, sum2));
    OneByteIs(a, b, data);
    Once(b + adler);
  }

  lemma Halves(s: Sums)
    requires s.a < 0x10000 && s.b < 0x10000
    ensures Low16(s.Packed()) == s.a && High16(s.Packed()) == s.b
  {
  }

  /** A single byte after a second half of 65535: the result has a half that no checksum has. */
  method HalfTooLarge() returns (r: nat)
    ensures High16(0xfffffff0) == 0xffff && Low16(0xfffffff0) == 0xfff0 && r == 0xfffefff0 && High16(r) >= BASE
  {
    hide Adler;
    Halves(Sums(0xfff0, 0xffff));
    Halves(Sums(0xfff0, 0xfffe));
    OneByteIs(0xfff0, 0xffff, [0]);
    r := Adler32(0xfffffff0, Some([0]));
  }

  // One subtraction is enough exactly below twice the modulus.
  lemma Once(x: nat)
    requires x < 3 * BASE
    ensures (if x >= BASE then x - BASE else x) == x % BASE + if x < 2 * BASE then 0 else BASE
  {
  }

  lemma OneByteIs(a: nat, b: nat, data: seq<Byte>)
    requires |data| == 1
    ensures Adler(Reduced(a, b), data) == Sums((a + data[0]) % BASE, (b + (a + data[0]) % BASE) % BASE)
  {
    assert data[..0] == [] && Adler(Reduced(a, b), data) == Next(Reduced(a, b), data[0]);
    hide Adler;
    AddMod(a, data[0]);
    AddMod(b, (a + data[0]) % BASE);
  }

  method FewBytes(a: nat, b: nat, data: seq<Byte>) returns (r: nat)
    requires a < 0x10000 && b < 0x10000 && |data| < 16
    ensures r == Adler(Reduced(a, b), data).Packed()
  {
    hide Stands, Adler, Bound, Reduced;
    StandsNone(a, b, data);
    var adler, sum2 := AddBytes(a, b, Reduced(a, b), data, 0, |data|);
    FewBound(|data|);
    StandsMod(adler, sum2, Reduced(a, b), data, |data|);
    adler := Within2(adler);
    r := Sums(adler, Mod28(sum2)).Packed();
  }

  lemma FewBound(n: nat)
    requires n < 16
    ensures Bound(n, 0xffff) < 0x1000_0000
  {
    TriClosed(15);
    BoundMono(n, 15, 0xffff);
  }

  // Blocks of NMAX bytes with one reduction each, then the rest.
  method ManyBytes(a: nat, b: nat, data: seq<Byte>) returns (r: nat)
    requires a < 0x10000 && b < 0x10000 && data != []
    ensures r == Adler(Reduced(a, b), data).Packed()
  {
    hide Stands, Adler, Small, Reduced;
    ghost var s := Reduced(a, b);
    StandsNone(a, b, data);
    var adler: nat, sum2: nat, i: nat := a, b, 0;
    while |data| - i >= NMAX
      invariant i <= |data| && Stands(adler, sum2, s, data, i) && adler < 0x10000 && sum2 < 0x10000
      invariant i > 0 ==> adler < BASE && sum2 < BASE
    {
      adler, sum2 := AddBytes(adler, sum2, s, data, i, NMAX);
      i := i + NMAX;
      StandsMod(adler, sum2, s, data, i);
      adler, sum2 := Mod(adler), Mod(sum2);
    }
    if i < |data| {
      adler, sum2 := AddBytes(adler, sum2, s, data, i, |data| - i);
      StandsMod(adler, sum2, s, data, |data|);
      adler, sum2 := Mod(adler), Mod(sum2);
    } else {
      StandsMod(adler, sum2, s, data, |data|);
    }
    r := Sums(adler, sum2).Packed();
  }

  // ---- combine ----

  function Total(buf: seq<Byte>): nat {
    if buf == [] then 0 else Total(buf[..|buf| - 1]) + buf[|buf| - 1]
  }

  // Each byte counted as often as it enters the second sum.
  function Weighted(buf: seq<Byte>): nat {
    if buf == [] then 0 else Weighted(buf[..|buf| - 1]) + Total(buf)
  }

  /** The two sums in closed form. */
  lemma {:induction false} Closed(s: Sums, buf: seq<Byte>)
    requires s.Valid()
    ensures Adler(s, buf).a == (s.a + Total(buf)) % BASE
    ensures Adler(s, buf).b == (s.b + |buf| * s.a + Weighted(buf)) % BASE
  {
    Unfold(s, buf);
    hide Adler, Total, Weighted;
    if buf != [] {
      var n := |buf| - 1;
      var p := buf[..n];
      Closed(s, p);
      ClosedNext(s, Adler(s, p), Total(p), Weighted(p), n, buf[n]);
    }
  }

  lemma Unfold(s: Sums, buf: seq<Byte>)
    ensures buf == [] ==> Adler(s, buf) == s && Total(buf) == 0 && Weighted(buf) == 0
    ensures buf != [] ==>
      var p, c := buf[..|buf| - 1], buf[|buf| - 1];
      Adler(s, buf) == Next(Adler(s, p), c) && Total(buf) == Total(p) + c && Weighted(buf) == Weighted(p) + Total(p) + c
  {
  }

  lemma ClosedNext(s: Sums, p: Sums, total: nat, weighted: nat, n: nat, c: Byte)
    requires p.a == (s.a + total) % BASE && p.b == (s.b + n * s.a + weighted) % BASE
    ensures Next(p, c).a == (s.a + total + c) % BASE
    ensures Next(p, c).b == (s.b + (n + 1) * s.a + (weighted + total + c)) % BASE
  {
    AddMod(s.a + total, c);
    AddMod2(s.b + n * s.a + weighted, s.a + total + c);
    assert (n + 1) * s.a == n * s.a + s.a;
  }

  lemma AddMod(x: nat, y: nat)
    ensures (x % BASE + y) % BASE == (x + y) % BASE
  {
  }

  lemma AddMod2(x: nat, y: nat)
    ensures (x % BASE + y % BASE) % BASE == (x + y) % BASE
  {
  }

  lemma MulMod(n: nat, a: nat)
    ensures ((n % BASE) * a) % BASE == (n * a) % BASE
  {
    var q, r := n / BASE, n % BASE;
    assert n * a == r * a + (q * a) * BASE;
    Multiple(r * a, q * a);
  }

  // What combining must give.
  lemma Joined(s: Sums, x: seq<Byte>, y: seq<Byte>)
    requires s.Valid()
    ensures
      var s1, s2, s3, rem := Adler(s, x), Adler(Sums(1, 0), y), Adler(s, x + y), |y| % BASE;
      && s1.Valid() && s2.Valid() && s3.Valid() && s3.a == (s1.a + s2.a + BASE - 1) % BASE
      && s3.b == ((rem * s1.a) % BASE + s1.b + s2.b + BASE - rem) % BASE
  {
    hide Adler, Total, Weighted;
    var s1, s2, n := Adler(s, x), Adler(Sums(1, 0), y), |y|;
    var rem := n % BASE;
    AdlerValid(s, x);
    AdlerValid(Sums(1, 0), y);
    AdlerValid(s, x + y);
    AdlerConcat(s, x, y);
    Closed(s1, y);
    Closed(Sums(1, 0), y);
    MulMod(n, s1.a);
    JoinA(s1.a, Total(y));
    JoinB(s1.b, n * s1.a, n, Weighted(y), rem);
  }

  lemma JoinA(a: nat, t: nat)
    ensures (a + t) % BASE == (a + (1 + t) % BASE + BASE - 1) % BASE
  {
  }

  lemma JoinB(b: nat, na: nat, n: nat, w: nat, rem: nat)
    requires rem == n % BASE
    ensures (b + na + w) % BASE == (na % BASE + b + (n + w) % BASE + BASE - rem) % BASE
  {
    var q := n / BASE;
    var lhs := b + na + w;
    var q1, q2 := na / BASE, (n + w) / BASE;
    var rhs := na % BASE + b + (n + w) % BASE + BASE - rem;
    assert rhs == lhs + (q + 1 - q1 - q2) * BASE;
    Shifted(lhs, rhs, q + 1 - q1 - q2);
  }

  lemma Shifted(x: int, y: int, k: int)
    requires y == x + k * BASE
    ensures x % BASE == y % BASE
  {
    if k >= 0 {
      Multiple(x, k);
    } else {
      assert x == y + (-k) * BASE;
      Multiple(y, -k);
    }
  }

  // sum1 | (sum2 << 16), where sum1 may have a seventeenth bit
  function Or16(sum1: nat, sum2: nat): nat
    requires sum1 < 0x20000
  {
    if sum1 < 0x10000 then sum1 + 0x10000 * sum2
    else sum1 - 0x10000 + 0x10000 * (if sum2 % 2 == 1 then sum2 else sum2 + 1)
  }

  /** adler32_combine_: the checksum of the concatenation from those of the parts. */
  method Combine(adler1: nat, adler2: nat, len2: int) returns (r: nat)
    requires len2 < 0x8000_0000_0000_0000  // z_off64_t
    ensures len2 < 0 ==> r == 0xffffffff
    ensures forall s: Sums, x: seq<Byte>, y: seq<Byte> ::
      s.Valid() && len2 == |y| && adler1 == Adler(s, x).Packed() && adler2 == Adler(Sums(1, 0), y).Packed()
      ==> r == Adler(s, x + y).Packed()
  {
    hide Adler, Sums.Packed, Mod, Mod63, Low16, High16;
    if len2 < 0 { return 0xffffffff; }
    var rem := Mod63(len2);
    var sum1 := Low16(adler1);
    Product(rem, sum1);
    var sum2 := Mod(rem * sum1);
    sum1 := sum1 + Low16(adler2) + BASE - 1;
    sum2 := sum2 + High16(adler1) + High16(adler2) + BASE - rem;
    ghost var first, second := sum1, sum2;
    if sum1 >= BASE { sum1 := sum1 - BASE; }
    if sum1 >= BASE { sum1 := sum1 - BASE; }
    if sum2 >= 2 * BASE { sum2 := sum2 - 2 * BASE; }
    if sum2 >= BASE { sum2 := sum2 - BASE; }
    r := Or16(sum1, sum2);
    forall s: Sums, x: seq<Byte>, y: seq<Byte> |
      s.Valid() && len2 == |y| && adler1 == Adler(s, x).Packed() && adler2 == Adler(Sums(1, 0), y).Packed()
      ensures r == Adler(s, x + y).Packed()
    {
      Joined(s, x, y);
      Unpacked(Adler(s, x));
      Unpacked(Adler(Sums(1, 0), y));
      Subtracted(first, second);
      PackedIs(Adler(s, x + y));
    }
  }

  // Sums of reduced halves are reduced by the subtractions.
  lemma Subtracted(sum1: nat, sum2: nat)
    requires sum1 < 3 * BASE && sum2 < 4 * BASE
    ensures Within3(sum1) == sum1 % BASE && Within4(sum2) == sum2 % BASE
  {
  }

  lemma PackedIs(s: Sums)
    requires s.Valid()
    ensures s.Packed() == Or16(s.a, s.b)
  {
  }

  function Within3(x: nat): (r: nat)
    requires x < 3 * BASE
    ensures r == x % BASE
  {
    Within2(if x >= BASE then x - BASE else x)
  }

  function Within4(x: nat): (r: nat)
    requires x < 4 * BASE
    ensures r == x % BASE
  {
    Within2(if x >= 2 * BASE then x - 2 * BASE else x)
  }

  lemma Unpacked(s: Sums)
    requires s.Valid()
    ensures Low16(s.Packed()) == s.a && High16(s.Packed()) == s.b
  {
  }

  lemma Product(x: nat, y: nat)
    requires x < BASE && y < 0x10000
    ensures x * y < U32
  {
    MulMono(x, BASE - 1, y);
    assert (BASE - 1) * y == 65520 * y;
  }

  lemma MulMono(x: nat, z: nat, y: nat)
    requires x <= z
    ensures x * y <= z * y
  {
    assert z * y == x * y + (z - x) * y;
  }
}
