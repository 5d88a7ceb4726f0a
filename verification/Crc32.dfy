/** The tables of make_crc_table and the byte-wise, little-endian and big-endian loops of deps/zlib/crc32.c. */
module Crc32 {
  import opened Bits
  import opened BitStream
  import opened CrcRegister

  // ---- words ----

  function Byte0(c: Word): Byte { AsByte(c[..8]) }
  function Byte1(c: Word): Byte { AsByte(c[8..16]) }
  function Byte2(c: Word): Byte { AsByte(c[16..24]) }
  function Byte3(c: Word): Byte { AsByte(c[24..]) }

  function AsByte(b: seq<bool>): Byte
    requires |b| == 8
  {
    assert Pow2(8) == 256;
    Val(b)
  }

  lemma AsByteBits(b: seq<bool>)
    requires |b| == 8
    ensures BitsOf(AsByte(b), 8) == b
  {
    BitsOfVal(b);
  }

  // c >> 8 and c << 8
  function Down8(c: Word): Word { c[8..] + Fill(8) }
  function Up8(c: Word): Word { Fill(8) + c[..24] }

  // ZSWAP32
  function Swap(c: Word): Word {
    c[24..] + c[16..24] + c[8..16] + c[..8]
  }

  function Number(b: Byte): Word { Pad(BitsOf(b, 8)) }

  lemma SwapXor(a: Word, b: Word)
    ensures Swap(Xor(a, b)) == Xor(Swap(a), Swap(b))
  {
  }

  lemma SwapSwap(c: Word)
    ensures Swap(Swap(c)) == c
  {
    var s := Swap(c);
    assert s[24..] == c[..8] && s[16..24] == c[8..16] && s[8..16] == c[16..24] && s[..8] == c[24..];
  }

  // ---- what the tables hold ----

  // The CRC of the byte n followed by k zero bytes.
  function Entry(k: nat, n: Byte): Word {
    Zeros(Number(n), 8 * (k + 1))
  }

  ghost predicate Tables(t: array2<Word>)
    reads t
  {
    && t.Length0 == 8 && t.Length1 == 256
    && (forall k, n :: 0 <= k < 4 && 0 <= n < 256 ==> t[k, n] == Entry(k, n))
    && forall k, n :: 4 <= k < 8 && 0 <= n < 256 ==> t[k, n] == Swap(Entry(k - 4, n))
  }

  // Eight zero bits: the low byte through the table, the rest moved down.
  lemma ByteStep(c: Word)
    ensures Zeros(c, 8) == Xor(Entry(0, Byte0(c)), Down8(c))
  {
    hide Zeros, BitsOf;
    var lo, hi := Pad(c[..8]), Fill(8) + c[8..];
    assert c == Xor(lo, hi);
    AsByteBits(c[..8]);
    ZerosLinear(lo, hi, 8);
    ShiftOut(hi, 8);
    assert hi[8..] == c[8..];
  }

  lemma NextEntry(k: nat, n: Byte)
    ensures Zeros(Entry(k, n), 8) == Entry(k + 1, n)
  {
    ZerosPlus(Number(n), 8 * (k + 1), 8);
  }

  // ---- make_crc_table ----

  method MakePoly() returns (poly: Word)
    ensures poly == Poly()
  {
    poly := Zero();
    for n := 0 to |TERMS|
      invariant forall i :: 0 <= i < 32 ==> (poly[i] <==> 31 - i in TERMS[..n])
    {
      Term(n);
      assert TERMS[..n + 1] == TERMS[..n] + [TERMS[n]];
      poly := poly[31 - TERMS[n] := true];
    }
    assert TERMS[..|TERMS|] == TERMS;
  }

  lemma Term(n: nat)
    requires n < |TERMS|
    ensures TERMS[n] < 32
  {
  }

  method ByteCrc(n: Byte, poly: Word) returns (c: Word)
    requires poly == Poly()
    ensures c == Entry(0, n)
  {
    hide Poly, BitsOf;
    c := Number(n);
    for k := 0 to 8
      invariant Zeros(c, 8 - k) == Entry(0, n)
    {
      c := if c[0] then Xor(poly, c[1..] + [false]) else c[1..] + [false];
    }
  }

  method MakeCrcTable() returns (t: array2<Word>)
    ensures fresh(t) && Tables(t)
  {
    hide Poly, BitsOf, Zeros, Entry, Swap;
    var poly := MakePoly();
    t := new Word[8, 256]((_, _) => Zero());
    for n := 0 to 256
      invariant forall m :: 0 <= m < n ==> t[0, m] == Entry(0, m)
    {
      t[0, n] := ByteCrc(n, poly);
    }
    for n := 0 to 256
      invariant forall m :: 0 <= m < 256 ==> t[0, m] == Entry(0, m)
      invariant forall k, m :: 0 <= k < 4 && 0 <= m < n ==> t[k, m] == Entry(k, m)
      invariant forall k, m :: 4 <= k < 8 && 0 <= m < n ==> t[k, m] == Swap(Entry(k - 4, m))
    {
      OtherTables(t, n);
    }
  }

  method OtherTables(t: array2<Word>, n: Byte)
    requires t.Length0 == 8 && t.Length1 == 256 && forall m :: 0 <= m < 256 ==> t[0, m] == Entry(0, m)
    modifies t
    ensures forall k :: 0 <= k < 4 ==> t[k, n] == Entry(k, n)
    ensures forall k :: 4 <= k < 8 ==> t[k, n] == Swap(Entry(k - 4, n))
    ensures forall k, m :: 0 <= k < 8 && 0 <= m < 256 && m != n ==> t[k, m] == old(t[k, m])
  {
    hide BitsOf, Zeros, Entry, Swap, Down8;
    var c := t[0, n];
    t[4, n] := Swap(c);
    for k := 1 to 4
      invariant c == Entry(k - 1, n)
      invariant forall m :: 0 <= m < 256 ==> t[0, m] == Entry(0, m)
      invariant forall j :: 0 <= j < k ==> t[j, n] == Entry(j, n)
      invariant forall j :: 4 <= j < k + 4 ==> t[j, n] == Swap(Entry(j - 4, n))
      invariant forall j, m :: 0 <= j < 8 && 0 <= m < 256 && m != n ==> t[j, m] == old(t[j, m])
    {
      ByteStep(c);
      NextEntry(k - 1, n);
      c := Xor(t[0, Byte0(c)], Down8(c));
      t[k, n] := c;
      t[k + 4, n] := Swap(c);
    }
  }

  // ---- one byte and four bytes ----

  lemma FeedByte(c: Word, b: Byte)
    ensures Register(c, BytesBits([b])) == Zeros(Xor(c, Number(b)), 8)
    ensures Byte0(Xor(c, Number(b))) < 256 && Down8(Xor(c, Number(b))) == Down8(c)
  {
    hide Zeros, Register, BitsOf;
    BytesBitsOne(b);
    RegisterWord(c, BitsOf(b, 8));
  }

  // A word as the little-endian machine loads it.
  function Load(b: seq<Byte>): Word
    requires |b| == 4
  {
    BitsOf(b[0], 8) + BitsOf(b[1], 8) + BitsOf(b[2], 8) + BitsOf(b[3], 8)
  }

  function LoadBig(b: seq<Byte>): Word
    requires |b| == 4
  {
    BitsOf(b[3], 8) + BitsOf(b[2], 8) + BitsOf(b[1], 8) + BitsOf(b[0], 8)
  }

  lemma LoadSwap(b: seq<Byte>)
    requires |b| == 4
    ensures LoadBig(b) == Swap(Load(b))
  {
    hide BitsOf;
  }

  lemma FeedFour(c: Word, b: seq<Byte>)
    requires |b| == 4
    ensures Register(c, BytesBits(b)) == Zeros(Xor(c, Load(b)), 32)
  {
    hide Zeros, Register, BitsOf, Xor;
    FourBits(b);
    RegisterWord(c, Load(b));
    assert Pad(Load(b)) == Load(b);
  }

  lemma FourBits(b: seq<Byte>)
    requires |b| == 4
    ensures BytesBits(b) == Load(b)
  {
    hide BitsOf, BytesBits;
    BytesBitsOne(b[0]);
    BytesBitsOne(b[1]);
    BytesBitsOne(b[2]);
    BytesBitsOne(b[3]);
    BytesBitsConcat([b[0]], [b[1]]);
    BytesBitsConcat([b[0]] + [b[1]], [b[2]]);
    BytesBitsConcat([b[0]] + [b[1]] + [b[2]], [b[3]]);
    assert b == [b[0]] + [b[1]] + [b[2]] + [b[3]];
  }

  // Peel off the low byte.
  lemma Peel(c: Word, k: nat)
    ensures Zeros(c, 8 * (k + 1)) == Xor(Entry(k, Byte0(c)), Zeros(Down8(c), 8 * k))
  {
    hide Zeros, Xor, BitsOf;
    ByteStep(c);
    var e := Entry(0, Byte0(c));
    ZerosPlus(c, 8, 8 * k);
    ZerosLinear(e, Down8(c), 8 * k);
    ZerosPlus(Number(Byte0(c)), 8, 8 * k);
  }

  lemma FourTables(c: Word)
    ensures Zeros(c, 32) ==
      Xor(Xor(Xor(Entry(3, Byte0(c)), Entry(2, Byte1(c))), Entry(1, Byte2(c))), Entry(0, Byte3(c)))
  {
    hide Zeros, Xor, Entry, AsByte;
    var c1 := Down8(c);
    var c2 := Down8(c1);
    var c3 := Down8(c2);
    Peel(c, 3);
    Peel(c1, 2);
    Peel(c2, 1);
    Peel(c3, 0);
    assert c1[..8] == c[8..16] && c2[..8] == c[16..24] && c3[..8] == c[24..];
    assert Zeros(Down8(c3), 0) == Down8(c3) by { NoZeros(Down8(c3)); }
    assert Down8(c3) == Zero();
    Regroup(Entry(3, Byte0(c)), Entry(2, Byte1(c)), Entry(1, Byte2(c)), Entry(0, Byte3(c)));
  }

  lemma NoZeros(c: Word)
    ensures Zeros(c, 0) == c
  {
  }

  lemma Regroup(a: Word, b: Word, c: Word, d: Word)
    ensures Xor(a, Xor(b, Xor(c, Xor(d, Zero())))) == Xor(Xor(Xor(a, b), c), d)
  {
  }

  // ---- the loops ----

  // DO1
  method Do1(t: array2<Word>, c: Word, b: Byte) returns (r: Word)
    requires Tables(t)
    ensures r == Register(c, BytesBits([b]))
  {
    hide Zeros, Register, BitsOf, BytesBits, Entry, Swap, Xor, Down8, Byte0;
    var x := Xor(c, Number(b));
    FeedByte(c, b);
    ByteStep(x);
    r := Xor(t[0, Byte0(x)], Down8(c));
  }

  lemma OneMore(c: Word, buf: seq<Byte>, i: nat, n: nat)
    requires i + n <= |buf|
    ensures Register(c, BytesBits(buf[..i + n])) == Register(Register(c, BytesBits(buf[..i])), BytesBits(buf[i..i + n]))
  {
    hide Register, BytesBits;
    assert buf[..i + n] == buf[..i] + buf[i..i + n];
    BytesBitsConcat(buf[..i], buf[i..i + n]);
    RegisterConcat(c, BytesBits(buf[..i]), BytesBits(buf[i..i + n]));
  }

  // The register after the first i bytes.
  function After(c: Word, buf: seq<Byte>, i: nat): Word
    requires i <= |buf|
  {
    Register(c, BytesBits(buf[..i]))
  }

  method ByteAt(t: array2<Word>, c: Word, ghost start: Word, buf: seq<Byte>, i: nat) returns (r: Word)
    requires Tables(t) && i < |buf| && c == After(start, buf, i)
    ensures r == After(start, buf, i + 1)
  {
    hide Register, BytesBits, Tables;
    r := Do1(t, c, buf[i]);
    assert buf[i..i + 1] == [buf[i]];
    OneMore(start, buf, i, 1);
  }

  lemma AfterNone(c: Word, buf: seq<Byte>)
    ensures After(c, buf, 0) == c
  {
  }

  lemma AfterAll(crc: Word, buf: seq<Byte>)
    ensures Not(After(Not(crc), buf, |buf|)) == Crc(crc, buf)
  {
    hide Not, Register, BytesBits;
    assert buf[..|buf|] == buf;
  }

  // crc32 without BYFOUR: eight bytes per round, then one by one.
  method Bytewise(t: array2<Word>, crc: Word, buf: seq<Byte>) returns (r: Word)
    requires Tables(t)
    ensures r == Crc(crc, buf)
  {
    hide Register, BytesBits, Tables, Not, After, Crc;
    var c := Not(crc);
    AfterNone(c, buf);
    ghost var start := c;
    var i := 0;
    while |buf| - i >= 8
      invariant i <= |buf| && c == After(start, buf, i)
    {
      for k := 0 to 8
        invariant c == After(start, buf, i + k)
      {
        c := ByteAt(t, c, start, buf, i + k);
      }
      i := i + 8;
    }
    while i < |buf|
      invariant i <= |buf| && c == After(start, buf, i)
    {
      c := ByteAt(t, c, start, buf, i);
      i := i + 1;
    }
    AfterAll(crc, buf);
    r := Not(c);
  }

  // DOLIT4
  method DoLit4(t: array2<Word>, c: Word, ghost start: Word, buf: seq<Byte>, i: nat) returns (r: Word)
    requires Tables(t) && i + 4 <= |buf| && c == After(start, buf, i)
    ensures r == After(start, buf, i + 4)
  {
    hide Register, BytesBits, Zeros, Entry, Xor, Load, Swap, Byte0, Byte1, Byte2, Byte3;
    var x := Xor(c, Load(buf[i..i + 4]));
    FeedFour(c, buf[i..i + 4]);
    FourTables(x);
    OneMore(start, buf, i, 4);
    r := Xor(Xor(Xor(t[3, Byte0(x)], t[2, Byte1(x)]), t[1, Byte2(x)]), t[0, Byte3(x)]);
  }

  // crc32_little; addr is the address of the buffer.
  method Little(t: array2<Word>, crc: Word, buf: seq<Byte>, addr: nat) returns (r: Word)
    requires Tables(t)
    ensures r == Crc(crc, buf)
  {
    hide Register, BytesBits, Tables, Not, After, Crc;
    var c := Not(crc);
    AfterNone(c, buf);
    ghost var start := c;
    var i := 0;
    while i < |buf| && (addr + i) % 4 != 0
      invariant i <= |buf| && c == After(start, buf, i)
    {
      c := ByteAt(t, c, start, buf, i);
      i := i + 1;
    }
    while |buf| - i >= 32
      invariant i <= |buf| && c == After(start, buf, i)
    {
      for k := 0 to 8
        invariant c == After(start, buf, i + 4 * k)
      {
        c := DoLit4(t, c, start, buf, i + 4 * k);
      }
      i := i + 32;
    }
    while |buf| - i >= 4
      invariant i <= |buf| && c == After(start, buf, i)
    {
      c := DoLit4(t, c, start, buf, i);
      i := i + 4;
    }
    while i < |buf|
      invariant i <= |buf| && c == After(start, buf, i)
    {
      c := ByteAt(t, c, start, buf, i);
      i := i + 1;
    }
    AfterAll(crc, buf);
    r := Not(c);
  }

  // ---- big-endian: the register is kept with its bytes reversed ----

  lemma SwapBytes(c: Word)
    ensures Byte0(Swap(c)) == Byte3(c) && Byte1(Swap(c)) == Byte2(c) && Byte2(Swap(c)) == Byte1(c)
      && Byte3(Swap(c)) == Byte0(c)
    ensures Up8(Swap(c)) == Swap(Down8(c))
  {
    hide AsByte;
    assert Swap(c)[..8] == c[24..] && Swap(c)[8..16] == c[16..24] && Swap(c)[16..24] == c[8..16]
      && Swap(c)[24..] == c[..8];
  }

  // The byte is added to the high byte of the swapped register.
  lemma HighByte(c: Word, b: Byte)
    ensures AsByte(XorBits(c[24..], BitsOf(b, 8))) == Byte0(Xor(Swap(c), Number(b)))
  {
    hide AsByte, BitsOf;
    assert XorBits(c[24..], BitsOf(b, 8)) == Xor(Swap(c), Number(b))[..8];
  }

  function XorBits(a: seq<bool>, b: seq<bool>): (r: seq<bool>)
    requires |a| == |b|
    ensures |r| == |a|
  {
    seq(|a|, i requires 0 <= i < |a| => a[i] != b[i])
  }

  method BigByte(t: array2<Word>, c: Word, ghost start: Word, buf: seq<Byte>, i: nat) returns (r: Word)
    requires Tables(t) && i < |buf| && c == Swap(After(start, buf, i))
    ensures r == Swap(After(start, buf, i + 1))
  {
    hide Register, BytesBits, Zeros, Entry, Xor, Swap, Byte0, Down8, BitsOf, Up8, AsByte;
    ghost var x := After(start, buf, i);
    var b := buf[i];
    FeedByte(x, b);
    ByteStep(Xor(x, Number(b)));
    assert buf[i..i + 1] == [b];
    OneMore(start, buf, i, 1);
    SwapSwap(x);
    HighByte(c, b);
    SwapBytes(x);
    SwapXor(Entry(0, Byte0(Xor(x, Number(b)))), Down8(x));
    r := Xor(t[4, AsByte(XorBits(c[24..], BitsOf(b, 8)))], Up8(c));
  }

  // DOBIG4
  method DoBig4(t: array2<Word>, c: Word, ghost start: Word, buf: seq<Byte>, i: nat) returns (r: Word)
    requires Tables(t) && i + 4 <= |buf| && c == Swap(After(start, buf, i))
    ensures r == Swap(After(start, buf, i + 4))
  {
    hide Register, BytesBits, Zeros, Entry, Xor, Load, LoadBig, Swap, Byte0, Byte1, Byte2, Byte3, Down8, Up8;
    var four := buf[i..i + 4];
    ghost var y := After(start, buf, i);
    ghost var z := Xor(y, Load(four));
    FeedFour(y, four);
    FourTables(z);
    OneMore(start, buf, i, 4);
    LoadSwap(four);
    SwapXor(y, Load(four));
    SwapBytes(z);
    SwapFour(Entry(3, Byte0(z)), Entry(2, Byte1(z)), Entry(1, Byte2(z)), Entry(0, Byte3(z)));
    var x := Xor(c, LoadBig(four));
    r := Xor(Xor(Xor(t[4, Byte0(x)], t[5, Byte1(x)]), t[6, Byte2(x)]), t[7, Byte3(x)]);
  }

  lemma SwapFour(a: Word, b: Word, c: Word, d: Word)
    ensures Swap(Xor(Xor(Xor(a, b), c), d)) == Xor(Xor(Xor(Swap(d), Swap(c)), Swap(b)), Swap(a))
  {
    SwapXor(Xor(Xor(a, b), c), d);
    SwapXor(Xor(a, b), c);
    SwapXor(a, b);
    hide Swap;
  }

  // crc32_big
  method Big(t: array2<Word>, crc: Word, buf: seq<Byte>, addr: nat) returns (r: Word)
    requires Tables(t)
    ensures r == Crc(crc, buf)
  {
    hide Register, BytesBits, Tables, Not, After, Crc, Swap;
    SwapNot(crc);
    var c := Not(Swap(crc));
    ghost var start := Not(crc);
    AfterNone(start, buf);
    var i := 0;
    while i < |buf| && (addr + i) % 4 != 0
      invariant i <= |buf| && c == Swap(After(start, buf, i))
    {
      c := BigByte(t, c, start, buf, i);
      i := i + 1;
    }
    while |buf| - i >= 32
      invariant i <= |buf| && c == Swap(After(start, buf, i))
    {
      for k := 0 to 8
        invariant c == Swap(After(start, buf, i + 4 * k))
      {
        c := DoBig4(t, c, start, buf, i + 4 * k);
      }
      i := i + 32;
    }
    while |buf| - i >= 4
      invariant i <= |buf| && c == Swap(After(start, buf, i))
    {
      c := DoBig4(t, c, start, buf, i);
      i := i + 4;
    }
    while i < |buf|
      invariant i <= |buf| && c == Swap(After(start, buf, i))
    {
      c := BigByte(t, c, start, buf, i);
      i := i + 1;
    }
    AfterAll(crc, buf);
    SwapNot(After(start, buf, |buf|));
    SwapSwap(Not(After(start, buf, |buf|)));
    r := Swap(Not(c));
  }

  lemma SwapNot(c: Word)
    ensures Swap(Not(c)) == Not(Swap(c))
  {
  }

  /** crc32(): whichever loop the machine selects, the bit-serial checksum; a null buffer gives 0. */
  method Crc32(crc: Word, buf: Option<seq<Byte>>, addr: nat, byFour: bool, littleEndian: bool) returns (r: Word)
    ensures r == if buf.None? then Zero() else Crc(crc, buf.value)
  {
    hide Crc, Tables;
    if buf.None? { return Zero(); }
    var t := MakeCrcTable();
    if !byFour { r := Bytewise(t, crc, buf.value); }
    else if littleEndian { r := Little(t, crc, buf.value, addr); }
    else { r := Big(t, crc, buf.value, addr); }
  }
}
