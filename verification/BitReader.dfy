/** The bit accumulator of deps/zlib/inflate.c: NEEDBITS, PULLBYTE, BITS, DROPBITS, BYTEBITS, and the
    loops that read one Huffman symbol. */
module BitReader {
  import opened Bits
  import opened BitStream
  import opened Canon
  import opened DecodeTable
  import opened Rfc1951
  import opened Lookup

  /** next_in, avail_in, hold and bits.  `stream` is everything the caller will ever supply;
      `input` is the part in the current buffer. */
  class Reader {
    ghost const stream: seq<Byte>
    ghost var base: nat  // where in the stream the buffer starts
    var input: seq<Byte>
    var inpos: nat
    var hold: nat
    var bits: nat
    var totalIn: nat   // bytes taken so far, this call included

    ghost function I(): seq<bool> {
      BytesBits(stream)
    }

    // Number of bits used up.
    ghost function P(): int
      reads this
    {
      8 * totalIn - bits
    }

    // The bits taken from the input but not used.
    ghost function Held(): seq<bool>
      requires 0 <= P() && totalIn <= |stream|
      reads this
    {
      I()[P()..8 * totalIn]
    }

    ghost predicate Valid()
      reads this
    {
      && inpos <= |input| && totalIn == base + inpos
      && base + |input| <= |stream| && input == stream[base..base + |input|]
      && P() >= 0 && hold == Val(Held()) && bits <= 32
    }

    // Bits not used yet, in the accumulator and in the buffer.
    ghost function Left(): nat
      requires Valid()
      reads this
    {
      8 * (|input| - inpos) + bits
    }

    // Everything seen so far, and no more.
    ghost function Seen(): seq<bool>
      requires Valid()
      reads this
    {
      I()[..8 * totalIn]
    }

    constructor (ghost whole: seq<Byte>)
      ensures Valid() && stream == whole && P() == 0 && totalIn == 0 && bits == 0 && inpos == |input|
    {
      stream := whole;
      input, inpos, hold, bits, totalIn, base := [], 0, 0, 0, 0, 0;
    }

    // The caller supplies the next bytes of the stream, those not used yet among them.
    method Supply(chunk: seq<Byte>)
      requires Valid()
      requires totalIn + |chunk| <= |stream| && chunk == stream[totalIn..totalIn + |chunk|]
      modifies this`input, this`inpos, this`base
      ensures Valid() && input == chunk && inpos == 0 && P() == old(P()) && base == totalIn
    {
      input, inpos, base := chunk, 0, totalIn;
    }

    method PullByte()
      requires Valid() && inpos < |input| && bits <= 24  // the accumulator has 32 bits
      modifies this`hold, this`bits, this`inpos, this`totalIn
      ensures Valid() && P() == old(P()) && bits == old(bits) + 8 && inpos == old(inpos) + 1
      ensures Left() == old(Left())
      ensures exists c :: |c| == 8 && Held() == old(Held()) + c
    {
      hide BytesBits, Val, Shl, BitsOf;
      ghost var held, k := Held(), totalIn;
      assert input[inpos] == stream[k];
      NextByte(stream, k, held, P());
      hold := hold + Shl(input[inpos], bits);
      inpos, totalIn, bits := inpos + 1, totalIn + 1, bits + 8;
    }

    // NEEDBITS: false means the buffer ran out first.
    method NeedBits(n: nat) returns (ok: bool)
      requires Valid() && (n <= 25 || (n == 32 && bits % 8 == 0))
      modifies this`hold, this`bits, this`inpos, this`totalIn
      ensures Kept(old(P()), old(Left()), old(inpos)) && bits >= old(bits)
      ensures ok <==> bits >= n
      ensures !ok ==> inpos == |input| && |Seen()| < P() + n
      ensures ok ==> bits < n + 8 || (bits == old(bits) && hold == old(hold))
      ensures bits % 8 == old(bits) % 8
      ensures old(Held()) <= Held()
    {
      hide Held, Val, BytesBits, Pow2, Seen, P, Left, Valid;
      Bounds();
      ghost var held, b0, pos := Held(), bits, inpos;
      Octets(b0, 0, n);
      while bits < n
        invariant Kept(old(P()), old(Left()), old(inpos)) && inpos <= |input| && P() >= 0 && totalIn <= |stream|
        invariant bits < n + 8 || (bits == old(bits) && hold == old(hold))
        invariant bits == b0 + 8 * (inpos - pos) && bits % 8 == b0 % 8 && (bits < n ==> bits <= 24)
        invariant held <= Held()
        decreases |input| - inpos
      {
        if inpos == |input| {
          SeenAll();
          return false;
        }
        ghost var before := Held();
        PullByte();
        Bounds();
        Longer(held, before, Held());
        Octets(b0, inpos - pos, n);
      }
      return true;
    }

    // What has been seen is used or held.
    lemma SeenAll()
      requires Valid()
      ensures |Seen()| == P() + bits
    {
      HeldFacts();
      hide Val;
    }

    lemma Bounds()
      requires Valid()
      ensures inpos <= |input| && P() >= 0 && totalIn <= |stream|
    {
      hide Held, Val;
    }

    // NEEDBITS never asks for a byte the accumulator has no room for.
    static lemma Octets(b: nat, k: nat, n: nat)
      requires n <= 25 || (n == 32 && b % 8 == 0)
      ensures (b + 8 * k) % 8 == b % 8 && (b + 8 * k < n ==> b + 8 * k <= 24)
    {
    }

    static lemma Longer(a: seq<bool>, b: seq<bool>, c: seq<bool>)
      requires a <= b && exists d :: |d| == 8 && c == b + d
      ensures a <= c
    {
    }

    lemma LeftFacts()
      requires Valid()
      ensures inpos <= |input| && Left() == 8 * (|input| - inpos) + bits
    {
      hide Held, Val;
    }

    // BITS(n) followed by DROPBITS(n).
    method Take(n: nat) returns (v: nat)
      requires Valid() && n <= bits
      modifies this`hold, this`bits
      ensures Valid() && P() == old(P()) + n && bits == old(bits) - n && Left() == old(Left()) - n
      ensures old(P()) + n <= 8 * totalIn && old(P()) + n <= |I()| && v == Field(I(), old(P()), n)
      ensures Held() == old(Held())[n..] && hold == Shr(old(hold), n)
    {
      hide BytesBits, Val, Shr, Low;
      ghost var held, p := Held(), P();
      ValTake(held, n);
      assert held[..n] == I()[p..p + n] && held[n..] == I()[p + n..8 * totalIn];
      v := Low(hold, n);
      hold, bits := Shr(hold, n), bits - n;
    }

    // A lookup with the bits at hand needs more than there are.
    ghost predicate Short(tab: seq<Entry>, root: nat)
      reads this
    {
      Resolve(tab, root, hold).1 > bits
    }

    // Pull bytes until the root entry is covered by the bits at hand.
    method FindFirst(tab: seq<Entry>, root: nat, ghost t: CodeType, ghost lens: seq<nat>)
      returns (ok: bool, here: Entry, ghost pulled: bool, ghost prior: seq<bool>)
      requires Valid() && TableFor(tab, t, lens, root)
      modifies this`hold, this`bits, this`inpos, this`totalIn
      ensures Kept(old(P()), old(Left()), old(inpos))
      ensures !pulled ==> bits == old(bits) && hold == old(hold)
      ensures pulled ==> Behind(tab, root, prior) && old(Short(tab, root))
      ensures Low(hold, root) < |tab| && here == tab[Low(hold, root)]
      ensures if ok then here.bits <= bits else inpos == |input| && Short(tab, root)
    {
      hide BytesBits, Val, Low, Shr, Resolve, TableFor, Pow2;
      pulled, prior := false, Held();
      while true
        invariant Kept(old(P()), old(Left()), old(inpos))
        invariant !pulled ==> bits == old(bits) && hold == old(hold)
        invariant pulled ==> Behind(tab, root, prior) && old(Short(tab, root))
        decreases |input| - inpos
      {
        SecondLevel(tab, t, lens, root, hold);
        here := tab[Low(hold, root)];
        if here.bits <= bits { return true, here, pulled, prior; }
        if inpos == |input| { return false, here, pulled, prior; }
        prior, pulled := Held(), true;
        PullByte();
      }
    }

    // The same for the entry of the sub-table that `last` links to.
    method FindSecond(tab: seq<Entry>, root: nat, last: Entry, ghost t: CodeType, ghost lens: seq<nat>,
                      ghost pulled0: bool, ghost prior0: seq<bool>)
      returns (ok: bool, here: Entry, ghost pulled: bool, ghost prior: seq<bool>)
      requires Valid() && TableFor(tab, t, lens, root)
      requires Low(hold, root) < |tab| && tab[Low(hold, root)] == last && IsLink(last) && last.bits <= bits
      requires pulled0 ==> Behind(tab, root, prior0)
      modifies this`hold, this`bits, this`inpos, this`totalIn
      ensures Kept(old(P()), old(Left()), old(inpos))
      ensures !pulled ==> !pulled0 && bits == old(bits) && hold == old(hold)
      ensures pulled ==> Behind(tab, root, prior)
      ensures Resolve(tab, root, hold) == (here, last.bits + here.bits)
      ensures if ok then last.bits + here.bits <= bits else inpos == |input| && Short(tab, root)
    {
      hide BytesBits, Val, Low, Shr, Resolve, TableFor, Pow2;
      pulled, prior := pulled0, prior0;
      SecondLevel(tab, t, lens, root, hold);
      while true
        invariant Kept(old(P()), old(Left()), old(inpos))
        invariant !pulled ==> !pulled0 && bits == old(bits) && hold == old(hold)
        invariant pulled ==> Behind(tab, root, prior)
        invariant last.bits == root <= bits && Low(hold, root) < |tab| && tab[Low(hold, root)] == last
        decreases |input| - inpos
      {
        SecondLevel(tab, t, lens, root, hold);
        here := tab[last.val + Low(Shr(hold, last.bits), last.op)];
        if last.bits + here.bits <= bits { return true, here, pulled, prior; }
        if inpos == |input| { return false, here, pulled, prior; }
        prior, pulled := Held(), true;
        PullByte();
        ghost var c :| |c| == 8 && Held() == prior + c;
        SameLow(prior, c, root);
      }
    }

    // The loops that read one Huffman symbol, pulling bytes only while its code is incomplete.
    method Find(tab: seq<Entry>, root: nat, ghost t: CodeType, ghost lens: seq<nat>)
      returns (ok: bool, here: Entry, n: nat)
      requires Valid() && TableFor(tab, t, lens, root)
      modifies this`hold, this`bits, this`inpos, this`totalIn
      ensures Kept(old(P()), old(Left()), old(inpos))
      ensures ok ==> n <= bits && Resolve(tab, root, hold) == (here, n)
      ensures !ok ==> inpos == |input| && Short(tab, root)
      ensures ok && (old(bits) < 8 || old(Short(tab, root))) ==> bits < n + 8
    {
      hide BytesBits, Val, Low, Shr, Resolve, TableFor, Pow2;
      ghost var pulled, prior;
      ok, here, pulled, prior := FindFirst(tab, root, t, lens);
      if !ok { return false, here, 0; }
      SecondLevel(tab, t, lens, root, hold);
      n := 0;
      if IsLink(here) {
        n := here.bits;
        ok, here, pulled, prior := FindSecond(tab, root, here, t, lens, pulled, prior);
        if !ok { return false, here, 0; }
      }
      n := n + here.bits;
      if pulled && n <= |prior| {
        ghost var c :| |c| == 8 && Held() == prior + c;
        Stable(tab, t, lens, root, prior, c);
        assert false;
      }
    }

    // The same loop where the table has no second level.
    method FindFlat(tab: seq<Entry>, root: nat, ghost t: CodeType, ghost lens: seq<nat>)
      returns (ok: bool, here: Entry)
      requires Valid() && TableFor(tab, t, lens, root) && Flat(tab, root)
      modifies this`hold, this`bits, this`inpos, this`totalIn
      ensures Kept(old(P()), old(Left()), old(inpos))
      ensures ok ==> here.bits <= bits && Resolve(tab, root, hold) == (here, here.bits)
      ensures !ok ==> inpos == |input| && Short(tab, root)
      ensures ok && (old(bits) < 8 || old(Short(tab, root))) ==> bits < here.bits + 8
      ensures ok && !old(Short(tab, root)) ==> bits == old(bits) && hold == old(hold)
    {
      hide BytesBits, Val, Low, Shr, Resolve, TableFor, Pow2;
      ghost var pulled, prior;
      ok, here, pulled, prior := FindFirst(tab, root, t, lens);
      SecondLevel(tab, t, lens, root, hold);
      if ok {
        if pulled && here.bits <= |prior| {
          ghost var c :| |c| == 8 && Held() == prior + c;
          Stable(tab, t, lens, root, prior, c);
          assert false;
        }
      }
    }

    // if (state->extra) { NEEDBITS(state->extra); ... DROPBITS(state->extra); }
    method TakeExtra(n: nat) returns (ok: bool, x: nat)
      requires Valid() && n <= 13
      modifies this`hold, this`bits, this`inpos, this`totalIn
      ensures Valid()
      ensures ok ==> P() == old(P()) + n <= |I()| && Left() == old(Left()) - n && (bits < 8 || bits == old(bits) - n)
                     && x == Field(I(), old(P()), n) && x < Pow2(n)
      ensures !ok ==> P() == old(P()) && Left() == old(Left()) && bits < n && inpos == |input| && |Seen()| < P() + n
    {
      hide BytesBits, Val, Pow2, Field, Held, Left, Seen, Valid, P;
      ghost var p := P();
      ok, x := true, 0;
      HeldFacts();
      EmptyField(I(), p);
      if n != 0 {
        ok := NeedBits(n);
        if ok {
          x := Take(n);
          FieldBound(I(), p, n);
        }
      }
    }

    /** The accumulator never needs more than 32 bits, and has no bits beyond those counted. */
    lemma Accumulator()
      requires Valid()
      ensures bits <= 32 && hold < Pow2(bits) <= Pow2(32)
    {
      hide BytesBits, Val, Pow2;
      Pow2Mono(bits, 32);
      assert |Held()| == bits;
    }

    // The accumulator is the next stretch of the stream.
    lemma HeldFacts()
      requires Valid()
      ensures P() >= 0 && totalIn <= |stream| && inpos <= |input| && |Held()| == bits && hold == Val(Held())
        && |Seen()| == 8 * totalIn && P() <= |Seen()| <= |I()|
      ensures Seen()[P()..] == Held() && I()[P()..] == Held() + I()[|Seen()|..]
      ensures forall n: nat {:trigger Held()[..n]} :: n <= bits ==> Held()[..n] == I()[P()..P() + n]
    {
      hide BytesBits, Val;
    }

    // ---- the unchecked reads of deps/zlib/inffast.c ----

    // if (bits < 15) load two bytes.
    method FillFifteen()
      requires Valid() && (bits < 15 ==> inpos + 2 <= |input|)
      modifies this`hold, this`bits, this`inpos, this`totalIn
      ensures Kept(old(P()), old(Left()), old(inpos)) && bits >= 15 && old(Held()) <= Held()
      ensures inpos == old(inpos) + (if old(bits) < 15 then 2 else 0)
      ensures bits == old(bits) + 8 * (inpos - old(inpos))
    {
      hide Held, Val;
      if bits < 15 {
        PullByte();
        PullByte();
      }
    }

    // if (bits < n) load one byte, and once more.
    method FillExtra(n: nat, twice: bool)
      requires Valid() && n <= 13 && (!twice ==> n <= 8)
      requires bits < n ==> inpos < |input| && (bits + 8 < n ==> inpos + 1 < |input|)
      modifies this`hold, this`bits, this`inpos, this`totalIn
      ensures Kept(old(P()), old(Left()), old(inpos)) && bits >= n
      ensures bits == old(bits) + 8 * (inpos - old(inpos))
      ensures inpos == old(inpos) + (if old(bits) >= n then 0 else if old(bits) + 8 >= n then 1 else 2)
    {
      hide Held, Val;
      if bits < n {
        PullByte();
        if twice && bits < n { PullByte(); }
      }
    }

    // One symbol, when at least as many bits are held as the longest code has.
    method Symbol(tab: seq<Entry>, root: nat, ghost t: CodeType, ghost lens: seq<nat>)
      returns (here: Entry, ghost n: nat)
      requires Valid() && TableFor(tab, t, lens, root) && bits >= MAXBITS
      modifies this`hold, this`bits
      ensures Valid() && P() == old(P()) + n && bits == old(bits) - n && Left() == old(Left()) - n && 1 <= n <= MAXBITS
      ensures Resolve(tab, root, old(hold)) == (here, n)
    {
      hide BytesBits, Val, Low, Shr, Resolve, TableFor, Pow2, Held, Field, Valid, P, Left;
      SecondLevel(tab, t, lens, root, hold);
      here := tab[Low(hold, root)];
      n := here.bits;
      var v := Take(here.bits);
      if IsLink(here) {
        here := tab[here.val + Low(hold, here.op)];
        v := Take(here.bits);
        n := n + here.bits;
      }
    }

    // Return the bytes not needed to the buffer.
    method GiveBack()
      requires Valid() && bits < 8 * inpos + 8
      modifies this`hold, this`bits, this`inpos, this`totalIn
      ensures Valid() && P() == old(P()) && Left() == old(Left()) && bits == old(bits) % 8 && inpos <= old(inpos)
    {
      hide BytesBits, Val, Low;
      var len := bits / 8;
      ghost var held := Held();
      ghost var all, p, top := I(), P(), 8 * totalIn;
      ValTake(held, bits % 8);
      Shorter(all, p, p + bits % 8, top);
      inpos, totalIn, bits := inpos - len, totalIn - len, bits - 8 * len;
      hold := Low(hold, bits);
      assert I() == all && P() == p && 8 * totalIn == p + bits;
    }

    // Bytes may have moved into the accumulator; nothing was used up.
    ghost predicate Kept(p: int, left: nat, pos: nat)
      reads this
    {
      Valid() && P() == p && Left() == left && inpos >= pos
    }

    // The accumulator grew by one byte from a point where the lookup was still short of bits.
    ghost predicate Behind(tab: seq<Entry>, root: nat, prior: seq<bool>)
      requires Valid()
      reads this
    {
      && Resolve(tab, root, Val(prior)).1 > |prior|
      && exists c :: |c| == 8 && Held() == prior + c
    }

    // hold & 0xffff and hold >> 16.
    method PeekHalves() returns (low: nat, high: nat)
      requires Valid() && bits == 32
      ensures P() + 32 <= |I()| && low == Field(I(), P(), 16) && high == Field(I(), P() + 16, 16)
    {
      hide BytesBits, Val, Low, Shr;
      LowHigh(I(), P(), Held());
      low, high := Low(hold, 16), Shr(hold, 16);
    }

    // INITBITS: forget what is held.
    method InitBits()
      requires Valid()
      modifies this`hold, this`bits
      ensures Valid() && bits == 0 && P() == old(P()) + old(bits) && Left() == old(Left()) - old(bits)
    {
      hold, bits := 0, 0;
    }

    // Whole bytes straight from the buffer.
    method TakeBytes(n: nat) returns (bytes: seq<Byte>)
      requires Valid() && bits == 0 && inpos + n <= |input|
      modifies this`inpos, this`totalIn
      ensures Valid() && |bytes| == n && P() == old(P()) + 8 * n && inpos == old(inpos) + n
      ensures Left() == old(Left()) - 8 * n
      ensures old(P()) + 8 * n <= |I()| && I()[old(P())..old(P()) + 8 * n] == BytesBits(bytes)
    {
      hide BytesBits;
      ghost var none := Held();
      assert |none| == 0;
      bytes := input[inpos..inpos + n];
      SliceOfSlice(stream, base, |input|, inpos, n);
      BytesSlice(stream, totalIn, n);
      inpos, totalIn := inpos + n, totalIn + n;
      assert |Held()| == 0;
    }

    // BYTEBITS: drop to a byte boundary.
    method ByteBits()
      requires Valid()
      modifies this`hold, this`bits
      ensures Valid() && P() == Align(old(P())) && bits == old(bits) - old(bits) % 8
      ensures Left() == old(Left()) - old(bits) % 8
    {
      hide BytesBits, Val, Align, Held, Field, Valid, Left;
      Bounds();
      AlignFact(totalIn, bits);
      var v := Take(bits % 8);
    }
  }

  lemma SliceOfSlice<T>(s: seq<T>, a: nat, m: nat, k: nat, n: nat)
    requires a + m <= |s| && k + n <= m
    ensures s[a..a + m][k..k + n] == s[a + k..a + k + n]
  {
    var t := s[a..a + m];
    var u, v := t[k..k + n], s[a + k..a + k + n];
    forall i | 0 <= i < n ensures u[i] == v[i] {
      assert t[k + i] == s[a + (k + i)];
    }
  }

  lemma AlignFact(bytes: nat, bits: nat)
    requires 8 * bytes >= bits
    ensures Align(8 * bytes - bits) == 8 * bytes - bits + bits % 8
  {
  }

  lemma SameLow(b: seq<bool>, c: seq<bool>, n: nat)
    requires n <= |b|
    ensures Low(Val(b + c), n) == Low(Val(b), n)
  {
    ValTake(b, n);
    ValTake(b + c, n);
    assert (b + c)[..n] == b[..n];
  }

  lemma NextByte(stream: seq<Byte>, k: nat, held: seq<bool>, p: nat)
    requires k < |stream| && p <= 8 * k && held == BytesBits(stream)[p..8 * k]
    ensures BytesBits(stream)[p..8 * (k + 1)] == held + BitsOf(stream[k], 8)
    ensures Val(BytesBits(stream)[p..8 * (k + 1)]) == Val(held) + Shl(stream[k], 8 * k - p)
  {
    BytesBitsAt(stream, k);
    assert BytesBits(stream)[p..8 * (k + 1)] == held + BytesBits(stream)[8 * k..8 * k + 8];
    ValConcat(held, BitsOf(stream[k], 8));
    assert Pow2(8) == 256;
    ValOfBits(stream[k], 8);
  }

  // 32 held bits are two 16-bit fields.
  lemma LowHigh(I: seq<bool>, p: nat, held: seq<bool>)
    requires p + 32 <= |I| && held == I[p..p + 32]
    ensures Low(Val(held), 16) == Field(I, p, 16) && Shr(Val(held), 16) == Field(I, p + 16, 16)
  {
    ValTake(held, 16);
    assert held[..16] == I[p..p + 16] && held[16..] == I[p + 16..p + 32];
  }

  lemma {:induction false} BytesSlice(s: seq<Byte>, k: nat, n: nat)
    requires k + n <= |s|
    ensures BytesBits(s)[8 * k..8 * k + 8 * n] == BytesBits(s[k..k + n])
  {
    assert s == s[..k] + s[k..k + n] + s[k + n..];
    BytesBitsConcat(s[..k] + s[k..k + n], s[k + n..]);
    BytesBitsConcat(s[..k], s[k..k + n]);
  }

  lemma Shorter(s: seq<bool>, a: nat, b: nat, c: nat)
    requires a <= b <= c <= |s|
    ensures s[a..c][..b - a] == s[a..b]
  {
  }

  lemma FieldBound(I: seq<bool>, p: nat, n: nat)
    requires p + n <= |I|
    ensures Field(I, p, n) < Pow2(n)
  {
    hide Val, Pow2;
    assert |I[p..p + n]| == n;
  }

  lemma EmptyField(I: seq<bool>, p: nat)
    requires p <= |I|
    ensures Field(I, p, 0) == 0 && Pow2(0) == 1
  {
  }
}
