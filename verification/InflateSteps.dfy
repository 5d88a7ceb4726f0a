/** Runs of the RFC 1951 machine that correspond to single actions of deps/zlib/inflate.c. */
module InflateSteps {
  import opened Bits
  import opened BitStream
  import opened Canon
  import opened DecodeTable
  import opened InflateTable
  import opened CodeLengthCoding
  import opened Rfc1951
  import opened Lookup
  import opened InflateState
  import opened Lz77

  lemma OneBit(I: seq<bool>, p: nat)
    requires p < |I|
    ensures Field(I, p, 1) == if I[p] then 1 else 0
  {
    assert I[p..p + 1] == [I[p]] && [I[p]][1..] == [];
  }

  lemma SmallField(I: seq<bool>, p: nat, n: nat)
    requires p + n <= |I| && n <= 4
    ensures Field(I, p, n) < 16
  {
    Pow2Mono(n, 4);
    assert Pow2(4) == 16;
  }

  lemma Aligned(p: nat)
    ensures Align(p) % 8 == 0 && (p % 8 == 0 ==> Align(p) == p)
  {
  }

  // ---- stored blocks ----

  // Copying bytes of a stored block one by one.
  lemma {:induction false} CopyRun(I: seq<bool>, c: Config, bytes: seq<Byte>)
    requires c.mode.Copy? && |bytes| <= c.mode.n && c.p + 8 * |bytes| <= |I|
    requires I[c.p..c.p + 8 * |bytes|] == BytesBits(bytes)
    ensures Reaches(I, c, Config(Copy(c.mode.last, c.mode.n - |bytes|), c.p + 8 * |bytes|, c.out + bytes))
    decreases |bytes|
  {
    hide Step, Reaches;
    if bytes == [] {
      assert c.out + bytes == c.out;
      ReachesSelf(I, c);
    } else {
      assert I[c.p..c.p + 8] == BytesBits(bytes)[..8] == BitsOf(bytes[0], 8);
      var d := Config(Copy(c.mode.last, c.mode.n - 1), c.p + 8, c.out + [bytes[0]]);
      CopyByte(I, c, bytes[0]);
      assert I[d.p..d.p + 8 * |bytes[1..]|] == BytesBits(bytes)[8..] == BytesBits(bytes[1..]);
      CopyRun(I, d, bytes[1..]);
      assert d.out + bytes[1..] == c.out + bytes;
      ReachesTrans(I, c, d, Config(Copy(c.mode.last, c.mode.n - |bytes|), c.p + 8 * |bytes|, c.out + bytes));
    }
  }

  // ---- code lengths of the code length code ----

  // One more length by rank.
  lemma RankNext(lens: seq<nat>, n: nat, v: nat)
    requires |lens| == 320 && n < 19
    ensures Order(n) < 19 && ByRank(lens[Order(n) := v], n + 1) == ByRank(lens, n) + [v]
  {
    hide Order, Rank;
    OrderRank(n);
    var a, b := ByRank(lens[Order(n) := v], n + 1), ByRank(lens, n) + [v];
    forall i | 0 <= i < n + 1 ensures a[i] == b[i] { OrderRank(i); }
  }

  lemma LowRankNext(lens: seq<nat>, n: nat, v: nat)
    requires |lens| == 320 && n < 19 && Small(lens) && LowRanks(lens, n) && v <= 7 && Order(n) < 19
    requires ByRank(lens[Order(n) := v], n + 1) == ByRank(lens, n) + [v]
    ensures Small(lens[Order(n) := v]) && LowRanks(lens[Order(n) := v], n + 1)
  {
    hide ByRank, Order;
  }

  lemma LowOrder(lens: seq<nat>, n: nat)
    requires |lens| == 320 && n <= 19 && LowRanks(lens, n)
    ensures forall i :: 0 <= i < 19 ==> ByOrder(ByRank(lens, n))[i] <= 7
  {
    hide ByRank;
  }

  lemma ThreeBits(I: seq<bool>, p: nat)
    requires p + 3 <= |I|
    ensures Field(I, p, 3) <= 7
  {
    assert Pow2(3) == 8;
  }

  lemma SevenBits()
    ensures Pow2(7) == 128
  {
  }

  // Lengths after the unsent ranks were zeroed.
  lemma ZeroFilled(lens: seq<nat>, n: nat, full: seq<nat>)
    requires |lens| == 320 == |full| && n <= 19
    requires ByRank(full, 19) == ByRank(lens, n) + Fill(0, 19 - n)
    ensures full[..19] == ByOrder(ByRank(lens, n))
  {
    hide Order, Rank;
    var h := ByRank(lens, n);
    var a, b := full[..19], ByOrder(h);
    forall s | 0 <= s < 19 ensures a[s] == b[s] {
      OrderRank(s);
      assert ByRank(full, 19)[Rank(s)] == full[Order(Rank(s))];
    }
  }

  // ---- one symbol of the code length alphabet ----

  // The operation announced by symbol v with extra bits x.
  function OpOf(v: nat, x: nat): Op {
    if v < 16 then Len(v) else if v == 16 then Rep(3 + x) else if v == 17 then Zeros3(3 + x) else Zeros11(11 + x)
  }

  // A repeat code in terms of the lengths stored so far.
  lemma RunApplied(v: nat, x: nat, lens: seq<nat>, have: nat)
    requires v >= 16 && have <= |lens|
    ensures
      var r := Apply(OpOf(v, x), lens[..have]);
      if v == 16 && have == 0 then r.None?
      else r == Some(lens[..have] + Fill(if v == 16 then lens[have - 1] else 0, x + if v <= 17 then 3 else 11))
  {
    hide Fill;
  }

  lemma OpSymbol(cl: seq<nat>, b: seq<bool>, v: nat, n: nat)
    requires Rfc1951.Decode(cl, b) == Sym(v, n) && n + RunBits(v) <= |b|
    ensures ReadOp(cl, b) == Some((OpOf(v, Val(b[n..n + RunBits(v)])), n + RunBits(v)))
  {
    hide Rfc1951.Decode, Val;
  }

  // Enough bits are held: the stream shows the same operation.
  lemma OpRead(tab: seq<Entry>, cl: seq<nat>, root: nat, b: seq<bool>, rest: seq<bool>, e: Entry, n: nat)
    requires TableFor(tab, CODES, cl, root) && Resolve(tab, root, Val(b)) == (e, n) && n + RunBits(e.val) <= |b|
    ensures ReadOp(cl, b + rest) == Some((OpOf(e.val, Val(b[n..n + RunBits(e.val)])), n + RunBits(e.val)))
  {
    hide Resolve, TableFor, Rfc1951.Decode, Val;
    Found(tab, CODES, cl, root, b, rest);
    if Rfc1951.Decode(cl, b + rest).Sym? {
      OpSymbol(cl, b + rest, e.val, n);
      assert (b + rest)[n..n + RunBits(e.val)] == b[n..n + RunBits(e.val)];
    }
  }

  // Not enough bits: neither does the stream.
  lemma OpStarved(tab: seq<Entry>, cl: seq<nat>, root: nat, b: seq<bool>)
    requires TableFor(tab, CODES, cl, root) && LensNeed(tab, root, Val(b)) > |b|
    ensures ReadOp(cl, b) == None
  {
    hide Resolve, TableFor, Rfc1951.Decode, Val;
    if Resolve(tab, root, Val(b)).1 > |b| {
      NotFound(tab, CODES, cl, root, b);
    } else {
      Found(tab, CODES, cl, root, b, []);
      assert b + [] == b;
    }
  }

  lemma OneStored(lens: seq<nat>, have: nat, v: nat)
    requires have < |lens| && Small(lens) && v <= 15
    ensures Small(lens[have := v]) && lens[have := v][..have + 1] == lens[..have] + [v]
  {
  }

  lemma SmallAt(lens: seq<nat>, have: nat, rep: bool)
    requires have <= |lens| && Small(lens) && (rep ==> have > 0)
    ensures rep ==> lens[have - 1] <= 15
  {
  }

  // The two halves of the lengths received.
  lemma HaveParts(lens: seq<nat>, nlen: nat, ndist: nat)
    requires nlen + ndist <= |lens|
    ensures lens[..nlen + ndist][..nlen] == lens[0..nlen] && lens[..nlen + ndist][nlen..] == lens[nlen..nlen + ndist]
  {
  }

  // ---- matches ----

  // Each byte copied is the one `offset` bytes before it.
  ghost predicate Continues(out: seq<Byte>, offset: nat, bytes: seq<Byte>) {
    0 < offset <= |out| && forall i :: 0 <= i < |bytes| ==> bytes[i] == (out + bytes)[|out| + i - offset]
  }

  // Bytes found in the window continue the output.
  lemma WindowContinues(hist: seq<Byte>, written: seq<Byte>, offset: nat, bytes: seq<Byte>)
    requires 0 < offset && |written| + |bytes| <= offset <= |hist| + |written|
    requires bytes == hist[|hist| + |written| - offset..|hist| + |written| - offset + |bytes|]
    ensures Continues(hist + written, offset, bytes)
  {
  }

  // So do bytes copied from the output itself.
  lemma OutputContinues(hist: seq<Byte>, written: seq<Byte>, offset: nat, n: nat)
    requires 0 < offset <= |written|
    ensures Continues(hist + written, offset, CopyBack(written, offset, n)[|written|..])
  {
    var r := CopyBack(written, offset, n);
    CopyBackAt(written, offset, n);
    var bytes := r[|written|..];
    assert hist + written + bytes == hist + r;
    forall i | 0 <= i < |bytes| ensures bytes[i] == (hist + written + bytes)[|hist + written| + i - offset] {
      var j := |written| + i;
      assert r[j] == r[j - offset];
    }
  }

  // From index k on, every byte equals the one dist before it.
  ghost predicate Repeats(r: seq<Byte>, k: nat, dist: nat)
    requires 0 < dist <= k
  {
    forall i :: k <= i < |r| ==> r[i] == r[i - dist]
  }

  lemma {:induction false} CopyBackAt(out: seq<Byte>, dist: nat, n: nat)
    requires 0 < dist <= |out|
    ensures Repeats(CopyBack(out, dist, n), |out|, dist)
    decreases n
  {
    if n > 0 {
      var next := out + [out[|out| - dist]];
      CopyBackAt(next, dist, n - 1);
      var r := CopyBack(out, dist, n);
      assert r == CopyBack(next, dist, n - 1) && next <= r;
      assert r[|out|] == next[|out|] && r[|out| - dist] == next[|out| - dist];
    }
  }

  // What is left after copying n bytes of a match.
  function AfterCopy(m: Mode, n: nat): Mode
    requires m.Match? && n <= m.length
  {
    if n == m.length then LenCode(m.last, m.codes) else Match(m.last, m.codes, m.length - n, m.offset)
  }

  lemma {:induction false} MatchRun(I: seq<bool>, c: Config, bytes: seq<Byte>)
    requires c.mode.Match? && 0 < |bytes| <= c.mode.length && Continues(c.out, c.mode.offset, bytes)
    ensures Reaches(I, c, Config(AfterCopy(c.mode, |bytes|), c.p, c.out + bytes))
    decreases |bytes|
  {
    hide Reaches;
    var m := c.mode;
    assert bytes[0] == (c.out + bytes)[|c.out| - m.offset] == c.out[|c.out| - m.offset];
    var d := CopyMatch(c);
    ReachesStep(I, c, d);
    var e := Config(AfterCopy(m, |bytes|), c.p, c.out + bytes);
    if |bytes| == 1 {
      assert bytes == [bytes[0]];
    } else {
      var rest := bytes[1..];
      assert d.out + rest == c.out + bytes;
      forall i | 0 <= i < |rest| ensures rest[i] == (d.out + rest)[|d.out| + i - m.offset] {
        assert rest[i] == bytes[i + 1];
      }
      MatchRun(I, d, rest);
      ReachesTrans(I, c, d, e);
    }
  }

  // A distance beyond everything written.
  lemma MatchTooFar(I: seq<bool>, c: Config)
    requires c.mode.Match? && c.mode.offset > |c.out|
    ensures Step(I, c) == Some(Config(Bad, c.p, c.out))
  {
  }

  lemma LitStep(I: seq<bool>, c: Config)
    requires c.mode.Lit?
    ensures Step(I, c) == Some(Config(LenCode(c.mode.last, c.mode.codes), c.p, c.out + [c.mode.c]))
  {
  }
}
