/** The whole of the encoder: the blocks of a strategy go through _tr_tally and _tr_flush_block of deps/zlib/trees.c. */
module Compress {
  import opened Bits
  import opened BitStream
  import opened BitWriter
  import opened Canon
  import opened MatchCodes
  import opened Rfc1951
  import opened Lz77
  import opened Block
  import opened SendBlock
  import opened BlockCost
  import opened FlushBlock
  import opened HashChains
  import opened MatchFinder
  import opened BlockList
  import opened BlockStream
  import GenCodes

  // ---- tr_static_init ----

  method StaticLengthTree() returns (t: Tree)
    ensures t.Valid() && t.lens == FixedCodes().ll
  {
    hide FixedCodes, Complete, Huff, NotOverSubscribed, CountTo;
    FixedComplete();
    var lens := FixedCodes().ll;
    var blCount := new nat[MAXBITS + 1](_ => 0);
    NoneCounted(lens);
    for n := 0 to |lens|
      invariant forall l :: 0 <= l <= MAXBITS ==> blCount[l] == CountTo(lens, n, l)
    {
      FixedShort(n);
      OneCounted(lens, n);
      blCount[lens[n]] := blCount[lens[n]] + 1;
    }
    var code := new nat[|lens|](_ => 0);
    FixedNoZero();
    GenCodes.GenCodes(lens, blCount, code);
    t := Tree(lens, code[..]);
  }

  lemma FixedShort(n: nat)
    requires n < |FixedCodes().ll|
    ensures 7 <= FixedCodes().ll[n] <= 9
  {
  }

  lemma NoneCounted(lens: seq<nat>)
    ensures forall l: nat :: CountTo(lens, 0, l) == 0
  {
  }

  lemma OneCounted(lens: seq<nat>, n: nat)
    requires n < |lens|
    ensures forall l: nat :: CountTo(lens, n + 1, l) == CountTo(lens, n, l) + if lens[n] == l then 1 else 0
  {
  }

  lemma FixedNoZero()
    ensures ValidLens(FixedCodes().ll) && Count(FixedCodes().ll, 0) == 0
  {
    FixedCounts(0);
  }

  // The static distance code of n is n itself, in five bits.
  lemma StaticDist(n: nat)
    requires n < 32
    ensures HasCode(FixedCodes().dl, n) && FixedCodes().dl[n] == 5 && Huff(FixedCodes().dl, n) == Rev(n, 5)
  {
    hide Base, Pow2, Shl, Shr, Rev;
    var dl := FixedCodes().dl;
    FixedComplete();
    forall l: nat ensures Count(dl, l) == (if l == 5 then 32 else 0) { FixedCounts(l); }
    BaseFlat(dl, 1, 5);
    CountSegment(dl, 0, n, 5, 5);
    BaseOne(dl);
    CodeBounds(dl, n);
    GenCodes.CodeIsRank(dl, n);
    ShrNone(MAXBITS - 5);
  }

  lemma BaseOne(lens: seq<nat>)
    ensures Base(lens, 1) == 0
  {
  }

  lemma {:induction false} ShrNone(n: nat)
    ensures Shr(0, n) == 0
  {
    if n > 0 { ShrNone(n - 1); }
  }

  method StaticDistCodes() returns (code: seq<nat>)
    ensures |code| == 32 && forall n :: 0 <= n < 32 ==> code[n] == Rev(n, 5)
  {
    hide Rev;
    var a := new nat[32](_ => 0);
    for n := 0 to 32
      invariant forall s :: 0 <= s < n ==> a[s] == Rev(s, 5)
    {
      var r := GenCodes.BiReverse(n, 5);
      a[n] := r;
    }
    code := a[..];
  }

  method StaticDistTree() returns (t: Tree)
    ensures t.Valid() && t.lens == FixedCodes().dl
  {
    hide FixedCodes, Complete, Huff, Rev, NotOverSubscribed, GoodCodes;
    var code := StaticDistCodes();
    t := Tree(FixedCodes().dl, code);
    StaticDistValid(code);
  }

  lemma StaticDistValid(code: seq<nat>)
    requires |code| == 32 && forall n :: 0 <= n < 32 ==> code[n] == Rev(n, 5)
    ensures Tree(FixedCodes().dl, code).Valid()
  {
    hide FixedCodes, Complete, Huff, Rev;
    FixedLengths();
    FixedComplete();
    forall s: nat | HasCode(FixedCodes().dl, s) ensures code[s] == Huff(FixedCodes().dl, s) { StaticDist(s); }
  }

  method StaticInit() returns (t: Tables)
    ensures t.Valid() && fresh(t.lengthCode) && fresh(t.baseLength) && fresh(t.distCode) && fresh(t.baseDist)
  {
    hide FixedCodes, Tree.Valid, LengthBasesTo, DistTable, DistBasesTo;
    var lengthCode, baseLength := InitLengthCodes();
    var distCode, baseDist := InitDistCodes();
    var sl := StaticLengthTree();
    var sd := StaticDistTree();
    t := Tables(lengthCode, baseLength, distCode, baseDist, sl, sd);
  }

  // ---- blocks ----

  // The buffer entry of a symbol.
  function Entry(tok: Token): (e: (nat, Byte))
    requires Block.InRange(tok)
    ensures e.0 <= 32768 && TokenOf(e.0, e.1) == tok
  {
    match tok case Literal(c) => (0, c) case Pair(dist, len) => (dist, len - 3)
  }

  // Symbols that can be expanded can be sent.
  lemma {:induction false} FitInRange(toks: seq<Token>, out: seq<Byte>)
    requires AllFit(toks, out)
    ensures AllInRange(toks)
    decreases |toks|
  {
    if toks != [] {
      FitInRange(toks[1..], Put(out, toks[0]));
      forall i | 0 <= i < |toks| ensures Block.InRange(toks[i]) {
        if i > 0 { assert toks[i] == toks[1..][i - 1]; }
      }
    }
  }

  // A block without content fits both of its forms.
  lemma MarkForms(b: Blk, form: Form)
    requires b.mark != NoMark && b == EmptyBlock(b.mark)
    ensures form.FixedForm? ==>
      Fitting(form, b.toks, BytesOf(b)) && FormBits(form, b.toks, BytesOf(b), b.last) == FixedBits([], false)
    ensures form.StoredForm? && |form.pad| < 8 ==>
      Fitting(form, b.toks, BytesOf(b)) && FormBits(form, b.toks, BytesOf(b), b.last) == StoredBits(form.pad, [], false)
    ensures form.FixedForm? ==> Aligned(form, 0) && forall p: nat :: Aligned(form, p)
    ensures form.StoredForm? ==> forall p: nat :: Aligned(form, p) <==> (p + 3 + |form.pad|) % 8 == 0
  {
    hide FixedBits, StoredBits;
    Pow16();
  }

  class Encoder {
    const w: Writer
    const t: Tables
    const lfreq: array<nat>
    const dfreq: array<nat>
    const bfreq: array<nat>
    const dBuf: array<nat>
    const lBuf: array<Byte>

    ghost predicate Apart() {
      && lfreq != dfreq && lfreq != bfreq && dfreq != bfreq && dBuf.Length == lBuf.Length == 0x8000
      && {lfreq, dfreq, bfreq} !! {dBuf, t.lengthCode, t.baseLength, t.distCode, t.baseDist}
      && dBuf !in {t.lengthCode, t.baseLength, t.distCode, t.baseDist}
      && lfreq.Length >= 2 * L_CODES && dfreq.Length >= 2 * D_CODES && bfreq.Length >= 2 * BL_CODES
    }

    ghost predicate Valid()
      reads w, lfreq, dfreq, bfreq, t.lengthCode, t.baseLength, t.distCode, t.baseDist
    {
      && Apart() && w.Valid() && t.Valid()
      && Tallied([], lfreq[..], dfreq[..]) && forall s: nat :: s < BL_CODES ==> bfreq[s] == 0
    }

    constructor ()
      ensures Valid() && w.Sent() == []
      ensures fresh(w) && fresh(lfreq) && fresh(dfreq) && fresh(bfreq) && fresh(dBuf) && fresh(lBuf)
    {
      w := new Writer();
      var tables := StaticInit();
      t := tables;
      lfreq, dfreq, bfreq := new nat[2 * L_CODES](_ => 0), new nat[2 * D_CODES](_ => 0), new nat[2 * BL_CODES](_ => 0);
      dBuf, lBuf := new nat[0x8000](_ => 0), new Byte[0x8000](_ => 0);
      new;
      InitBlock(lfreq, dfreq, bfreq);
    }

    method TallyAll(toks: seq<Token>)
      requires Valid() && |toks| < 0x8000 && AllInRange(toks)
      modifies lfreq, dfreq, dBuf, lBuf
      ensures t.Valid() && TokensOf(dBuf[..|toks|], lBuf[..|toks|]) == toks && Tallied(toks, lfreq[..], dfreq[..])
    {
      hide Tallied, Tree.Valid, DistTable, LengthBasesTo, DistBasesTo, FixedCodes, LengthCode;
      for i := 0 to |toks|
        modifies lfreq, dfreq, dBuf, lBuf
        invariant t.Valid() && TokensOf(dBuf[..i], lBuf[..i]) == toks[..i] && Tallied(toks[..i], lfreq[..], dfreq[..])
      {
        assert Block.InRange(toks[i]);
        var e := Entry(toks[i]);
        var n, flush := Tally(dBuf, lBuf, i, lfreq, dfreq, e.0, e.1, t.lengthCode, t.distCode);
        assert toks[..i + 1] == toks[..i] + [toks[i]];
      }
      assert toks[..|toks|] == toks;
    }

    // One block through the back end.
    method Send(b: Blk, fixedOnly: bool) returns (ghost form: Form, ghost pad: seq<bool>)
      requires Valid() && |b.toks| < 0x8000 && |b.buf| < 0x10000 && AllInRange(b.toks)
      requires b.mark != NoMark ==> b == EmptyBlock(b.mark)
      modifies w, lfreq, dfreq, bfreq, dBuf, lBuf
      ensures Valid() && Fitting(form, b.toks, BytesOf(b)) && Aligned(form, |old(w.Sent())|)
      ensures w.Sent() == old(w.Sent()) + FormBits(form, b.toks, BytesOf(b), b.last) + pad && |pad| < 8
      ensures if b.last then w.Sent() == BytesBits(w.pending) else pad == []
      ensures Best(form, b, fixedOnly) && (fixedOnly ==> !form.DynamicForm?)
    {
      hide Built.Valid, Tallied, Tables.Valid, Fitting, FormBits, Aligned, AllInRange, Planned, BytesBits, Pow2;
      Pow16();
      if b.mark == AlignMark {
        SendAlign(w, t);
        form, pad := FixedForm, [];
        MarkForms(b, form);
      } else if b.mark == SyncMark || b.mark == FullMark {
        ghost var fill := SendStored(w, [], false);
        form, pad := StoredForm(fill), [];
        MarkForms(b, form);
      } else {
        TallyAll(b.toks);
        ghost var p;
        p, form, pad := FlushBlock.FlushBlock(w, lfreq, dfreq, bfreq, dBuf, lBuf, |b.toks|, t, BytesOf(b), 1, fixedOnly,
          b.last);
        PlanFacts(p, b.toks);
      }
    }
  }

  // Every block can be sent.
  lemma {:induction false} BlocksInRange(blocks: seq<Blk>, k: nat)
    requires BlocksOk(blocks) && k < |blocks|
    ensures AllInRange(blocks[k].toks)
    decreases |blocks|
  {
    hide AllInRange, Expand, AllFit;
    var n := |blocks| - 1;
    if k < n { BlocksInRange(blocks[..n], k); } else { FitInRange(blocks[n].toks, Expand(Flatten(blocks[..n]), [])); }
  }

  /** The bytes of a finished stream of blocks, and the forms they were sent in. */
  method SendAll(blocks: seq<Blk>, fixedOnly: bool) returns (bytes: seq<Byte>, ghost forms: seq<Form>)
    requires BlocksOk(blocks) && Pieces(blocks) && !Open(blocks)
    ensures AllBest(forms, blocks, fixedOnly) && Sends(forms, blocks)
      && (fixedOnly ==> forall i :: 0 <= i < |forms| ==> !forms[i].DynamicForm?)
    ensures At(BytesBits(bytes), 0, StreamBits(forms, blocks)) && |BytesBits(bytes)| < |StreamBits(forms, blocks)| + 8
  {
    hide AllBest, Best, BlocksOk, AllInRange, Fitting, FormBits, Aligned, BytesBits, Encoder.Apart, Tallied,
         Tables.Valid;
    var e := new Encoder();
    forms := [];
    NoneBest(fixedOnly);
    ghost var pad: seq<bool> := [];
    for i := 0 to |blocks|
      modifies e.w, e.lfreq, e.dfreq, e.bfreq, e.dBuf, e.lBuf
      invariant e.Valid() && Sends(forms, blocks[..i]) && |pad| < 8
      invariant AllBest(forms, blocks[..i], fixedOnly) && e.w.Sent() == StreamBits(forms, blocks[..i]) + pad
      invariant fixedOnly ==> forall j :: 0 <= j < |forms| ==> !forms[j].DynamicForm?
      invariant if i == |blocks| then e.w.Sent() == BytesBits(e.w.pending) else pad == []
    {
      var b := blocks[i];
      BlocksInRange(blocks, i);
      assert StreamBits(forms, blocks[..i]) + [] == StreamBits(forms, blocks[..i]);
      ghost var form;
      form, pad := e.Send(b, fixedOnly);
      SendsMore(forms, blocks[..i], form, b);
      BestMore(forms, blocks[..i], fixedOnly, form, b);
      assert blocks[..i + 1] == blocks[..i] + [b];
      forms := forms + [form];
    }
    assert blocks[..|blocks|] == blocks;
    bytes := e.w.pending;
    AtStart(StreamBits(forms, blocks), pad);
  }

  lemma NoneBest(fixedOnly: bool)
    ensures AllBest([], [], fixedOnly)
  {
  }

  lemma AtStart(a: seq<bool>, b: seq<bool>)
    ensures At(a + b, 0, a)
  {
    assert (a + b)[0..0 + |a|] == a;
  }
}
