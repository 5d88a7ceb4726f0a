/** A whole deflate stream: blocks one after another in the forms they were sent, and what the RFC 1951 machine
    makes of them. */
module BlockStream {
  import opened Bits
  import opened BitStream
  import opened Canon
  import opened DecodeTable
  import opened InflateTable
  import opened Rfc1951
  import opened Lz77
  import opened Block
  import opened FlushBlock
  import opened BlockList

  function BytesOf(b: Blk): Option<seq<Byte>> {
    if b.has then Some(b.buf) else None
  }

  // Each block can be sent in its form, where the previous ones end.
  ghost predicate Sends(forms: seq<Form>, blocks: seq<Blk>)
    decreases |blocks|, 0
  {
    |forms| == |blocks| && (blocks == [] ||
      var n := |blocks| - 1;
      && Sends(forms[..n], blocks[..n]) && Fitting(forms[n], blocks[n].toks, BytesOf(blocks[n]))
      && Aligned(forms[n], |StreamBits(forms[..n], blocks[..n])|))
  }

  ghost function StreamBits(forms: seq<Form>, blocks: seq<Blk>): seq<bool>
    requires Sends(forms, blocks)
    decreases |blocks|, 1
  {
    if blocks == [] then [] else
    var n := |blocks| - 1;
    StreamBits(forms[..n], blocks[..n]) + FormBits(forms[n], blocks[n].toks, BytesOf(blocks[n]), blocks[n].last)
  }

  lemma SendsMore(forms: seq<Form>, blocks: seq<Blk>, form: Form, b: Blk)
    requires Sends(forms, blocks) && Fitting(form, b.toks, BytesOf(b)) && Aligned(form, |StreamBits(forms, blocks)|)
    ensures Sends(forms + [form], blocks + [b])
    ensures StreamBits(forms + [form], blocks + [b]) ==
      StreamBits(forms, blocks) + FormBits(form, b.toks, BytesOf(b), b.last)
  {
    hide Fitting, FormBits, Aligned;
    var n := |blocks|;
    assert (forms + [form])[..n] == forms && (blocks + [b])[..n] == blocks;
  }

  // The form was chosen by its exact size, with trees built from the frequencies of the symbols; a mark has its own.
  ghost predicate Best(form: Form, b: Blk, fixedOnly: bool) {
    match b.mark
    case AlignMark => form == FixedForm
    case SyncMark => form.StoredForm?
    case FullMark => form.StoredForm?
    case NoMark => exists p ::
      && Planned(p, b.toks) && p.lb.maxCode < |p.lb.lens| <= |p.lb.code| && p.db.maxCode < |p.db.lens| <= |p.db.code|
      && Chosen(form, p, BytesOf(b), fixedOnly)
  }

  ghost predicate AllBest(forms: seq<Form>, blocks: seq<Blk>, fixedOnly: bool) {
    |forms| == |blocks| && forall i :: 0 <= i < |forms| ==> Best(forms[i], blocks[i], fixedOnly)
  }

  lemma BestMore(forms: seq<Form>, blocks: seq<Blk>, fixedOnly: bool, form: Form, b: Blk)
    requires AllBest(forms, blocks, fixedOnly) && Best(form, b, fixedOnly)
    ensures AllBest(forms + [form], blocks + [b], fixedOnly)
  {
    hide Best;
  }

  // The decoder has room for the tables of this form.
  ghost predicate Readable(form: Form) {
    form.DynamicForm? ==> TableFits(LENS, form.codes.ll, 9) && TableFits(DISTS, form.codes.dl, 6)
  }

  ghost predicate AllReadable(forms: seq<Form>) {
    forall i :: 0 <= i < |forms| ==> Readable(forms[i])
  }

  lemma ReadableTabled(codes: Codes)
    requires Complete(codes.ll) && Complete(codes.dl)
    ensures Tabled(codes) <==> TableFits(LENS, codes.ll, 9) && TableFits(DISTS, codes.dl, 6)
  {
    hide Complete, TableFits;
  }

  // The machine ends in an error inside the stream.
  ghost predicate Fails(I: seq<bool>, c: Config) {
    exists p: nat :: p <= |I| && Reaches(I, c, Config(Bad, p, c.out))
  }

  // One block, whatever its form.
  lemma BlockBack(I: seq<bool>, c: Config, form: Form, b: Blk)
    requires c.mode == Type(false) && Fitting(form, b.toks, BytesOf(b)) && Aligned(form, c.p)
    requires At(I, c.p, FormBits(form, b.toks, BytesOf(b), b.last)) && AllFit(b.toks, c.out)
    requires b.has ==> Expand(b.toks, c.out) == c.out + b.buf
    ensures Readable(form) ==>
      Reaches(I, c, Config(Type(b.last), c.p + |FormBits(form, b.toks, BytesOf(b), b.last)|, Expand(b.toks, c.out)))
    ensures !Readable(form) ==> Fails(I, c)
  {
    hide Expand, AllFit, At, Reaches, AllCoded, Complete, HeaderBits, BodyBits, TypeBits, Pow2, TableFits, Tabled,
         Sendable, StoredBits, FixedBits;
    match form
    case StoredForm(pad) => StoredRoundTrip(I, c, pad, b.buf, b.last);
    case FixedForm => FixedRoundTrip(I, c, b.toks, b.last);
    case DynamicForm(codes, cl, n) =>
      ReadableTabled(codes);
      DynamicRoundTrip(I, c, codes, cl, n, b.toks, b.last);
      if !Tabled(codes) {
        TypeLength(2, b.last);
        InBounds(I, c.p, DynamicBits(codes, cl, n, b.toks, b.last));
        assert Reaches(I, c, Config(Bad, c.p + 3 + |HeaderBits(codes, cl, n)|, c.out));
      }
  }

  // What came before is kept by a failure.
  lemma FailsLater(I: seq<bool>, c: Config, d: Config)
    requires Reaches(I, c, d) && Fails(I, d)
    ensures exists e: Config :: Reaches(I, c, e) && e.mode == Bad && e.p <= |I| && e.out == d.out
  {
    hide Reaches;
    var p: nat :| p <= |I| && Reaches(I, d, Config(Bad, p, d.out));
    ReachesTrans(I, c, d, Config(Bad, p, d.out));
  }

  ghost predicate StreamFails(I: seq<bool>, m: nat) {
    exists e: Config :: Reaches(I, START, e) && e.mode == Bad && e.p <= |I| && |e.out| <= m
  }

  lemma FailsMore(I: seq<bool>, m: nat, n: nat)
    requires StreamFails(I, m) && m <= n
    ensures StreamFails(I, n)
  {
  }

  // Blocks before the last one are not marked as last.
  lemma PiecesTake(blocks: seq<Blk>)
    requires Pieces(blocks) && blocks != []
    ensures Pieces(blocks[..|blocks| - 1]) && Open(blocks[..|blocks| - 1])
  {
  }

  /** Any number of blocks is read back, unless a table is refused on the way. */
  lemma {:induction false} StreamBack(I: seq<bool>, forms: seq<Form>, blocks: seq<Blk>)
    requires Sends(forms, blocks) && BlocksOk(blocks) && Pieces(blocks) && At(I, 0, StreamBits(forms, blocks))
    ensures AllFit(Flatten(blocks), [])
    ensures AllReadable(forms) ==>
      Reaches(I, START, Config(Type(!Open(blocks)), |StreamBits(forms, blocks)|, Expand(Flatten(blocks), [])))
    ensures !AllReadable(forms) ==> StreamFails(I, |Expand(Flatten(blocks), [])|)
    decreases |blocks|
  {
    hide Expand, AllFit, At, Reaches, Readable, Fitting, Aligned, FormBits, Pieces, StreamFails, Fails;
    if blocks == [] {
      StartBack(I);
    } else {
      var n := |blocks| - 1;
      var b, before := blocks[n], Flatten(blocks[..n]);
      PiecesTake(blocks);
      var w := FormBits(forms[n], b.toks, BytesOf(b), b.last);
      AtSplit(I, 0, StreamBits(forms[..n], blocks[..n]), w);
      StreamBack(I, forms[..n], blocks[..n]);
      ExpandConcat(before, b.toks, []);
      if AllReadable(forms[..n]) {
        var c := Config(Type(false), |StreamBits(forms[..n], blocks[..n])|, Expand(before, []));
        BlockBack(I, c, forms[n], b);
        if Readable(forms[n]) {
          ReachesTrans(I, START, c, Config(Type(b.last), c.p + |w|, Expand(b.toks, c.out)));
          AllOf(forms);
        } else {
          FailsHere(I, c);
          FailsMore(I, |c.out|, |Expand(Flatten(blocks), [])|);
        }
      } else {
        NotAll(forms);
        FailsMore(I, |Expand(before, [])|, |Expand(Flatten(blocks), [])|);
      }
    }
  }

  lemma FailsHere(I: seq<bool>, c: Config)
    requires Reaches(I, START, c) && Fails(I, c)
    ensures StreamFails(I, |c.out|)
  {
    FailsLater(I, START, c);
  }

  lemma AllOf(forms: seq<Form>)
    requires forms != [] && AllReadable(forms[..|forms| - 1]) && Readable(forms[|forms| - 1])
    ensures AllReadable(forms)
  {
    hide Readable;
    forall i | 0 <= i < |forms| ensures Readable(forms[i]) {
      if i < |forms| - 1 { assert forms[..|forms| - 1][i] == forms[i]; }
    }
  }

  lemma NotAll(forms: seq<Form>)
    requires forms != [] && !AllReadable(forms[..|forms| - 1])
    ensures !AllReadable(forms)
  {
    hide Readable;
    var i :| 0 <= i < |forms| - 1 && !Readable(forms[..|forms| - 1][i]);
    assert !Readable(forms[i]);
  }

  lemma StartBack(I: seq<bool>)
    ensures AllFit([], []) && Expand([], []) == [] && Flatten([]) == [] && Reaches(I, START, START)
  {
    ReachesSelf(I, START);
  }

  /** A finished stream leads to the end, at the next byte boundary. */
  lemma StreamEnd(I: seq<bool>, forms: seq<Form>, blocks: seq<Blk>)
    requires Sends(forms, blocks) && BlocksOk(blocks) && Pieces(blocks) && At(I, 0, StreamBits(forms, blocks))
    requires !Open(blocks) && |I| % 8 == 0 && |I| < |StreamBits(forms, blocks)| + 8
    ensures AllFit(Flatten(blocks), [])
    ensures AllReadable(forms) ==> Reaches(I, START, Config(Mode.Done, |I|, Expand(Flatten(blocks), [])))
    ensures !AllReadable(forms) ==> StreamFails(I, |Expand(Flatten(blocks), [])|)
  {
    hide Expand, AllFit, Reaches, AllReadable, Pieces, StreamFails, BlocksOk, Sends, StreamBits, Flatten, At, Step;
    StreamBack(I, forms, blocks);
    InBounds(I, 0, StreamBits(forms, blocks));
    if AllReadable(forms) {
      var c := Config(Type(true), |StreamBits(forms, blocks)|, Expand(Flatten(blocks), []));
      var d := Config(Mode.Done, |I|, c.out);
      TypeStep(I, c);
      assert Align(c.p) == |I|;
      ReachesStep(I, c, d);
      ReachesTrans(I, START, c, d);
    }
  }
}
