/** What the flushes of deflate() promise.  At the mark of a flush the bytes sent are enough for all of the text so far;
    after a full flush the rest of the bytes is a stream of its own. */
module FlushPoints {
  import opened Bits
  import opened BitStream
  import opened Rfc1951
  import opened Lz77
  import opened Block
  import opened FlushBlock
  import opened BlockList
  import opened BlockStream
  import opened InflateState
  import opened InflateModes
  import opened InflateCall
  import opened InflateCuts
  import opened FormatFacts
  import opened RoundTrip
  import RunCoding

  // ---- parts of a stream ----

  lemma {:induction false} SendsTake(forms: seq<Form>, blocks: seq<Blk>, k: nat)
    requires Sends(forms, blocks) && k <= |blocks|
    ensures |forms| == |blocks| && Sends(forms[..k], blocks[..k])
    decreases |blocks|
  {
    hide Fitting, Aligned;
    var n := |blocks| - 1;
    if k <= n {
      SendsTake(forms[..n], blocks[..n], k);
      assert forms[..n][..k] == forms[..k] && blocks[..n][..k] == blocks[..k];
    } else {
      assert forms[..k] == forms && blocks[..k] == blocks;
    }
  }

  // Where block k begins.
  ghost function Start(forms: seq<Form>, blocks: seq<Blk>, k: nat): nat
    requires Sends(forms, blocks) && k <= |blocks|
  {
    SendsTake(forms, blocks, k);
    |StreamBits(forms[..k], blocks[..k])|
  }

  // How much of the text comes before block k.
  function TextAt(blocks: seq<Blk>, k: nat): nat
    requires k <= |blocks|
  {
    RunCoding.Length(Flatten(blocks[..k]))
  }

  lemma Front<T>(s: seq<T>, k: nat)
    requires k < |s|
    ensures s == s[..|s| - 1] + [s[|s| - 1]]
    ensures s[..|s| - 1][..k] == s[..k] && s[k..] == s[..|s| - 1][k..] + [s[|s| - 1]]
  {
  }

  // Padding of a stored block depends on the byte boundaries only.
  lemma AlignedShift(form: Form, p: nat, q: nat)
    requires p % 8 == 0
    ensures Aligned(form, p + q) <==> Aligned(form, q)
  {
  }

  /** A stream that is cut at a byte boundary between blocks is two streams. */
  lemma {:induction false} SendsSplit(forms: seq<Form>, blocks: seq<Blk>, k: nat)
    requires Sends(forms, blocks) && k <= |blocks| && Start(forms, blocks, k) % 8 == 0
    ensures Sends(forms[..k], blocks[..k]) && Sends(forms[k..], blocks[k..])
    ensures StreamBits(forms, blocks) == StreamBits(forms[..k], blocks[..k]) + StreamBits(forms[k..], blocks[k..])
    decreases |blocks|
  {
    hide Fitting, Aligned, FormBits, Sends, StreamBits;
    SendsTake(forms, blocks, k);
    if k == |blocks| {
      NothingSent();
      assert forms[..k] == forms && blocks[..k] == blocks && forms[k..] == [] && blocks[k..] == [];
    } else {
      var n := |blocks| - 1;
      LastForm(forms, blocks);
      Front(forms, k);
      Front(blocks, k);
      var fs, bs := forms[..n][k..], blocks[..n][k..];
      SendsSplit(forms[..n], blocks[..n], k);
      AlignedShift(forms[n], Start(forms, blocks, k), |StreamBits(fs, bs)|);
      SendsMore(fs, bs, forms[n], blocks[n]);
    }
  }

  lemma NothingSent()
    ensures Sends([], []) && StreamBits([], []) == []
  {
  }

  lemma {:induction false} FlattenSplit(blocks: seq<Blk>, k: nat)
    requires k <= |blocks|
    ensures Flatten(blocks) == Flatten(blocks[..k]) + Flatten(blocks[k..])
    decreases |blocks|
  {
    hide Flatten;
    if k == |blocks| {
      NoSymbols();
      assert blocks[..k] == blocks && blocks[k..] == [];
    } else {
      var n := |blocks| - 1;
      Front(blocks, k);
      FlattenSplit(blocks[..n], k);
      FlattenNext(blocks[..n], blocks[n]);
      FlattenNext(blocks[..n][k..], blocks[n]);
    }
  }

  lemma NoSymbols()
    ensures Flatten([]) == []
  {
  }

  lemma {:induction false} BlocksTake(blocks: seq<Blk>, k: nat)
    requires BlocksOk(blocks) && Pieces(blocks) && k <= |blocks|
    ensures BlocksOk(blocks[..k]) && Pieces(blocks[..k]) && (k < |blocks| ==> Open(blocks[..k]))
    decreases |blocks|
  {
    hide Flatten, AllFit, Expand;
    var n := |blocks| - 1;
    if k <= n {
      BlocksTake(blocks[..n], k);
      assert blocks[..n][..k] == blocks[..k];
      assert k == n ==> blocks[..n] == blocks[..k];
    } else {
      assert blocks[..k] == blocks;
    }
  }

  // The first blocks stand for the beginning of the text.
  lemma PrefixText(blocks: seq<Blk>, text: seq<Byte>, k: nat)
    requires Finished(blocks, text) && k <= |blocks|
    ensures AllFit(Flatten(blocks[..k]), []) && TextAt(blocks, k) <= |text|
      && Expand(Flatten(blocks[..k]), []) == text[..TextAt(blocks, k)]
  {
    hide Flatten, AllFit, Expand, BlocksOk, Pieces, Restartable;
    FlattenSplit(blocks, k);
    ExpandConcat(Flatten(blocks[..k]), Flatten(blocks[k..]), []);
    RunCoding.SizeOfAll(Flatten(blocks[..k]), []);
  }

  // A mark stands for nothing.
  lemma MarkAdds(blocks: seq<Blk>, k: nat)
    requires Pieces(blocks) && k < |blocks| && blocks[k].mark != NoMark
    ensures TextAt(blocks, k + 1) == TextAt(blocks, k) && Flatten(blocks[..k + 1]) == Flatten(blocks[..k])
  {
    assert blocks[..k + 1] == blocks[..k] + [blocks[k]];
    FlattenNext(blocks[..k], blocks[k]);
    assert Flatten(blocks[..k]) + [] == Flatten(blocks[..k]);
  }

  // ---- the bytes up to a mark ----

  // The bits of a mark.
  lemma LastMark(forms: seq<Form>, blocks: seq<Blk>, fixedOnly: bool)
    requires Sends(forms, blocks) && blocks != [] && |forms| == |blocks|
    requires Best(forms[|blocks| - 1], blocks[|blocks| - 1], fixedOnly)
    requires blocks[|blocks| - 1].mark != NoMark && blocks[|blocks| - 1] == EmptyBlock(blocks[|blocks| - 1].mark)
    ensures
      var n := |blocks| - 1;
      && Sends(forms[..n], blocks[..n]) && !forms[n].DynamicForm?
      && var p, q := |StreamBits(forms[..n], blocks[..n])|, |StreamBits(forms, blocks)|;
         if blocks[n].mark == AlignMark then q == p + 10 else q % 8 == 0 && q >= p + 35
  {
    hide StreamBits, StoredBits, FixedBits, AllFit, Sends, Pow2;
    var n := |blocks| - 1;
    LastForm(forms, blocks);
    if blocks[n].mark == AlignMark {
      AlignMarkBits();
    } else {
      SyncMarkBits(forms[n].pad);
      SyncMarkSize(forms[n].pad);
    }
  }

  lemma MarkSize(forms: seq<Form>, blocks: seq<Blk>, fixedOnly: bool, k: nat)
    requires Sends(forms, blocks) && Pieces(blocks) && AllBest(forms, blocks, fixedOnly)
    requires k < |blocks| && blocks[k].mark != NoMark
    ensures |forms| == |blocks| && !forms[k].DynamicForm?
    ensures
      var p, q := Start(forms, blocks, k), Start(forms, blocks, k + 1);
      if blocks[k].mark == AlignMark then q == p + 10 else q % 8 == 0 && q >= p + 35
  {
    hide StreamBits, Sends, Best;
    SendsTake(forms, blocks, k);
    SendsTake(forms, blocks, k + 1);
    var fs, bs := forms[..k + 1], blocks[..k + 1];
    assert fs[..k] == forms[..k] && bs[..k] == blocks[..k] && fs[k] == forms[k] && bs[k] == blocks[k];
    LastMark(fs, bs, fixedOnly);
  }

  lemma SyncMarkSize(pad: seq<bool>)
    ensures |[false, false, false] + (pad + BytesBits([0, 0, 0xff, 0xff]))| == 35 + |pad|
  {
  }

  lemma LastForm(forms: seq<Form>, blocks: seq<Blk>)
    requires Sends(forms, blocks) && blocks != []
    ensures
      var n := |blocks| - 1;
      && |forms| == n + 1 && Sends(forms[..n], blocks[..n]) && Fitting(forms[n], blocks[n].toks, BytesOf(blocks[n]))
      && Aligned(forms[n], |StreamBits(forms[..n], blocks[..n])|)
      && StreamBits(forms, blocks) == StreamBits(forms[..n], blocks[..n])
           + FormBits(forms[n], blocks[n].toks, BytesOf(blocks[n]), blocks[n].last)
  {
    hide Fitting, Aligned, FormBits;
  }

  /** When the mark of a flush has been sent, the bytes that are complete reach into it; with Z_SYNC_FLUSH and
      Z_FULL_FLUSH they are all there is. */
  lemma MarkBytes(forms: seq<Form>, blocks: seq<Blk>, fixedOnly: bool, k: nat)
    requires Sends(forms, blocks) && Pieces(blocks) && AllBest(forms, blocks, fixedOnly)
    requires k < |blocks| && blocks[k].mark != NoMark
    ensures
      var p := Start(forms, blocks, k + 1);
      Start(forms, blocks, k) < 8 * (p / 8) <= p && (blocks[k].mark != AlignMark ==> p % 8 == 0)
  {
    hide Start, Sends, AllBest, Pieces;
    MarkSize(forms, blocks, fixedOnly, k);
  }

  // The machine after the first k blocks.
  lemma ReachesBlock(bytes: seq<Byte>, text: seq<Byte>, blocks: seq<Blk>, forms: seq<Form>, k: nat)
    requires Encodes(bytes, text, blocks, forms) && k < |blocks| && AllReadable(forms[..k])
    ensures Start(forms, blocks, k) <= 8 * |bytes| && TextAt(blocks, k) <= |text|
    ensures Reaches(BytesBits(bytes), START,
      Config(Type(false), Start(forms, blocks, k), text[..TextAt(blocks, k)]))
  {
    hide Reaches, AllReadable, BlocksOk, Pieces, Restartable, Flatten, AllFit, Expand, BytesBits, Open;
    var I := BytesBits(bytes);
    SendsTake(forms, blocks, k);
    BlocksTake(blocks, k);
    PrefixText(blocks, text, k);
    AtPrefix(I, forms, blocks, k);
    StreamBack(I, forms[..k], blocks[..k]);
  }

  // The stream begins with its first k blocks.
  lemma {:induction false} AtPrefix(I: seq<bool>, forms: seq<Form>, blocks: seq<Blk>, k: nat)
    requires Sends(forms, blocks) && Block.At(I, 0, StreamBits(forms, blocks)) && k <= |blocks|
    ensures |forms| == |blocks| && Sends(forms[..k], blocks[..k])
      && Block.At(I, 0, StreamBits(forms[..k], blocks[..k])) && |StreamBits(forms[..k], blocks[..k])| <= |I|
    decreases |blocks|
  {
    hide Fitting, Aligned, FormBits;
    if k < |blocks| {
      var n := |blocks| - 1;
      LastForm(forms, blocks);
      AtSplit(I, 0, StreamBits(forms[..n], blocks[..n]),
        FormBits(forms[n], blocks[n].toks, BytesOf(blocks[n]), blocks[n].last));
      AtPrefix(I, forms[..n], blocks[..n], k);
      assert forms[..n][..k] == forms[..k] && blocks[..n][..k] == blocks[..k];
    } else {
      assert forms[..k] == forms && blocks[..k] == blocks;
    }
  }

  // Between two such points nothing is written, so whoever stops between them has written the same.
  lemma StopsBetween(I: seq<bool>, n: nat, m: nat, c: Config, d: Config, e: Config)
    requires n <= |I| && Wall(I, n, m, e) && Reaches(I, START, c) && Reaches(I, START, d) && Reaches(I, START, e)
    requires c.mode == d.mode == Type(false) && c.out == d.out && c.p <= n <= d.p && |c.out| <= m
    ensures e.out == c.out
  {
    hide Step, Reaches, Wall, Sound;
    WallFacts(I, n, m, e);
    Linear(I, START, c, e);
    if Reaches(I, e, c) {
      NoWayOn(I, n, m, e, c);
    } else {
      Grows(I, c, e);
      Linear(I, START, d, e);
      if Reaches(I, e, d) { Grows(I, e, d); } else { Stays(I, d, e); }
    }
  }

  lemma Grows(I: seq<bool>, c: Config, d: Config)
    requires Reaches(I, c, d)
    ensures c.out <= d.out
  {
    hide Run;
    var k: nat :| Run(I, c, k) == Some(d);
    OutputGrows(I, c, k);
  }

  // A block begins with three bits.
  lemma Stays(I: seq<bool>, d: Config, e: Config)
    requires Reaches(I, d, e) && d.mode == Type(false) && e.p <= d.p
    ensures e == d
  {
    hide Step;
    var k: nat :| Run(I, d, k) == Some(e);
    if k > 0 {
      TypeStep(I, d);
      RunAdvances(I, Step(I, d).value, k - 1);
    }
  }

  /** A decoder that was offered bytes that end inside the mark of a flush has delivered all of the text before it. */
  lemma AtMark(z: Inflater, m: nat, text: seq<Byte>, blocks: seq<Blk>, forms: seq<Form>, fixedOnly: bool, k: nat)
    requires OnTrack(z) && |z.hist| <= m && Stopped(z, m) && Encodes(z.rd.stream, text, blocks, forms)
    requires AllBest(forms, blocks, fixedOnly) && k < |blocks| - 1 && blocks[k].mark != NoMark
      && AllReadable(forms[..k])
    requires Start(forms, blocks, k) <= 8 * Offered(z) <= Start(forms, blocks, k + 1) && TextAt(blocks, k) <= m
    ensures TextAt(blocks, k) <= |text| && z.hist == text[..TextAt(blocks, k)]
  {
    hide Step, Reaches, State.Valid, State.Lean, State.Abs, Small, FixedTables, BytesBits, Stopped, AllReadable,
         BlocksOk, Pieces, Sends, StreamBits, Block.At, AllFit, Expand, AllBest, Start, TextAt, Wall, Restartable,
         BitReader.Reader.Held, BitReader.Reader.P, Flatten;
    StoppedAtWall(z, m);
    MarkSize(forms, blocks, fixedOnly, k);
    NextReadable(forms, k);
    MarkAdds(blocks, k);
    ReachesBlock(z.rd.stream, text, blocks, forms, k);
    ReachesBlock(z.rd.stream, text, blocks, forms, k + 1);
    var out := text[..TextAt(blocks, k)];
    StopsBetween(z.rd.I(), 8 * Offered(z), m, Config(Type(false), Start(forms, blocks, k), out),
      Config(Type(false), Start(forms, blocks, k + 1), out), z.At(z.hist));
  }

  lemma NextReadable(forms: seq<Form>, k: nat)
    requires k < |forms| && AllReadable(forms[..k]) && !forms[k].DynamicForm?
    ensures AllReadable(forms[..k + 1])
  {
    var fs, gs := forms[..k], forms[..k + 1];
    forall i | 0 <= i < |gs| ensures Readable(gs[i]) {
      if i < k { assert gs[i] == fs[i]; }
    }
  }

  /** What deflate() has sent when a flush is complete, offered in any cuts: inflate() returns exactly the text up to
      the flush. */
  method Flushing(bytes: seq<Byte>, cuts: seq<Cut>, ghost text: seq<Byte>, ghost blocks: seq<Blk>,
                  ghost forms: seq<Form>, ghost fixedOnly: bool, ghost k: nat) returns (out: seq<Byte>)
    requires Encodes(bytes, text, blocks, forms) && AllBest(forms, blocks, fixedOnly)
    requires k < |blocks| - 1 && blocks[k].mark != NoMark && AllReadable(forms[..k])
    requires |cuts| > 0 && Cuts(cuts, |bytes|)
    requires cuts[|cuts| - 1].upto == Start(forms, blocks, k + 1) / 8 && cuts[|cuts| - 1].limit >= TextAt(blocks, k)
    ensures TextAt(blocks, k) <= |text| && out == text[..TextAt(blocks, k)]
  {
    hide Step, Reaches, Live, Stopped, BytesBits, AllReadable, AllBest, Start, TextAt, Sends, StreamBits, BlocksOk,
         Pieces, Flatten, Restartable, Block.At;
    MarkBytes(forms, blocks, fixedOnly, k);
    var z;
    z, out := Feed(bytes, cuts);
    AtMark(z, cuts[|cuts| - 1].limit, text, blocks, forms, fixedOnly, k);
  }

  // ---- the calls and their marks ----

  lemma {:induction false} MarkIn(blocks: seq<Blk>, e: (Mark, nat))
    requires e in MarksOf(blocks)
    ensures exists k :: 0 <= k < |blocks| && blocks[k].mark == e.0 != NoMark && TextAt(blocks, k) == e.1
    decreases |blocks|
  {
    hide Flatten, RunCoding.Length;
    var n := |blocks| - 1;
    if e in MarksOf(blocks[..n]) {
      MarkIn(blocks[..n], e);
      var k :| 0 <= k < n && blocks[..n][k].mark == e.0 != NoMark && TextAt(blocks[..n], k) == e.1;
      assert blocks[..n][..k] == blocks[..k] && blocks[k].mark == e.0 && TextAt(blocks, k) == e.1;
    } else {
      assert blocks[n].mark == e.0 && TextAt(blocks, n) == e.1;
    }
  }

  lemma {:induction false} AskedIn(pieces: seq<Piece>, i: nat)
    requires i < |pieces| && Heard(pieces[..i + 1]) && pieces[i].flush.Mark() != NoMark
    ensures (pieces[i].flush.Mark(), |Joined(pieces[..i + 1])|) in MarksAsked(pieces)
    decreases |pieces|
  {
    hide Heard, Joined;
    var n := |pieces| - 1;
    if i < n {
      assert pieces[..n][..i + 1] == pieces[..i + 1];
      AskedIn(pieces[..n], i);
    } else {
      assert pieces[..i + 1] == pieces;
    }
  }

  lemma {:induction false} JoinedTake(pieces: seq<Piece>, k: nat)
    requires k <= |pieces|
    ensures Joined(pieces[..k]) <= Joined(pieces)
    decreases |pieces|
  {
    if k < |pieces| {
      var n := |pieces| - 1;
      assert pieces[..n][..k] == pieces[..k];
      JoinedTake(pieces[..n], k);
    } else {
      assert pieces[..k] == pieces;
    }
  }

  /** Every call with a flush that is heard has its mark, and the text before the mark is what was passed up to then. */
  lemma MarkOfCall(pieces: seq<Piece>, blocks: seq<Blk>, i: nat) returns (k: nat)
    requires MarksOf(blocks) == MarksAsked(pieces) && Finished(blocks, Joined(pieces))
    requires i < |pieces| && Heard(pieces[..i + 1]) && pieces[i].flush.Mark() != NoMark
    ensures k < |blocks| - 1 && blocks[k].mark == pieces[i].flush.Mark()
    ensures TextAt(blocks, k) <= |Joined(pieces)| && Joined(pieces)[..TextAt(blocks, k)] == Joined(pieces[..i + 1])
  {
    hide Heard, Joined, BlocksOk, AllFit, Expand, Flatten, Restartable, TextAt, MarksOf, MarksAsked;
    AskedIn(pieces, i);
    var e := (pieces[i].flush.Mark(), |Joined(pieces[..i + 1])|);
    MarkIn(blocks, e);
    k :| 0 <= k < |blocks| && blocks[k].mark == e.0 != NoMark && TextAt(blocks, k) == e.1;
    JoinedTake(pieces, i + 1);
  }

  // ---- the stream after a full flush ----

  lemma {:induction false} CopyAfter(pre: seq<Byte>, out: seq<Byte>, dist: nat, len: nat)
    requires 0 < dist <= |out|
    ensures CopyBack(pre + out, dist, len) == pre + CopyBack(out, dist, len)
    decreases len
  {
    if len > 0 {
      var c := out[|out| - dist];
      assert (pre + out)[|pre + out| - dist] == c && pre + out + [c] == pre + (out + [c]);
      CopyAfter(pre, out + [c], dist, len - 1);
    }
  }

  // What needs nothing before it means the same after anything.
  lemma {:induction false} ExpandAfter(toks: seq<Token>, pre: seq<Byte>, out: seq<Byte>)
    requires AllFit(toks, out)
    ensures AllFit(toks, pre + out) && Expand(toks, pre + out) == pre + Expand(toks, out)
    decreases |toks|
  {
    hide Put, Fits;
    if toks == [] {
      assert pre + out == pre + Expand(toks, out);
    } else {
      PutAfter(toks[0], pre, out);
      ExpandAfter(toks[1..], pre, Put(out, toks[0]));
    }
  }

  lemma PutAfter(tok: Token, pre: seq<Byte>, out: seq<Byte>)
    requires Fits(tok, out)
    ensures Fits(tok, pre + out) && Put(pre + out, tok) == pre + Put(out, tok)
  {
    match tok
    case Literal(c) => assert pre + out + [c] == pre + (out + [c]);
    case Pair(dist, len) => CopyAfter(pre, out, dist, len);
  }

  lemma {:induction false} BlocksDrop(blocks: seq<Blk>, k: nat)
    requires BlocksOk(blocks) && k <= |blocks| && AllFit(Flatten(blocks[..k]), []) && AllFit(Flatten(blocks[k..]), [])
    ensures BlocksOk(blocks[k..])
    decreases |blocks|
  {
    hide AllFit, Expand, Flatten;
    if k < |blocks| {
      var n := |blocks| - 1;
      var bs, b, front := blocks[..n][k..], blocks[n], Flatten(blocks[..k]);
      Front(blocks, k);
      FlattenNext(bs, b);
      ExpandConcat(Flatten(bs), b.toks, []);
      BlocksDrop(blocks[..n], k);
      FlattenSplit(blocks[..n], k);
      ExpandConcat(front, Flatten(bs), []);
      DropLast(bs, b, Expand(front, []));
    }
  }

  lemma DropLast(bs: seq<Blk>, b: Blk, pre: seq<Byte>)
    requires BlocksOk(bs) && AllFit(Flatten(bs), []) && AllFit(b.toks, Expand(Flatten(bs), []))
    requires AllFit(Flatten(bs), pre)
    requires AllFit(b.toks, Expand(Flatten(bs), pre))
    requires b.has ==> Expand(b.toks, Expand(Flatten(bs), pre)) == Expand(Flatten(bs), pre) + b.buf
    ensures BlocksOk(bs + [b])
  {
    hide AllFit, Expand, Flatten;
    var before := Flatten(bs);
    assert pre + [] == pre;
    ExpandAfter(before, pre, []);
    ExpandAfter(b.toks, pre, Expand(before, []));
    LastBlock(bs, b, pre);
  }

  lemma LastBlock(bs: seq<Blk>, b: Blk, pre: seq<Byte>)
    requires BlocksOk(bs) && AllFit(Flatten(bs), []) && AllFit(b.toks, Expand(Flatten(bs), []))
    requires AllFit(b.toks, pre + Expand(Flatten(bs), []))
    requires Expand(b.toks, pre + Expand(Flatten(bs), [])) == pre + Expand(b.toks, Expand(Flatten(bs), []))
    requires b.has ==> Expand(b.toks, pre + Expand(Flatten(bs), [])) == pre + Expand(Flatten(bs), []) + b.buf
    ensures BlocksOk(bs + [b])
  {
    hide AllFit, Expand;
    var all := bs + [b];
    assert all[..|all| - 1] == bs && all[|all| - 1] == b;
    if b.has {
      var x, y := Expand(b.toks, Expand(Flatten(bs), [])), Expand(Flatten(bs), []) + b.buf;
      assert pre + x == pre + y;
      assert x == (pre + x)[|pre|..] && y == (pre + y)[|pre|..];
    }
  }

  // The blocks after a full flush are those of the rest of the text.
  lemma FinishedDrop(blocks: seq<Blk>, text: seq<Byte>, k: nat)
    requires Finished(blocks, text) && k < |blocks| - 1 && blocks[k].mark == FullMark
    ensures TextAt(blocks, k) <= |text| && Finished(blocks[k + 1..], text[TextAt(blocks, k)..])
  {
    hide Flatten, AllFit, Expand, BlocksOk, TextAt;
    var n, rest := TextAt(blocks, k), Flatten(blocks[k + 1..]);
    MarkAdds(blocks, k);
    PrefixText(blocks, text, k);
    PrefixText(blocks, text, k + 1);
    BlocksDrop(blocks, k + 1);
    FlattenSplit(blocks, k + 1);
    ExpandConcat(Flatten(blocks[..k + 1]), rest, []);
    assert text[..n] + [] == text[..n];
    ExpandAfter(rest, text[..n], []);
    assert text == text[..n] + Expand(rest, []);
    var bs := blocks[k + 1..];
    forall j | 0 <= j < |bs| && bs[j].mark == FullMark ensures AllFit(Flatten(bs[j + 1..]), []) {
      assert bs[j + 1..] == blocks[k + 1 + j + 1..];
      assert blocks[k + 1 + j].mark == FullMark;
    }
  }

  /** After a full flush the rest of the bytes is the encoding of the rest of the text. */
  lemma AfterFullFlush(bytes: seq<Byte>, text: seq<Byte>, blocks: seq<Blk>, forms: seq<Form>, fixedOnly: bool, k: nat)
    requires Encodes(bytes, text, blocks, forms) && AllBest(forms, blocks, fixedOnly)
    requires k < |blocks| - 1 && blocks[k].mark == FullMark
    ensures
      var p, n := Start(forms, blocks, k + 1), TextAt(blocks, k);
      && p % 8 == 0 && p / 8 <= |bytes| && n <= |text|
      && Encodes(bytes[p / 8..], text[n..], blocks[k + 1..], forms[k + 1..])
  {
    hide AllBest, BytesBits, StreamBits, Sends, Finished;
    var I, p := BytesBits(bytes), Start(forms, blocks, k + 1);
    FinishedPieces(blocks, text);
    MarkSize(forms, blocks, fixedOnly, k);
    FinishedDrop(blocks, text, k);
    SendsSplit(forms, blocks, k + 1);
    var rest := StreamBits(forms[k + 1..], blocks[k + 1..]);
    AtSplit(I, 0, StreamBits(forms[..k + 1], blocks[..k + 1]), rest);
    InBounds(I, 0, StreamBits(forms, blocks));
    BitsDrop(bytes, p / 8);
    assert I[p..][0..0 + |rest|] == I[p..p + |rest|];
  }

  lemma FinishedPieces(blocks: seq<Blk>, text: seq<Byte>)
    requires Finished(blocks, text)
    ensures Pieces(blocks)
  {
  }

  lemma BitsDrop(bytes: seq<Byte>, k: nat)
    requires k <= |bytes|
    ensures BytesBits(bytes[k..]) == BytesBits(bytes)[8 * k..]
  {
    BytesBitsConcat(bytes[..k], bytes[k..]);
    assert bytes == bytes[..k] + bytes[k..];
  }

  /** Z_FULL_FLUSH: a new decoder can start there, whatever became of the bytes before, and returns the rest of the text
      exactly when every dynamic block of the rest has tables that fit. */
  method Resuming(bytes: seq<Byte>, start: nat, cuts: seq<Cut>, ghost text: seq<Byte>, ghost blocks: seq<Blk>,
                  ghost forms: seq<Form>, ghost fixedOnly: bool, ghost k: nat)
    returns (out: seq<Byte>, done: bool, taken: nat)
    requires Encodes(bytes, text, blocks, forms) && AllBest(forms, blocks, fixedOnly)
    requires k < |blocks| - 1 && blocks[k].mark == FullMark && start == Start(forms, blocks, k + 1) / 8
    requires |cuts| > 0 && start <= |bytes| && Cuts(cuts, |bytes| - start)
    requires cuts[|cuts| - 1].upto == |bytes| - start && cuts[|cuts| - 1].limit >= |text|
    ensures done <==> AllReadable(forms[k + 1..])
    ensures done ==> TextAt(blocks, k) <= |text| && out == text[TextAt(blocks, k)..] && taken == |bytes| - start
  {
    hide Encodes, AllBest, AllReadable, Start, TextAt, Cuts;
    AfterFullFlush(bytes, text, blocks, forms, fixedOnly, k);
    AsMany(forms, blocks, fixedOnly);
    out, done, taken := Inflated(bytes[start..], cuts, text[TextAt(blocks, k)..], blocks[k + 1..], forms[k + 1..]);
  }

  lemma AsMany(forms: seq<Form>, blocks: seq<Blk>, fixedOnly: bool)
    requires AllBest(forms, blocks, fixedOnly)
    ensures |forms| == |blocks|
  {
  }
}
