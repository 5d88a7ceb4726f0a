/** send_all_trees and compress_block of deps/zlib/trees.c: the bits go out as Block says. */
module SendBlock {
  import opened Bits
  import opened BitStream
  import opened BitWriter
  import opened Canon
  import opened CodeLengthCoding
  import opened MatchCodes
  import opened Rfc1951
  import opened Lz77
  import opened Block

  // A tree as the encoder holds it: lengths, and reversed codes from gen_codes.
  datatype Tree = Tree(lens: seq<nat>, code: seq<nat>) {
    ghost predicate Valid() {
      && NotOverSubscribed(lens) && |code| == |lens|
      && forall s: nat :: HasCode(lens, s) ==> code[s] == Huff(lens, s)
    }
  }

  method SendCode(w: Writer, s: nat, tree: Tree)
    requires w.Valid() && tree.Valid() && HasCode(tree.lens, s)
    modifies w
    ensures w.Valid() && w.Sent() == old(w.Sent()) + SymBits(tree.lens, s)
  {
    hide Pow2, BitsOf, BytesBits, Huff;
    CodeBounds(tree.lens, s);
    w.SendBits(tree.code[s], tree.lens[s]);
  }

  // An entry of the symbol buffers: distance 0 marks a literal.
  function TokenOf(dist: nat, lc: Byte): Token {
    if dist == 0 then Literal(lc) else Pair(dist, lc + 3)
  }

  function TokensOf(dBuf: seq<nat>, lBuf: seq<Byte>): (t: seq<Token>)
    requires |dBuf| == |lBuf|
    ensures |t| == |dBuf|
  {
    seq(|dBuf|, i requires 0 <= i < |dBuf| => TokenOf(dBuf[i], lBuf[i]))
  }

  ghost predicate LengthTables(lengthCode: array<nat>, baseLength: array<nat>)
    reads lengthCode, baseLength
  {
    && lengthCode.Length == 256 && (forall lc :: 0 <= lc < 256 ==> lengthCode[lc] == LengthCode(lc))
    && baseLength.Length == LENGTH_CODES && LengthBasesTo(baseLength[..], LENGTH_CODES - 1)
  }

  method SendLength(w: Writer, lc: nat, ltree: Tree, lengthCode: array<nat>, baseLength: array<nat>)
    requires w.Valid() && ltree.Valid() && lc < 256 && HasCode(ltree.lens, 257 + LengthCode(lc))
    requires LengthTables(lengthCode, baseLength)
    modifies w
    ensures w.Valid() && w.Sent() == old(w.Sent()) + LengthBits(ltree.lens, lc)
  {
    hide Pow2, BitsOf, BytesBits, Huff, LengthCode, ExtraLBits, BaseLength;
    LengthRoundTrip(lc);
    var code := lengthCode[lc];
    SendCode(w, code + 257, ltree);
    var extra := ExtraLBits(code);
    NoExtra(code, LengthRest(lc));
    if extra != 0 {
      w.SendBits(lc - baseLength[code], extra);
    }
  }

  lemma NoExtra(code: nat, v: int)
    requires code < LENGTH_CODES && 0 <= v < Pow2(ExtraLBits(code))
    ensures ExtraLBits(code) <= 5 && (ExtraLBits(code) == 0 ==> BitsOf(v, ExtraLBits(code)) == [])
    ensures code == 28 ==> ExtraLBits(code) == 0
  {
  }

  method SendDist(w: Writer, d: nat, dtree: Tree, distCode: array<nat>, baseDist: array<nat>)
    requires w.Valid() && dtree.Valid() && d < 32768 && HasCode(dtree.lens, DistCode(d))
    requires DistTable(distCode[..]) && baseDist.Length == D_CODES && DistBasesTo(baseDist[..], D_CODES)
    modifies w
    ensures w.Valid() && w.Sent() == old(w.Sent()) + DistBits(dtree.lens, d)
  {
    hide Pow2, BitsOf, BytesBits, Huff, DistCode, ExtraDBits, BaseDist, DistTable;
    DistRoundTrip(d);
    var code := DCode(distCode, d);
    SendCode(w, code, dtree);
    var extra := ExtraDBits(code);
    NoExtraDist(code, d - BaseDist(code));
    if extra != 0 {
      w.SendBits(d - baseDist[code], extra);
    }
  }

  lemma NoExtraDist(code: nat, v: nat)
    requires code < D_CODES && v < Pow2(ExtraDBits(code))
    ensures ExtraDBits(code) <= 13 && (ExtraDBits(code) == 0 ==> BitsOf(v, ExtraDBits(code)) == [])
  {
  }

  lemma {:induction false} TokensBitsSnoc(codes: Codes, toks: seq<Token>, tok: Token)
    requires AllCoded(toks, codes) && Coded(tok, codes) && AllCoded(toks + [tok], codes)
    ensures TokensBits(codes, toks + [tok]) == TokensBits(codes, toks) + TokenBits(codes, tok)
    decreases |toks|
  {
    hide TokenBits, Coded;
    if toks == [] {
      assert toks + [tok] == [tok] && [tok][1..] == [];
    } else {
      assert (toks + [tok])[1..] == toks[1..] + [tok];
      TokensBitsSnoc(codes, toks[1..], tok);
    }
  }

  // Send the symbols of a block and end-of-block.
  method CompressBlock(w: Writer, dBuf: array<nat>, lBuf: array<Byte>, lastLit: nat, ltree: Tree, dtree: Tree,
                       lengthCode: array<nat>, baseLength: array<nat>, distCode: array<nat>, baseDist: array<nat>)
    requires w.Valid() && ltree.Valid() && dtree.Valid() && lastLit <= dBuf.Length && lastLit <= lBuf.Length
    requires LengthTables(lengthCode, baseLength)
    requires DistTable(distCode[..]) && baseDist.Length == D_CODES && DistBasesTo(baseDist[..], D_CODES)
    requires HasCode(ltree.lens, 256)
    requires AllCoded(TokensOf(dBuf[..lastLit], lBuf[..lastLit]), Codes(ltree.lens, dtree.lens))
    modifies w
    ensures w.Valid()
    ensures w.Sent() == old(w.Sent())
              + BodyBits(Codes(ltree.lens, dtree.lens), TokensOf(dBuf[..lastLit], lBuf[..lastLit]))
  {
    hide TokenBits, TokensBits, Coded, DistTable, SymBits, Tree.Valid, LengthTables, DistBasesTo, BytesBits;
    ghost var codes, toks := Codes(ltree.lens, dtree.lens), TokensOf(dBuf[..lastLit], lBuf[..lastLit]);
    ghost var before := w.Sent();
    NoTokens(codes);
    var lx := 0;
    while lx < lastLit
      invariant 0 <= lx <= lastLit && w.Valid()
      invariant AllCoded(toks[..lx], codes) && w.Sent() == before + TokensBits(codes, toks[..lx])
    {
      assert toks[lx] == TokenOf(dBuf[lx], lBuf[lx]) && Coded(toks[lx], codes);
      SendToken(w, dBuf[lx], lBuf[lx], ltree, dtree, lengthCode, baseLength, distCode, baseDist);
      assert toks[..lx + 1] == toks[..lx] + [toks[lx]];
      TokensBitsSnoc(codes, toks[..lx], toks[lx]);
      lx := lx + 1;
    }
    assert toks[..lx] == toks;
    SendCode(w, 256, ltree);
  }

  lemma NoTokens(codes: Codes)
    ensures TokensBits(codes, []) == []
  {
  }

  method SendToken(w: Writer, dist: nat, lc: Byte, ltree: Tree, dtree: Tree,
                   lengthCode: array<nat>, baseLength: array<nat>, distCode: array<nat>, baseDist: array<nat>)
    requires w.Valid() && ltree.Valid() && dtree.Valid() && LengthTables(lengthCode, baseLength)
    requires DistTable(distCode[..]) && baseDist.Length == D_CODES && DistBasesTo(baseDist[..], D_CODES)
    requires Coded(TokenOf(dist, lc), Codes(ltree.lens, dtree.lens))
    modifies w
    ensures w.Valid()
    ensures w.Sent() == old(w.Sent()) + TokenBits(Codes(ltree.lens, dtree.lens), TokenOf(dist, lc))
  {
    hide DistTable, SymBits, Tree.Valid, LengthTables, DistBasesTo, LengthBits, DistBits, BytesBits, BitsOf, LengthCode,
         DistCode, LengthCodeShort, Canon.HasCode;
    if dist == 0 {
      SendCode(w, lc, ltree);
    } else {
      SendLength(w, lc, ltree, lengthCode, baseLength);
      SendDist(w, dist - 1, dtree, distCode, baseDist);
    }
  }

  // ---- trees ----

  lemma {:induction false} OpsBitsSnoc(cl: seq<nat>, ops: seq<Op>, op: Op)
    requires AllOpsCoded(ops, cl) && OpCoded(op, cl) && AllOpsCoded(ops + [op], cl)
    ensures OpsBits(cl, ops + [op]) == OpsBits(cl, ops) + OpBits(cl, op)
    decreases |ops|
  {
    hide OpBits, OpCoded;
    if ops == [] {
      assert ops + [op] == [op] && [op][1..] == [];
    } else {
      assert (ops + [op])[1..] == ops[1..] + [op];
      OpsBitsSnoc(cl, ops[1..], op);
    }
  }

  method SendOp(w: Writer, op: Op, blTree: Tree)
    requires w.Valid() && blTree.Valid() && OpCoded(op, blTree.lens)
    modifies w
    ensures w.Valid() && w.Sent() == old(w.Sent()) + OpBits(blTree.lens, op)
  {
    hide BytesBits, BitsOf, SymBits, Tree.Valid, Pow2, Writer.Sent, Op.Extra, Op.ExtraBits;
    ghost var before := w.Sent();
    SendCode(w, op.Symbol(), blTree);
    ExtraFits(op);
    w.SendBits(op.Extra(), op.ExtraBits());
    assert before + SymBits(blTree.lens, op.Symbol()) + BitsOf(op.Extra(), op.ExtraBits()) ==
      before + OpBits(blTree.lens, op);
  }

  method SendOps(w: Writer, ops: seq<Op>, blTree: Tree)
    requires w.Valid() && blTree.Valid() && AllOpsCoded(ops, blTree.lens)
    modifies w
    ensures w.Valid() && w.Sent() == old(w.Sent()) + OpsBits(blTree.lens, ops)
  {
    hide BytesBits, OpBits, OpsBits, OpCoded, Tree.Valid;
    ghost var before, cl := w.Sent(), blTree.lens;
    NoOps(cl);
    for i := 0 to |ops|
      invariant w.Valid() && AllOpsCoded(ops[..i], cl) && w.Sent() == before + OpsBits(cl, ops[..i])
    {
      SendOp(w, ops[i], blTree);
      assert ops[..i + 1] == ops[..i] + [ops[i]];
      OpsBitsSnoc(cl, ops[..i], ops[i]);
    }
    assert ops[..|ops|] == ops;
  }

  lemma NoOps(cl: seq<nat>)
    ensures OpsBits(cl, []) == []
  {
  }

  lemma {:induction false} RankBitsSnoc(cl: seq<nat>, i: nat, n: nat)
    requires |cl| == 19 && i <= n < 19
    ensures Order(n) < 19 && RankBits(cl, i, n + 1) == RankBits(cl, i, n) + BitsOf(cl[Order(n)], 3)
    decreases n - i
  {
    hide Order, BitsOf;
    OrderRank(n);
    if i < n {
      OrderRank(i);
      RankBitsSnoc(cl, i + 1, n);
    } else {
      assert RankBits(cl, n + 1, n + 1) == [];
    }
  }

  // Send the header of a dynamic block.
  method SendAllTrees(w: Writer, ltree: Tree, dtree: Tree, blTree: Tree, blcodes: nat)
    requires w.Valid() && blTree.Valid() && Sendable(Codes(ltree.lens, dtree.lens), blTree.lens, blcodes)
    modifies w
    ensures w.Valid()
    ensures w.Sent() == old(w.Sent()) + HeaderBits(Codes(ltree.lens, dtree.lens), blTree.lens, blcodes)
  {
    hide BytesBits, BitsOf, Tree.Valid, RankBits, OpsBits, OpCoded, Encode, Rank, Pow2;
    ghost var before, cl := w.Sent(), blTree.lens;
    FieldWidths();
    w.SendBits(|ltree.lens| - 257, 5);
    w.SendBits(|dtree.lens| - 1, 5);
    w.SendBits(blcodes - 4, 4);
    ghost var counts := BitsOf(|ltree.lens| - 257, 5) + BitsOf(|dtree.lens| - 1, 5) + BitsOf(blcodes - 4, 4);
    SendRanks(w, blTree, blcodes);
    ghost var mid := w.Sent();
    assert mid == before + counts + RankBits(cl, 0, blcodes);
    SendTrees(w, ltree, dtree, blTree);
  }

  lemma FieldWidths()
    ensures Pow2(5) == 32 && Pow2(4) == 16 && Pow2(3) == 8
  {
  }

  method SendRanks(w: Writer, blTree: Tree, blcodes: nat)
    requires w.Valid() && |blTree.lens| == 19 && blcodes <= 19
    requires forall s :: 0 <= s < 19 ==> blTree.lens[s] <= 7
    modifies w
    ensures w.Valid() && w.Sent() == old(w.Sent()) + RankBits(blTree.lens, 0, blcodes)
  {
    hide BytesBits, BitsOf, RankBits, Pow2, Order;
    FieldWidths();
    NoRanks(blTree.lens);
    for rank := 0 to blcodes
      invariant w.Valid() && w.Sent() == old(w.Sent()) + RankBits(blTree.lens, 0, rank)
    {
      RankBitsSnoc(blTree.lens, 0, rank);
      w.SendBits(blTree.lens[Order(rank)], 3);
    }
  }

  lemma NoRanks(cl: seq<nat>)
    requires |cl| == 19
    ensures RankBits(cl, 0, 0) == []
  {
  }

  method SendTrees(w: Writer, ltree: Tree, dtree: Tree, blTree: Tree)
    requires w.Valid() && blTree.Valid() && ltree.lens != [] && dtree.lens != []
    requires ValidLens(ltree.lens) && ValidLens(dtree.lens)
    requires AllOpsCoded(Encode(ltree.lens) + Encode(dtree.lens), blTree.lens)
    modifies w
    ensures w.Valid()
    ensures w.Sent() == old(w.Sent()) + OpsBits(blTree.lens, Encode(ltree.lens) + Encode(dtree.lens))
  {
    hide BytesBits, Tree.Valid, OpsBits, OpCoded, Encode;
    ghost var a, b := Encode(ltree.lens), Encode(dtree.lens);
    assert forall i :: 0 <= i < |a| ==> (a + b)[i] == a[i];
    assert forall i :: 0 <= i < |b| ==> (a + b)[|a| + i] == b[i];
    var lops := SendTree(ltree.lens);
    SendOps(w, lops, blTree);
    var dops := SendTree(dtree.lens);
    SendOps(w, dops, blTree);
    OpsBitsConcat(blTree.lens, a, b);
  }

  lemma {:induction false} OpsBitsConcat(cl: seq<nat>, a: seq<Op>, b: seq<Op>)
    requires AllOpsCoded(a, cl) && AllOpsCoded(b, cl) && AllOpsCoded(a + b, cl)
    ensures OpsBits(cl, a + b) == OpsBits(cl, a) + OpsBits(cl, b)
    decreases |a|
  {
    hide OpBits, OpCoded;
    if a == [] {
      assert a + b == b;
    } else {
      assert (a + b)[1..] == a[1..] + b;
      OpsBitsConcat(cl, a[1..], b);
    }
  }
}
