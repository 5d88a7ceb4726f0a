/** The bits of a block as trees.c sends them, and the proof that the RFC 1951 machine reads
    them back as the same literals and pairs. */
module Block {
  import opened Bits
  import opened BitStream
  import opened Canon
  import opened DecodeTable
  import opened InflateTable
  import opened CodeLengthCoding
  import opened MatchCodes
  import opened Rfc1951
  import opened Lz77

  // ---- the bits ----

  function SymBits(lens: seq<nat>, s: nat): seq<bool>
    requires HasCode(lens, s)
  {
    BitsOf(Huff(lens, s), lens[s])
  }

  // A token is in range and its symbols have codes.
  ghost predicate Coded(tok: Token, codes: Codes) {
    match tok
    case Literal(c) => HasCode(codes.ll, c)
    case Pair(dist, len) =>
      && 1 <= dist <= 32768 && 3 <= len <= 258
      && HasCode(codes.ll, 257 + LengthCode(len - 3)) && HasCode(codes.dl, DistCode(dist - 1))
  }

  // A length code with its extra bits, for the match length lc + 3.
  ghost function LengthBits(ll: seq<nat>, lc: nat): seq<bool>
    requires lc < 256 && HasCode(ll, 257 + LengthCode(lc))
  {
    LengthRoundTrip(lc);
    SymBits(ll, 257 + LengthCode(lc)) + BitsOf(LengthRest(lc), ExtraLBits(LengthCode(lc)))
  }

  // A distance code with its extra bits, for the distance d + 1.
  ghost function DistBits(dl: seq<nat>, d: nat): seq<bool>
    requires d < 32768 && HasCode(dl, DistCode(d))
  {
    DistRoundTrip(d);
    SymBits(dl, DistCode(d)) + BitsOf(d - BaseDist(DistCode(d)), ExtraDBits(DistCode(d)))
  }

  ghost function TokenBits(codes: Codes, tok: Token): seq<bool>
    requires Coded(tok, codes)
  {
    match tok
    case Literal(c) => SymBits(codes.ll, c)
    case Pair(dist, len) => LengthBits(codes.ll, len - 3) + DistBits(codes.dl, dist - 1)
  }

  ghost predicate AllCoded(toks: seq<Token>, codes: Codes) {
    forall i :: 0 <= i < |toks| ==> Coded(toks[i], codes)
  }

  ghost function TokensBits(codes: Codes, toks: seq<Token>): seq<bool>
    requires AllCoded(toks, codes)
  {
    if toks == [] then [] else TokenBits(codes, toks[0]) + TokensBits(codes, toks[1..])
  }

  ghost function BodyBits(codes: Codes, toks: seq<Token>): seq<bool>
    requires AllCoded(toks, codes) && HasCode(codes.ll, 256)
  {
    TokensBits(codes, toks) + SymBits(codes.ll, 256)
  }

  // A run-length symbol: its code, then its extra bits.
  ghost predicate OpCoded(op: Op, cl: seq<nat>) {
    op.InRange() && HasCode(cl, op.Symbol())
  }

  ghost function OpBits(cl: seq<nat>, op: Op): seq<bool>
    requires OpCoded(op, cl)
  {
    SymBits(cl, op.Symbol()) + BitsOf(op.Extra(), op.ExtraBits())
  }

  ghost predicate AllOpsCoded(ops: seq<Op>, cl: seq<nat>) {
    forall i :: 0 <= i < |ops| ==> OpCoded(ops[i], cl)
  }

  ghost function OpsBits(cl: seq<nat>, ops: seq<Op>): seq<bool>
    requires AllOpsCoded(ops, cl)
  {
    if ops == [] then [] else OpBits(cl, ops[0]) + OpsBits(cl, ops[1..])
  }

  // The lengths of the code length code, three bits each, in the order of the format.
  function RankBits(cl: seq<nat>, i: nat, n: nat): seq<bool>
    requires |cl| == 19 && i <= n <= 19
    decreases n - i
  {
    if i == n then [] else BitsOf(cl[Order(i)], 3) + RankBits(cl, i + 1, n)
  }

  // What send_all_trees may be called with.
  ghost predicate Sendable(codes: Codes, cl: seq<nat>, n: nat) {
    && 257 <= |codes.ll| <= 286 && 1 <= |codes.dl| <= 30 && |cl| == 19 && 4 <= n <= 19
    && ValidLens(codes.ll) && ValidLens(codes.dl)
    && (forall s :: 0 <= s < 19 ==> cl[s] <= 7 && (Rank(s) >= n ==> cl[s] == 0))
    && codes.ll[256] != 0 && Complete(cl)
    && AllOpsCoded(Encode(codes.ll) + Encode(codes.dl), cl)
  }

  // The decoder's calls of inflate_table for the two trees return 0.
  ghost predicate Tabled(codes: Codes) {
    Buildable(LENS, codes.ll, 9) && Buildable(DISTS, codes.dl, 6)
  }

  // What the decoder makes of the two trees.
  ghost function HeaderMode(last: bool, codes: Codes): Mode {
    if Tabled(codes) then LenCode(last, codes) else Bad
  }

  ghost function HeaderBits(codes: Codes, cl: seq<nat>, n: nat): seq<bool>
    requires Sendable(codes, cl, n)
  {
    BitsOf(|codes.ll| - 257, 5) + BitsOf(|codes.dl| - 1, 5) + BitsOf(n - 4, 4)
    + RankBits(cl, 0, n) + OpsBits(cl, Encode(codes.ll) + Encode(codes.dl))
  }

  // ---- reading them back ----

  // The bits w stand at position p of the stream.
  ghost predicate At(I: seq<bool>, p: nat, w: seq<bool>) {
    p + |w| <= |I| && I[p..p + |w|] == w
  }

  lemma AtSplit(I: seq<bool>, p: nat, a: seq<bool>, b: seq<bool>)
    ensures At(I, p, a + b) <==> At(I, p, a) && At(I, p + |a|, b)
  {
    if p + |a| + |b| <= |I| {
      var s := I[p..p + |a| + |b|];
      assert s[..|a|] == I[p..p + |a|] && s[|a|..] == I[p + |a|..p + |a| + |b|];
      assert s == s[..|a|] + s[|a|..];
    }
  }

  lemma FieldAt(I: seq<bool>, p: nat, v: nat, n: nat)
    requires At(I, p, BitsOf(v, n)) && v < Pow2(n)
    ensures Field(I, p, n) == v
  {
    ValOfBits(v, n);
  }

  lemma SymbolAt(I: seq<bool>, p: nat, lens: seq<nat>, s: nat)
    requires NotOverSubscribed(lens) && HasCode(lens, s) && At(I, p, SymBits(lens, s))
    ensures p <= |I| && Rfc1951.Decode(lens, I[p..]) == Sym(s, lens[s])
  {
    hide Rfc1951.Decode, Huff, BitsOf, Val, Pow2, CodeOf, Base, Pos, CountTo, Rev;
    CodeBounds(lens, s);
    ValOfBits(Huff(lens, s), lens[s]);
    assert I[p..][..lens[s]] == I[p..p + lens[s]];
    DecodeUnique(lens, s, I[p..]);
  }

  ghost predicate GoodCodes(codes: Codes) {
    NotOverSubscribed(codes.ll) && NotOverSubscribed(codes.dl) && |codes.ll| <= 288 && |codes.dl| <= 32
  }

  // One literal is read back.
  lemma LiteralBack(I: seq<bool>, c: Config, b: Byte)
    requires c.mode.LenCode? && GoodCodes(c.mode.codes) && HasCode(c.mode.codes.ll, b)
    requires At(I, c.p, SymBits(c.mode.codes.ll, b))
    ensures Reaches(I, c, Config(c.mode, c.p + c.mode.codes.ll[b], c.out + [b]))
  {
    hide Rfc1951.Decode, Huff, Reaches, At, Val;
    var m := c.mode;
    SymbolAt(I, c.p, m.codes.ll, b);
    var c1 := Config(Lit(m.last, m.codes, b), c.p + m.codes.ll[b], c.out);
    LenStep(I, c);
    ReachesStep(I, c, c1);
    ReachesStep(I, c1, Config(m, c1.p, c.out + [b]));
    ReachesTrans(I, c, c1, Config(m, c1.p, c.out + [b]));
  }

  // A match, byte by byte.
  lemma {:induction false} MatchBack(I: seq<bool>, c: Config)
    requires c.mode.Match? && 0 < c.mode.offset <= |c.out| && c.mode.length > 0
    ensures Reaches(I, c,
      Config(LenCode(c.mode.last, c.mode.codes), c.p, CopyBack(c.out, c.mode.offset, c.mode.length)))
    decreases c.mode.length
  {
    var m := c.mode;
    var d := CopyMatch(c);
    ReachesStep(I, c, d);
    if m.length > 1 {
      MatchBack(I, d);
      ReachesTrans(I, c, d, Config(LenCode(m.last, m.codes), c.p, CopyBack(c.out, m.offset, m.length)));
    } else {
      assert CopyBack(d.out, m.offset, 0) == d.out;
    }
  }

  lemma LengthBack(I: seq<bool>, c: Config, lc: nat)
    requires c.mode.LenCode? && GoodCodes(c.mode.codes) && lc < 256
    requires HasCode(c.mode.codes.ll, 257 + LengthCode(lc)) && At(I, c.p, LengthBits(c.mode.codes.ll, lc))
    ensures Reaches(I, c, Config(Dist(c.mode.last, c.mode.codes, lc + 3),
                                 c.p + |LengthBits(c.mode.codes.ll, lc)|, c.out))
  {
    hide LengthCode, ExtraLBits, BaseLength, LengthBase, DecodeTable.LengthExtra, LengthRest, Huff, Rfc1951.Decode,
         BitsOf, Val, Reaches, At, Step, Pow2;
    var m, k := c.mode, LengthCode(lc);
    LengthRoundTrip(lc);
    var a, b := SymBits(m.codes.ll, 257 + k), BitsOf(LengthRest(lc), ExtraLBits(k));
    AtSplit(I, c.p, a, b);
    SymbolAt(I, c.p, m.codes.ll, 257 + k);
    var c1 := Config(LenExt(m.last, m.codes, LengthBase(k), ExtraLBits(k)), c.p + |a|, c.out);
    LenStep(I, c);
    FieldAt(I, c1.p, LengthRest(lc), ExtraLBits(k));
    var c2 := Config(Dist(m.last, m.codes, lc + 3), c1.p + ExtraLBits(k), c.out);
    InBounds(I, c1.p, b);
    LenExtStep(I, c1);
    ReachesStep(I, c, c1);
    ReachesStep(I, c1, c2);
    ReachesTrans(I, c, c1, c2);
  }

  lemma DistBack(I: seq<bool>, c: Config, d: nat)
    requires c.mode.Dist? && GoodCodes(c.mode.codes) && d < 32768
    requires HasCode(c.mode.codes.dl, DistCode(d)) && At(I, c.p, DistBits(c.mode.codes.dl, d))
    ensures Reaches(I, c, Config(Match(c.mode.last, c.mode.codes, c.mode.length, d + 1),
                                 c.p + |DistBits(c.mode.codes.dl, d)|, c.out))
  {
    hide DistCode, ExtraDBits, BaseDist, DistBase, DistExtra, Huff, Rfc1951.Decode, BitsOf, Val, Reaches, At, Step,
         Pow2;
    var m, k := c.mode, DistCode(d);
    DistRoundTrip(d);
    var a, b := SymBits(m.codes.dl, k), BitsOf(d - BaseDist(k), ExtraDBits(k));
    AtSplit(I, c.p, a, b);
    SymbolAt(I, c.p, m.codes.dl, k);
    var c1 := Config(DistExt(m.last, m.codes, m.length, DistBase(k), ExtraDBits(k)), c.p + |a|, c.out);
    DistStep(I, c);
    FieldAt(I, c1.p, d - BaseDist(k), ExtraDBits(k));
    var c2 := Config(Match(m.last, m.codes, m.length, d + 1), c1.p + ExtraDBits(k), c.out);
    InBounds(I, c1.p, b);
    DistExtStep(I, c1);
    ReachesStep(I, c, c1);
    ReachesStep(I, c1, c2);
    ReachesTrans(I, c, c1, c2);
  }

  // Length and distance of a pair are read back.
  lemma PairHead(I: seq<bool>, c: Config, tok: Token)
    requires c.mode.LenCode? && GoodCodes(c.mode.codes) && Coded(tok, c.mode.codes) && tok.Pair?
    requires At(I, c.p, TokenBits(c.mode.codes, tok))
    ensures Reaches(I, c, Config(Match(c.mode.last, c.mode.codes, tok.len, tok.dist),
                                 c.p + |TokenBits(c.mode.codes, tok)|, c.out))
  {
    hide LengthCode, DistCode, Step, Reaches, At, LengthBits, DistBits;
    var m := c.mode;
    var a, b := LengthBits(m.codes.ll, tok.len - 3), DistBits(m.codes.dl, tok.dist - 1);
    AtSplit(I, c.p, a, b);
    LengthBack(I, c, tok.len - 3);
    var c1 := Config(Dist(m.last, m.codes, tok.len), c.p + |a|, c.out);
    DistBack(I, c1, tok.dist - 1);
    var c2 := Config(Match(m.last, m.codes, tok.len, tok.dist), c1.p + |b|, c.out);
    ReachesTrans(I, c, c1, c2);
  }

  lemma PairBack(I: seq<bool>, c: Config, tok: Token)
    requires c.mode.LenCode? && GoodCodes(c.mode.codes) && Coded(tok, c.mode.codes) && tok.Pair?
    requires Lz77.Fits(tok, c.out) && At(I, c.p, TokenBits(c.mode.codes, tok))
    ensures Reaches(I, c, Config(c.mode, c.p + |TokenBits(c.mode.codes, tok)|, Put(c.out, tok)))
  {
    hide TokenBits, Step, Reaches, At, CopyBack, Coded, GoodCodes;
    PairHead(I, c, tok);
    var p := c.p + |TokenBits(c.mode.codes, tok)|;
    var d := Config(Match(c.mode.last, c.mode.codes, tok.len, tok.dist), p, c.out);
    MatchBack(I, d);
    assert Put(c.out, tok) == CopyBack(c.out, tok.dist, tok.len);
    var e := Config(c.mode, p, Put(c.out, tok));
    assert e == Config(LenCode(c.mode.last, c.mode.codes), p, CopyBack(c.out, tok.dist, tok.len));
    ReachesTrans(I, c, d, e);
  }

  // Every list of tokens is read back.
  lemma {:induction false} TokensBack(I: seq<bool>, c: Config, toks: seq<Token>)
    requires c.mode.LenCode? && GoodCodes(c.mode.codes) && AllCoded(toks, c.mode.codes)
    requires AllFit(toks, c.out) && At(I, c.p, TokensBits(c.mode.codes, toks))
    ensures Reaches(I, c, Config(c.mode, c.p + |TokensBits(c.mode.codes, toks)|, Lz77.Expand(toks, c.out)))
    decreases |toks|
  {
    hide TokenBits, Step, Huff, BitsOf, Coded, Put, Lz77.Fits;
    if toks == [] {
      ReachesSelf(I, c);
    } else {
      var w, rest := TokenBits(c.mode.codes, toks[0]), TokensBits(c.mode.codes, toks[1..]);
      assert Coded(toks[0], c.mode.codes);
      AtSplit(I, c.p, w, rest);
      TokenBack(I, c, toks[0]);
      var d := Config(c.mode, c.p + |w|, Put(c.out, toks[0]));
      TokensBack(I, d, toks[1..]);
      ReachesTrans(I, c, d, Config(c.mode, d.p + |rest|, Lz77.Expand(toks[1..], d.out)));
    }
  }

  lemma TokenBack(I: seq<bool>, c: Config, tok: Token)
    requires c.mode.LenCode? && GoodCodes(c.mode.codes) && Coded(tok, c.mode.codes)
    requires Lz77.Fits(tok, c.out) && At(I, c.p, TokenBits(c.mode.codes, tok))
    ensures Reaches(I, c, Config(c.mode, c.p + |TokenBits(c.mode.codes, tok)|, Put(c.out, tok)))
  {
    hide Step, Huff;
    match tok
    case Literal(b) => LiteralBack(I, c, b);
    case Pair(_, _) => PairBack(I, c, tok);
  }

  // The symbols of a block, then end-of-block.
  lemma BodyBack(I: seq<bool>, c: Config, toks: seq<Token>)
    requires c.mode.LenCode? && GoodCodes(c.mode.codes) && AllCoded(toks, c.mode.codes)
    requires HasCode(c.mode.codes.ll, 256)
    requires AllFit(toks, c.out) && At(I, c.p, BodyBits(c.mode.codes, toks))
    ensures Reaches(I, c, Config(Type(c.mode.last), c.p + |BodyBits(c.mode.codes, toks)|, Lz77.Expand(toks, c.out)))
  {
    hide TokensBits, Huff, BitsOf;
    var m := c.mode;
    var w, e := TokensBits(m.codes, toks), SymBits(m.codes.ll, 256);
    AtSplit(I, c.p, w, e);
    TokensBack(I, c, toks);
    var d := Config(m, c.p + |w|, Lz77.Expand(toks, c.out));
    SymbolAt(I, d.p, m.codes.ll, 256);
    var f := Config(Type(m.last), d.p + |e|, d.out);
    LenStep(I, d);
    ReachesStep(I, d, f);
    ReachesTrans(I, c, d, f);
  }

  // ---- the header of a dynamic block ----

  // The lengths sent so far, by rank.
  function Ranks(cl: seq<nat>, n: nat): (r: seq<nat>)
    requires |cl| == 19 && n <= 19
    ensures |r| == n
  {
    seq(n, i requires 0 <= i < n => (OrderRank(i); cl[Order(i)]))
  }

  lemma RankBack(I: seq<bool>, c: Config, l: nat)
    requires c.mode.LenLens? && |c.mode.have| < c.mode.ncode && l < 8 && At(I, c.p, BitsOf(l, 3))
    ensures
      var m := c.mode;
      Reaches(I, c, Config(LenLens(m.last, m.nlen, m.ndist, m.ncode, m.have + [l]), c.p + 3, c.out))
  {
    hide Reaches, BitsOf;
    assert Pow2(3) == 8;
    FieldAt(I, c.p, l, 3);
    var m := c.mode;
    ReachesStep(I, c, Config(LenLens(m.last, m.nlen, m.ndist, m.ncode, m.have + [l]), c.p + 3, c.out));
  }

  lemma {:induction false} RanksBack(I: seq<bool>, c: Config, cl: seq<nat>, n: nat)
    requires c.mode.LenLens? && |cl| == 19 && n <= 19 && c.mode.ncode == n && |c.mode.have| <= n
    requires forall s :: 0 <= s < 19 ==> cl[s] <= 7
    requires c.mode.have == Ranks(cl, |c.mode.have|) && At(I, c.p, RankBits(cl, |c.mode.have|, n))
    ensures Reaches(I, c, Config(LenLens(c.mode.last, c.mode.nlen, c.mode.ndist, n, Ranks(cl, n)),
                                 c.p + |RankBits(cl, |c.mode.have|, n)|, c.out))
    decreases n - |c.mode.have|
  {
    hide Order, Reaches, At, Step, BitsOf;
    var m, i := c.mode, |c.mode.have|;
    if i == n {
      ReachesSelf(I, c);
    } else {
      OrderRank(i);
      var w, rest := BitsOf(cl[Order(i)], 3), RankBits(cl, i + 1, n);
      assert RankBits(cl, i, n) == w + rest && Ranks(cl, i + 1) == Ranks(cl, i) + [cl[Order(i)]];
      hide RankBits, Ranks;
      AtSplit(I, c.p, w, rest);
      var d := Config(LenLens(m.last, m.nlen, m.ndist, n, m.have + [cl[Order(i)]]), c.p + 3, c.out);
      RankBack(I, c, cl[Order(i)]);
      RanksBack(I, d, cl, n);
      ReachesTrans(I, c, d, Config(LenLens(m.last, m.nlen, m.ndist, n, Ranks(cl, n)), d.p + |rest|, c.out));
    }
  }

  lemma RanksAll(cl: seq<nat>, n: nat)
    requires |cl| == 19 && n <= 19 && forall s :: 0 <= s < 19 && Rank(s) >= n ==> cl[s] == 0
    ensures ByOrder(Ranks(cl, n)) == cl
  {
    hide Order, Rank;
    forall s | 0 <= s < 19 ensures ByOrder(Ranks(cl, n))[s] == cl[s] { OrderRank(s); }
  }

  // One run-length symbol is read back.
  lemma OpBack(I: seq<bool>, p: nat, cl: seq<nat>, op: Op)
    requires NotOverSubscribed(cl) && OpCoded(op, cl) && At(I, p, OpBits(cl, op))
    ensures p <= |I| && ReadOp(cl, I[p..]) == Some((op, |OpBits(cl, op)|))
  {
    hide Rfc1951.Decode, Huff, BitsOf, Val, Pow2;
    var s, n, x := op.Symbol(), cl[op.Symbol()], op.ExtraBits();
    AtSplit(I, p, SymBits(cl, s), BitsOf(op.Extra(), x));
    SymbolAt(I, p, cl, s);
    ExtraFits(op);
    FieldAt(I, p + n, op.Extra(), x);
    TailSlice(I, p, n, x);
  }

  lemma TailSlice(I: seq<bool>, p: nat, n: nat, x: nat)
    requires p + n + x <= |I|
    ensures I[p..][n..n + x] == I[p + n..p + n + x]
  {
  }

  lemma ExtraFits(op: Op)
    requires op.InRange()
    ensures op.ExtraBits() <= 7 && op.Extra() < Pow2(op.ExtraBits())
  {
    assert Pow2(0) == 1 && Pow2(2) == 4 && Pow2(3) == 8 && Pow2(7) == 128;
  }

  lemma {:induction false} ExpandBound(ops: seq<Op>, have: seq<nat>)
    requires CodeLengthCoding.Expand(ops, have).Some? && forall i :: 0 <= i < |ops| ==> ops[i].InRange()
    ensures |have| + |ops| <= |CodeLengthCoding.Expand(ops, have).value|
  {
    if ops != [] {
      assert ops[0].InRange();
      ExpandBound(ops[1..], Apply(ops[0], have).value);
    }
  }

  lemma OpStep(I: seq<bool>, c: Config, op: Op, n: nat, have: seq<nat>)
    requires c.mode.CodeLens? && |c.mode.have| < c.mode.nlen + c.mode.ndist && c.p <= |I|
    requires ReadOp(c.mode.cl, I[c.p..]) == Some((op, n)) && Apply(op, c.mode.have) == Some(have)
    requires |have| <= c.mode.nlen + c.mode.ndist
    ensures Step(I, c) ==
      Some(Config(CodeLens(c.mode.last, c.mode.nlen, c.mode.ndist, c.mode.cl, have), c.p + n, c.out))
  {
    hide ReadOp, Apply;
  }

  lemma {:induction false} OpsBack(I: seq<bool>, c: Config, ops: seq<Op>, lens: seq<nat>)
    requires c.mode.CodeLens? && NotOverSubscribed(c.mode.cl) && AllOpsCoded(ops, c.mode.cl)
    requires CodeLengthCoding.Expand(ops, c.mode.have) == Some(lens) && |lens| == c.mode.nlen + c.mode.ndist
    requires At(I, c.p, OpsBits(c.mode.cl, ops))
    ensures Reaches(I, c, Config(CodeLens(c.mode.last, c.mode.nlen, c.mode.ndist, c.mode.cl, lens),
                                 c.p + |OpsBits(c.mode.cl, ops)|, c.out))
    decreases |ops|
  {
    hide Step, OpBits, Apply, Reaches, At, OpCoded;
    var m := c.mode;
    if ops == [] {
      ReachesSelf(I, c);
    } else {
      var w, rest := OpBits(m.cl, ops[0]), OpsBits(m.cl, ops[1..]);
      assert OpCoded(ops[0], m.cl);
      AtSplit(I, c.p, w, rest);
      OpBack(I, c.p, m.cl, ops[0]);
      OpsInRange(ops, m.cl);
      ExpandBound(ops, m.have);
      var have := Apply(ops[0], m.have).value;
      ExpandBound(ops[1..], have);
      OpStep(I, c, ops[0], |w|, have);
      var d := Config(CodeLens(m.last, m.nlen, m.ndist, m.cl, have), c.p + |w|, c.out);
      ReachesStep(I, c, d);
      OpsBack(I, d, ops[1..], lens);
      ReachesTrans(I, c, d, Config(CodeLens(m.last, m.nlen, m.ndist, m.cl, lens), d.p + |rest|, c.out));
    }
  }

  lemma OpsInRange(ops: seq<Op>, cl: seq<nat>)
    requires AllOpsCoded(ops, cl)
    ensures forall i :: 0 <= i < |ops| ==> ops[i].InRange()
  {
  }

  // Everything send_all_trees sends is read back: counts, code length code, and both trees.  It is refused
  // only when a table does not fit the space kept for it.
  lemma HeaderBack(I: seq<bool>, c: Config, codes: Codes, cl: seq<nat>, n: nat)
    requires c.mode.Table? && Sendable(codes, cl, n) && At(I, c.p, HeaderBits(codes, cl, n))
    ensures Reaches(I, c, Config(HeaderMode(c.mode.last, codes), c.p + |HeaderBits(codes, cl, n)|, c.out))
  {
    hide Step, Reaches, At, BitsOf, RankBits, OpsBits, Encode, Rank, HeaderMode, Complete, AllOpsCoded;
    var last, ops := c.mode.last, Encode(codes.ll) + Encode(codes.dl);
    var a := BitsOf(|codes.ll| - 257, 5) + BitsOf(|codes.dl| - 1, 5) + BitsOf(n - 4, 4);
    var b, w := RankBits(cl, 0, n), OpsBits(cl, ops);
    assert HeaderBits(codes, cl, n) == a + (b + w);
    AtSplit(I, c.p, a, b + w);
    AtSplit(I, c.p + |a|, b, w);
    CountsBack(I, c, |codes.ll|, |codes.dl|, n);
    var c1 := Config(LenLens(last, |codes.ll|, |codes.dl|, n, []), c.p + |a|, c.out);
    LensBack(I, c1, cl, n);
    var c2 := Config(CodeLens(last, |codes.ll|, |codes.dl|, cl, []), c1.p + |b|, c.out);
    ReachesTrans(I, c, c1, c2);
    TreesBack(I, c2, codes, cl, ops);
    ReachesTrans(I, c, c2, Config(HeaderMode(last, codes), c2.p + |w|, c.out));
  }

  lemma CountsBack(I: seq<bool>, c: Config, nlen: nat, ndist: nat, n: nat)
    requires c.mode.Table? && 257 <= nlen <= 286 && 1 <= ndist <= 30 && 4 <= n <= 19
    requires At(I, c.p, BitsOf(nlen - 257, 5) + BitsOf(ndist - 1, 5) + BitsOf(n - 4, 4))
    ensures Reaches(I, c, Config(LenLens(c.mode.last, nlen, ndist, n, []), c.p + 14, c.out))
  {
    hide BitsOf, At;
    AtSplit(I, c.p, BitsOf(nlen - 257, 5) + BitsOf(ndist - 1, 5), BitsOf(n - 4, 4));
    AtSplit(I, c.p, BitsOf(nlen - 257, 5), BitsOf(ndist - 1, 5));
    assert Pow2(5) == 32 && Pow2(4) == 16;
    FieldAt(I, c.p, nlen - 257, 5);
    FieldAt(I, c.p + 5, ndist - 1, 5);
    FieldAt(I, c.p + 10, n - 4, 4);
    InBounds(I, c.p + 10, BitsOf(n - 4, 4));
    ReachesStep(I, c, Config(LenLens(c.mode.last, nlen, ndist, n, []), c.p + 14, c.out));
  }

  lemma InBounds(I: seq<bool>, p: nat, w: seq<bool>)
    requires At(I, p, w)
    ensures p + |w| <= |I|
  {
  }

  lemma LensBack(I: seq<bool>, c: Config, cl: seq<nat>, n: nat)
    requires c.mode.LenLens? && c.mode.have == [] && c.mode.ncode == n <= 19 && |cl| == 19
    requires forall s :: 0 <= s < 19 ==> cl[s] <= 7 && (Rank(s) >= n ==> cl[s] == 0)
    requires Buildable(CODES, cl, 7) && At(I, c.p, RankBits(cl, 0, n))
    ensures Reaches(I, c,
      Config(CodeLens(c.mode.last, c.mode.nlen, c.mode.ndist, cl, []), c.p + |RankBits(cl, 0, n)|, c.out))
  {
    hide RankBits, At, Rank, Order, Buildable, Reaches;
    var m := c.mode;
    assert m.have == Ranks(cl, 0);
    RanksBack(I, c, cl, n);
    RanksAll(cl, n);
    var d := Config(LenLens(m.last, m.nlen, m.ndist, n, Ranks(cl, n)), c.p + |RankBits(cl, 0, n)|, c.out);
    var e := Config(CodeLens(m.last, m.nlen, m.ndist, cl, []), d.p, c.out);
    assert Step(I, d) == Some(e);
    ReachesStep(I, d, e);
    ReachesTrans(I, c, d, e);
  }

  lemma TreesBack(I: seq<bool>, c: Config, codes: Codes, cl: seq<nat>, ops: seq<Op>)
    requires c.mode.CodeLens? && c.mode.nlen == |codes.ll| > 256 && c.mode.ndist == |codes.dl|
    requires c.mode.cl == cl && c.mode.have == [] && Complete(cl) && codes.ll[256] != 0
    requires ValidLens(codes.ll) && ValidLens(codes.dl) && ops == Encode(codes.ll) + Encode(codes.dl)
    requires AllOpsCoded(ops, cl) && At(I, c.p, OpsBits(cl, ops))
    ensures Reaches(I, c, Config(HeaderMode(c.mode.last, codes), c.p + |OpsBits(cl, ops)|, c.out))
  {
    hide OpsBits, At, Buildable, Encode, CodeLengthCoding.Expand, Reaches, AllOpsCoded, Step, Base;
    var m, lens := c.mode, codes.ll + codes.dl;
    RoundTripTwo(codes.ll, codes.dl);
    OpsBack(I, c, ops, lens);
    var d := Config(CodeLens(m.last, m.nlen, m.ndist, cl, lens), c.p + |OpsBits(cl, ops)|, c.out);
    var e := Config(HeaderMode(m.last, codes), d.p, c.out);
    assert lens[..m.nlen] == codes.ll && lens[m.nlen..] == codes.dl;
    CodeLensEnd(I, d);
    ReachesStep(I, d, e);
    ReachesTrans(I, c, d, e);
  }

  // ---- whole blocks ----

  function TypeBits(t: nat, last: bool): seq<bool> {
    BitsOf(2 * t + (if last then 1 else 0), 3)
  }

  lemma TypeBack(I: seq<bool>, c: Config, t: nat, last: bool)
    requires c.mode == Type(false) && t < 3 && At(I, c.p, TypeBits(t, last))
    ensures Reaches(I, c,
      Config(if t == 0 then Stored(last) else if t == 1 then LenCode(last, FixedCodes()) else Table(last),
                                 c.p + 3, c.out))
  {
    hide FixedCodes, BitsOf;
    var v := 2 * t + (if last then 1 else 0);
    BitsOfConcat(v, 1, 2);
    AtSplit(I, c.p, BitsOf(v, 1), BitsOf(Shr(v, 1), 2));
    assert Shr(v, 1) == t && Pow2(1) == 2 && Pow2(2) == 4;
    FieldAt(I, c.p + 1, t, 2);
    LastBit(v);
    assert I[c.p] == I[c.p..c.p + 1][0] == last;
    ReachesStep(I, c,
      Config(if t == 0 then Stored(last) else if t == 1 then LenCode(last, FixedCodes()) else Table(last),
                             c.p + 3, c.out));
  }

  lemma LastBit(v: nat)
    ensures BitsOf(v, 1) == [v % 2 == 1]
  {
    assert BitsOf(v / 2, 0) == [];
  }

  ghost function DynamicBits(codes: Codes, cl: seq<nat>, n: nat, toks: seq<Token>, last: bool): seq<bool>
    requires Sendable(codes, cl, n) && AllCoded(toks, codes)
  {
    TypeBits(2, last) + HeaderBits(codes, cl, n) + BodyBits(codes, toks)
  }

  // Dynamic block round trip: whatever the tokens, the bits of a dynamic block are read back as
  // those tokens followed by end-of-block, and nothing more is consumed, unless the tables are refused.
  lemma DynamicRoundTrip(I: seq<bool>, c: Config, codes: Codes, cl: seq<nat>, n: nat, toks: seq<Token>, last: bool)
    requires c.mode == Type(false) && Sendable(codes, cl, n) && AllCoded(toks, codes)
    requires At(I, c.p, DynamicBits(codes, cl, n, toks, last)) && (Tabled(codes) ==> AllFit(toks, c.out))
    ensures Tabled(codes) ==>
      Reaches(I, c, Config(Type(last), c.p + |DynamicBits(codes, cl, n, toks, last)|, Lz77.Expand(toks, c.out)))
    ensures !Tabled(codes) ==> Reaches(I, c, Config(Bad, c.p + 3 + |HeaderBits(codes, cl, n)|, c.out))
  {
    hide HeaderBits, BodyBits, TypeBits, At, Reaches, AllCoded, AllFit, Tabled, FixedCodes, Rank, AllOpsCoded, Complete;
    var t, h, b := TypeBits(2, last), HeaderBits(codes, cl, n), BodyBits(codes, toks);
    AtSplit(I, c.p, t + h, b);
    AtSplit(I, c.p, t, h);
    TypeBack(I, c, 2, last);
    TypeLength(2, last);
    var c1 := Config(Table(last), c.p + |t|, c.out);
    HeaderBack(I, c1, codes, cl, n);
    var c2 := Config(HeaderMode(last, codes), c1.p + |h|, c.out);
    ReachesTrans(I, c, c1, c2);
    if Tabled(codes) {
      BuildableCodes(codes);
      BodyBack(I, c2, toks);
      ReachesTrans(I, c, c2, Config(Type(last), c2.p + |b|, Lz77.Expand(toks, c.out)));
    }
  }

  lemma TypeLength(t: nat, last: bool)
    ensures |TypeBits(t, last)| == 3
  {
  }

  // Codes whose tables can be built are not over-subscribed.
  lemma BuildableCodes(codes: Codes)
    requires ValidLens(codes.ll) && ValidLens(codes.dl) && |codes.ll| <= 288 && |codes.dl| <= 32
    requires Tabled(codes)
    ensures GoodCodes(codes)
  {
    AcceptedNotOver(LENS, codes.ll);
    AcceptedNotOver(DISTS, codes.dl);
  }

  // ---- fixed codes ----

  lemma {:induction false} CountSegment(lens: seq<nat>, a: nat, b: nat, v: nat, l: nat)
    requires a <= b <= |lens| && forall i :: a <= i < b ==> lens[i] == v
    ensures CountTo(lens, b, l) == CountTo(lens, a, l) + (if l == v then b - a else 0)
    decreases b - a
  {
    if a < b { CountSegment(lens, a, b - 1, v, l); }
  }

  lemma FixedCounts(l: nat)
    ensures Count(FixedCodes().ll, l) == (if l == 7 then 24 else if l == 8 then 152 else if l == 9 then 112 else 0)
    ensures Count(FixedCodes().dl, l) == (if l == 5 then 32 else 0)
  {
    var ll, dl := FixedCodes().ll, FixedCodes().dl;
    CountSegment(ll, 0, 144, 8, l);
    CountSegment(ll, 144, 256, 9, l);
    CountSegment(ll, 256, 280, 7, l);
    CountSegment(ll, 280, 288, 8, l);
    CountSegment(dl, 0, 32, 5, l);
  }

  // Below the first used length nothing is occupied, above the last one nothing is added.
  lemma {:induction false} BaseFlat(lens: seq<nat>, a: nat, b: nat)
    requires 1 <= a <= b <= MAXBITS + 1 && forall l :: a <= l < b ==> Count(lens, l) == 0
    ensures Base(lens, b) == Base(lens, a)
    decreases b - a
  {
    if a < b {
      BaseFlat(lens, a, b - 1);
      ShlZero(MAXBITS - (b - 1));
    }
  }

  // The fixed codes are complete.
  lemma FixedComplete()
    ensures Complete(FixedCodes().ll) && Complete(FixedCodes().dl)
    ensures GoodCodes(FixedCodes())
    ensures forall i: nat :: i < 288 ==> HasCode(FixedCodes().ll, i)
    ensures forall i: nat :: i < 32 ==> HasCode(FixedCodes().dl, i)
  {
    hide FixedCodes, CountTo, Base, Shl, Pow2;
    var ll, dl := FixedCodes().ll, FixedCodes().dl;
    forall l: nat ensures Count(ll, l) == (if l == 7 then 24 else if l == 8 then 152 else if l == 9 then 112 else 0)
                  ensures Count(dl, l) == (if l == 5 then 32 else 0)
    {
      FixedCounts(l);
    }
    BaseFlat(ll, 1, 7);
    BaseFlat(ll, 10, 16);
    BaseFlat(dl, 1, 5);
    BaseFlat(dl, 6, 16);
    FixedSums(ll, dl);
    FixedLengths();
  }

  lemma FixedSums(ll: seq<nat>, dl: seq<nat>)
    requires Count(ll, 7) == 24 && Count(ll, 8) == 152 && Count(ll, 9) == 112 && Count(dl, 5) == 32
    ensures Base(ll, 10) == Base(ll, 7) + 32768 && Base(dl, 6) == Base(dl, 5) + 32768
    ensures Base(ll, 1) == 0 && Base(dl, 1) == 0 && Pow2(15) == 32768
  {
    assert Shl(24, 8) == 6144 && Shl(152, 7) == 19456 && Shl(112, 6) == 7168 && Shl(32, 10) == 32768;
    assert Base(ll, 8) == Base(ll, 7) + Shl(Count(ll, 7), 8);
    assert Base(ll, 9) == Base(ll, 8) + Shl(Count(ll, 8), 7);
    assert Base(ll, 10) == Base(ll, 9) + Shl(Count(ll, 9), 6);
    assert Base(dl, 6) == Base(dl, 5) + Shl(Count(dl, 5), 10);
    assert Pow2(8) == 256;
    ShlPow2(8, 7);
    assert Shl(256, 7) == 32768;
  }

  lemma FixedLengths()
    ensures |FixedCodes().ll| == 288 && |FixedCodes().dl| == 32
    ensures forall i: nat :: i < 288 ==> HasCode(FixedCodes().ll, i)
    ensures forall i: nat :: i < 32 ==> HasCode(FixedCodes().dl, i)
  {
  }

  // Every literal and every pair in range can be sent with the fixed codes.
  lemma FixedCodesAll(toks: seq<Token>)
    requires forall i :: 0 <= i < |toks| ==> InRange(toks[i])
    ensures AllCoded(toks, FixedCodes()) && HasCode(FixedCodes().ll, 256)
  {
    hide FixedCodes, LengthCode, DistCode;
    FixedComplete();
    forall i | 0 <= i < |toks| ensures Coded(toks[i], FixedCodes()) {
      assert InRange(toks[i]);
      if toks[i].Pair? {
        LengthRoundTrip(toks[i].len - 3);
        DistRoundTrip(toks[i].dist - 1);
      }
    }
  }

  predicate InRange(tok: Token) {
    tok.Pair? ==> 1 <= tok.dist <= 32768 && 3 <= tok.len <= 258
  }

  ghost function FixedBits(toks: seq<Token>, last: bool): seq<bool>
    requires forall i :: 0 <= i < |toks| ==> InRange(toks[i])
  {
    FixedCodesAll(toks);
    TypeBits(1, last) + BodyBits(FixedCodes(), toks)
  }

  // Fixed block round trip.
  lemma FixedRoundTrip(I: seq<bool>, c: Config, toks: seq<Token>, last: bool)
    requires c.mode == Type(false) && forall i :: 0 <= i < |toks| ==> InRange(toks[i])
    requires AllFit(toks, c.out) && At(I, c.p, FixedBits(toks, last))
    ensures Reaches(I, c, Config(Type(last), c.p + |FixedBits(toks, last)|, Lz77.Expand(toks, c.out)))
  {
    hide BodyBits, TypeBits, At, Reaches, AllCoded, AllFit, FixedCodes, GoodCodes;
    FixedCodesAll(toks);
    FixedComplete();
    var t, b := TypeBits(1, last), BodyBits(FixedCodes(), toks);
    AtSplit(I, c.p, t, b);
    TypeBack(I, c, 1, last);
    TypeLength(1, last);
    var c1 := Config(LenCode(last, FixedCodes()), c.p + |t|, c.out);
    BodyBack(I, c1, toks);
    ReachesTrans(I, c, c1, Config(Type(last), c1.p + |b|, Lz77.Expand(toks, c.out)));
  }

  // ---- stored blocks ----

  lemma ByteAt(I: seq<bool>, p: nat, b: Byte)
    requires At(I, p, BitsOf(b, 8))
    ensures p + 8 <= |I| && I[p..p + 8] == BitsOf(b, 8)
  {
    hide BitsOf;
  }

  lemma CopyEnd(I: seq<bool>, c: Config)
    requires c.mode.Copy? && c.mode.n == 0
    ensures Reaches(I, c, Config(Type(c.mode.last), c.p, c.out))
  {
    hide Reaches;
    ReachesStep(I, c, Config(Type(c.mode.last), c.p, c.out));
  }

  lemma {:induction false} CopyBytes(I: seq<bool>, c: Config, buf: seq<Byte>)
    requires c.mode.Copy? && c.mode.n == |buf| && At(I, c.p, BytesBits(buf))
    ensures Reaches(I, c, Config(Type(c.mode.last), c.p + 8 * |buf|, c.out + buf))
    decreases |buf|
  {
    hide Reaches, At, Step, BitsOf;
    if buf == [] {
      assert c.out + buf == c.out;
      CopyEnd(I, c);
    } else {
      AtSplit(I, c.p, BitsOf(buf[0], 8), BytesBits(buf[1..]));
      hide BytesBits;
      var d := Config(Copy(c.mode.last, |buf| - 1), c.p + 8, c.out + [buf[0]]);
      ByteAt(I, c.p, buf[0]);
      CopyByte(I, c, buf[0]);
      CopyBytes(I, d, buf[1..]);
      assert d.out + buf[1..] == c.out + buf;
      ReachesTrans(I, c, d, Config(Type(c.mode.last), c.p + 8 * |buf|, c.out + buf));
    }
  }

  function StoredBits(pad: seq<bool>, buf: seq<Byte>, last: bool): seq<bool>
    requires |buf| < Pow2(16)
  {
    TypeBits(0, last) + (pad + ((BitsOf(|buf|, 16) + BitsOf(Pow2(16) - 1 - |buf|, 16)) + BytesBits(buf)))
  }

  // Stored block round trip: the padding only has to reach the byte boundary.
  lemma StoredRoundTrip(I: seq<bool>, c: Config, pad: seq<bool>, buf: seq<Byte>, last: bool)
    requires c.mode == Type(false) && |buf| < Pow2(16) && |pad| < 8 && (c.p + 3 + |pad|) % 8 == 0
    requires At(I, c.p, StoredBits(pad, buf, last))
    ensures Reaches(I, c, Config(Type(last), c.p + |StoredBits(pad, buf, last)|, c.out + buf))
  {
    hide BitsOf, BytesBits, TypeBits, At, Reaches, FixedCodes, Pow2, Step;
    var t, l, n, b := TypeBits(0, last), BitsOf(|buf|, 16), BitsOf(Pow2(16) - 1 - |buf|, 16), BytesBits(buf);
    AtSplit(I, c.p, t, pad + ((l + n) + b));
    TypeLength(0, last);
    AtSplit(I, c.p + 3, pad, (l + n) + b);
    var p := c.p + 3 + |pad|;
    AtSplit(I, p, l + n, b);
    TypeBack(I, c, 0, last);
    var c1 := Config(Stored(last), c.p + 3, c.out);
    LengthsBack(I, c1, p, |buf|);
    var c2 := Config(Copy(last, |buf|), p + 32, c.out);
    ReachesTrans(I, c, c1, c2);
    CopyBytes(I, c2, buf);
    ReachesTrans(I, c, c2, Config(Type(last), c2.p + 8 * |buf|, c.out + buf));
  }

  lemma LengthsBack(I: seq<bool>, c: Config, p: nat, len: nat)
    requires c.mode.Stored? && c.p <= p < c.p + 8 && p % 8 == 0 && len < Pow2(16)
    requires At(I, p, BitsOf(len, 16) + BitsOf(Pow2(16) - 1 - len, 16))
    ensures Reaches(I, c, Config(Copy(c.mode.last, len), p + 32, c.out))
  {
    hide BitsOf, Pow2;
    assert Align(c.p) == p;
    var d := Config(c.mode, p, c.out);
    if c.p % 8 == 0 { ReachesSelf(I, c); } else { ReachesStep(I, c, d); }
    AtSplit(I, p, BitsOf(len, 16), BitsOf(Pow2(16) - 1 - len, 16));
    FieldAt(I, p, len, 16);
    FieldAt(I, p + 16, Pow2(16) - 1 - len, 16);
    Pow16();
    ReachesStep(I, d, Config(Copy(c.mode.last, len), p + 32, c.out));
    ReachesTrans(I, c, d, Config(Copy(c.mode.last, len), p + 32, c.out));
  }

  lemma Pow16()
    ensures Pow2(16) == 65536
  {
    assert Pow2(8) == 256;
    ShlPow2(8, 8);
    assert Shl(256, 8) == 65536;
  }
}
