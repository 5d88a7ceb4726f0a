/** The DEFLATE format of RFC 1951 as a machine over the whole bit stream.  It knows nothing of
    buffers, tables or windows: a configuration is what is being read, the number of bits read
    and the bytes written.  deps/zlib/inflate.c is measured against it. */
module Rfc1951 {
  import opened Bits
  import opened BitStream
  import opened Canon
  import opened DecodeTable
  import opened InflateTable
  import opened CodeLengthCoding

  // Code lengths in force inside a block.
  datatype Codes = Codes(ll: seq<nat>, dl: seq<nat>)

  datatype Mode =
    | Type(last: bool)
    | Stored(last: bool)
    | Copy(last: bool, n: nat)
    | Table(last: bool)
    | LenLens(last: bool, nlen: nat, ndist: nat, ncode: nat, have: seq<nat>)
    | CodeLens(last: bool, nlen: nat, ndist: nat, cl: seq<nat>, have: seq<nat>)
    | LenCode(last: bool, codes: Codes)
    | LenExt(last: bool, codes: Codes, length: nat, extra: nat)
    | Dist(last: bool, codes: Codes, length: nat)
    | DistExt(last: bool, codes: Codes, length: nat, offset: nat, extra: nat)
    | Match(last: bool, codes: Codes, length: nat, offset: nat)
    | Lit(last: bool, codes: Codes, c: Byte)
    | Done
    | Bad

  datatype Config = Config(mode: Mode, p: nat, out: seq<Byte>)

  // The n bits at position p, as a number.
  function Field(I: seq<bool>, p: nat, n: nat): nat
    requires p + n <= |I|
  {
    Val(I[p..p + n])
  }

  function Align(p: nat): nat {
    if p % 8 == 0 then p else p + 8 - p % 8
  }

  // ---- Huffman symbols ----

  // The bits b start with the code of s.
  ghost predicate StartsWith(lens: seq<nat>, s: nat, b: seq<bool>) {
    HasCode(lens, s) && lens[s] <= |b| && Val(b[..lens[s]]) == Huff(lens, s)
  }

  datatype Symbol =
    | Sym(s: nat, n: nat)  // symbol and the bits of its code
    | NoSymbol             // no code starts like this
    | More                 // not enough bits to tell

  ghost function Decode(lens: seq<nat>, b: seq<bool>): Symbol {
    if exists s: nat :: StartsWith(lens, s, b) then
      var s: nat :| StartsWith(lens, s, b);
      Sym(s, lens[s])
    else if b != [] && !Complete(lens) then NoSymbol
    else More
  }

  // ---- blocks ----

  // Lengths of the fixed codes: 0-143 eight bits, 144-255 nine, 256-279 seven, 280-287 eight.
  function FixedLength(i: nat): nat {
    if i < 144 then 8 else if i < 256 then 9 else if i < 280 then 7 else 8
  }

  function FixedCodes(): Codes {
    Codes(seq(288, i requires 0 <= i => FixedLength(i)), seq(32, _ => 5))
  }

  // The order in which the lengths of the code length code are sent.
  function Order(i: nat): nat {
    match i
    case 0 => 16 case 1 => 17 case 2 => 18 case 3 => 0 case 4 => 8 case 5 => 7 case 6 => 9 case 7 => 6
    case 8 => 10 case 9 => 5 case 10 => 11 case 11 => 4 case 12 => 12 case 13 => 3 case 14 => 13 case 15 => 2
    case 16 => 14 case 17 => 1 case _ => 15
  }

  // Rank of a symbol in that order.
  function Rank(s: nat): nat {
    match s
    case 16 => 0 case 17 => 1 case 18 => 2 case 0 => 3 case 8 => 4 case 7 => 5 case 9 => 6 case 6 => 7
    case 10 => 8 case 5 => 9 case 11 => 10 case 4 => 11 case 12 => 12 case 3 => 13 case 13 => 14 case 2 => 15
    case 14 => 16 case 1 => 17 case _ => 18
  }

  lemma OrderRank(i: nat)
    requires i < 19
    ensures Order(i) < 19 && Rank(i) < 19 && Rank(Order(i)) == i && Order(Rank(i)) == i
  {
  }

  // Lengths by symbol from lengths by rank; the ranks not sent are zero.
  function ByOrder(have: seq<nat>): (lens: seq<nat>)
    ensures |lens| == 19
  {
    seq(19, s requires 0 <= s => if Rank(s) < |have| then have[Rank(s)] else 0)
  }

  ghost function ReadType(I: seq<bool>, c: Config): Option<Config>
    requires c.mode.Type?
  {
    if c.mode.last then Some(Config(Mode.Done, Align(c.p), c.out))
    else if c.p + 3 > |I| then None
    else
      var last := I[c.p];
      var t := Field(I, c.p + 1, 2);
      var mode :=
        if t == 0 then Stored(last) else if t == 1 then LenCode(last, FixedCodes())
        else if t == 2 then Table(last) else Bad;
      Some(Config(mode, c.p + 3, c.out))
  }

  // The bits up to the byte boundary are skipped first.
  ghost function ReadStored(I: seq<bool>, c: Config): Option<Config>
    requires c.mode.Stored?
  {
    if c.p % 8 != 0 then Some(Config(c.mode, Align(c.p), c.out))
    else if c.p + 32 > |I| then None
    else if Field(I, c.p, 16) + Field(I, c.p + 16, 16) != 0xffff then Some(Config(Bad, c.p, c.out))
    else Some(Config(Copy(c.mode.last, Field(I, c.p, 16)), c.p + 32, c.out))
  }

  ghost function ReadCopy(I: seq<bool>, c: Config): Option<Config>
    requires c.mode.Copy?
  {
    if c.mode.n == 0 then Some(Config(Type(c.mode.last), c.p, c.out))
    else if c.p + 8 > |I| then None
    else
      ByteField(I, c.p);
      Some(Config(Copy(c.mode.last, c.mode.n - 1), c.p + 8, c.out + [Field(I, c.p, 8)]))
  }

  lemma ByteField(I: seq<bool>, p: nat)
    requires p + 8 <= |I|
    ensures Field(I, p, 8) < 256
  {
    assert Pow2(8) == 256;
  }

  ghost function ReadTable(I: seq<bool>, c: Config): Option<Config>
    requires c.mode.Table?
  {
    if c.p + 14 > |I| then None
    else
      var nlen, ndist, ncode := Field(I, c.p, 5) + 257, Field(I, c.p + 5, 5) + 1, Field(I, c.p + 10, 4) + 4;
      if nlen > 286 || ndist > 30 then Some(Config(Bad, c.p + 14, c.out))
      else Some(Config(LenLens(c.mode.last, nlen, ndist, ncode, []), c.p + 14, c.out))
  }

  ghost function ReadLenLens(I: seq<bool>, c: Config): Option<Config>
    requires c.mode.LenLens?
  {
    var m := c.mode;
    if |m.have| < m.ncode then
      if c.p + 3 > |I| then None
      else Some(Config(LenLens(m.last, m.nlen, m.ndist, m.ncode, m.have + [Field(I, c.p, 3)]), c.p + 3, c.out))
    else if Buildable(CODES, ByOrder(m.have), 7) then
      Some(Config(CodeLens(m.last, m.nlen, m.ndist, ByOrder(m.have), []), c.p, c.out))
    else Some(Config(Bad, c.p, c.out))
  }

  // The next symbol of the code length alphabet with its run, and the bits they take.
  ghost function ReadOp(cl: seq<nat>, b: seq<bool>): (r: Option<(Op, nat)>)
    ensures r.Some? && r.value.0.Rep? ==> r.value.1 >= 2
  {
    match Decode(cl, b)
    case More => None
    case NoSymbol => Some((Len(0), 1))  // an empty code reads as zero lengths
    case Sym(s, n) =>
      if s < 16 then Some((Len(s), n))
      else
        var extra := if s == 16 then 2 else if s == 17 then 3 else 7;
        if n + extra > |b| then None else
        var v := Val(b[n..n + extra]);
        Some((if s == 16 then Rep(3 + v) else if s == 17 then Zeros3(3 + v) else Zeros11(11 + v), n + extra))
  }

  ghost function ReadCodeLens(I: seq<bool>, c: Config): Option<Config>
    requires c.mode.CodeLens?
  {
    var m := c.mode;
    if |m.have| < m.nlen + m.ndist then
      if c.p > |I| then None else
      match ReadOp(m.cl, I[c.p..])
      case None => None
      case Some((op, n)) =>
        match Apply(op, m.have)
        case None => Some(Config(Bad, c.p + n - 2, c.out))  // nothing to repeat: the run bits are left
        case Some(have) =>
          if |have| > m.nlen + m.ndist then Some(Config(Bad, c.p + n, c.out))
          else Some(Config(CodeLens(m.last, m.nlen, m.ndist, m.cl, have), c.p + n, c.out))
    else if |m.have| != m.nlen + m.ndist || m.nlen <= 256 || m.have[256] == 0
      || !Buildable(LENS, m.have[..m.nlen], 9) || !Buildable(DISTS, m.have[m.nlen..], 6) then
      Some(Config(Bad, c.p, c.out))
    else Some(Config(LenCode(m.last, Codes(m.have[..m.nlen], m.have[m.nlen..])), c.p, c.out))
  }

  // ---- symbols ----

  ghost function ReadLen(I: seq<bool>, c: Config): Option<Config>
    requires c.mode.LenCode?
  {
    var m := c.mode;
    if c.p > |I| then None else
    match Decode(m.codes.ll, I[c.p..])
    case More => None
    case NoSymbol => Some(Config(Bad, c.p + 1, c.out))
    case Sym(s, n) =>
      var mode :=
        if s < 256 then Lit(m.last, m.codes, s)
        else if s == 256 then Type(m.last)
        else if s > 285 then Bad
        else LenExt(m.last, m.codes, LengthBase(s - 257), DecodeTable.LengthExtra(s - 257) - 16);
      Some(Config(mode, c.p + n, c.out))
  }

  ghost function ReadLenExt(I: seq<bool>, c: Config): Option<Config>
    requires c.mode.LenExt?
  {
    var m := c.mode;
    if c.p + m.extra > |I| then None
    else Some(Config(Dist(m.last, m.codes, m.length + Field(I, c.p, m.extra)), c.p + m.extra, c.out))
  }

  ghost function ReadDist(I: seq<bool>, c: Config): Option<Config>
    requires c.mode.Dist?
  {
    var m := c.mode;
    if c.p > |I| then None else
    match Decode(m.codes.dl, I[c.p..])
    case More => None
    case NoSymbol => Some(Config(Bad, c.p + 1, c.out))
    case Sym(s, n) =>
      if s > 29 then Some(Config(Bad, c.p + n, c.out))
      else Some(Config(DistExt(m.last, m.codes, m.length, DistBase(s), DistExtra(s) - 16), c.p + n, c.out))
  }

  ghost function ReadDistExt(I: seq<bool>, c: Config): Option<Config>
    requires c.mode.DistExt?
  {
    var m := c.mode;
    if c.p + m.extra > |I| then None
    else Some(Config(Match(m.last, m.codes, m.length, m.offset + Field(I, c.p, m.extra)), c.p + m.extra, c.out))
  }

  // One byte of a match; a distance beyond the start of the output is an error.
  ghost function CopyMatch(c: Config): Config
    requires c.mode.Match?
  {
    var m := c.mode;
    if m.offset > |c.out| || m.offset == 0 then Config(Bad, c.p, c.out)
    else
      var out := c.out + [c.out[|c.out| - m.offset]];
      if m.length <= 1 then Config(LenCode(m.last, m.codes), c.p, out)
      else Config(Match(m.last, m.codes, m.length - 1, m.offset), c.p, out)
  }

  ghost function Step(I: seq<bool>, c: Config): Option<Config> {
    match c.mode
    case Type(_) => ReadType(I, c)
    case Stored(_) => ReadStored(I, c)
    case Copy(_, _) => ReadCopy(I, c)
    case Table(_) => ReadTable(I, c)
    case LenLens(_, _, _, _, _) => ReadLenLens(I, c)
    case CodeLens(_, _, _, _, _) => ReadCodeLens(I, c)
    case LenCode(_, _) => ReadLen(I, c)
    case LenExt(_, _, _, _) => ReadLenExt(I, c)
    case Dist(_, _, _) => ReadDist(I, c)
    case DistExt(_, _, _, _, _) => ReadDistExt(I, c)
    case Match(_, _, _, _) => Some(CopyMatch(c))
    case Lit(last, codes, b) => Some(Config(LenCode(last, codes), c.p, c.out + [b]))
    case Done => None
    case Bad => None
  }

  const START: Config := Config(Type(false), 0, [])

  // ---- runs ----

  ghost function Run(I: seq<bool>, c: Config, k: nat): Option<Config>
    decreases k
  {
    if k == 0 then Some(c) else
    match Step(I, c)
    case None => None
    case Some(d) => Run(I, d, k - 1)
  }

  ghost predicate Reaches(I: seq<bool>, c: Config, d: Config) {
    exists k: nat :: Run(I, c, k) == Some(d)
  }

  lemma ReachesSelf(I: seq<bool>, c: Config)
    ensures Reaches(I, c, c)
  {
    assert Run(I, c, 0) == Some(c);
  }

  lemma ReachesStep(I: seq<bool>, c: Config, d: Config)
    requires Step(I, c) == Some(d)
    ensures Reaches(I, c, d)
  {
    assert Run(I, d, 0) == Some(d);
    assert Run(I, c, 1) == Some(d);
  }

  lemma {:induction false} RunPlus(I: seq<bool>, c: Config, j: nat, k: nat)
    requires Run(I, c, j).Some?
    ensures Run(I, c, j + k) == Run(I, Run(I, c, j).value, k)
    decreases j
  {
    hide Step;
    if j > 0 { RunPlus(I, Step(I, c).value, j - 1, k); }
  }

  lemma ReachesTrans(I: seq<bool>, a: Config, b: Config, c: Config)
    requires Reaches(I, a, b) && Reaches(I, b, c)
    ensures Reaches(I, a, c)
  {
    var j: nat :| Run(I, a, j) == Some(b);
    var k: nat :| Run(I, b, k) == Some(c);
    RunPlus(I, a, j, k);
  }

  // All runs from one configuration lie on one line.
  lemma Linear(I: seq<bool>, a: Config, b: Config, c: Config)
    requires Reaches(I, a, b) && Reaches(I, a, c)
    ensures Reaches(I, b, c) || Reaches(I, c, b)
  {
    hide Step;
    var j: nat :| Run(I, a, j) == Some(b);
    var k: nat :| Run(I, a, k) == Some(c);
    if j <= k { RunPlus(I, a, j, k - j); } else { RunPlus(I, a, k, j - k); }
  }

  // Output already written is never changed.
  lemma {:induction false} OutputGrows(I: seq<bool>, c: Config, k: nat)
    requires Run(I, c, k).Some?
    ensures c.out <= Run(I, c, k).value.out
    decreases k
  {
    hide Step;
    if k > 0 {
      StepGrows(I, c);
      OutputGrows(I, Step(I, c).value, k - 1);
    }
  }

  lemma StepGrows(I: seq<bool>, c: Config)
    requires Step(I, c).Some?
    ensures c.out <= Step(I, c).value.out
    ensures |Step(I, c).value.out| <= |c.out| + 1
  {
  }

  // Symbols are unambiguous.
  lemma DecodeUnique(lens: seq<nat>, s: nat, b: seq<bool>)
    requires NotOverSubscribed(lens) && StartsWith(lens, s, b)
    ensures Decode(lens, b) == Sym(s, lens[s])
  {
    var t := Decode(lens, b).s;
    assert StartsWith(lens, t, b);
    ValTake(b, lens[s]);
    ValTake(b, lens[t]);
    MatchUnique(lens, s, t, Val(b));
  }

  // ---- the steps one by one ----

  function BlockMode(t: nat, last: bool): Mode {
    if t == 0 then Stored(last) else if t == 1 then LenCode(last, FixedCodes())
    else if t == 2 then Table(last) else Bad
  }

  lemma TypeStep(I: seq<bool>, c: Config)
    requires c.mode.Type?
    ensures c.mode.last ==> Step(I, c) == Some(Config(Mode.Done, Align(c.p), c.out))
    ensures !c.mode.last && c.p + 3 > |I| ==> Step(I, c) == None
    ensures !c.mode.last && c.p + 3 <= |I| ==>
      Step(I, c) == Some(Config(BlockMode(Field(I, c.p + 1, 2), I[c.p]), c.p + 3, c.out))
  {
  }

  lemma StoredStep(I: seq<bool>, c: Config)
    requires c.mode.Stored?
    ensures c.p % 8 != 0 ==> Step(I, c) == Some(Config(c.mode, Align(c.p), c.out))
    ensures c.p % 8 == 0 && c.p + 32 > |I| ==> Step(I, c) == None
    ensures c.p % 8 == 0 && c.p + 32 <= |I| ==>
      Step(I, c) == Some(if Field(I, c.p, 16) + Field(I, c.p + 16, 16) != 0xffff then Config(Bad, c.p, c.out)
                         else Config(Copy(c.mode.last, Field(I, c.p, 16)), c.p + 32, c.out))
  {
  }

  lemma CopyStep(I: seq<bool>, c: Config)
    requires c.mode.Copy?
    ensures c.mode.n == 0 ==> Step(I, c) == Some(Config(Type(c.mode.last), c.p, c.out))
    ensures c.mode.n > 0 && c.p + 8 > |I| ==> Step(I, c) == None
    ensures c.mode.n > 0 && c.p + 8 <= |I| && Field(I, c.p, 8) < 256 ==>
      Step(I, c) == Some(Config(Copy(c.mode.last, c.mode.n - 1), c.p + 8, c.out + [Field(I, c.p, 8)]))
  {
  }

  lemma CopyByte(I: seq<bool>, c: Config, b: Byte)
    requires c.mode.Copy? && c.mode.n > 0 && c.p + 8 <= |I| && I[c.p..c.p + 8] == BitsOf(b, 8)
    ensures Reaches(I, c, Config(Copy(c.mode.last, c.mode.n - 1), c.p + 8, c.out + [b]))
  {
    hide Reaches, BitsOf, Step;
    assert Pow2(8) == 256;
    ValOfBits(b, 8);
    CopyStep(I, c);
    ReachesStep(I, c, Config(Copy(c.mode.last, c.mode.n - 1), c.p + 8, c.out + [b]));
  }

  lemma TableStep(I: seq<bool>, c: Config)
    requires c.mode.Table?
    ensures c.p + 14 > |I| ==> Step(I, c) == None
    ensures c.p + 14 <= |I| ==>
      var nlen, ndist, ncode := Field(I, c.p, 5) + 257, Field(I, c.p + 5, 5) + 1, Field(I, c.p + 10, 4) + 4;
      Step(I, c) == Some(Config(if nlen > 286 || ndist > 30 then Bad else LenLens(c.mode.last, nlen, ndist, ncode, []),
                                c.p + 14, c.out))
  {
  }

  lemma LenLensStep(I: seq<bool>, c: Config)
    requires c.mode.LenLens?
    ensures |c.mode.have| < c.mode.ncode && c.p + 3 > |I| ==> Step(I, c) == None
    ensures |c.mode.have| < c.mode.ncode && c.p + 3 <= |I| ==>
      Step(I, c) == Some(Config(LenLens(c.mode.last, c.mode.nlen, c.mode.ndist, c.mode.ncode,
                                        c.mode.have + [Field(I, c.p, 3)]), c.p + 3, c.out))
    ensures |c.mode.have| >= c.mode.ncode ==>
      Step(I, c) == Some(Config(if Buildable(CODES, ByOrder(c.mode.have), 7)
                                then CodeLens(c.mode.last, c.mode.nlen, c.mode.ndist, ByOrder(c.mode.have), [])
                                else Bad, c.p, c.out))
  {
  }

  lemma CodeLensStep(I: seq<bool>, c: Config)
    requires c.mode.CodeLens? && |c.mode.have| < c.mode.nlen + c.mode.ndist && c.p <= |I|
    ensures
      match ReadOp(c.mode.cl, I[c.p..])
      case None => Step(I, c) == None
      case Some((op, n)) =>
        var have := Apply(op, c.mode.have);
        if have.None? then n >= 2 && Step(I, c) == Some(Config(Bad, c.p + n - 2, c.out)) else
        Step(I, c) == Some(Config(
          if |have.value| > c.mode.nlen + c.mode.ndist then Bad
          else CodeLens(c.mode.last, c.mode.nlen, c.mode.ndist, c.mode.cl, have.value), c.p + n, c.out))
  {
    hide ReadOp;
  }

  lemma CodeLensEnd(I: seq<bool>, c: Config)
    requires c.mode.CodeLens? && |c.mode.have| == c.mode.nlen + c.mode.ndist && c.mode.nlen > 256
    ensures
      var ll, dl := c.mode.have[..c.mode.nlen], c.mode.have[c.mode.nlen..];
      Step(I, c) == Some(Config(
        if c.mode.have[256] == 0 || !Buildable(LENS, ll, 9) || !Buildable(DISTS, dl, 6) then Bad
        else LenCode(c.mode.last, Codes(ll, dl)), c.p, c.out))
  {
    hide Buildable;
  }

  // What a length/literal symbol leads to.
  function LenMode(m: Mode, s: nat): Mode
    requires m.LenCode? && s < 288
  {
    if s < 256 then Lit(m.last, m.codes, s)
    else if s == 256 then Type(m.last)
    else if s > 285 then Bad
    else (LengthExtraRange(s - 257);
      LenExt(m.last, m.codes, LengthBase(s - 257), DecodeTable.LengthExtra(s - 257) - 16))
  }

  lemma LengthExtraRange(k: nat)
    requires k <= 28
    ensures 16 <= DecodeTable.LengthExtra(k) <= 21 && 3 <= LengthBase(k)
    ensures LengthBase(k) + Pow2(DecodeTable.LengthExtra(k) - 16) <= 259
  {
    assert Pow2(0) == 1 && Pow2(1) == 2 && Pow2(2) == 4 && Pow2(3) == 8 && Pow2(4) == 16 && Pow2(5) == 32;
  }

  lemma LenStep(I: seq<bool>, c: Config)
    requires c.mode.LenCode? && c.p <= |I|
    ensures
      match Decode(c.mode.codes.ll, I[c.p..])
      case More => Step(I, c) == None
      case NoSymbol => Step(I, c) == Some(Config(Bad, c.p + 1, c.out))
      case Sym(s, n) => s < 288 ==> Step(I, c) == Some(Config(LenMode(c.mode, s), c.p + n, c.out))
  {
    hide Decode, LengthBase, DecodeTable.LengthExtra;
  }

  lemma LenExtStep(I: seq<bool>, c: Config)
    requires c.mode.LenExt?
    ensures c.p + c.mode.extra > |I| ==> Step(I, c) == None
    ensures c.p + c.mode.extra <= |I| ==>
      Step(I, c) == Some(Config(Dist(c.mode.last, c.mode.codes, c.mode.length + Field(I, c.p, c.mode.extra)),
                                c.p + c.mode.extra, c.out))
  {
  }

  // What a distance symbol leads to.
  function DistMode(m: Mode, s: nat): Mode
    requires m.Dist?
  {
    if s > 29 then Bad
    else (DistExtraRange(s); DistExt(m.last, m.codes, m.length, DistBase(s), DistExtra(s) - 16))
  }

  lemma DistExtraRange(k: nat)
    requires k <= 29
    ensures 16 <= DistExtra(k) <= 29 && 1 <= DistBase(k)
    ensures DistBase(k) + Pow2(DistExtra(k) - 16) <= 32769
  {
    assert Pow2(0) == 1 && Pow2(1) == 2 && Pow2(2) == 4 && Pow2(3) == 8 && Pow2(4) == 16 && Pow2(5) == 32
      && Pow2(6) == 64;
    assert Pow2(7) == 128 && Pow2(8) == 256 && Pow2(9) == 512 && Pow2(10) == 1024 && Pow2(11) == 2048;
    assert Pow2(12) == 4096 && Pow2(13) == 8192;
  }

  lemma DistStep(I: seq<bool>, c: Config)
    requires c.mode.Dist? && c.p <= |I|
    ensures
      match Decode(c.mode.codes.dl, I[c.p..])
      case More => Step(I, c) == None
      case NoSymbol => Step(I, c) == Some(Config(Bad, c.p + 1, c.out))
      case Sym(s, n) => Step(I, c) == Some(Config(DistMode(c.mode, s), c.p + n, c.out))
  {
    hide Decode, DistBase, DistExtra;
  }

  lemma DistExtStep(I: seq<bool>, c: Config)
    requires c.mode.DistExt?
    ensures c.p + c.mode.extra > |I| ==> Step(I, c) == None
    ensures c.p + c.mode.extra <= |I| ==>
      Step(I, c) == Some(Config(Match(c.mode.last, c.mode.codes, c.mode.length,
        c.mode.offset + Field(I, c.p, c.mode.extra)),
                                c.p + c.mode.extra, c.out))
  {
  }
}
