/** The saved state of deps/zlib/inflate.h and what each mode of it means to the RFC 1951 machine. */
module InflateState {
  import opened Bits
  import opened BitStream
  import opened Canon
  import opened DecodeTable
  import opened InflateTable
  import opened CodeLengthCoding
  import opened Rfc1951
  import opened Lookup

  datatype IMode =
    TYPE | STORED | COPY | TABLE | LENLENS | CODELENS | LEN | LENEXT | DIST | DISTEXT | MATCH | LIT | DONE | BAD

  const WINDOW_SIZE: nat := 32768

  // The fields of inflate_state the modes use.
  datatype State = State(
    mode: IMode, last: bool, length: nat, offset: nat, extra: nat,
    nlen: nat, ndist: nat, ncode: nat, have: nat, lens: seq<nat>,
    lencode: seq<Entry>, lenbits: nat, distcode: seq<Entry>, distbits: nat,
    // the code lengths the tables were built for
    cl: seq<nat>, ll: seq<nat>, dl: seq<nat>)
  {
    predicate Shape() {
      |lens| == 320 && Small(lens) && have <= 320 && (mode == LENLENS ==> have <= 19)
    }

    // What the state means to the RFC 1951 machine.
    function Abs(): Mode
      requires Shape()
    {
      var codes := Codes(ll, dl);
      match mode
      case TYPE => Type(last)
      case STORED => Stored(last)
      case COPY => Copy(last, length)
      case TABLE => Table(last)
      case LENLENS => LenLens(last, nlen, ndist, ncode, ByRank(lens, have))
      case CODELENS => CodeLens(last, nlen, ndist, cl, lens[..have])
      case LEN => LenCode(last, codes)
      case LENEXT => LenExt(last, codes, length, extra)
      case DIST => Dist(last, codes, length)
      case DISTEXT => DistExt(last, codes, length, offset, extra)
      case MATCH => Match(last, codes, length, offset)
      case LIT => Lit(last, codes, if length < 256 then length else 0)
      case DONE => Mode.Done
      case BAD => Bad
    }

    ghost predicate InBlock() {
      TableFor(lencode, LENS, ll, lenbits) && TableFor(distcode, DISTS, dl, distbits)
    }

    // What each mode relies on.
    ghost predicate Valid() {
      && Shape()
      && match mode
         case LENLENS => have <= ncode <= 19 && 257 <= nlen <= 286 && 1 <= ndist <= 30 && LowRanks(lens, have)
         case CODELENS => && 257 <= nlen <= 286 && 1 <= ndist <= 30 && have <= nlen + ndist
                          && TableFor(lencode, CODES, cl, lenbits) && Flat(lencode, lenbits)
         case LENEXT => InBlock() && 3 <= length && length + Pow2(extra) <= 259 && extra <= 5
         case DIST => InBlock() && 3 <= length <= 258
         case DISTEXT => InBlock() && 3 <= length <= 258 && extra <= 13
                         && 1 <= offset && offset + Pow2(extra) <= WINDOW_SIZE + 1
         case MATCH => InBlock() && 1 <= length <= 258 && 1 <= offset <= WINDOW_SIZE
         case LIT => InBlock() && length < 256
         case LEN => InBlock()
         case _ => true
    }

    // The accumulator never runs more than a byte ahead of what the mode needs.
    ghost predicate Lean(bits: nat, hold: nat) {
      match mode
      case STORED => bits < 8 || (bits % 8 == 0 && bits < 32)
      case COPY => bits == 0
      case TABLE => bits < 14
      case CODELENS => bits < 8 || (have < nlen + ndist && LensNeed(lencode, lenbits, hold) > bits)
      case LEN => bits < 8 || Resolve(lencode, lenbits, hold).1 > bits
      case DIST => bits < 8 || Resolve(distcode, distbits, hold).1 > bits
      case DISTEXT => bits < 8 || bits < extra
      case DONE => bits == 0
      case BAD => true
      case _ => bits < 8
    }

    // How far the mode is from using up input or space.
    function Rank(): nat {
      match mode
      case DONE => 0 case BAD => 0
      case COPY => 2 case CODELENS => 2 case LENEXT => 2 case DISTEXT => 2
      case LENLENS => 3
      case _ => 1
    }
  }

  predicate Small(lens: seq<nat>) {
    forall i :: 0 <= i < |lens| ==> lens[i] <= 15
  }

  // Lengths received so far, by rank.
  function ByRank(lens: seq<nat>, n: nat): (r: seq<nat>)
    requires |lens| == 320 && n <= 19
    ensures |r| == n
  {
    seq(n, i requires 0 <= i < n => (OrderRank(i); lens[Order(i)]))
  }

  // Lengths received are 3-bit numbers.
  predicate LowRanks(lens: seq<nat>, n: nat)
    requires |lens| == 320 && n <= 19
  {
    forall i :: 0 <= i < n ==> ByRank(lens, n)[i] <= 7
  }

  // Extra bits of a code length symbol.
  function RunBits(v: nat): nat {
    if v < 16 then 0 else if v == 16 then 2 else if v == 17 then 3 else 7
  }

  // Bits the next code length symbol takes, extra bits included.
  function LensNeed(tab: seq<Entry>, root: nat, hold: nat): nat {
    Resolve(tab, root, hold).1 + RunBits(Resolve(tab, root, hold).0.val)
  }

  // The tables for the fixed codes.
  ghost predicate FixedTables(lenfix: seq<Entry>, distfix: seq<Entry>) {
    TableFor(lenfix, LENS, FixedCodes().ll, 9) && TableFor(distfix, DISTS, FixedCodes().dl, 5)
  }

  // ---- the modes one by one ----

  lemma AtType(s: State)
    requires s.Shape() && s.mode == TYPE
    ensures s.Valid() && s.Abs() == Type(s.last) && s.Rank() == 1
    ensures forall b: nat, h: nat :: s.Lean(b, h) <==> b < 8
  {
  }

  lemma AtStored(s: State)
    requires s.Shape() && s.mode == STORED
    ensures s.Valid() && s.Abs() == Stored(s.last) && s.Rank() == 1
    ensures forall b: nat, h: nat :: s.Lean(b, h) <==> b < 8 || (b % 8 == 0 && b < 32)
  {
  }

  lemma AtCopy(s: State)
    requires s.Shape() && s.mode == COPY
    ensures s.Valid() && s.Abs() == Copy(s.last, s.length) && s.Rank() == 2
    ensures forall b: nat, h: nat :: s.Lean(b, h) <==> b == 0
  {
  }

  lemma AtTable(s: State)
    requires s.Shape() && s.mode == TABLE
    ensures s.Valid() && s.Abs() == Table(s.last) && s.Rank() == 1
    ensures forall b: nat, h: nat :: s.Lean(b, h) <==> b < 14
  {
  }

  lemma AtDone(s: State)
    requires s.Shape() && s.mode == DONE
    ensures s.Valid() && s.Abs() == Mode.Done && s.Rank() == 0
    ensures forall b: nat, h: nat :: s.Lean(b, h) <==> b == 0
  {
  }

  lemma AtBad(s: State)
    requires s.Shape() && s.mode == BAD
    ensures s.Valid() && s.Abs() == Bad && s.Rank() == 0
    ensures forall b: nat, h: nat :: s.Lean(b, h)
  {
  }

  lemma AtLenLens(s: State)
    requires s.Shape() && s.mode == LENLENS
    ensures s.Valid() <==> s.have <= s.ncode <= 19 && 257 <= s.nlen <= 286 && 1 <= s.ndist <= 30
                           && LowRanks(s.lens, s.have)
    ensures s.Abs() == LenLens(s.last, s.nlen, s.ndist, s.ncode, ByRank(s.lens, s.have)) && s.Rank() == 3
    ensures forall b: nat, h: nat :: s.Lean(b, h) <==> b < 8
  {
  }

  lemma AtCodeLens(s: State)
    requires s.Shape() && s.mode == CODELENS
    ensures s.Valid() <==>
      && 257 <= s.nlen <= 286 && 1 <= s.ndist <= 30 && s.have <= s.nlen + s.ndist
      && TableFor(s.lencode, CODES, s.cl, s.lenbits) && Flat(s.lencode, s.lenbits)
    ensures s.Abs() == CodeLens(s.last, s.nlen, s.ndist, s.cl, s.lens[..s.have]) && s.Rank() == 2
    ensures forall b: nat, h: nat :: s.Lean(b, h) <==>
      b < 8 || (s.have < s.nlen + s.ndist && LensNeed(s.lencode, s.lenbits, h) > b)
  {
    hide TableFor, Flat, Small, LensNeed;
  }

  lemma AtLen(s: State)
    requires s.Shape() && s.mode == LEN
    ensures s.Valid() <==> s.InBlock()
    ensures s.Abs() == LenCode(s.last, Codes(s.ll, s.dl)) && s.Rank() == 1
    ensures forall b: nat, h: nat :: s.Lean(b, h) <==> b < 8 || Resolve(s.lencode, s.lenbits, h).1 > b
  {
    hide State.InBlock, Resolve;
  }

  lemma AtLenExt(s: State)
    requires s.Shape() && s.mode == LENEXT
    ensures s.Valid() <==> s.InBlock() && 3 <= s.length && s.length + Pow2(s.extra) <= 259 && s.extra <= 5
    ensures s.Abs() == LenExt(s.last, Codes(s.ll, s.dl), s.length, s.extra) && s.Rank() == 2
    ensures forall b: nat, h: nat :: s.Lean(b, h) <==> b < 8
  {
    hide State.InBlock, Pow2;
  }

  lemma AtDist(s: State)
    requires s.Shape() && s.mode == DIST
    ensures s.Valid() <==> s.InBlock() && 3 <= s.length <= 258
    ensures s.Abs() == Dist(s.last, Codes(s.ll, s.dl), s.length) && s.Rank() == 1
    ensures forall b: nat, h: nat :: s.Lean(b, h) <==> b < 8 || Resolve(s.distcode, s.distbits, h).1 > b
  {
    hide State.InBlock, Resolve;
  }

  lemma AtDistExt(s: State)
    requires s.Shape() && s.mode == DISTEXT
    ensures s.Valid() <==> s.InBlock() && 3 <= s.length <= 258 && s.extra <= 13
                           && 1 <= s.offset && s.offset + Pow2(s.extra) <= WINDOW_SIZE + 1
    ensures s.Abs() == DistExt(s.last, Codes(s.ll, s.dl), s.length, s.offset, s.extra) && s.Rank() == 2
    ensures forall b: nat, h: nat :: s.Lean(b, h) <==> b < 8 || b < s.extra
  {
    hide State.InBlock, Pow2;
  }

  lemma AtMatch(s: State)
    requires s.Shape() && s.mode == MATCH
    ensures s.Valid() <==> s.InBlock() && 1 <= s.length <= 258 && 1 <= s.offset <= WINDOW_SIZE
    ensures s.Abs() == Match(s.last, Codes(s.ll, s.dl), s.length, s.offset) && s.Rank() == 1
    ensures forall b: nat, h: nat :: s.Lean(b, h) <==> b < 8
  {
    hide State.InBlock;
  }

  lemma AtLit(s: State)
    requires s.Shape() && s.mode == LIT
    ensures s.Valid() <==> s.InBlock() && s.length < 256
    ensures s.length < 256 ==> s.Abs() == Lit(s.last, Codes(s.ll, s.dl), s.length)
    ensures s.Rank() == 1
    ensures forall b: nat, h: nat :: s.Lean(b, h) <==> b < 8
  {
    hide State.InBlock;
  }

  // ---- what a symbol leads to ----

  // The type bits select what comes next; a fixed block brings its tables along.
  function EnterBlock(s: State, last: bool, t: nat, lenfix: seq<Entry>, distfix: seq<Entry>): State {
    var s1 := s.(last := last);
    if t == 0 then s1.(mode := STORED)
    else if t == 1 then
      s1.(mode := LEN, lencode := lenfix, lenbits := 9, distcode := distfix, distbits := 5,
          ll := FixedCodes().ll, dl := FixedCodes().dl)
    else if t == 2 then s1.(mode := TABLE)
    else s1.(mode := BAD)
  }

  lemma EnterBlockFacts(s: State, last: bool, t: nat, lenfix: seq<Entry>, distfix: seq<Entry>)
    requires s.Shape() && s.mode == TYPE && FixedTables(lenfix, distfix)
    ensures
      var s' := EnterBlock(s, last, t, lenfix, distfix);
      && s'.Shape() && s'.Valid() && s'.Abs() == BlockMode(t, last)
      && forall bits: nat, hold: nat :: bits < 8 ==> s'.Lean(bits, hold)
  {
    hide TableFor, FixedCodes, Resolve, State.Valid, State.Abs, State.Lean;
    var s' := EnterBlock(s, last, t, lenfix, distfix);
    match s'.mode
    case STORED => AtStored(s');
    case LEN => AtLen(s');
    case TABLE => AtTable(s');
    case _ => AtBad(s');
  }

  // Changing other fields leaves the tables alone.
  lemma SameTables(s: State, s': State)
    requires s.InBlock() && s'.lencode == s.lencode && s'.lenbits == s.lenbits && s'.ll == s.ll
    requires s'.distcode == s.distcode && s'.distbits == s.distbits && s'.dl == s.dl
    ensures s'.InBlock()
  {
    hide TableFor;
  }

  predicate Bit16(op: nat) { (op / 16) % 2 == 1 }
  predicate Bit32(op: nat) { (op / 32) % 2 == 1 }
  predicate Bit64(op: nat) { (op / 64) % 2 == 1 }

  // The end of case LEN, once the symbol is read.
  function NextLen(s: State, e: Entry): State {
    var s1 := s.(length := e.val);
    if e.op == 0 then s1.(mode := LIT)
    else if Bit32(e.op) then s1.(mode := TYPE)
    else if Bit64(e.op) then s1.(mode := BAD)
    else s1.(extra := e.op % 16, mode := LENEXT)
  }

  lemma NextLenFacts(s: State, e: Entry, sym: Symbol)
    requires s.Shape() && s.mode == LEN && s.InBlock() && Tells(e, LENS, sym)
    ensures
      var s' := NextLen(s, e);
      && s'.Shape() && s'.Valid() && s'.Abs() == (if sym.Sym? then LenMode(s.Abs(), sym.s) else Bad)
      && forall bits: nat, hold: nat :: bits < 8 ==> s'.Lean(bits, hold)
  {
    hide State.InBlock, Resolve, State.Valid, State.Abs, State.Lean, LengthBase, DecodeTable.LengthExtra, Pow2;
    var s' := NextLen(s, e);
    AtLen(s);
    if sym.NoSymbol? {
      AtBad(s');
    } else {
      LenEntry(sym.s, e);
      SameTables(s, s');
      if sym.s < 256 { AtLit(s'); }
      else if sym.s == 256 { AtType(s'); }
      else if sym.s > 285 { AtBad(s'); }
      else {
        LengthExtraRange(sym.s - 257);
        AtLenExt(s');
      }
    }
  }

  lemma LenEntry(s: nat, e: Entry)
    requires s < 288 && e == MakeEntry(LENS, s, e.bits)
    ensures s < 256 ==> e.op == 0 && e.val == s
    ensures s == 256 ==> e.op == 96
    ensures 256 < s <= 285 ==>
      && Bit16(e.op) && !Bit32(e.op) && !Bit64(e.op) && e.op % 16 == DecodeTable.LengthExtra(s - 257) - 16
      && e.val == LengthBase(s - 257)
    ensures 285 < s ==> e.op != 0 && !Bit16(e.op) && !Bit32(e.op) && Bit64(e.op)
  {
    if 256 < s <= 285 { hide LengthBase; LengthExtraOnly(s - 257); }
  }

  lemma LengthExtraOnly(k: nat)
    requires k <= 28
    ensures 16 <= DecodeTable.LengthExtra(k) <= 21
  {
  }

  lemma DistExtraOnly(k: nat)
    requires k <= 29
    ensures 16 <= DistExtra(k) <= 29
  {
  }

  // The end of case DIST.
  function NextDist(s: State, e: Entry): State {
    if Bit64(e.op) then s.(mode := BAD)
    else s.(offset := e.val, extra := e.op % 16, mode := DISTEXT)
  }

  lemma DistEntry(s: nat, e: Entry)
    requires s < 32 && e == MakeEntry(DISTS, s, e.bits)
    ensures s <= 29 ==> Bit16(e.op) && !Bit64(e.op) && e.op % 16 == DistExtra(s) - 16 && e.val == DistBase(s)
    ensures s > 29 ==> !Bit16(e.op) && Bit64(e.op)
  {
    if s <= 29 { hide DistBase; DistExtraOnly(s); }
  }

  lemma NextDistFacts(s: State, e: Entry, sym: Symbol)
    requires s.Shape() && s.mode == DIST && s.Valid() && Tells(e, DISTS, sym)
    ensures
      var s' := NextDist(s, e);
      && s'.Shape() && s'.Valid() && s'.Abs() == (if sym.Sym? then DistMode(s.Abs(), sym.s) else Bad)
      && forall bits: nat, hold: nat :: bits < 8 ==> s'.Lean(bits, hold)
  {
    hide State.InBlock, Resolve, State.Valid, State.Abs, State.Lean, DistBase, DistExtra, Pow2;
    var s' := NextDist(s, e);
    AtDist(s);
    if sym.NoSymbol? {
      AtBad(s');
    } else {
      DistEntry(sym.s, e);
      SameTables(s, s');
      if sym.s > 29 { AtBad(s'); }
      else {
        DistExtraRange(sym.s);
        AtDistExt(s');
      }
    }
  }
}
