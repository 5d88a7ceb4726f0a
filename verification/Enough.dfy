/** The `>=` in the space tests of inflate_table refuses a code that needs exactly the space kept for it. Two complete
    codes, none longer than fifteen bits: 286 literal/length symbols that take 852 table entries, and 30 distance
    symbols that take 592. */
module Enough {
  import opened Bits
  import opened BitStream
  import opened Canon
  import opened SymbolOrder
  import opened DecodeTable
  import opened InflateTable
  import opened CodeLengthCoding
  import opened MatchCodes
  import opened Rfc1951
  import opened Lz77
  import opened Block

  datatype Which = Lengths | Distances {
    function Type(): CodeType { if Lengths? then LENS else DISTS }
    function Symbols(): nat { if Lengths? then 286 else 30 }
    // The root bits inflate() asks for, and the codes of a root entry in units of the longest code.
    function Root(): nat { if Lengths? then 9 else 6 }
    function Span(): nat { if Lengths? then 64 else 512 }
    function Limit(): nat { if Lengths? then ENOUGH_LENS else ENOUGH_DISTS }

    // The length of the i-th code, codes by length and then by symbol.
    function Len(i: nat): nat {
      if Lengths? then
        if i < 1 then 1 else if i < 2 then 2 else if i < 3 then 4 else if i < 108 then 10 else if i < 281 then 11
        else if i < 285 then i - 269 else 15
      else
        if i < 3 then 2 else if i < 4 then 3 else if i < 17 then 7 else if i < 22 then 8 else if i < 29 then i - 13
          else 15
    }

    // The symbol of the k-th code: the order is that of the symbols, but end-of-block has one of the longest codes.
    function Symbol(k: nat): nat {
      if Distances? || k < 256 || 281 <= k < 284 then k else if k < 280 then k + 1 else if k == 280 then 285
      else if k == 284 then 256 else 284
    }

    // The length of symbol s.
    function Of(s: nat): nat {
      if Lengths? && s == 256 then 15 else if Lengths? && s == 285 then 11 else Len(s)
    }

    // The first code of length l or more.
    function First(l: nat): nat {
      if Lengths? then
        if l <= 1 then 0 else if l <= 2 then 1 else if l <= 4 then 2 else if l <= 10 then 3 else if l == 11 then 108
        else if l <= 15 then l + 269 else 286
      else
        if l <= 2 then 0 else if l == 3 then 3 else if l <= 7 then 4 else if l == 8 then 17 else if l <= 15 then l + 13
          else 30
    }

    // Where the codes of length l begin.
    function Start(l: nat): nat {
      if Lengths? then
        if l <= 1 then 0 else if l == 2 then 16384 else if l <= 4 then 24576 else if l <= 10 then 26624
          else if l == 11 then 29984
        else if l == 12 then 32752 else if l == 13 then 32760 else if l == 14 then 32764 else if l == 15 then 32766
          else 32768
      else
        if l <= 2 then 0 else if l == 3 then 24576 else if l <= 7 then 28672 else if l == 8 then 32000
          else if l == 9 then 32640
        else if l == 10 then 32704 else if l == 11 then 32736 else if l == 12 then 32752 else if l == 13 then 32760
        else if l == 14 then 32764 else if l == 15 then 32766 else 32768
    }

    // Where the k-th code begins.
    function Place(k: nat): nat {
      if Lengths? then
        if k < 3 then Start(Len(k)) else if k < 108 then 26624 + 32 * (k - 3)
          else if k < 281 then 29984 + 16 * (k - 108)
        else if k < 285 then Start(Len(k)) else 32767
      else
        if k < 3 then 8192 * k else if k < 4 then 24576 else if k < 17 then 28672 + 256 * (k - 4)
        else if k < 22 then 32000 + 128 * (k - 17) else if k < 29 then Start(Len(k)) else 32767
    }

    // Table entries once the k-th code has its table.
    function Total(k: nat): nat {
      if Lengths? then
        if k < 3 then 512 else if k < 107 then 512 + 2 * ((k - 3) / 2 + 1) else if k < 110 then 620
        else if k < 278 then 620 + 4 * ((k - 110) / 4 + 1) else 852
      else
        if k < 4 then 64 else if k < 16 then 64 + 2 * ((k - 4) / 2 + 1) else if k < 19 then 80 else 592
    }
  }

  function Lens(w: Which): seq<nat> {
    seq(w.Symbols(), i requires 0 <= i => w.Of(i))
  }

  function Work(w: Which): seq<nat> {
    seq(w.Symbols(), k requires 0 <= k => w.Symbol(k))
  }

  lemma Sizes(w: Which)
    ensures |Lens(w)| == w.Symbols() && forall i :: 0 <= i < |Lens(w)| ==> Lens(w)[i] == w.Of(i)
  {
  }

  // ---- the codes ----

  // Symbol 256 has exchanged its code with symbol 285.
  function Exchanged(w: Which, k: nat, l: nat): int {
    if w.Lengths? && 256 < k < 286 then if l == 11 then -1 else if l == 15 then 1 else 0 else 0
  }

  lemma {:induction false} CountIs(w: Which, k: nat, l: nat)
    requires k <= w.Symbols() && 1 <= l <= 15
    ensures CountTo(Lens(w), k, l) - Exchanged(w, k, l)
         == if k <= w.First(l) then 0 else if k <= w.First(l + 1) then k - w.First(l) else w.First(l + 1) - w.First(l)
  {
    if k > 0 { CountIs(w, k - 1, l); }
  }

  lemma {:induction false} OffsetIs(w: Which, l: nat)
    requires 1 <= l <= 16
    ensures Offset(Lens(w), l) == w.First(l)
  {
    hide Lens;
    Sizes(w);
    if l > 1 {
      OffsetIs(w, l - 1);
      CountIs(w, w.Symbols(), l - 1);
    }
  }

  lemma IndexIs(w: Which, k: nat)
    requires k < w.Symbols()
    ensures w.Symbol(k) < w.Symbols() && HasCode(Lens(w), w.Symbol(k)) && Lens(w)[w.Symbol(k)] == w.Len(k)
    ensures Index(Lens(w), w.Symbol(k)) == k && CountTo(Lens(w), w.Symbol(k), w.Len(k)) == k - w.First(w.Len(k))
  {
    hide Lens, CountTo, Offset;
    Sizes(w);
    OffsetIs(w, w.Len(k));
    CountIs(w, w.Symbol(k), w.Len(k));
  }

  lemma OrderIs(w: Which)
    ensures IsOrder(Lens(w), Work(w)) && IsMax(Lens(w), 15)
  {
    hide Lens, CountTo, Offset;
    Sizes(w);
    OffsetIs(w, 16);
    forall k | 0 <= k < w.Symbols() ensures HasCode(Lens(w), Work(w)[k]) && Index(Lens(w), Work(w)[k]) == k {
      IndexIs(w, k);
    }
    CountIs(w, w.Symbols(), 15);
  }

  lemma Times(x: nat, n: nat)
    requires n <= 15
    ensures Shl(x, n) == x * Pow2(n)
  {
    ShlTimes(x, n);
  }

  lemma {:induction false} ShlTimes(x: nat, n: nat)
    ensures Shl(x, n) == x * Pow2(n)
  {
    if n > 0 { ShlTimes(x, n - 1); }
  }

  lemma Powers()
    ensures Pow2(0) == 1 && Pow2(1) == 2 && Pow2(2) == 4 && Pow2(3) == 8 && Pow2(4) == 16 && Pow2(5) == 32
      && Pow2(6) == 64
    ensures Pow2(7) == 128 && Pow2(8) == 256 && Pow2(9) == 512 && Pow2(10) == 1024 && Pow2(11) == 2048
      && Pow2(12) == 4096
    ensures Pow2(13) == 8192 && Pow2(14) == 16384 && Pow2(15) == 32768
  {
  }

  lemma {:induction false} BaseIs(w: Which, l: nat)
    requires l <= 16
    ensures Base(Lens(w), l) == w.Start(l)
  {
    hide Lens, CountTo, Shl, Pow2;
    Sizes(w);
    if l > 1 {
      BaseIs(w, l - 1);
      CountIs(w, w.Symbols(), l - 1);
      Times(w.First(l) - w.First(l - 1), MAXBITS - (l - 1));
      Powers();
    }
  }

  lemma IsComplete(w: Which)
    ensures Complete(Lens(w)) && ValidLens(Lens(w))
  {
    hide Lens, Base, Pow2;
    Sizes(w);
    BaseIs(w, 16);
    Powers();
  }

  lemma PlaceIs(w: Which, k: nat)
    requires k < w.Symbols()
    ensures w.Symbol(k) < w.Symbols() && HasCode(Lens(w), w.Symbol(k)) && Lens(w)[w.Symbol(k)] == w.Len(k)
    ensures Pos(Lens(w), w.Symbol(k)) == w.Place(k)
  {
    hide Lens, CountTo, Shl, Base, Pow2, Index;
    IndexIs(w, k);
    var l := w.Len(k);
    BaseIs(w, l);
    Times(k - w.First(l), MAXBITS - l);
    Powers();
  }

  // ---- the tables ----

  lemma SpanIs(w: Which)
    ensures Pow2(MAXBITS - w.Root()) == w.Span() && Pow2(w.Root()) == w.Total(0)
  {
    Powers();
    hide Pow2;
  }

  lemma Blocks(w: Which, x: nat)
    ensures Shr(x, MAXBITS - w.Root()) == x / w.Span()
  {
    hide Shr, Shl, Pow2;
    var n, s := MAXBITS - w.Root(), w.Span();
    SpanIs(w);
    Times(x / s, n);
    SplitUnique(x % s, x / s, n);
  }

  // Symbol k opens a sub-table exactly when it is the first of its root entry.
  lemma OpensIs(w: Which, k: nat)
    requires 0 < k < w.Symbols()
    ensures IsOrder(Lens(w), Work(w))
    ensures Opens(Lens(w), Work(w), w.Root(), k) <==>
      w.Len(k) > w.Root() && (w.Len(k - 1) <= w.Root() || w.Place(k) / w.Span() != w.Place(k - 1) / w.Span())
  {
    hide Lens, Base, CountTo, Shr, Pow2, Low, Huff, Pos, Offset;
    Sizes(w);
    OrderIs(w);
    IsComplete(w);
    PlaceIs(w, k);
    PlaceIs(w, k - 1);
    SameBlock(Lens(w), w.Symbol(k), w.Symbol(k - 1), w.Root());
    Blocks(w, w.Place(k));
    Blocks(w, w.Place(k - 1));
  }

  // The longest code a sub-table must hold.
  function Reach(w: Which, k: nat): nat {
    if w.Lengths? then if k < 107 then 10 else if k < 278 then 11 else 15
    else if k < 16 then 7 else if k < 19 then 8 else 15
  }

  // Symbols that are the first of their root entry.
  predicate Opener(w: Which, k: nat) {
    if w.Lengths? then (3 <= k < 107 && k % 2 == 1) || k == 107 || (110 <= k <= 278 && k % 4 == 2)
    else (4 <= k <= 16 && k % 2 == 0) || k == 19
  }

  lemma ReachIs(w: Which, k: nat)
    requires k < w.Symbols() && Opener(w, k)
    ensures SubLength(Lens(w), w.Place(k) + w.Span(), 15, w.Len(k)) == Reach(w, k)
  {
    hide Lens, Base, SubLength;
    Climb(w, w.Place(k) + w.Span(), w.Len(k), Reach(w, k));
  }

  lemma {:induction false} Climb(w: Which, target: nat, l: nat, r: nat)
    requires l <= r <= 15 && (r == 15 || w.Start(r + 1) >= target)
    requires forall i :: l < i <= r ==> w.Start(i) < target
    ensures SubLength(Lens(w), target, 15, l) == r
    decreases r - l
  {
    hide Lens, Base;
    if l < 15 { BaseIs(w, l + 1); }
    if l < r { Climb(w, target, l + 1, r); }
  }

  lemma OpenerIs(w: Which, k: nat)
    requires 0 < k < w.Symbols()
    ensures Opener(w, k) <==>
      w.Len(k) > w.Root() && (w.Len(k - 1) <= w.Root() || w.Place(k) / w.Span() != w.Place(k - 1) / w.Span())
  {
    if w.Lengths? { LengthOpeners(k); } else { DistanceOpeners(k); }
  }

  lemma LengthOpeners(k: nat)
    requires 0 < k < 286
    ensures Opener(Lengths, k) <==>
      Lengths.Len(k) > 9 && (Lengths.Len(k - 1) <= 9 || Lengths.Place(k) / 64 != Lengths.Place(k - 1) / 64)
  {
    if 3 < k < 108 {
      assert Lengths.Place(k) / 64 == 416 + (k - 3) / 2;
      assert Lengths.Place(k - 1) / 64 == 416 + (k - 4) / 2;
    } else if 108 < k < 281 {
      assert Lengths.Place(k) / 64 == 468 + (k - 106) / 4;
      assert Lengths.Place(k - 1) / 64 == 468 + (k - 107) / 4;
    }
  }

  lemma DistanceOpeners(k: nat)
    requires 0 < k < 30
    ensures Opener(Distances, k) <==>
      Distances.Len(k) > 6 && (Distances.Len(k - 1) <= 6 || Distances.Place(k) / 512 != Distances.Place(k - 1) / 512)
  {
  }

  // What an opener adds.
  lemma TotalNext(w: Which, k: nat)
    requires 0 < k < w.Symbols()
    ensures Opener(w, k) ==> w.Root() < Reach(w, k) <= 15 && w.Total(k) == w.Total(k - 1) + Pow2(Reach(w, k) - w.Root())
    ensures !Opener(w, k) ==> w.Total(k) == w.Total(k - 1)
  {
    hide Pow2;
    if Opener(w, k) { ReachPower(w, k); }
    if w.Lengths? { LengthsNext(k); } else { DistancesNext(k); }
  }

  // The size of the sub-table an opener has.
  function Opened(w: Which, k: nat): nat {
    if w.Lengths? then if k < 107 then 2 else if k < 278 then 4 else 64
    else if k < 16 then 2 else if k < 19 then 4 else 512
  }

  lemma ReachPower(w: Which, k: nat)
    requires 0 < k < w.Symbols()
    ensures w.Root() < Reach(w, k) <= 15 && Pow2(Reach(w, k) - w.Root()) == Opened(w, k)
  {
    Powers();
    hide Pow2;
  }

  lemma LengthsNext(k: nat)
    requires 0 < k < 286
    ensures Lengths.Total(k) == Lengths.Total(k - 1) + if Opener(Lengths, k) then Opened(Lengths, k) else 0
  {
  }

  lemma DistancesNext(k: nat)
    requires 0 < k < 30
    ensures Distances.Total(k) == Distances.Total(k - 1) + if Opener(Distances, k) then Opened(Distances, k) else 0
  {
  }

  lemma SubIs(w: Which, k: nat)
    requires 0 < k < w.Symbols() && Opener(w, k)
    ensures IsOrder(Lens(w), Work(w)) && w.Root() <= Lens(w)[Work(w)[k]] <= 15
    ensures w.Root() < Reach(w, k) && SubSize(Lens(w), Work(w), w.Root(), 15, k) == Pow2(Reach(w, k) - w.Root())
  {
    hide Lens, Base, CountTo, Shr, Low, Huff, Pos, Offset, Pow2, SubLength;
    Sizes(w);
    OrderIs(w);
    PlaceIs(w, k);
    SpanIs(w);
    ReachIs(w, k);
  }

  lemma SizeNext(lens: seq<nat>, work: seq<nat>, root: nat, max: nat, k: nat)
    requires IsOrder(lens, work) && 0 < k < |work| && max <= MAXBITS && IsMax(lens, max)
    ensures Opens(lens, work, root, k) ==> root <= lens[work[k]] <= max
    ensures SizeTo(lens, work, root, max, k)
         == SizeTo(lens, work, root, max, k - 1)
           + if Opens(lens, work, root, k) then SubSize(lens, work, root, max, k) else 0
  {
    hide SubSize, Huff, Low, Offset, CountTo;
  }

  /** The exact number of entries after each symbol. */
  lemma {:induction false} SizeIs(w: Which, k: nat)
    requires k < w.Symbols()
    ensures IsOrder(Lens(w), Work(w)) && IsMax(Lens(w), 15)
    ensures SizeTo(Lens(w), Work(w), w.Root(), 15, k) == w.Total(k)
  {
    hide Lens, IsOrder, IsMax, Opens, SubSize, Pow2;
    Sizes(w);
    OrderIs(w);
    if k == 0 {
      SpanIs(w);
    } else {
      SizeIs(w, k - 1);
      hide SizeTo;
      SizeNext(Lens(w), Work(w), w.Root(), 15, k);
      OpensIs(w, k);
      OpenerIs(w, k);
      TotalNext(w, k);
      if Opener(w, k) { SubIs(w, k); }
    }
  }

  /** Complete codes within fifteen bits that need exactly the space kept, and that inflate_table refuses. */
  lemma RefusedAtTheLimit(w: Which)
    ensures |Lens(w)| == w.Symbols() && ValidLens(Lens(w)) && Complete(Lens(w)) && IsOrder(Lens(w), Work(w))
      && IsMax(Lens(w), 15)
    ensures SizeTo(Lens(w), Work(w), w.Root(), 15, w.Symbols() - 1) == w.Limit()
    ensures Accepted(w.Type(), Lens(w)) && !TableFits(w.Type(), Lens(w), w.Root())
  {
    hide Lens, IsOrder, IsMax, SizeTo, TableFits, Base;
    Sizes(w);
    OrderIs(w);
    IsComplete(w);
    SizeIs(w, w.Symbols() - 1);
    FitsFacts(w.Type(), Lens(w), Work(w), w.Root(), w.Len(0), 15);
  }

  // ---- a stream that is refused ----

  // A code for the nineteen symbols of the code length alphabet: thirteen of four bits, six of five.
  function LengthCodes(): seq<nat> {
    seq(19, i requires 0 <= i => if i < 13 then 4 else 5)
  }

  lemma LengthCodesFit()
    ensures Complete(LengthCodes()) && |LengthCodes()| == 19
      && forall s: nat :: s < 19 ==> HasCode(LengthCodes(), s) && LengthCodes()[s] <= 7
  {
    var cl := LengthCodes();
    forall l: nat ensures Count(cl, l) == if l == 4 then 13 else if l == 5 then 6 else 0 {
      CountSegment(cl, 0, 13, 4, l);
      CountSegment(cl, 13, 19, 5, l);
    }
    hide CountTo, LengthCodes;
    BaseFlat(cl, 1, 4);
    BaseFlat(cl, 6, 16);
    Ends(cl);
  }

  lemma Ends(cl: seq<nat>)
    requires Count(cl, 4) == 13 && Count(cl, 5) == 6
    ensures Base(cl, 6) == Base(cl, 4) + 32768 && Base(cl, 1) == 0 && Pow2(15) == 32768
  {
    assert Base(cl, 5) == Base(cl, 4) + Shl(Count(cl, 4), 11);
    assert Base(cl, 6) == Base(cl, 5) + Shl(Count(cl, 5), 10);
    Times(13, 11);
    Times(6, 10);
    Powers();
  }

  // Both codes at once: trees that the format allows in one block.
  function LimitCodes(): Codes {
    Codes(Lens(Lengths), Lens(Distances))
  }

  lemma LimitSendable()
    ensures Sendable(LimitCodes(), LengthCodes(), 19) && !Tabled(LimitCodes())
  {
    hide Lens, LengthCodes, IsOrder, IsMax, SizeTo, Base, Encode, Rank, TableFits, Complete;
    RefusedAtTheLimit(Lengths);
    RefusedAtTheLimit(Distances);
    LengthCodesFit();
    Sizes(Lengths);
    var ll, dl := Lens(Lengths), Lens(Distances);
    OpsFit(ll);
    OpsFit(dl);
    forall s: nat | s < 19 ensures Rank(s) < 19 { OrderRank(s); }
  }

  lemma OpsFit(lens: seq<nat>)
    requires ValidLens(lens)
    ensures AllOpsCoded(Encode(lens), LengthCodes())
  {
    hide Encode, LengthCodes, Complete;
    RoundTrip(lens);
    LengthCodesFit();
    forall i | 0 <= i < |Encode(lens)| ensures OpCoded(Encode(lens)[i], LengthCodes()) {
      assert Encode(lens)[i] in Encode(lens);
      SymbolFits(Encode(lens)[i]);
    }
  }

  lemma SymbolFits(op: Op)
    requires op.InRange()
    ensures op.Symbol() < 19
  {
  }

  // Every literal and every pair can be sent in such a block.
  lemma AllTokens(toks: seq<Token>)
    requires forall i :: 0 <= i < |toks| ==> Block.InRange(toks[i])
    ensures AllCoded(toks, LimitCodes())
  {
    hide Coded, Block.InRange, LimitCodes;
    forall i | 0 <= i < |toks| ensures Coded(toks[i], LimitCodes()) { AnyToken(toks[i]); }
  }

  lemma AnyToken(tok: Token)
    requires Block.InRange(tok)
    ensures Coded(tok, LimitCodes())
  {
    hide Lens, LengthCode, DistCode;
    Sizes(Lengths);
    Sizes(Distances);
    if tok.Pair? {
      MatchCodes.LengthRoundTrip(tok.len - 3);
      MatchCodes.DistRoundTrip(tok.dist - 1);
    }
  }

  // A dynamic block with these trees.
  ghost function LimitBits(toks: seq<Token>, last: bool): seq<bool>
    requires forall i :: 0 <= i < |toks| ==> Block.InRange(toks[i])
  {
    LimitSendable();
    AllTokens(toks);
    DynamicBits(LimitCodes(), LengthCodes(), 19, toks, last)
  }

  /** A block with these trees, whatever its tokens, is refused: the decoder ends in an error and delivers none of its
      bytes. */
  lemma BlockRefused(I: seq<bool>, c: Config, toks: seq<Token>, last: bool)
    requires c.mode == Mode.Type(false) && forall i :: 0 <= i < |toks| ==> Block.InRange(toks[i])
    requires At(I, c.p, LimitBits(toks, last))
    ensures exists p: nat :: p <= |I| && Reaches(I, c, Config(Bad, p, c.out))
  {
    hide LimitCodes, LengthCodes, Sendable, AllCoded, AllFit, At, Reaches, HeaderBits, BodyBits, TypeBits, Tabled;
    LimitSendable();
    AllTokens(toks);
    DynamicRoundTrip(I, c, LimitCodes(), LengthCodes(), 19, toks, last);
    TypeLength(2, last);
    InBounds(I, c.p, LimitBits(toks, last));
    assert Reaches(I, c, Config(Bad, c.p + 3 + |HeaderBits(LimitCodes(), LengthCodes(), 19)|, c.out));
  }
}
