/** What a lookup in a finished decoding table says about the bits that follow in the stream. */
module Lookup {
  import opened Bits
  import opened BitStream
  import opened Canon
  import opened DecodeTable
  import opened InflateTable
  import opened Rfc1951

  // A table built for these lengths.
  ghost predicate TableFor(tab: seq<Entry>, t: CodeType, lens: seq<nat>, root: nat) {
    && |lens| <= MaxSymbols(t) && ValidLens(lens) && Accepted(t, lens)
    && Decodes(tab, t, lens, root) && Rejects(tab, lens, root)
    && 1 <= root <= MAXBITS && LinksDropRoot(tab, root)
  }

  // The entry says what the symbol is.
  ghost predicate Tells(e: Entry, t: CodeType, sym: Symbol) {
    match sym
    case Sym(s, _) => s < MaxSymbols(t) && e == MakeEntry(t, s, e.bits)
    case NoSymbol => e == INVALID
    case More => false
  }

  // The first n bits decide whether a code of n bits matches.
  lemma MatchPrefix(lens: seq<nat>, s: nat, b: seq<bool>, c: seq<bool>)
    requires HasCode(lens, s) && lens[s] <= |b|
    ensures Matches(lens, s, Val(b)) <==> StartsWith(lens, s, b + c)
  {
    hide Val, Low, Huff;
    ValTake(b, lens[s]);
    assert (b + c)[..lens[s]] == b[..lens[s]];
  }

  // Without a match the code is incomplete, and every code is one bit long.
  lemma NoMatchShort(t: CodeType, lens: seq<nat>, y: nat)
    requires ValidLens(lens) && Accepted(t, lens) && NoMatch(lens, y)
    ensures !Complete(lens) && forall s: nat :: HasCode(lens, s) ==> lens[s] == 1
  {
    if Complete(lens) { var s := MatchExists(lens, y); }
  }

  // A lookup that needs no more bits than there are tells the next symbol of the stream.
  lemma Found(tab: seq<Entry>, t: CodeType, lens: seq<nat>, root: nat, b: seq<bool>, c: seq<bool>)
    requires TableFor(tab, t, lens, root) && Resolve(tab, root, Val(b)).1 <= |b|
    ensures
      var (e, n) := Resolve(tab, root, Val(b));
      var sym := Rfc1951.Decode(lens, b + c);
      && Tells(e, t, sym) && 1 <= n <= MAXBITS && (sym.Sym? ==> sym.n == n) && (sym.NoSymbol? ==> n == 1)
  {
    hide Resolve, Base, CountTo, Pos, Huff, Rfc1951.Decode, Accepted, Val, Low;
    var y := Val(b);
    AcceptedNotOver(t, lens);
    if NoMatch(lens, y) {
      NoMatchShort(t, lens, y);
      forall s: nat ensures !StartsWith(lens, s, b + c) {
        if HasCode(lens, s) { MatchPrefix(lens, s, b, c); }
      }
      Undecided(lens, b + c);
    } else {
      var s: nat :| HasCode(lens, s) && Matches(lens, s, y);
      MatchPrefix(lens, s, b, c);
      DecodeUnique(lens, s, b + c);
    }
  }

  lemma Undecided(lens: seq<nat>, b: seq<bool>)
    requires forall s: nat :: !StartsWith(lens, s, b)
    ensures Rfc1951.Decode(lens, b) == if b != [] && !Complete(lens) then NoSymbol else More
  {
  }

  // A lookup that needs more bits than there are: the stream cannot tell either.
  lemma NotFound(tab: seq<Entry>, t: CodeType, lens: seq<nat>, root: nat, b: seq<bool>)
    requires TableFor(tab, t, lens, root) && Resolve(tab, root, Val(b)).1 > |b|
    ensures Rfc1951.Decode(lens, b) == More
  {
    hide Resolve, Base, CountTo, Pos, Huff, Rfc1951.Decode, Accepted, Val, Low;
    var y := Val(b);
    forall s: nat ensures !StartsWith(lens, s, b) {
      if HasCode(lens, s) && lens[s] <= |b| {
        MatchPrefix(lens, s, b, []);
        assert b + [] == b;
        assert !Matches(lens, s, y);
      }
    }
    Undecided(lens, b);
    if b != [] && !Complete(lens) {
      if NoMatch(lens, y) {
        assert false;
      } else {
        var s: nat :| HasCode(lens, s) && Matches(lens, s, y);
        IncompleteShort(t, lens, s);
      }
    }
  }

  lemma IncompleteShort(t: CodeType, lens: seq<nat>, s: nat)
    requires Accepted(t, lens) && !Complete(lens) && HasCode(lens, s)
    ensures lens[s] == 1
  {
  }

  // More bits do not change the outcome of a lookup that was already decided.
  lemma Stable(tab: seq<Entry>, t: CodeType, lens: seq<nat>, root: nat, b: seq<bool>, c: seq<bool>)
    requires TableFor(tab, t, lens, root) && Resolve(tab, root, Val(b + c)).1 <= |b|
    ensures Resolve(tab, root, Val(b)).1 <= |b|
  {
    hide Resolve, Base, CountTo, Pos, Huff, Rfc1951.Decode, Accepted, Val, Low;
    var y, z := Val(b), Val(b + c);
    if Resolve(tab, root, y).1 > |b| {
      NotFound(tab, t, lens, root, b);
      Found(tab, t, lens, root, b + c, []);
      assert b + c + [] == b + c;
      if NoMatch(lens, z) {
        assert Resolve(tab, root, z) == (INVALID, 1);
        NoMatchShort(t, lens, z);
        MoreMeans(lens, b);
      } else {
        var s: nat :| HasCode(lens, s) && Matches(lens, s, z);
        assert lens[s] <= |b|;
        MatchPrefix(lens, s, b + c, []);
        MatchPrefix(lens, s, b, c);
      }
    }
  }

  // In a table without sub-tables the entry stays the same too.
  lemma StableFlat(tab: seq<Entry>, t: CodeType, lens: seq<nat>, root: nat, b: seq<bool>, c: seq<bool>)
    requires TableFor(tab, t, lens, root) && Flat(tab, root) && Resolve(tab, root, Val(b)).1 <= |b|
    ensures Resolve(tab, root, Val(b + c)) == Resolve(tab, root, Val(b))
  {
    hide Resolve, Base, CountTo, Pos, Huff, Rfc1951.Decode, Accepted, Val, Low, Pow2;
    var y, z := Val(b), Val(b + c);
    SecondLevel(tab, t, lens, root, y);
    SecondLevel(tab, t, lens, root, z);
    if NoMatch(lens, y) {
      NoMatchShort(t, lens, y);
      forall s: nat | HasCode(lens, s) ensures !Matches(lens, s, z) {
        MatchPrefix(lens, s, b, c);
        MatchPrefix(lens, s, b + c, []);
        assert b + c + [] == b + c;
      }
    } else {
      var s: nat :| HasCode(lens, s) && Matches(lens, s, y);
      MatchPrefix(lens, s, b, c);
      MatchPrefix(lens, s, b + c, []);
      assert b + c + [] == b + c;
    }
  }

  lemma MoreMeans(lens: seq<nat>, b: seq<bool>)
    requires Rfc1951.Decode(lens, b) == More && b != []
    ensures Complete(lens)
  {
  }

  // The second-level index stays inside the table.
  lemma SecondLevel(tab: seq<Entry>, t: CodeType, lens: seq<nat>, root: nat, y: nat)
    requires TableFor(tab, t, lens, root)
    ensures Low(y, root) < |tab|
    ensures IsLink(tab[Low(y, root)]) ==>
      var e := tab[Low(y, root)];
      var j := e.val + Low(Shr(y, e.bits), e.op);
      && e.bits == root && j < |tab| && Resolve(tab, root, y) == (tab[j], root + tab[j].bits)
    ensures !IsLink(tab[Low(y, root)]) ==> Resolve(tab, root, y) == (tab[Low(y, root)], tab[Low(y, root)].bits)
    ensures 1 <= Resolve(tab, root, y).1 <= MAXBITS
  {
    hide Base, CountTo, Pos, Huff, Accepted, Low, Shr, Pow2;
    if NoMatch(lens, y) {
      assert Resolve(tab, root, y) == (INVALID, 1);
    } else {
      var s: nat :| HasCode(lens, s) && Matches(lens, s, y);
      assert Resolve(tab, root, y).1 == lens[s];
    }
  }
}
