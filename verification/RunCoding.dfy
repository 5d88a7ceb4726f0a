/** What deflate_rle of deps/zlib/deflate.c makes of a text: at every position the longest run of the byte before it, if
    that is at least three long, and otherwise a literal. Only one sequence of symbols is of this kind. */
module RunCoding {
  import opened BitStream
  import opened Lz77
  import opened HashChains
  import opened MatchFinder

  // The symbol for position n of the text.  Unless it is closed, the text may go on.
  ghost predicate RunToken(t: seq<Byte>, closed: bool, n: nat, tok: Token) {
    n < |t| && match tok
      case Literal(c) => c == t[n] && !Repeats(t, n, 1, 3) && (closed || n + 3 <= |t|)
      case Pair(dist, len) =>
        && dist == 1 && 3 <= len <= MAX_MATCH && Repeats(t, n, 1, len)
        && (len == MAX_MATCH || (!Repeats(t, n, 1, len + 1) && (closed || n + len < |t|)))
  }

  // Bytes a symbol stands for.
  function Size(tok: Token): nat {
    match tok case Literal(_) => 1 case Pair(_, len) => len
  }

  function Length(toks: seq<Token>): nat {
    if toks == [] then 0 else Length(toks[..|toks| - 1]) + Size(toks[|toks| - 1])
  }

  ghost predicate Runs(t: seq<Byte>, closed: bool, toks: seq<Token>)
    decreases |toks|
  {
    toks == [] || (Runs(t, closed, toks[..|toks| - 1])
      && RunToken(t, closed, Length(toks[..|toks| - 1]), toks[|toks| - 1]))
  }

  lemma RunsMore(t: seq<Byte>, closed: bool, toks: seq<Token>, tok: Token)
    requires Runs(t, closed, toks) && RunToken(t, closed, Length(toks), tok)
    ensures Runs(t, closed, toks + [tok])
  {
    var all := toks + [tok];
    assert all[..|all| - 1] == toks && all[|all| - 1] == tok;
  }

  lemma {:induction false} SizeOfAll(toks: seq<Token>, out: seq<Byte>)
    requires AllFit(toks, out)
    ensures |Expand(toks, out)| == |out| + Length(toks)
    decreases |toks|
  {
    if toks != [] {
      var n := |toks| - 1;
      var one := [toks[n]];
      assert toks == toks[..n] + one && one[1..] == [];
      ExpandConcat(toks[..n], one, out);
      SizeOfAll(toks[..n], out);
    }
  }

  // Symbols that did not look at the end stay right when the text goes on or ends.
  lemma {:induction false} RunsOn(t: seq<Byte>, more: seq<Byte>, closed: bool, toks: seq<Token>)
    requires Runs(t, false, toks)
    ensures Runs(t + more, closed, toks)
    decreases |toks|
  {
    hide Length;
    if toks != [] {
      RunsOn(t, more, closed, toks[..|toks| - 1]);
      TokenOn(t, more, closed, Length(toks[..|toks| - 1]), toks[|toks| - 1]);
    }
  }

  lemma TokenOn(t: seq<Byte>, more: seq<Byte>, closed: bool, n: nat, tok: Token)
    requires RunToken(t, false, n, tok)
    ensures RunToken(t + more, closed, n, tok)
  {
    match tok
    case Literal(_) => RepeatsOn(t, more, n, 3);
    case Pair(_, len) =>
      RepeatsOn(t, more, n, len);
      if len < MAX_MATCH { RepeatsOn(t, more, n, len + 1); }
  }

  lemma RepeatsOn(t: seq<Byte>, more: seq<Byte>, n: nat, k: nat)
    requires n + k <= |t|
    ensures Repeats(t, n, 1, k) <==> Repeats(t + more, n, 1, k)
  {
    var all := t + more;
    assert forall i :: 0 <= i < |t| ==> all[i] == t[i];
  }

  lemma TokenUnique(t: seq<Byte>, n: nat, a: Token, b: Token)
    requires RunToken(t, true, n, a) && RunToken(t, true, n, b)
    ensures a == b
  {
    hide Repeats;
    if a.Pair? { Shorter(t, n, a.len); }
    if b.Pair? { Shorter(t, n, b.len); }
  }

  lemma Shorter(t: seq<Byte>, n: nat, k: nat)
    requires Repeats(t, n, 1, k)
    ensures forall j: nat :: j <= k ==> Repeats(t, n, 1, j)
  {
  }

  lemma {:induction false} RunsTake(t: seq<Byte>, closed: bool, toks: seq<Token>, k: nat)
    requires Runs(t, closed, toks) && k <= |toks|
    ensures Runs(t, closed, toks[..k]) && Length(toks[..k]) <= Length(toks)
      && (k < |toks| ==> Length(toks[..k]) < Length(toks))
    ensures k < |toks| ==> RunToken(t, closed, Length(toks[..k]), toks[k])
    decreases |toks|
  {
    var n := |toks| - 1;
    if k == |toks| {
      assert toks[..k] == toks;
    } else {
      assert toks[..n][..k] == toks[..k];
      RunsTake(t, closed, toks[..n], k);
    }
  }

  // The symbols of the whole text are determined.
  lemma {:induction false} Prefix(t: seq<Byte>, a: seq<Token>, b: seq<Token>, k: nat)
    requires Runs(t, true, a) && Runs(t, true, b) && k <= |a| && k <= |b|
    ensures a[..k] == b[..k]
  {
    hide Length, RunToken;
    if k > 0 {
      Prefix(t, a, b, k - 1);
      RunsTake(t, true, a, k - 1);
      RunsTake(t, true, b, k - 1);
      TokenUnique(t, Length(a[..k - 1]), a[k - 1], b[k - 1]);
      assert a[..k] == a[..k - 1] + [a[k - 1]] && b[..k] == b[..k - 1] + [b[k - 1]];
    }
  }

  /** A text has only one such sequence of symbols. */
  lemma Determined(t: seq<Byte>, a: seq<Token>, b: seq<Token>)
    requires Runs(t, true, a) && Runs(t, true, b) && Length(a) == Length(b)
    ensures a == b
  {
    hide Length, RunToken;
    var k := if |a| <= |b| then |a| else |b|;
    Prefix(t, a, b, k);
    RunsTake(t, true, a, k);
    RunsTake(t, true, b, k);
    assert a[..|a|] == a && b[..|b|] == b;
  }

  lemma {:induction false} AtLeastOne(t: seq<Byte>, toks: seq<Token>)
    requires Runs(t, true, toks)
    ensures Length(toks) >= |toks|
    decreases |toks|
  {
    if toks != [] { AtLeastOne(t, toks[..|toks| - 1]); }
  }

  // ---- symbols that the strategy chooses for their own text ----

  // The last byte after symbol i.
  function LastByte(toks: seq<Token>, i: nat): Byte
    requires i < |toks|
  {
    if toks[i].Literal? then toks[i].c else if i > 0 && toks[i - 1].Literal? then toks[i - 1].c else 0
  }

  predicate OtherNext(toks: seq<Token>, i: nat, c: Byte) {
    i + 1 < |toks| && toks[i + 1].Literal? && toks[i + 1].c != c
  }

  // Every run stands between a literal and a different one, and no literal is the second of four equal bytes.
  predicate NeatAt(toks: seq<Token>, i: nat)
    requires i < |toks|
  {
    match toks[i]
    case Literal(c) => i > 0 ==> LastByte(toks, i - 1) != c || OtherNext(toks, i, c)
    case Pair(dist, len) =>
      dist == 1 && 3 <= len <= MAX_MATCH && i > 0 && toks[i - 1].Literal? && OtherNext(toks, i, toks[i - 1].c)
  }

  ghost predicate Neat(toks: seq<Token>) {
    forall i: nat :: i < |toks| ==> NeatAt(toks, i)
  }

  lemma {:induction false} CopyOne(out: seq<Byte>, len: nat)
    requires out != []
    ensures forall k :: |out| <= k < |out| + len ==> CopyBack(out, 1, len)[k] == out[|out| - 1]
    decreases len
  {
    if len > 0 {
      var more := out + [out[|out| - 1]];
      CopyOne(more, len - 1);
      assert CopyBack(out, 1, len) == CopyBack(more, 1, len - 1) && CopyBack(more, 1, len - 1)[|out|] == more[|out|];
    }
  }

  // The text before symbol i.
  ghost predicate Text(toks: seq<Token>, i: nat, t: seq<Byte>)
    requires i <= |toks|
  {
    && AllFit(toks[..i], []) && Expand(toks[..i], []) == t && |t| == Length(toks[..i])
    && if i == 0 then t == [] else t != [] && t[|t| - 1] == LastByte(toks, i - 1)
  }

  lemma TextNext(toks: seq<Token>, i: nat, t: seq<Byte>)
    requires i < |toks| && Neat(toks) && Text(toks, i, t)
    ensures Fits(toks[i], t) && Text(toks, i + 1, Put(t, toks[i]))
  {
    hide Neat;
    NeatFacts(toks, i);
    var one := [toks[i]];
    assert toks[..i + 1] == toks[..i] + one && one[1..] == [] && toks[..i + 1][..i] == toks[..i];
    ExpandConcat(toks[..i], one, []);
    if toks[i].Pair? { CopyOne(t, toks[i].len); }
    LengthNext(toks, i);
  }

  lemma NeatFacts(toks: seq<Token>, i: nat)
    requires i < |toks| && Neat(toks)
    ensures NeatAt(toks, i)
  {
  }

  lemma LengthNext(toks: seq<Token>, i: nat)
    requires i < |toks|
    ensures Length(toks[..i + 1]) == Length(toks[..i]) + Size(toks[i])
  {
    assert toks[..i + 1][..i] == toks[..i];
  }

  lemma {:induction false} TextAt(toks: seq<Token>, i: nat) returns (t: seq<Byte>)
    requires i <= |toks| && Neat(toks)
    ensures Text(toks, i, t)
  {
    hide Neat, LastByte;
    if i == 0 {
      t := [];
    } else {
      t := TextAt(toks, i - 1);
      TextNext(toks, i - 1, t);
      t := Put(t, toks[i - 1]);
    }
  }

  // Every text on the way is a beginning of the last.
  lemma Begins(toks: seq<Token>, i: nat, t: seq<Byte>)
    requires i <= |toks| && AllFit(toks, []) && Text(toks, i, t)
    ensures t <= Expand(toks, [])
  {
    hide AllFit, LastByte, Length;
    assert toks == toks[..i] + toks[i..];
    ExpandConcat(toks[..i], toks[i..], []);
  }

  lemma NeatToken(toks: seq<Token>, i: nat)
    requires i < |toks| && Neat(toks) && AllFit(toks, [])
    ensures RunToken(Expand(toks, []), true, Length(toks[..i]), toks[i])
  {
    hide Neat, LastByte, Length, Repeats, Expand, AllFit;
    var all := Expand(toks, []);
    var a := TextAt(toks, i);
    TextNext(toks, i, a);
    NeatFacts(toks, i);
    var b := Put(a, toks[i]);
    Begins(toks, i + 1, b);
    if i + 1 < |toks| {
      TextNext(toks, i + 1, b);
      Begins(toks, i + 2, Put(b, toks[i + 1]));
    }
    match toks[i] {
      case Literal(c) => LiteralHere(toks, i, all, a, c);
      case Pair(_, len) => PairHere(toks, i, all, a, len);
    }
  }

  lemma LiteralHere(toks: seq<Token>, i: nat, all: seq<Byte>, a: seq<Byte>, c: Byte)
    requires i < |toks| && toks[i] == Literal(c) && NeatAt(toks, i) && a + [c] <= all && (i == 0 ==> a == [])
    requires i > 0 ==> a != [] && a[|a| - 1] == LastByte(toks, i - 1)
    requires i + 1 < |toks| && toks[i + 1].Literal? ==> a + [c] + [toks[i + 1].c] <= all
    ensures RunToken(all, true, |a|, toks[i])
  {
    var n := |a|;
    assert all[n] == (a + [c])[n] == c;
    if i > 0 {
      if LastByte(toks, i - 1) != c {
        assert all[n - 1] == (a + [c])[n - 1];
        Differs(all, n, 3, n);
      } else {
        assert all[n + 1] == (a + [c] + [toks[i + 1].c])[n + 1];
        Differs(all, n, 3, n + 1);
      }
    }
  }

  lemma PairHere(toks: seq<Token>, i: nat, all: seq<Byte>, a: seq<Byte>, len: nat)
    requires 0 < i < |toks| && toks[i] == Pair(1, len) && NeatAt(toks, i) && a != []
      && a[|a| - 1] == LastByte(toks, i - 1)
    requires CopyBack(a, 1, len) + [toks[i + 1].c] <= all
    ensures RunToken(all, true, |a|, toks[i])
  {
    var n, b := |a|, CopyBack(a, 1, len);
    CopyOne(a, len);
    assert a <= b;
    forall k | n - 1 <= k < n + len ensures all[k] == a[n - 1] {
      assert all[k] == (b + [toks[i + 1].c])[k] == b[k];
    }
    assert all[n + len] == (b + [toks[i + 1].c])[n + len];
    Differs(all, n, len + 1, n + len);
  }

  lemma Differs(t: seq<Byte>, n: nat, k: nat, i: nat)
    requires 0 < n <= i < n + k && i < |t| && t[i] != t[i - 1]
    ensures !Repeats(t, n, 1, k)
  {
  }

  lemma {:induction false} NeatTo(toks: seq<Token>, k: nat)
    requires k <= |toks| && Neat(toks) && AllFit(toks, [])
    ensures Runs(Expand(toks, []), true, toks[..k])
  {
    hide Neat, Length, Expand, AllFit, RunToken;
    if k > 0 {
      NeatTo(toks, k - 1);
      assert toks[..k][..k - 1] == toks[..k - 1] && toks[..k][k - 1] == toks[k - 1];
      NeatToken(toks, k - 1);
    }
  }

  /** Neat symbols are those the strategy chooses for the text they stand for. */
  lemma NeatRuns(toks: seq<Token>)
    requires Neat(toks)
    ensures AllFit(toks, []) && Runs(Expand(toks, []), true, toks)
  {
    hide Neat, Length, Expand, AllFit, RunToken;
    var t := TextAt(toks, |toks|);
    assert toks[..|toks|] == toks;
    NeatTo(toks, |toks|);
  }
}
