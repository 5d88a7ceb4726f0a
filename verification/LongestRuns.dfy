/** Which runs scan_tree and send_tree of deps/zlib/trees.c make of a list of lengths: the longest there are. */
module LongestRuns {
  import opened CodeLengthCoding

  // How often the length at n follows itself, this one included.
  function RunAt(lens: seq<nat>, n: nat): (r: nat)
    requires n < |lens|
    ensures 1 <= r <= |lens| - n && (forall i :: n <= i < n + r ==> lens[i] == lens[n])
    ensures n + r < |lens| ==> lens[n + r] != lens[n]
    decreases |lens| - n
  {
    if n + 1 < |lens| && lens[n + 1] == lens[n] then 1 + RunAt(lens, n + 1) else 1
  }

  function AtMost(a: nat, b: nat): nat {
    if a <= b then a else b
  }

  function OpRun(op: Op): nat {
    match op case Len(_) => 1 case Rep(n) => n case Zeros3(n) => n case Zeros11(n) => n
  }

  // The symbol for a length l that occurs r times in a row, `again` if it is also the one before.
  function Widest(l: nat, r: nat, again: bool): (op: Op)
    requires r > 0
    ensures 1 <= OpRun(op) <= r
  {
    if l == 0 && r >= 11 then Zeros11(AtMost(r, 138))
    else if l == 0 && r >= 3 then Zeros3(r)
    else if l != 0 && again && r >= 3 then Rep(AtMost(r, 6))
    else Len(l)
  }

  function Again(lens: seq<nat>, n: nat): bool
    requires n < |lens|
  {
    n > 0 && lens[n - 1] == lens[n]
  }

  /** The longest run at every position: up to 138 zeros, up to six copies of the length before; shorter than three they
      are sent one by one. */
  function Longest(lens: seq<nat>, n: nat): seq<Op>
    requires n <= |lens|
    decreases |lens| - n
  {
    if n == |lens| then [] else
    var op := Widest(lens[n], RunAt(lens, n), Again(lens, n));
    [op] + Longest(lens, n + OpRun(op))
  }

  lemma {:induction false} RunIs(lens: seq<nat>, n: nat, c: nat)
    requires 1 <= c && n + c <= |lens| && forall i :: n <= i < n + c ==> lens[i] == lens[n]
    ensures RunAt(lens, n) >= c && (n + c == |lens| || lens[n + c] != lens[n] ==> RunAt(lens, n) == c)
    decreases c
  {
    if c > 1 { RunIs(lens, n + 1, c - 1); }
  }

  lemma LongestStep(lens: seq<nat>, n: nat)
    requires n < |lens|
    ensures
      var op := Widest(lens[n], RunAt(lens, n), Again(lens, n));
      Longest(lens, n) == [op] + Longest(lens, n + OpRun(op))
  {
    hide Widest, RunAt, OpRun, Again;
  }

  lemma {:induction false} LongestLens(lens: seq<nat>, n: nat, c: nat)
    requires n + c <= |lens| && n < |lens| && forall i :: n <= i < n + c ==> lens[i] == lens[n]
    requires n + c == |lens| || c == 0 || lens[n + c] != lens[n]
    requires c <= 2 || (c == 3 && lens[n] != 0 && (n == 0 || lens[n - 1] != lens[n]))
    ensures Longest(lens, n) == LenRun(lens[n], c) + Longest(lens, n + c)
    decreases c
  {
    hide Longest, RunAt;
    if c == 0 {
      assert LenRun(lens[n], 0) == [];
    } else {
      LongestStep(lens, n);
      RunIs(lens, n, c);
      if c > 1 { LongestLens(lens, n + 1, c - 1); }
      assert LenRun(lens[n], c) == [Len(lens[n])] + LenRun(lens[n], c - 1);
    }
  }

  // What is sent for one run.
  lemma EmitLongest(lens: seq<nat>, n: nat, c: nat, prevlen: int)
    requires n < |lens| && 0 < c <= MaxCount(prevlen, lens[n]) && n + c <= |lens|
    requires forall i :: n <= i < n + c ==> lens[i] == lens[n]
    requires c == MaxCount(prevlen, lens[n]) || n + c == |lens| || lens[n + c] != lens[n]
    requires prevlen == if n == 0 then NONE else lens[n - 1]
    ensures Longest(lens, n) == Emit(lens[n], prevlen, c, MinCount(prevlen, lens[n])) + Longest(lens, n + c)
  {
    hide Longest, RunAt;
    var l := lens[n];
    RunIs(lens, n, c);
    LongestStep(lens, n);
    if c < MinCount(prevlen, l) {
      LongestLens(lens, n, c);
    } else if l != 0 && l != prevlen {
      RunIs(lens, n + 1, c - 1);
      LongestStep(lens, n + 1);
      assert [Len(l), Rep(c - 1)] == [Len(l)] + [Rep(c - 1)];
    }
  }

  lemma {:induction false} RunsLongest(lens: seq<nat>, n: nat, prevlen: int, count: nat, maxCount: nat, minCount: nat)
    requires State(lens, n, prevlen, count, maxCount, minCount)
    requires forall i :: 0 <= i < |lens| ==> lens[i] <= 15
    ensures Runs(lens, n, prevlen, count, maxCount, minCount) == Longest(lens, n - count)
    decreases |lens| - n
  {
    hide Emit, Longest;
    if n == |lens| {
      LongestEnd(lens);
    } else {
      var curlen := lens[n];
      var nextlen := if n + 1 < |lens| then lens[n + 1] else 0xffff;
      if count + 1 < maxCount && curlen == nextlen {
        RunsLongest(lens, n + 1, prevlen, count + 1, maxCount, minCount);
      } else {
        EmitLongest(lens, n - count, count + 1, prevlen);
        RunsLongest(lens, n + 1, curlen, 0, MaxCount(curlen, nextlen), MinCount(curlen, nextlen));
      }
    }
  }

  lemma LongestEnd(lens: seq<nat>)
    ensures Longest(lens, |lens|) == []
  {
  }

  /** scan_tree and send_tree use the longest runs there are. */
  lemma SendsLongest(lens: seq<nat>)
    requires forall i :: 0 <= i < |lens| ==> lens[i] <= 15
    ensures Encode(lens) == Longest(lens, 0)
  {
    hide Longest;
    if lens == [] {
      LongestEnd(lens);
    } else {
      RunsLongest(lens, 0, NONE, 0, MaxCount(NONE, lens[0]), MinCount(NONE, lens[0]));
    }
  }
}
