/** Run-length coding of code lengths: scan_tree and send_tree of deps/zlib/trees.c against the
    CODELENS rules of deps/zlib/inflate.c. */
module CodeLengthCoding {
  import opened Bits

  // One symbol of the code length alphabet with the run its extra bits announce.
  datatype Op =
    | Len(l: nat)      // 0..15: one length
    | Rep(n: nat)      // 16: copy the previous length n times
    | Zeros3(n: nat)   // 17: n zero lengths
    | Zeros11(n: nat)  // 18: n zero lengths
  {
    function Symbol(): nat {
      match this case Len(l) => l case Rep(_) => 16 case Zeros3(_) => 17 case Zeros11(_) => 18
    }
    // The run fits the 2, 3 or 7 extra bits of its symbol.
    predicate InRange() {
      match this
      case Len(l) => l <= 15
      case Rep(n) => 3 <= n <= 6
      case Zeros3(n) => 3 <= n <= 10
      case Zeros11(n) => 11 <= n <= 138
    }
    function ExtraBits(): nat {
      match this case Len(_) => 0 case Rep(_) => 2 case Zeros3(_) => 3 case Zeros11(_) => 7
    }
    function Extra(): nat
      requires InRange()
    {
      match this case Len(_) => 0 case Rep(n) => n - 3 case Zeros3(n) => n - 3 case Zeros11(n) => n - 11
    }
  }

  function Fill(l: nat, n: nat): (s: seq<nat>)
    ensures |s| == n && forall i :: 0 <= i < n ==> s[i] == l
  {
    seq(n, _ => l)
  }

  // ---- the decoder's rules ----

  // One round of the CODELENS loop on the lengths read so far; None is "invalid bit length repeat".
  function Apply(op: Op, have: seq<nat>): Option<seq<nat>> {
    match op
    case Len(l) => Some(have + [l])
    case Rep(n) => if have == [] then None else Some(have + Fill(have[|have| - 1], n))
    case Zeros3(n) => Some(have + Fill(0, n))
    case Zeros11(n) => Some(have + Fill(0, n))
  }

  function Expand(ops: seq<Op>, have: seq<nat>): Option<seq<nat>> {
    if ops == [] then Some(have)
    else match Apply(ops[0], have)
      case None => None
      case Some(h) => Expand(ops[1..], h)
  }

  // ---- the encoder's loop ----

  const NONE: int := -1

  function MaxCount(curlen: int, nextlen: int): nat {
    if nextlen == 0 then 138 else if curlen == nextlen then 6 else 7
  }
  function MinCount(curlen: int, nextlen: int): nat {
    if nextlen == 0 then 3 else if curlen == nextlen then 3 else 4
  }

  function LenRun(l: nat, n: nat): (ops: seq<Op>)
    ensures |ops| == n && forall i :: 0 <= i < n ==> ops[i] == Len(l)
  {
    seq(n, _ => Len(l))
  }

  // What is sent when a run of `count` lengths `curlen` ends.
  function Emit(curlen: nat, prevlen: int, count: nat, minCount: nat): seq<Op>
    requires count > 0
  {
    if count < minCount then LenRun(curlen, count)
    else if curlen != 0 then
      if curlen != prevlen then [Len(curlen), Rep(count - 1)] else [Rep(count)]
    else if count <= 10 then [Zeros3(count)]
    else [Zeros11(count)]
  }

  // The loop from index n on, with the run of `count` equal lengths before n still unsent.
  function Runs(lens: seq<nat>, n: nat, prevlen: int, count: nat, maxCount: nat, minCount: nat): seq<Op>
    requires n <= |lens|
    decreases |lens| - n
  {
    if n == |lens| then [] else
    var curlen := lens[n];
    var nextlen := if n + 1 < |lens| then lens[n + 1] else 0xffff;
    if count + 1 < maxCount && curlen == nextlen then
      Runs(lens, n + 1, prevlen, count + 1, maxCount, minCount)
    else
      Emit(curlen, prevlen, count + 1, minCount)
      + Runs(lens, n + 1, curlen, 0, MaxCount(curlen, nextlen), MinCount(curlen, nextlen))
  }

  function Encode(lens: seq<nat>): seq<Op> {
    if lens == [] then [] else Runs(lens, 0, NONE, 0, MaxCount(NONE, lens[0]), MinCount(NONE, lens[0]))
  }

  // The run in progress: prevlen is the last length sent, and the limits fit the current length.
  ghost predicate State(lens: seq<nat>, n: nat, prevlen: int, count: nat, maxCount: nat, minCount: nat) {
    && count <= n <= |lens| && (n == |lens| ==> count == 0)
    && (n < |lens| ==>
          && count < maxCount
          && maxCount == MaxCount(prevlen, lens[n]) && minCount == MinCount(prevlen, lens[n])
          && forall i :: n - count <= i <= n ==> lens[i] == lens[n])
    && (n - count == 0 ==> prevlen == NONE)
    && (n - count > 0 ==> prevlen == lens[n - count - 1])
  }

  lemma Nothing(have: seq<nat>)
    ensures Expand([], have) == Some(have)
  {
  }

  lemma {:induction false} ExpandConcat(a: seq<Op>, b: seq<Op>, have: seq<nat>)
    requires Expand(a, have).Some?
    ensures Expand(a + b, have) == Expand(b, Expand(a, have).value)
  {
    if a == [] {
      assert a + b == b;
    } else {
      assert (a + b)[1..] == a[1..] + b;
      ExpandConcat(a[1..], b, Apply(a[0], have).value);
    }
  }

  lemma {:induction false} ExpandLens(l: nat, n: nat, have: seq<nat>)
    ensures Expand(LenRun(l, n), have) == Some(have + Fill(l, n))
  {
    var ops := LenRun(l, n);
    if n > 0 {
      assert ops[1..] == LenRun(l, n - 1);
      ExpandLens(l, n - 1, have + [l]);
      assert have + [l] + Fill(l, n - 1) == have + Fill(l, n);
    } else {
      assert have + Fill(l, 0) == have;
    }
  }

  // What is sent for one run expands to the run, within the field widths.
  lemma EmitRun(curlen: nat, prevlen: int, count: nat, maxCount: nat, minCount: nat, have: seq<nat>)
    requires 0 < count <= maxCount && curlen <= 15
    requires maxCount == MaxCount(prevlen, curlen) && minCount == MinCount(prevlen, curlen)
    requires prevlen == if have == [] then NONE else have[|have| - 1]
    ensures Expand(Emit(curlen, prevlen, count, minCount), have) == Some(have + Fill(curlen, count))
    ensures forall op :: op in Emit(curlen, prevlen, count, minCount) ==> op.InRange()
  {
    var ops := Emit(curlen, prevlen, count, minCount);
    if count < minCount {
      ExpandLens(curlen, count, have);
    } else if curlen != 0 && curlen != prevlen {
      var h := have + [curlen];
      assert Apply(ops[0], have) == Some(h);
      assert ops[1..] == [Rep(count - 1)];
      assert h + Fill(curlen, count - 1) == have + Fill(curlen, count);
      assert Expand([Rep(count - 1)], h) == Expand([], h + Fill(curlen, count - 1));
    } else {
      assert ops[1..] == [];
    }
  }

  lemma {:induction false} RunsExpand(lens: seq<nat>, n: nat, prevlen: int, count: nat, maxCount: nat, minCount: nat)
    requires State(lens, n, prevlen, count, maxCount, minCount)
    requires forall i :: 0 <= i < |lens| ==> lens[i] <= 15
    ensures Expand(Runs(lens, n, prevlen, count, maxCount, minCount), lens[..n - count]) == Some(lens)
    ensures forall op :: op in Runs(lens, n, prevlen, count, maxCount, minCount) ==> op.InRange()
    decreases |lens| - n
  {
    hide Emit, Expand;
    if n == |lens| {
      Nothing(lens);
      assert lens[..n - count] == lens;
    } else {
      var curlen := lens[n];
      var nextlen := if n + 1 < |lens| then lens[n + 1] else 0xffff;
      if count + 1 < maxCount && curlen == nextlen {
        RunsExpand(lens, n + 1, prevlen, count + 1, maxCount, minCount);
      } else {
        var have := lens[..n - count];
        var mx, mn := MaxCount(curlen, nextlen), MinCount(curlen, nextlen);
        EmitRun(curlen, prevlen, count + 1, maxCount, minCount, have);
        assert have + Fill(curlen, count + 1) == lens[..n + 1];
        RunsExpand(lens, n + 1, curlen, 0, mx, mn);
        ExpandConcat(Emit(curlen, prevlen, count + 1, minCount), Runs(lens, n + 1, curlen, 0, mx, mn), have);
      }
    }
  }

  // Whatever the lengths, the decoder's rules give them back, every run fits its field, and no
  // copy-previous symbol comes first.
  lemma RoundTrip(lens: seq<nat>)
    requires forall i :: 0 <= i < |lens| ==> lens[i] <= 15
    ensures Expand(Encode(lens), []) == Some(lens)
    ensures forall op :: op in Encode(lens) ==> op.InRange()
    ensures Encode(lens) != [] ==> !Encode(lens)[0].Rep?
  {
    if lens != [] {
      RunsExpand(lens, 0, NONE, 0, MaxCount(NONE, lens[0]), MinCount(NONE, lens[0]));
      assert lens[..0] == [];
    }
  }

  // The two trees are sent one after the other and read back as one list.
  lemma RoundTripTwo(ll: seq<nat>, dl: seq<nat>)
    requires forall i :: 0 <= i < |ll| ==> ll[i] <= 15
    requires forall i :: 0 <= i < |dl| ==> dl[i] <= 15
    ensures Expand(Encode(ll) + Encode(dl), []) == Some(ll + dl)
  {
    RoundTrip(ll);
    RoundTrip(dl);
    ExpandConcat(Encode(ll), Encode(dl), []);
    ExpandShift(Encode(dl), ll, [], dl);
    assert ll + [] == ll;
  }

  // Lengths already read do not matter, as long as the first symbol is not a copy.
  lemma {:induction false} ExpandShift(ops: seq<Op>, pre: seq<nat>, have: seq<nat>, all: seq<nat>)
    requires Expand(ops, have) == Some(all)
    ensures Expand(ops, pre + have) == Some(pre + all)
    decreases ops
  {
    if ops != [] {
      var h := Apply(ops[0], have).value;
      match ops[0] {
        case Len(l) => assert pre + (have + [l]) == pre + have + [l];
        case Rep(n) => assert pre + (have + Fill(have[|have| - 1], n)) == pre + have + Fill(have[|have| - 1], n);
        case Zeros3(n) => assert pre + (have + Fill(0, n)) == pre + have + Fill(0, n);
        case Zeros11(n) => assert pre + (have + Fill(0, n)) == pre + have + Fill(0, n);
      }
      ExpandShift(ops[1..], pre, h, all);
    }
  }

  // ---- the two loops of the encoder ----

  // How often a symbol of the code length alphabet is sent.
  function CountSymbol(ops: seq<Op>, sym: nat): nat {
    if ops == [] then 0 else (if ops[0].Symbol() == sym then 1 else 0) + CountSymbol(ops[1..], sym)
  }

  lemma {:induction false} CountConcat(a: seq<Op>, b: seq<Op>, sym: nat)
    ensures CountSymbol(a + b, sym) == CountSymbol(a, sym) + CountSymbol(b, sym)
  {
    if a == [] {
      assert a + b == b;
    } else {
      assert (a + b)[1..] == a[1..] + b;
      CountConcat(a[1..], b, sym);
    }
  }

  lemma {:induction false} CountLens(l: nat, n: nat, sym: nat)
    ensures CountSymbol(LenRun(l, n), sym) == if sym == l then n else 0
  {
    if n > 0 {
      assert LenRun(l, n)[1..] == LenRun(l, n - 1);
      CountLens(l, n - 1, sym);
    }
  }

  // Send the lengths as run-length symbols.
  method SendTree(lens: seq<nat>) returns (ops: seq<Op>)
    requires lens != [] && forall i :: 0 <= i < |lens| ==> lens[i] <= 15
    ensures ops == Encode(lens)
  {
    hide Emit, Runs;
    ops := [];
    var prevlen: int := NONE;
    var nextlen := lens[0];
    var count, maxCount, minCount := 0, 7, 4;
    if nextlen == 0 { maxCount, minCount := 138, 3; }
    var n := 0;
    while n < |lens|
      invariant 0 <= n <= |lens| && (n < |lens| ==> nextlen == lens[n])
      invariant Encode(lens) == ops + Runs(lens, n, prevlen, count, maxCount, minCount)
    {
      RunsStep(lens, ops, n, prevlen, count, maxCount, minCount);
      var curlen := nextlen;
      nextlen := if n + 1 < |lens| then lens[n + 1] else 0xffff;
      count := count + 1;
      n := n + 1;
      if count < maxCount && curlen == nextlen { continue; }
      ops := ops + Emit(curlen, prevlen, count, minCount);
      count, prevlen := 0, curlen;
      if nextlen == 0 {
        maxCount, minCount := 138, 3;
      } else if curlen == nextlen {
        maxCount, minCount := 6, 3;
      } else {
        maxCount, minCount := 7, 4;
      }
    }
    RunsEnd(lens, ops, prevlen, count, maxCount, minCount);
  }

  // The counters went up by the number of times each symbol is sent.
  ghost predicate Counted(f: seq<nat>, base: seq<nat>, ops: seq<Op>) {
    |f| == |base| && forall sym :: 0 <= sym < |f| ==> f[sym] == base[sym] + CountSymbol(ops, sym)
  }

  lemma CountedNone(f: seq<nat>)
    ensures Counted(f, f, [])
  {
  }

  lemma CountedConcat(f: seq<nat>, g: seq<nat>, h: seq<nat>, a: seq<Op>, b: seq<Op>)
    requires Counted(g, h, a) && Counted(f, g, b)
    ensures Counted(f, h, a + b)
  {
    forall sym | 0 <= sym < |f| ensures f[sym] == h[sym] + CountSymbol(a + b, sym) { CountConcat(a, b, sym); }
  }

  lemma RunsStep(lens: seq<nat>, ops: seq<Op>, n: nat, prevlen: int, count: nat, maxCount: nat, minCount: nat)
    requires n < |lens|
    ensures
      var nextlen := if n + 1 < |lens| then lens[n + 1] else 0xffff;
      ops + Runs(lens, n, prevlen, count, maxCount, minCount) ==
        if count + 1 < maxCount && lens[n] == nextlen then
          ops + Runs(lens, n + 1, prevlen, count + 1, maxCount, minCount)
        else
          ops + Emit(lens[n], prevlen, count + 1, minCount)
          + Runs(lens, n + 1, lens[n], 0, MaxCount(lens[n], nextlen), MinCount(lens[n], nextlen))
  {
  }

  lemma EncodeStart(lens: seq<nat>)
    requires lens != []
    ensures Encode(lens) == [] + Runs(lens, 0, NONE, 0, MaxCount(NONE, lens[0]), MinCount(NONE, lens[0]))
  {
  }

  lemma RunsEnd(lens: seq<nat>, ops: seq<Op>, prevlen: int, count: nat, maxCount: nat, minCount: nat)
    ensures ops + Runs(lens, |lens|, prevlen, count, maxCount, minCount) == ops
  {
  }

  // Count, without sending, the symbols SendTree will use.
  method ScanTree(lens: seq<nat>, freq: array<nat>)
    requires lens != [] && forall i :: 0 <= i < |lens| ==> lens[i] <= 15
    requires freq.Length >= 19
    modifies freq
    ensures Counted(freq[..], old(freq[..]), Encode(lens))
  {
    hide CountSymbol, Emit, Counted, Runs, Encode;
    CountedNone(freq[..]);
    EncodeStart(lens);
    ghost var ops: seq<Op> := [];
    var prevlen: int := NONE;
    var nextlen := lens[0];
    var count, maxCount, minCount := 0, 7, 4;
    if nextlen == 0 { maxCount, minCount := 138, 3; }
    var n := 0;
    while n < |lens|
      invariant 0 <= n <= |lens| && (n < |lens| ==> nextlen == lens[n])
      invariant Encode(lens) == ops + Runs(lens, n, prevlen, count, maxCount, minCount)
      invariant Counted(freq[..], old(freq[..]), ops)
    {
      RunsStep(lens, ops, n, prevlen, count, maxCount, minCount);
      var curlen := nextlen;
      nextlen := if n + 1 < |lens| then lens[n + 1] else 0xffff;
      count := count + 1;
      n := n + 1;
      if count < maxCount && curlen == nextlen { continue; }
      ghost var sent := Emit(curlen, prevlen, count, minCount);
      ghost var before := freq[..];
      CountRun(freq, curlen, prevlen, count, minCount);
      CountedConcat(freq[..], before, old(freq[..]), ops, sent);
      ops := ops + sent;
      count, prevlen := 0, curlen;
      if nextlen == 0 {
        maxCount, minCount := 138, 3;
      } else if curlen == nextlen {
        maxCount, minCount := 6, 3;
      } else {
        maxCount, minCount := 7, 4;
      }
    }
    RunsEnd(lens, ops, prevlen, count, maxCount, minCount);
  }

  method CountRun(freq: array<nat>, curlen: nat, prevlen: int, count: nat, minCount: nat)
    requires freq.Length >= 19 && curlen <= 15 && count > 0
    modifies freq
    ensures Counted(freq[..], old(freq[..]), Emit(curlen, prevlen, count, minCount))
  {
    forall sym | 0 <= sym < freq.Length
      ensures CountSymbol(LenRun(curlen, count), sym) == if sym == curlen then count else 0
    {
      CountLens(curlen, count, sym);
    }
    ghost var pair := [Len(curlen), Rep(count - 1)];
    forall sym | 0 <= sym < freq.Length
      ensures CountSymbol(pair, sym) == (if sym == curlen || sym == 16 then 1 else 0)
    {
      CountConcat([Len(curlen)], [Rep(count - 1)], sym);
      assert [Len(curlen)] + [Rep(count - 1)] == pair;
    }
    if count < minCount {
      freq[curlen] := freq[curlen] + count;
    } else if curlen != 0 {
      if curlen != prevlen { freq[curlen] := freq[curlen] + 1; }
      freq[16] := freq[16] + 1;
    } else if count <= 10 {
      freq[17] := freq[17] + 1;
    } else {
      freq[18] := freq[18] + 1;
    }
  }
}
