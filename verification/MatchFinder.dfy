/** The window, the hash chains and the search for matches in deps/zlib/deflate.c. */
module MatchFinder {
  import opened Bits
  import opened BitStream
  import opened RollingHash
  import opened HashChains

  // The bytes from a on repeat those d before them, n times.
  ghost predicate Repeats(text: seq<Byte>, a: nat, d: nat, n: nat) {
    0 < d <= a && a + n <= |text| && forall i :: a <= i < a + n ==> text[i] == text[i - d]
  }

  class Finder {
    const sh: Shape
    const window: array<Byte>
    const head: array<nat>
    const prev: array<nat>
    const goodMatch: nat
    const niceMatch: nat
    const maxChain: nat
    const hashing: bool  // the strategy looks for matches with the hash table
    var strstart: nat
    var lookahead: nat
    var insert: nat      // strings before strstart still to be inserted
    var insH: nat
    var matchStart: int  // unsigned in the source: it may wrap below zero in a slide
    // next_in and avail_in
    var input: seq<Byte>
    var inpos: nat
    // everything read so far, how much of it has left the window, and what was inserted
    ghost var text: seq<Byte>
    ghost var base: nat
    ghost var ins: set<nat>
    ghost var hi: nat
    // where the text begins that matches may reach back to
    ghost var origin: nat

    ghost predicate Sizes()
      reads this`strstart, this`lookahead, this`insert, this`inpos, this`input
    {
      && sh.Valid() && window.Length == 2 * sh.wsize && head.Length == sh.HashSize() && prev.Length == sh.wsize
      && head != prev && inpos <= |input| && maxChain >= 4 && niceMatch <= MAX_MATCH
      && strstart + lookahead <= window.Length && insert <= strstart && insert <= 2
    }

    // The window holds the end of the text.
    ghost predicate Holds()
      reads this`strstart, this`lookahead, this`text, this`base, window
    {
      && |text| == base + strstart + lookahead <= base + window.Length
      && forall i :: 0 <= i < strstart + lookahead ==> window[i] == text[base + i]
    }

    ghost predicate Linked()
      reads this`strstart, this`lookahead, this`insert, this`ins, this`hi, window, head, prev
    {
      && Chains(window[..], head[..], prev[..], ins, hi, strstart + lookahead, sh)
      && (hi == 0 || (hi + insert < strstart && hi + 3 <= strstart + lookahead))
    }

    // ins_h has seen the first two bytes of the next string.
    ghost predicate Primed()
      reads this`strstart, this`lookahead, this`insert, this`insH, window
    {
      hashing && lookahead >= 3 ==>
        insert == 0 && strstart + 1 < window.Length && HasTwo(insH, window[strstart], window[strstart + 1], sh)
    }

    ghost predicate Valid()
      reads this, window, head, prev
    {
      Sizes() && Holds() && Linked() && Primed() && Rooted()
    }

    // All of the text since the last full flush is in the window, or as much of it as a match may reach.
    ghost predicate Rooted()
      reads this`strstart, this`base, this`origin
    {
      origin <= base && (base == origin || strstart >= sh.MaxDist())
    }

    // Every string was inserted that begins before strstart and is complete.
    ghost predicate Full()
      reads this`strstart, this`lookahead, this`ins, this`hi
    {
      && (forall p :: 0 < p <= hi ==> p in ins)
      && hi == if strstart == 0 || strstart + lookahead < 3 then 0
               else if lookahead >= 2 then strstart - 1 else strstart + lookahead - 3
    }

    // The strings before strstart that were not inserted are those counted by `insert`.
    ghost predicate Caught()
      reads this`strstart, this`insert, this`hi
    {
      hi + insert + 1 == strstart || (hi == 0 && insert == strstart)
    }

    constructor (shape: Shape, good: nat, nice: nat, chain: nat, hash: bool)
      requires shape.Valid() && chain >= 4 && nice <= MAX_MATCH
      ensures hashing == hash && Valid() && sh == shape && text == [] && base == 0 && strstart == 0 && lookahead == 0
        && inpos == |input| && origin == 0 && Full() && Caught() && ins == {}
      ensures goodMatch == good && niceMatch == nice && maxChain == chain
      ensures fresh(window) && fresh(head) && fresh(prev)
    {
      sh, goodMatch, niceMatch, maxChain, hashing := shape, good, nice, chain, hash;
      window := new Byte[2 * shape.wsize](_ => 0);
      head := new nat[shape.HashSize()](_ => 0);
      prev := new nat[shape.wsize](_ => 0);
      strstart, lookahead, insert, insH, matchStart := 0, 0, 0, 0, 0;
      input, inpos := [], 0;
      text, base, ins, hi, origin := [], 0, {}, 0, 0;
      new;
      ChainsNone(window[..], head[..], prev[..], sh);
    }

    // A string of the same bucket.
    ghost predicate Candidate(q: nat, str: nat)
      reads this`ins, window
    {
      && q in ins && 0 < q < str && str + 3 <= window.Length
      && HashAt(window[..], q, sh) == HashAt(window[..], str, sh)
    }

    // No string of the bucket of str is newer than q.
    ghost predicate Newest(q: nat, str: nat)
      reads this`ins, window
    {
      str + 3 <= window.Length && forall r <- ins :: (r + 3 <= window.Length
        && (r < str && HashAt(window[..], r, sh) == HashAt(window[..], str, sh) ==> r <= q))
    }

    // INSERT_STRING.
    method InsertString(str: nat) returns (hashHead: nat)
      requires Sizes() && Chains(window[..], head[..], prev[..], ins, hi, strstart + lookahead, sh)
      requires (hi < str || hi == 0) && str + 3 <= strstart + lookahead
        && HasTwo(insH, window[str], window[str + 1], sh)
      modifies this`insH, this`ins, this`hi, head, prev
      ensures Chains(window[..], head[..], prev[..], ins, hi, strstart + lookahead, sh) && hi == str
      ensures HasTwo(insH, window[str + 1], window[str + 2], sh)
      ensures (hashHead == 0 || Candidate(hashHead, str)) && Newest(hashHead, str)
      ensures ins == old(ins) + if str == 0 then {} else {str}
    {
      hide Chains, HasTwo, Hash3, Update, Low, Pow2;
      ghost var w: seq<Byte>, hd: seq<nat>, pv: seq<nat>, top: nat := window[..], head[..], prev[..],
        strstart + lookahead;
      ChainsSizes(w, hd, pv, ins, hi, top, sh);
      ThirdUpdate(insH, window[str], window[str + 1], window[str + 2], sh);
      insH := Update(insH, window[str + 2], sh.shift, sh.bits);
      assert insH == HashAt(w, str, sh);
      if str == 0 {
        ChainsInsertZero(w, hd, pv, ins, top, sh);
      } else {
        HeadFacts(w, hd, pv, ins, hi, top, sh, str);
        ChainsInsert(w, hd, pv, ins, hi, top, sh, str);
      }
      hashHead := head[insH];
      prev[sh.Slot(str)] := hashHead;
      head[insH] := str;
      assert head[..] == hd[insH := str] && prev[..] == pv[sh.Slot(str) := hd[insH]];
      ins := if str == 0 then {} else ins + {str};
      hi := str;
    }

    // n bytes from strstart on equal those from q on.
    ghost predicate Equal(q: int, n: nat)
      reads this`strstart, window
    {
      && 0 <= q < strstart && strstart + n <= window.Length
      && forall i :: strstart <= i < strstart + n ==> window[i] == window[i - (strstart - q)]
    }

    // How far the strings at strstart and q agree, given that their first three bytes do.
    method Compare(q: nat) returns (len: nat)
      requires strstart + MAX_MATCH < window.Length && Equal(q, 3)
      ensures 3 <= len <= MAX_MATCH && Equal(q, len) && NoLonger(q, len)
    {
      // the source tests `scan < strend` only every eighth comparison; MAX_MATCH - 2 is a multiple of eight
      len := 2;
      while len < MAX_MATCH
        invariant 2 <= len <= MAX_MATCH && Equal(q, if len < MAX_MATCH then len + 1 else len)
      {
        len := len + 1;
        if window[strstart + len] != window[q + len] {
          Differs(q, len);
          break;
        }
      }
    }

    // The strings at strstart and q do not agree in more than n bytes, or a match cannot be longer.
    ghost predicate NoLonger(q: int, n: nat)
      reads this`strstart, window
    {
      n >= MAX_MATCH || !Equal(q, n + 1)
    }

    lemma Differs(q: nat, n: nat)
      requires q < strstart && strstart + n < window.Length && window[strstart + n] != window[q + n]
      ensures !Equal(q, n + 1)
    {
      assert strstart + n - (strstart - q) == q + n;
    }

    // What does not agree in one more byte does not agree in several.
    lemma NoLongerThan(q: int, n: nat, m: nat)
      requires NoLonger(q, n)
      ensures m >= n ==> NoLonger(q, m)
      ensures m <= MAX_MATCH && Equal(q, m) ==> m <= n
    {
    }

    // What the best match so far promises.
    ghost predicate Best(start: int, len: nat)
      reads this`strstart, window
    {
      0 < start < strstart && strstart - start <= sh.MaxDist() && Equal(start, len)
    }

    // Does the string at q beat a match of bestLen bytes?
    method TryMatch(q: nat, bestLen: nat) returns (len: nat)
      requires Sizes() && Candidate(q, strstart) && strstart + MAX_MATCH < window.Length && 1 <= bestLen < MAX_MATCH
      ensures len == 0 || (3 <= len <= MAX_MATCH && Equal(q, len))
      ensures NoLonger(q, if len > bestLen then len else bestLen)
    {
      hide Hash3;
      var k := if window[q + bestLen] != window[strstart + bestLen] then bestLen
               else if window[q + bestLen - 1] != window[strstart + bestLen - 1] then bestLen - 1
               else if window[q] != window[strstart] then 0
               else if window[q + 1] != window[strstart + 1] then 1
               else MAX_MATCH;
      if k < MAX_MATCH {
        Differs(q, k);
        NoLongerThan(q, k, bestLen);
        return 0;
      }
      // scan[2] and match[2] are not compared: the hashes are equal
      ThirdByte(window[q], window[q + 1], window[q + 2], window[strstart + 2], sh.shift, sh.bits);
      assert window[strstart] == window[strstart - (strstart - q)]
        && window[strstart + 1] == window[strstart + 1 - (strstart - q)];
      assert window[strstart + 2] == window[strstart + 2 - (strstart - q)];
      len := Compare(q);
      NoLongerThan(q, len, bestLen);
    }

    // How many strings of the chain are looked at.
    function Budget(prevLength: nat): nat {
      if prevLength >= goodMatch then maxChain / 4 else maxChain
    }

    function Limit(): nat
      reads this`strstart
    {
      if strstart > sh.MaxDist() then strstart - sh.MaxDist() else 0
    }

    // The length that ends the search.
    function Nice(): nat
      reads this`lookahead
    {
      if niceMatch > lookahead then lookahead else niceMatch
    }

    // The strings of the bucket of strstart that are newer than q, the newest first.
    ghost predicate Trail(visited: seq<nat>, q: nat)
      reads this`ins, this`strstart, window
    {
      && strstart + 3 <= window.Length
      && (forall i :: 0 <= i < |visited| ==>
           visited[i] > q && Candidate(visited[i], strstart) && strstart - visited[i] <= sh.MaxDist())
      && (forall i, k :: 0 <= i < k < |visited| ==> visited[i] > visited[k])
      && (forall r <- ins :: r > q && r < strstart && Candidate(r, strstart) ==> r in visited)
    }

    lemma TrailStart(q: nat)
      requires Candidate(q, strstart) && Newest(q, strstart)
      ensures Trail([], q)
    {
      hide Hash3;
    }

    lemma TrailOn(visited: seq<nat>, q: nat, next: nat)
      requires Trail(visited, q) && Candidate(q, strstart) && strstart - q <= sh.MaxDist() && next < q
      requires forall r <- ins :: r < q && Candidate(r, strstart) ==> r <= next
      ensures Trail(visited + [q], next)
    {
      hide Candidate;
    }

    lemma BestCut(start: int, best: nat, len: nat)
      requires Best(start, best) && len <= best
      ensures Best(start, len)
    {
    }

    // None of the strings visited agrees in more than n bytes.
    ghost predicate NoneLonger(visited: seq<nat>, n: nat)
      reads this`strstart, window
    {
      forall i :: 0 <= i < |visited| ==> NoLonger(visited[i], n)
    }

    lemma NoneLongerNext(visited: seq<nat>, n: nat, m: nat, q: nat)
      requires NoneLonger(visited, n) && n <= m && NoLonger(q, m)
      ensures NoneLonger(visited + [q], m)
    {
      forall i | 0 <= i < |visited| ensures NoLonger(visited[i], m) { NoLongerThan(visited[i], n, m); }
    }

    // A match cut off at the lookahead is the longest there.
    lemma LongestOfAll(visited: seq<nat>, best: nat, len: nat)
      requires NoneLonger(visited, best) && len == if best <= lookahead then best else lookahead
      ensures forall i, n: nat :: 0 <= i < |visited| && n <= MAX_MATCH && n <= lookahead && Equal(visited[i], n) ==>
        n <= len
    {
      forall i, n: nat | 0 <= i < |visited| && n <= MAX_MATCH && n <= lookahead && Equal(visited[i], n)
        ensures n <= len {
        NoLongerThan(visited[i], best, n);
      }
    }

    // The best match is the newest of its length.
    ghost predicate First(visited: seq<nat>, start: int, len: nat)
      reads this`strstart, window
    {
      exists k :: 0 <= k < |visited| && visited[k] == start && forall i :: 0 <= i < k ==> !Equal(visited[i], len)
    }

    lemma FirstMore(visited: seq<nat>, start: int, len: nat, q: nat)
      requires First(visited, start, len)
      ensures First(visited + [q], start, len)
    {
      hide Equal;
      var k :| 0 <= k < |visited| && visited[k] == start && forall i :: 0 <= i < k ==> !Equal(visited[i], len);
      assert (visited + [q])[k] == start;
    }

    lemma FirstLast(visited: seq<nat>, best: nat, q: nat, len: nat)
      requires NoneLonger(visited, best) && best < len <= MAX_MATCH
      ensures First(visited + [q], q, len)
    {
      forall i | 0 <= i < |visited| ensures !Equal(visited[i], len) { NoLongerThan(visited[i], best, len); }
      assert (visited + [q])[|visited|] == q;
    }

    // Cut off at the lookahead it still is, since nothing before it was long enough to end the search.
    lemma FirstCut(visited: seq<nat>, start: int, best: nat, len: nat, stop: nat)
      requires First(visited, start, best) && NoneLonger(visited[..|visited| - 1], stop)
      requires len == best || (stop < len <= best && len <= MAX_MATCH)
      ensures First(visited, start, len)
    {
      hide Equal;
      var k :| 0 <= k < |visited| && visited[k] == start && forall i :: 0 <= i < k ==> !Equal(visited[i], best);
      if len < best {
        forall i | 0 <= i < k ensures !Equal(visited[i], len) {
          assert visited[..|visited| - 1][i] == visited[i];
          NoLongerThan(visited[i], stop, len);
        }
      }
    }

    // The search was not over before the last string visited.
    function Stop(prevLength: nat): nat
      reads this`lookahead
    {
      if Nice() > prevLength + 1 then Nice() - 1 else prevLength
    }

    // The newest strings of the bucket of strstart.
    ghost predicate Newests(visited: seq<nat>)
      reads this`ins, this`strstart, window
    {
      && visited != [] && strstart + 3 <= window.Length
      && (forall i :: 0 <= i < |visited| ==>
           Candidate(visited[i], strstart) && strstart - visited[i] <= sh.MaxDist())
      && (forall i, k :: 0 <= i < k < |visited| ==> visited[i] > visited[k])
      && (forall r <- ins :: r > visited[|visited| - 1] && r < strstart && Candidate(r, strstart) ==> r in visited)
    }

    // Why the search is over: enough strings, none left in reach, or one long enough.
    ghost predicate Over(visited: seq<nat>, prevLength: nat, len: nat)
      reads this`ins, this`strstart, this`lookahead, window
    {
      |visited| == Budget(prevLength) || len >= Nice()
      || forall r <- ins :: Limit() < r < strstart && Candidate(r, strstart) ==> r in visited
    }

    // The strings a search for a match longer than prevLength looks at.
    ghost predicate Searched(visited: seq<nat>, prevLength: nat, len: nat)
      reads this`ins, this`strstart, this`lookahead, window
    {
      && Newests(visited) && |visited| <= Budget(prevLength) && Over(visited, prevLength, len)
      && NoneLonger(visited[..|visited| - 1], Stop(prevLength))
    }

    /** longest_match: the strings visited are the newest of the bucket, up to the limits or to the first match of nice
        length; none of them agrees longer with the string at strstart, as far as the lookahead goes, than the length
        returned, and none newer than match_start so long. */
    method LongestMatch(hashHead: nat, prevLength: nat) returns (len: nat, ghost visited: seq<nat>)
      requires Sizes() && Chains(window[..], head[..], prev[..], ins, hi, strstart + lookahead, sh) && hi == strstart
      requires Candidate(hashHead, strstart) && Newest(hashHead, strstart) && strstart - hashHead <= sh.MaxDist()
      requires strstart + MIN_LOOKAHEAD <= window.Length && 2 <= prevLength < MAX_MATCH
      modifies this`matchStart
      ensures len <= lookahead && (len > prevLength ==> Best(matchStart, len) && First(visited, matchStart, len))
      ensures (len >= prevLength || len == lookahead) && len <= MAX_MATCH
      ensures Searched(visited, prevLength, len)
      ensures forall i, n: nat :: 0 <= i < |visited| && n <= MAX_MATCH && n <= lookahead && Equal(visited[i], n) ==>
        n <= len
    {
      hide Chains, Candidate, Hash3, Newests, NoneLonger, Equal, First, Over;
      var bestLen;
      bestLen, visited := SearchChain(hashHead, prevLength);
      len := if bestLen <= lookahead then bestLen else lookahead;
      LongestOfAll(visited, bestLen, len);
      if len > prevLength {
        BestCut(matchStart, bestLen, len);
        FirstCut(visited, matchStart, bestLen, len, Stop(prevLength));
      }
    }

    // The loop of longest_match.
    method SearchChain(hashHead: nat, prevLength: nat) returns (bestLen: nat, ghost visited: seq<nat>)
      requires Sizes() && Chains(window[..], head[..], prev[..], ins, hi, strstart + lookahead, sh) && hi == strstart
      requires Candidate(hashHead, strstart) && Newest(hashHead, strstart) && strstart - hashHead <= sh.MaxDist()
      requires strstart + MIN_LOOKAHEAD <= window.Length && 2 <= prevLength < MAX_MATCH
      modifies this`matchStart
      ensures prevLength <= bestLen <= MAX_MATCH
      ensures bestLen > prevLength ==> Best(matchStart, bestLen) && First(visited, matchStart, bestLen)
      ensures NoneLonger(visited, bestLen)
      ensures Searched(visited, prevLength, if bestLen <= lookahead then bestLen else lookahead)
    {
      hide Chains, Candidate, Hash3, NoLonger, NoneLonger, Equal, First, Trail, Newest, Newests, Best;
      ghost var w: seq<Byte>, hd: seq<nat>, pv: seq<nat> := window[..], head[..], prev[..];
      var chainLength: int := maxChain;
      bestLen := prevLength;
      var nice := niceMatch;
      var limit := Limit();
      if prevLength >= goodMatch { chainLength := chainLength / 4; }
      if nice > lookahead { nice := lookahead; }
      var q: nat := hashHead;
      visited := [];
      TrailStart(q);
      NoneVisited();
      while true
        invariant Sizes() && window[..] == w && head[..] == hd && prev[..] == pv
        invariant Trail(visited, q) && NoneLonger(visited, bestLen) && NoneLonger(visited, Stop(prevLength))
        invariant 0 < chainLength && |visited| + chainLength == Budget(prevLength)
        invariant Candidate(q, strstart) && strstart - q <= sh.MaxDist()
        invariant bestLen == prevLength || (prevLength < bestLen < nice && Best(matchStart, bestLen)
          && First(visited, matchStart, bestLen))
        decreases q
      {
        NextCandidate(q);
        var n := TryMatch(q, bestLen);
        var next: nat := prev[sh.Slot(q)];
        ghost var before := visited;
        VisitOne(before, q, next, bestLen, n, matchStart);
        visited := before + [q];
        if n > bestLen {
          matchStart, bestLen := q, n;
          if n >= nice { break; }
        }
        VisitMore(before, q, bestLen, Stop(prevLength));
        chainLength := chainLength - 1;
        if next <= limit || chainLength == 0 {
          if next <= limit { AllInReach(visited, next); }
          break;
        }
        q := next;
      }
    }

    // One more string was compared, n bytes long if that beats the best.
    lemma VisitOne(before: seq<nat>, q: nat, next: nat, best: nat, n: nat, start: int)
      requires Trail(before, q) && NoneLonger(before, best) && Candidate(q, strstart) && strstart - q <= sh.MaxDist()
      requires NoLonger(q, if n > best then n else best) && n <= MAX_MATCH && (next == 0 || next < q)
      requires n > best ==> Equal(q, n)
      requires forall r <- ins :: r < q && Candidate(r, strstart) ==> r <= next
      ensures 0 < q < strstart && Trail(before + [q], next) && Newests(before + [q])
        && NoneLonger(before + [q], if n > best then n else best)
      ensures (before + [q])[..|before + [q]| - 1] == before
      ensures (n > best ==> First(before + [q], q, n) && Best(q, n))
        && (First(before, start, best) ==> First(before + [q], start, best))
    {
      hide Candidate, NoLonger, NoneLonger, Equal, First, Trail, Newests;
      CandidateFacts(q, strstart);
      NoneLongerNext(before, best, if n > best then n else best, q);
      TrailOn(before, q, next);
      TrailLower(before + [q], next);
      if n > best { FirstLast(before, best, q, n); }
      if First(before, start, best) { FirstMore(before, start, best, q); }
    }

    lemma VisitMore(before: seq<nat>, q: nat, best: nat, stop: nat)
      requires NoneLonger(before, stop) && NoLonger(q, best) && best <= stop
      ensures NoneLonger(before + [q], stop)
    {
      hide NoLonger, NoneLonger;
      NoLongerThan(q, best, stop);
      NoneLongerNext(before, stop, stop, q);
    }

    lemma NoneVisited()
      ensures forall n: nat :: NoneLonger([], n)
    {
    }

    // What is newer than the last string visited was visited.
    lemma TrailLower(visited: seq<nat>, next: nat)
      requires visited != [] && Trail(visited, next)
      ensures Newests(visited)
    {
      hide Candidate;
    }

    lemma AllInReach(visited: seq<nat>, next: nat)
      requires Trail(visited, next) && next <= Limit()
      ensures forall r <- ins :: Limit() < r < strstart && Candidate(r, strstart) ==> r in visited
    {
      hide Candidate;
    }

    lemma CandidateFacts(q: nat, str: nat)
      requires Candidate(q, str)
      ensures 0 < q < str
    {
    }

    // The next string on the chain is a candidate too, unless the chain ends, and none is left out.
    lemma NextCandidate(q: nat)
      requires Sizes() && Chains(window[..], head[..], prev[..], ins, hi, strstart + lookahead, sh) && hi == strstart
      requires Candidate(q, strstart) && strstart - q <= sh.MaxDist()
      ensures prev[sh.Slot(q)] == 0 || (prev[sh.Slot(q)] < q && Candidate(prev[sh.Slot(q)], strstart))
      ensures forall r <- ins :: r < q && Candidate(r, strstart) ==> r <= prev[sh.Slot(q)]
    {
      hide Chains, Hash3;
      ChainStep(window[..], head[..], prev[..], ins, hi, strstart + lookahead, sh, q);
    }

    // A part of the window is a part of the text.
    lemma Slice(a: nat)
      requires Sizes() && Holds() && a <= strstart
      ensures strstart <= window.Length && base + strstart <= |text|
        && window[a..strstart] == text[base + a..base + strstart]
    {
      hide Chains;
    }

    // zmemcpy(window, window + wsize, wsize)
    method MoveDown()
      requires Sizes()
      modifies window
      ensures forall i :: 0 <= i < sh.wsize ==> window[i] == old(window[i + sh.wsize])
    {
      for k := 0 to sh.wsize
        invariant forall i :: 0 <= i < k ==> window[i] == old(window[i + sh.wsize])
        invariant forall i :: k <= i < window.Length ==> window[i] == old(window[i])
      {
        window[k] := window[k + sh.wsize];
      }
    }

    method SlideTable(t: array<nat>)
      modifies t
      ensures t[..] == SlideAll(old(t[..]), sh.wsize)
    {
      var n := t.Length;
      while n > 0
        invariant 0 <= n <= t.Length
        invariant forall i :: 0 <= i < n ==> t[i] == old(t[i])
        invariant forall i :: n <= i < t.Length ==> t[i] == Slid(old(t[i]), sh.wsize)
      {
        n := n - 1;
        var m := t[n];
        t[n] := if m >= sh.wsize then m - sh.wsize else 0;
      }
    }

    // The bytes move; what the window means does not change.
    method SlideWindow()
      requires Sizes() && Holds() && Primed() && strstart >= sh.wsize + sh.MaxDist()
      modifies window, this`strstart, this`matchStart, this`base
      ensures Sizes() && Holds() && Primed() && strstart == old(strstart) - sh.wsize && base == old(base) + sh.wsize
      ensures strstart - matchStart == old(strstart - matchStart)
      ensures forall i :: 0 <= i < sh.wsize ==> window[i] == old(window[i + sh.wsize])
    {
      hide HasTwo, Pow2;
      WindowSizes(sh);
      MoveDown();
      matchStart := matchStart - sh.wsize;
      strstart := strstart - sh.wsize;
      base := base + sh.wsize;
      if lookahead >= 3 {
        assert window[strstart] == old(window[strstart]);
        ghost var k := strstart + 1;
        assert window[k] == old(window[k + sh.wsize]);
      }
    }

    /** Move the upper half of the window down, and the tables with it. */
    method Slide()
      requires Valid() && strstart >= sh.wsize + sh.MaxDist()
      modifies window, head, prev, this`strstart, this`matchStart, this`base, this`ins, this`hi
      ensures Valid() && strstart == old(strstart) - sh.wsize && base == old(base) + sh.wsize
      ensures strstart - matchStart == old(strstart - matchStart)
      ensures Keeps(old(ins), old(base), ins, base) && (old(Full()) ==> Full())
        && (old(Full() && Caught()) ==> Caught())
    {
      hide Chains, SlideAll, SlidIns, HasTwo, Pow2, Holds, Primed;
      WindowSizes(sh);
      ghost var w: seq<Byte>, hd: seq<nat>, pv: seq<nat>, top: nat := window[..], head[..], prev[..],
        strstart + lookahead;
      SlideWindow();
      ghost var w': seq<Byte> := window[..];
      assert forall i :: 0 <= i < sh.wsize ==> w'[i] == w[i + sh.wsize];
      ChainsSlid(w, w', hd, pv, ins, hi, top, sh);
      SlideTables();
      ChainsKnown(w, hd, pv, ins, hi, top, sh);
      SlideKeeps(ins, hi, sh.wsize);
      ins, hi := SlidIns(ins, hi, sh.wsize), Slid(hi, sh.wsize);
      assert window[..] == w';
    }

    method SlideTables()
      requires head != prev
      modifies head, prev
      ensures head[..] == SlideAll(old(head[..]), sh.wsize) && prev[..] == SlideAll(old(prev[..]), sh.wsize)
    {
      hide SlideAll;
      SlideTable(head);
      SlideTable(prev);
    }

    // The memcpy of read_buf.
    method CopyIn(top: nat, n: nat)
      requires top + n <= window.Length && inpos + n <= |input|
      modifies window
      ensures forall i :: 0 <= i < top ==> window[i] == old(window[i])
      ensures forall i :: top <= i < top + n ==> window[i] == input[inpos + (i - top)]
    {
      for k := 0 to n
        invariant forall i :: 0 <= i < top ==> window[i] == old(window[i])
        invariant forall i :: top <= i < top + k ==> window[i] == input[inpos + (i - top)]
      {
        window[top + k] := input[inpos + k];
      }
    }

    static lemma HeldMore(w: seq<Byte>, text: seq<Byte>, more: seq<Byte>, base: nat, top: nat)
      requires |text| == base + top && top + |more| <= |w| && (forall i :: 0 <= i < top ==> w[i] == text[base + i])
      requires forall i :: top <= i < top + |more| ==> w[i] == more[i - top]
      ensures forall i :: 0 <= i < top + |more| ==> w[i] == (text + more)[base + i]
    {
    }

    // read_buf: take up to `size` bytes of the input into the window behind the lookahead.
    method ReadBuf(size: nat)
      requires Valid() && strstart + lookahead + size <= window.Length && size > 0 && inpos < |input|
      modifies window, this`inpos, this`lookahead, this`text
      ensures Sizes() && Holds() && Linked() && strstart + lookahead <= window.Length
      ensures inpos > old(inpos) && lookahead == old(lookahead) + (inpos - old(inpos))
        && text == old(text) + input[old(inpos)..inpos]
      ensures inpos == |input| || lookahead == old(lookahead) + size
    {
      hide Chains, HasTwo, Primed;
      ghost var w: seq<Byte> := window[..];
      var top := strstart + lookahead;
      var n := if |input| - inpos > size then size else |input| - inpos;
      ghost var more := input[inpos..inpos + n];
      CopyIn(top, n);
      ghost var w': seq<Byte> := window[..];
      HeldMore(w', text, more, base, top);
      ChainsGrow(w, w', head[..], prev[..], ins, hi, top, top + n, sh);
      text := text + more;
      inpos, lookahead := inpos + n, lookahead + n;
    }

    // Insert strings that were left over, now that their bytes have arrived.
    method CatchUp()
      requires Sizes() && Holds() && Linked() && Rooted()
      modifies this`insert, this`insH, this`ins, this`hi, head, prev
      ensures Valid() && insert <= old(insert) && (insert == 0 || lookahead + insert < MIN_MATCH)
      ensures ins == old(ins) + Strings(old(strstart - insert), strstart - insert)
      ensures hi == if insert < old(insert) then strstart - insert - 1 else old(hi)
    {
      hide Chains, HasTwo, Update, Strings, Linked, Holds;
      var str := strstart - insert;
      StringsStep(str);
      if lookahead + insert >= MIN_MATCH {
        Restart(window[str], window[str + 1], sh);
        insH := Update(window[str], window[str + 1], sh.shift, sh.bits);
        while insert > 0
          invariant Sizes() && Holds() && Linked() && str == strstart - insert && insert <= old(insert)
          invariant lookahead + insert >= MIN_MATCH && HasTwo(insH, window[str], window[str + 1], sh)
          invariant ins == old(ins) + Strings(old(strstart - insert), str)
          invariant hi == if insert < old(insert) then str - 1 else old(hi)
        {
          InsertNext();
          StringsNext(old(strstart - insert), str);
          str := str + 1;
          if lookahead + insert < MIN_MATCH { break; }
        }
      }
    }

    lemma StringsStep(a: nat)
      ensures Strings(a, a) == {}
    {
    }

    lemma StringsNext(a: nat, b: nat)
      requires a <= b
      ensures Strings(a, b + 1) == Strings(a, b) + if b == 0 then {} else {b}
    {
    }

    // The next of the strings left over.
    method InsertNext()
      requires Sizes() && Holds() && Linked() && 0 < insert && lookahead + insert >= MIN_MATCH
      requires HasTwo(insH, window[strstart - insert], window[strstart - insert + 1], sh)
      modifies this`insert, this`insH, this`ins, this`hi, head, prev
      ensures Sizes() && Holds() && Linked() && insert == old(insert) - 1 && hi == old(strstart - insert)
      ensures ins == old(ins) + if hi == 0 then {} else {hi}
      ensures HasTwo(insH, window[strstart - insert], window[strstart - insert + 1], sh)
    {
      hide Chains, HasTwo, Candidate, Newest;
      var hashHead := InsertString(strstart - insert);
      insert := insert - 1;
    }

    /** fill_window: slide if needed, then read until there is enough lookahead or no more input. */
    method FillWindow()
      requires Valid() && lookahead < MIN_LOOKAHEAD
      modifies window, head, prev, this`strstart, this`lookahead, this`matchStart, this`insert, this`insH, this`inpos,
               this`text, this`base, this`ins, this`hi
      ensures Valid() && strstart + MIN_LOOKAHEAD <= window.Length
      ensures lookahead >= MIN_LOOKAHEAD || inpos == |input|
      ensures base + strstart == old(base + strstart) && strstart - matchStart == old(strstart - matchStart)
      ensures inpos >= old(inpos) && text == old(text) + input[old(inpos)..inpos]
      ensures strstart == old(strstart) || 0 < sh.MaxDist() <= strstart < old(strstart)
      // it slides when it has to, and fills the window if there is input enough
      ensures base == old(base) + if old(strstart) >= sh.wsize + sh.MaxDist() then sh.wsize else 0
      ensures inpos == |input| || strstart + lookahead == window.Length
      ensures Keeps(old(ins), old(base), ins, base)
      ensures (old(Full() && Caught()) ==> Full() && Caught()) && (old(Full() && inpos == |input|) ==> Full())
    {
      hide Chains, HasTwo, Pow2, Linked, Holds, Primed, Full, Caught, Keeps;
      WindowSizes(sh);
      var more := window.Length - lookahead - strstart;
      KeepsAll(ins, base);
      if strstart >= sh.wsize + sh.MaxDist() {
        Slide();
        more := more + sh.wsize;
      }
      if inpos == |input| { return; }
      // there is always room to read at least two bytes
      assert more >= 2;
      ghost var ins1, base1 := ins, base;
      TakeIn(more);
      KeepsTrans(old(ins), old(base), ins1, base1, ins);
      // one round of the do-while loop is enough: the window is full or the input is used up
      assert lookahead >= MIN_LOOKAHEAD || inpos == |input|;
    }

    // Read, and insert the strings that were left over.
    method TakeIn(size: nat)
      requires Valid() && strstart + lookahead + size <= window.Length && size > 0 && inpos < |input|
      modifies window, head, prev, this`lookahead, this`insert, this`insH, this`inpos, this`text, this`ins, this`hi
      ensures Valid() && strstart + lookahead <= window.Length
      ensures inpos > old(inpos) && lookahead == old(lookahead) + (inpos - old(inpos))
        && text == old(text) + input[old(inpos)..inpos]
      ensures inpos == |input| || lookahead == old(lookahead) + size
      ensures old(ins) <= ins && (old(Full() && Caught()) ==> Full() && Caught())
    {
      hide Chains, HasTwo, Pow2, Linked, Holds, Primed, Full, Caught, Strings, Rooted;
      if Full() && Caught() { FullFacts(); }
      ReadBuf(size);
      ghost var ins1, hi1, insert1 := ins, hi, insert;
      CatchUp();
      if old(Full() && Caught()) { FullAgain(ins1, hi1, insert1); }
    }

    static lemma KeepsAll(s: set<nat>, b: nat)
      ensures Keeps(s, b, s, b)
    {
    }

    lemma FullFacts()
      requires Full() && Caught()
      ensures (forall p :: 0 < p <= hi ==> p in ins) && (hi + insert + 1 == strstart || (hi == 0 && insert == strstart))
    {
    }

    // After the strings left over were inserted nothing is missing.
    lemma FullAgain(ins0: set<nat>, hi0: nat, insert0: nat)
      requires Valid() && insert <= insert0 <= strstart && (insert == 0 || lookahead + insert < MIN_MATCH)
      requires lookahead > 0 && (forall p :: 0 < p <= hi0 ==> p in ins0)
        && (hi0 + insert0 + 1 == strstart || (hi0 == 0 && insert0 == strstart))
      requires ins == ins0 + Strings(strstart - insert0, strstart - insert)
      requires hi == if insert < insert0 then strstart - insert - 1 else hi0
      ensures Full() && Caught()
    {
      hide Chains, Holds, Primed, Strings;
      forall p | 0 < p <= hi ensures p in ins { InStrings(strstart - insert0, strstart - insert, p); }
    }

    static lemma KeepsTrans(a: set<nat>, base0: nat, b: set<nat>, base1: nat, c: set<nat>)
      requires Keeps(a, base0, b, base1) && b <= c
      ensures Keeps(a, base0, c, base1)
    {
    }

    // Strings inserted stay so while they are in the window.
    static ghost predicate Keeps(before: set<nat>, base0: nat, after: set<nat>, base1: nat) {
      forall p :: p in before && base0 + p > base1 ==> base0 + p - base1 in after
    }

    /** CLEAR_HASH and the reset of a full flush: nothing before is looked at again. */
    method Forget()
      requires Valid() && lookahead == 0
      modifies head, this`strstart, this`insert, this`base, this`ins, this`hi, this`origin
      ensures Valid() && base + strstart == old(base + strstart) && strstart == 0
      ensures ins == {} && hi == 0 && origin == base == |text| && insert == 0
    {
      hide Chains, HasTwo;
      for n := 0 to head.Length
        invariant forall i :: 0 <= i < n ==> head[i] == 0
        modifies head
      {
        head[n] := 0;
      }
      base, strstart, insert := base + strstart, 0, 0;
      ins, hi, origin := {}, 0, base;
      ChainsNone(window[..], head[..], prev[..], sh);
    }

    // ---- moving on ----

    // The string at strstart was inserted, if it has three bytes.
    ghost predicate Entered()
      reads this`strstart, this`lookahead, this`insert, this`insH, this`inpos, this`input, this`text, this`base,
            this`ins, this`hi, this`origin, window, head, prev
    {
      && Sizes() && Holds() && Rooted() && Chains(window[..], head[..], prev[..], ins, hi, strstart + lookahead, sh)
      && (if lookahead >= 3 then insert == 0 && hi == strstart
        && HasTwo(insH, window[strstart + 1], window[strstart + 2], sh)
          else hi == 0 || (hi + insert < strstart && hi + 3 <= strstart + lookahead))
    }

    // The same as Full, after the string at strstart was inserted.
    ghost predicate EnteredFull()
      reads this`strstart, this`lookahead, this`ins, this`hi
    {
      && (forall p :: 0 < p <= hi ==> p in ins)
      && hi == if strstart + lookahead < 3 then 0 else if lookahead >= 3 then strstart else strstart + lookahead - 3
    }

    lemma FullCaught()
      requires Valid() && hashing && Full() && lookahead >= 3
      ensures Caught()
    {
      hide Chains, HasTwo;
    }

    method Enter() returns (hashHead: nat)
      requires Valid() && hashing
      modifies this`insH, this`ins, this`hi, head, prev
      ensures Entered() && (hashHead == 0 || (lookahead >= 3 && Candidate(hashHead, strstart)))
      ensures lookahead >= 3 ==> Newest(hashHead, strstart)
      ensures ins == old(ins) + if lookahead >= 3 && strstart > 0 then {strstart} else {}
      ensures old(Full()) ==> EnteredFull()
    {
      hide Chains, HasTwo, Candidate, Newest;
      hashHead := 0;
      if lookahead >= MIN_MATCH { hashHead := InsertString(strstart); }
    }

    // One byte further.
    method TakeOne()
      requires Entered() && lookahead > 0
      modifies this`strstart, this`lookahead
      ensures Valid() && strstart == old(strstart) + 1 && lookahead == old(lookahead) - 1
      ensures old(EnteredFull()) ==> Full()
    {
      hide Chains, HasTwo;
      strstart, lookahead := strstart + 1, lookahead - 1;
    }

    // One byte further, without the hash table.
    method TakePlain(n: nat)
      requires Valid() && n <= lookahead && !hashing
      modifies this`strstart, this`lookahead
      ensures Valid() && strstart == old(strstart) + n && lookahead == old(lookahead) - n
    {
      hide Chains;
      strstart, lookahead := strstart + n, lookahead - n;
    }

    // Past a short match, inserting its strings.
    method TakeInserting(len: nat)
      requires Entered() && 1 <= len && len + 3 <= lookahead
      modifies this`strstart, this`lookahead, this`insH, this`ins, this`hi, head, prev
      ensures Valid() && strstart == old(strstart) + len && lookahead == old(lookahead) - len
      ensures ins == old(ins) + Strings(old(strstart) + 1, strstart)
    {
      hide Chains, HasTwo, Strings, Entered;
      ghost var end := strstart + lookahead;
      var n := len - 1;
      StringsStep(strstart + 1);
      while n > 0
        invariant 0 <= n && Entered() && strstart + lookahead == end && lookahead >= n + 4
        invariant strstart + n == old(strstart) + len - 1
        invariant ins == old(ins) + Strings(old(strstart) + 1, strstart + 1)
      {
        TakeOneInserted();
        StringsNext(old(strstart) + 1, strstart);
        n := n - 1;
      }
      TakeOne();
    }

    // strstart++ and INSERT_STRING
    method TakeOneInserted()
      requires Entered() && lookahead >= 4
      modifies this`strstart, this`lookahead, this`insH, this`ins, this`hi, head, prev
      ensures Entered() && strstart == old(strstart) + 1 && lookahead == old(lookahead) - 1
      ensures ins == old(ins) + {strstart}
    {
      hide Chains, HasTwo, Candidate, Newest;
      strstart, lookahead := strstart + 1, lookahead - 1;
      var hashHead := InsertString(strstart);
    }

    // strstart++, and INSERT_STRING unless there are not three bytes ahead.
    method TakeOneMaybe()
      requires Entered() && lookahead > 0
      modifies this`strstart, this`lookahead, this`insH, this`ins, this`hi, head, prev
      ensures Entered() && strstart == old(strstart) + 1 && lookahead == old(lookahead) - 1
      ensures old(EnteredFull()) ==> EnteredFull()
    {
      hide Chains, HasTwo, Candidate, Newest;
      strstart, lookahead := strstart + 1, lookahead - 1;
      if lookahead >= MIN_MATCH { var hashHead := InsertString(strstart); }
    }

    // Past the rest of a lazy match.
    method TakeRest(len: nat)
      requires Entered() && 1 <= len <= lookahead
      modifies this`strstart, this`lookahead, this`insH, this`ins, this`hi, head, prev
      ensures Valid() && strstart == old(strstart) + len && lookahead == old(lookahead) - len
      ensures old(EnteredFull()) ==> Full()
    {
      hide Chains, HasTwo, Entered, EnteredFull, Full;
      var n := len - 1;
      while n != 0
        invariant 0 <= n < lookahead && Entered() && (old(EnteredFull()) ==> EnteredFull())
        invariant strstart + n + 1 == old(strstart) + len && lookahead - n - 1 == old(lookahead) - len
      {
        TakeOneMaybe();
        n := n - 1;
      }
      TakeOne();
    }

    // Past a long match, without inserting its strings.
    method TakeSkipping(len: nat)
      requires Entered() && 1 <= len <= lookahead && strstart + len + 1 < window.Length && lookahead >= 3
      modifies this`strstart, this`lookahead, this`insH
      ensures Valid() && strstart == old(strstart) + len && lookahead == old(lookahead) - len
    {
      hide Chains, HasTwo, Update;
      strstart, lookahead := strstart + len, lookahead - len;
      Restart(window[strstart], window[strstart + 1], sh);
      insH := Update(window[strstart], window[strstart + 1], sh.shift, sh.bits);
    }

    // Strings before strstart that will have to be inserted when more input comes.
    method LeaveStrings()
      requires Valid() && lookahead == 0
      modifies this`insert
      ensures Valid() && (old(Full()) ==> Full() && Caught())
      ensures insert == if strstart < MIN_MATCH - 1 then strstart else MIN_MATCH - 1
    {
      hide Chains;
      insert := if strstart < MIN_MATCH - 1 then strstart else MIN_MATCH - 1;
    }

    // A match in the window is a repetition in the text.
    lemma BestRepeats(start: int, len: nat)
      requires Sizes() && Holds() && Best(start, len) && len <= lookahead
      ensures Repeats(text, base + strstart, strstart - start, len) && 0 < strstart - start <= sh.MaxDist()
    {
      var a, d := base + strstart, strstart - start;
      forall i | a <= i < a + len ensures text[i] == text[i - d] {
        var k := i - base;
        assert window[k] == window[k - d];
      }
    }
  }

  lemma WindowSizes(sh: Shape)
    requires sh.Valid()
    ensures 512 <= sh.wsize <= 32768
  {
    Pow2Mono(9, sh.wbits);
    Pow2Mono(sh.wbits, 15);
    assert Pow2(5) == 32;
    assert Pow2(9) == 512;
    assert Pow2(12) == 4096;
    assert Pow2(15) == 32768;
  }

  lemma ChainsSizes(w: seq<Byte>, head: seq<nat>, prev: seq<nat>, ins: set<nat>, hi: nat, top: nat, sh: Shape)
    requires Chains(w, head, prev, ins, hi, top, sh)
    ensures |head| == sh.HashSize() && |prev| == sh.wsize == Pow2(sh.wbits) && top <= |w|
  {
  }

  // Two updates from some older hash.
  ghost predicate HasTwo(h: nat, a: Byte, b: Byte, sh: Shape) {
    exists g: nat :: h == Update(Update(g, a, sh.shift, sh.bits), b, sh.shift, sh.bits)
  }

  // The third update completes the hash of the string, and starts the next one.
  lemma ThirdUpdate(h: nat, a: Byte, b: Byte, c: Byte, sh: Shape)
    requires HasTwo(h, a, b, sh) && sh.Valid()
    ensures Update(h, c, sh.shift, sh.bits) == Hash3(a, b, c, sh.shift, sh.bits)
    ensures HasTwo(Update(h, c, sh.shift, sh.bits), b, c, sh)
  {
    hide Update, Hash3;
    var g: nat :| h == Update(Update(g, a, sh.shift, sh.bits), b, sh.shift, sh.bits);
    ThreeForget(g, a, b, c, sh.shift, sh.bits);
    var f := Update(g, a, sh.shift, sh.bits);
    assert Update(h, c, sh.shift, sh.bits) == Update(Update(f, b, sh.shift, sh.bits), c, sh.shift, sh.bits);
  }

  // ins_h = window[str]; UPDATE_HASH(window[str + 1])
  lemma Restart(a: Byte, b: Byte, sh: Shape)
    requires sh.Valid()
    ensures HasTwo(Update(a, b, sh.shift, sh.bits), a, b, sh)
  {
    FirstUpdate(a, sh);
    hide Update;
    assert Update(a, b, sh.shift, sh.bits) == Update(Update(0, a, sh.shift, sh.bits), b, sh.shift, sh.bits);
  }

  lemma FirstUpdate(a: Byte, sh: Shape)
    requires sh.Valid()
    ensures Update(0, a, sh.shift, sh.bits) == a
  {
    hide Low, Pow2;
    ShlZero(sh.shift);
    XorWithZero(a);
    Pow2Mono(8, sh.bits);
    ByteBelow();
    LowSmall(a, sh.bits);
  }

  lemma XorWithZero(a: nat)
    ensures Xor(0, a) == a
  {
  }
}
