/** What deflate_fast and deflate_slow of deps/zlib/deflate.c make of a text, told without window and tables: which
    earlier strings are compared, which match is chosen, and what becomes of it. */
module MatchChoice {
  import opened Bits
  import opened BitStream
  import opened Lz77
  import opened RollingHash
  import opened HashChains
  import opened MatchFinder
  import RunCoding

  const TOO_FAR: nat := 4096

  // The configuration of the search; `lazy` is max_insert_length in deflate_fast.
  datatype Tuning = Tuning(sh: Shape, good: nat, nice: nat, chain: nat, lazy: nat, filtered: bool, slow: bool)

  /** What happened at position n, with `look` bytes ahead: the strings inserted before, those of them the search
      compared, and the length it returned with its distance. */
  datatype Choice = Choice(n: nat, look: nat, known: set<nat>, seen: seq<nat>, raw: nat, dist: nat)

  // The strings at p and n are in the same bucket.
  ghost predicate Alike(t: seq<Byte>, p: nat, n: nat, sh: Shape) {
    && p + 3 <= |t| && n + 3 <= |t|
    && Hash3(t[p], t[p + 1], t[p + 2], sh.shift, sh.bits) == Hash3(t[n], t[n + 1], t[n + 2], sh.shift, sh.bits)
  }

  function Back(c: Choice, i: nat): nat
    requires i < |c.seen|
  {
    if c.seen[i] < c.n then c.n - c.seen[i] else 0
  }

  // The strings compared are the newest of the bucket, the newest first.
  ghost predicate Latest(t: seq<Byte>, c: Choice, sh: Shape) {
    && c.seen != []
    && (forall i :: 0 <= i < |c.seen| ==>
         && c.seen[i] in c.known && c.seen[i] < c.n <= c.seen[i] + sh.MaxDist() && Alike(t, c.seen[i], c.n, sh))
    && (forall i, k :: 0 <= i < k < |c.seen| ==> c.seen[i] > c.seen[k])
    && (forall p <- c.known :: c.seen[|c.seen| - 1] < p < c.n && Alike(t, p, c.n, sh) ==> p in c.seen)
  }

  // No string of the bucket in reach was left out, or there was none.
  ghost predicate AllCompared(t: seq<Byte>, c: Choice, sh: Shape) {
    forall p <- c.known :: p < c.n < p + sh.MaxDist() && Alike(t, p, c.n, sh) ==> p in c.seen
  }

  ghost predicate NoneInReach(t: seq<Byte>, c: Choice, sh: Shape) {
    forall p <- c.known :: p < c.n && Alike(t, p, c.n, sh) ==> p + sh.MaxDist() < c.n
  }

  function Enough(u: Tuning, c: Choice): nat {
    if u.nice > c.look then c.look else u.nice
  }

  function Chain(u: Tuning, best: nat): nat {
    if best >= u.good then u.chain / 4 else u.chain
  }

  // The shortest match that ends the search.
  function Ending(u: Tuning, c: Choice, best: nat): nat {
    if Enough(u, c) > best + 1 then Enough(u, c) else best + 1
  }

  /** longest_match, looking for more than `best` bytes. */
  ghost predicate Longest(t: seq<Byte>, u: Tuning, c: Choice, best: nat) {
    && Latest(t, c, u.sh) && |c.seen| <= Chain(u, best) && best <= c.raw <= c.look && c.raw <= MAX_MATCH
    && (|c.seen| == Chain(u, best) || c.raw >= Enough(u, c) || AllCompared(t, c, u.sh))
    && (forall i :: 0 <= i < |c.seen| - 1 ==> !Repeats(t, c.n, Back(c, i), Ending(u, c, best)))
    && (forall i, k: nat :: 0 <= i < |c.seen| && k <= MAX_MATCH && k <= c.look && Repeats(t, c.n, Back(c, i), k) ==>
         k <= c.raw)
    && (c.raw > best ==> Nearest(t, c))
  }

  // The match is the nearest of its length.
  ghost predicate Nearest(t: seq<Byte>, c: Choice) {
    && Repeats(t, c.n, c.dist, c.raw)
    && exists k :: 0 <= k < |c.seen| && c.dist == Back(c, k)
         && forall i :: 0 <= i < k ==> !Repeats(t, c.n, Back(c, i), c.raw)
  }

  // deflate_slow does not take these.
  predicate Dropped(u: Tuning, raw: nat, dist: nat) {
    u.slow && raw <= 5 && (u.filtered || (raw == MIN_MATCH && dist > 4096))
  }

  // The length of a match better than `best`, or 2.
  function Length(u: Tuning, c: Choice, best: nat): nat {
    if c.raw > best && !Dropped(u, c.raw, c.dist) then c.raw else 2
  }

  /** A search is made unless three bytes are not there or deflate_slow is content with what it has. */
  ghost predicate Chosen(t: seq<Byte>, u: Tuning, c: Choice, best: nat) {
    && c.n + c.look <= |t| && c.look > 0 && (forall p <- c.known :: p < c.n)
    && if c.look < MIN_MATCH || (u.slow && best >= u.lazy) then c.seen == [] && c.raw == 0
       else if c.seen == [] then c.raw == 0 && NoneInReach(t, c, u.sh)
       else if best >= c.look then c.raw <= best
       else Longest(t, u, c, best)
  }

  /** A string inserted and in reach that repeats is not missed, unless the search was cut short: by the number of
      strings it may compare, or by a match that is long enough. */
  lemma NotMissed(t: seq<Byte>, u: Tuning, c: Choice, best: nat, p: nat, k: nat)
    requires Chosen(t, u, c, best) && best < c.look && (u.slow ==> best < u.lazy)
    requires p in c.known && c.n < p + u.sh.MaxDist() && MIN_MATCH <= k <= c.look && k <= MAX_MATCH
    requires p < c.n && Repeats(t, c.n, c.n - p, k)
    ensures c.seen != [] && (c.raw >= k || c.raw >= Enough(u, c) || |c.seen| == Chain(u, best))
  {
    RepeatsAlike(t, c.n, p, k, u.sh);
    assert Alike(t, p, c.n, u.sh);
    if c.seen != [] && p in c.seen {
      var i :| 0 <= i < |c.seen| && c.seen[i] == p;
      assert Back(c, i) == c.n - p;
    }
  }

  lemma RepeatsAlike(t: seq<Byte>, n: nat, p: nat, k: nat, sh: Shape)
    requires p < n && k >= 3 && Repeats(t, n, n - p, k)
    ensures Alike(t, p, n, sh)
  {
    hide Hash3;
    assert t[n] == t[n - (n - p)] && t[n + 1] == t[n + 1 - (n - p)] && t[n + 2] == t[n + 2 - (n - p)];
  }

  // ---- more text ----

  lemma RepeatsSame(t: seq<Byte>, more: seq<Byte>, n: nat, d: nat, k: nat)
    requires t <= more && n + k <= |t|
    ensures Repeats(t, n, d, k) <==> Repeats(more, n, d, k)
  {
  }

  lemma RepeatsMore(t: seq<Byte>, more: seq<Byte>, n: nat, d: nat, k: nat)
    requires Repeats(t, n, d, k) && t <= more
    ensures Repeats(more, n, d, k)
  {
  }

  lemma AlikeSame(t: seq<Byte>, more: seq<Byte>, p: nat, n: nat, sh: Shape)
    requires t <= more && p < n && n + 3 <= |t|
    ensures Alike(t, p, n, sh) <==> Alike(more, p, n, sh)
  {
    hide Hash3;
  }

  // What was chosen stays right when the text goes on.
  lemma ChosenMore(t: seq<Byte>, more: seq<Byte>, u: Tuning, c: Choice, best: nat)
    requires Chosen(t, u, c, best) && t <= more
    ensures Chosen(more, u, c, best)
  {
    hide Alike, Repeats;
    if c.look >= MIN_MATCH {
      forall p | p in c.known ensures Alike(t, p, c.n, u.sh) <==> Alike(more, p, c.n, u.sh) {
        AlikeSame(t, more, p, c.n, u.sh);
      }
      forall d: nat, k: nat | k <= c.look ensures Repeats(t, c.n, d, k) <==> Repeats(more, c.n, d, k) {
        RepeatsSame(t, more, c.n, d, k);
      }
      if c.seen != [] && best < c.look { LongestMore(t, more, u, c, best); }
    }
  }

  lemma LongestMore(t: seq<Byte>, more: seq<Byte>, u: Tuning, c: Choice, best: nat)
    requires Longest(t, u, c, best) && best < c.look
    requires forall p <- c.known :: Alike(t, p, c.n, u.sh) <==> Alike(more, p, c.n, u.sh)
    requires forall d: nat, k: nat :: k <= c.look ==> (Repeats(t, c.n, d, k) <==> Repeats(more, c.n, d, k))
    ensures Longest(more, u, c, best)
  {
    hide Alike, Repeats;
  }

  // ---- the search in the window ----

  // Positions in the window, as positions in the text.
  ghost function Moved(s: set<nat>, base: nat): set<nat> {
    set p | p in s :: base + p
  }

  lemma InMoved(s: set<nat>, base: nat, q: nat)
    ensures q in Moved(s, base) <==> q >= base && q - base in s
  {
    if q >= base && q - base in s { assert q == base + (q - base); }
  }

  function Shifted(s: seq<nat>, base: nat): (r: seq<nat>)
    ensures |r| == |s| && forall i :: 0 <= i < |s| ==> r[i] == base + s[i]
  {
    seq(|s|, i requires 0 <= i < |s| => base + s[i])
  }

  lemma InShifted(s: seq<nat>, base: nat, q: nat)
    requires q in s
    ensures base + q in Shifted(s, base)
  {
    var i :| 0 <= i < |s| && s[i] == q;
    assert Shifted(s, base)[i] == base + q;
  }

  // What happened at strstart.
  ghost function Made(m: Finder, known: set<nat>, visited: seq<nat>, raw: nat, dist: nat): Choice
    reads m
  {
    Choice(m.base + m.strstart, m.lookahead, Moved(known, m.base), Shifted(visited, m.base), raw, dist)
  }

  // The tuning is that of the finder.
  ghost predicate Tuned(m: Finder, u: Tuning) {
    u.sh == m.sh && u.good == m.goodMatch && u.nice == m.niceMatch && u.chain == m.maxChain
  }

  lemma EqualRepeats(m: Finder, q: nat, k: nat)
    requires m.Sizes() && m.Holds() && q < m.strstart && k <= m.lookahead
    ensures m.Equal(q, k) <==> Repeats(m.text, m.base + m.strstart, m.strstart - q, k)
  {
    hide Chains;
    var n, d := m.base + m.strstart, m.strstart - q;
    if m.Equal(q, k) {
      forall i | n <= i < n + k ensures m.text[i] == m.text[i - d] {
        var j := i - m.base;
        assert m.window[j] == m.window[j - d];
      }
    }
    if Repeats(m.text, n, d, k) {
      forall j | m.strstart <= j < m.strstart + k ensures m.window[j] == m.window[j - d] {
        var i := m.base + j;
        assert m.text[i] == m.text[i - d];
      }
    }
  }

  lemma CandidateAlike(m: Finder, q: nat)
    requires m.Sizes() && m.Holds() && m.lookahead >= 3 && q in m.ins && 0 < q < m.strstart
    ensures m.Candidate(q, m.strstart) <==> Alike(m.text, m.base + q, m.base + m.strstart, m.sh)
  {
    hide Hash3;
    var w := m.window[..];
    SameHash(w, m.text, m.base, q, m.strstart + m.lookahead, m.sh);
    SameHash(w, m.text, m.base, m.strstart, m.strstart + m.lookahead, m.sh);
  }

  lemma SameHash(w: seq<Byte>, t: seq<Byte>, base: nat, p: nat, top: nat, sh: Shape)
    requires p + 3 <= top <= |w| && base + top <= |t| && forall i :: 0 <= i < top ==> w[i] == t[base + i]
    ensures HashAt(w, p, sh) == Hash3(t[base + p], t[base + p + 1], t[base + p + 2], sh.shift, sh.bits)
  {
    hide Hash3;
    assert w[p] == t[base + p] && w[p + 1] == t[base + (p + 1)] && w[p + 2] == t[base + (p + 2)];
  }

  // The finder after the string at strstart was inserted.
  ghost predicate Poised(m: Finder, known: set<nat>)
    reads m, m.window, m.head, m.prev
  {
    && m.Sizes() && m.Holds() && m.lookahead >= 3 && known <= m.ins && m.ins <= known + {m.strstart}
    && forall p <- m.ins :: 0 < p
  }

  lemma NewestsLatest(m: Finder, known: set<nat>, visited: seq<nat>, raw: nat, dist: nat)
    requires Poised(m, known) && m.Newests(visited)
    ensures Latest(m.text, Made(m, known, visited, raw, dist), m.sh)
  {
    hide Moved, Alike, Finder.Candidate, Finder.Holds, Finder.Sizes;
    var c := Made(m, known, visited, raw, dist);
    forall i | 0 <= i < |c.seen|
      ensures c.seen[i] in c.known && c.seen[i] < c.n <= c.seen[i] + m.sh.MaxDist()
        && Alike(m.text, c.seen[i], c.n, m.sh) {
      var q := visited[i];
      m.CandidateFacts(q, m.strstart);
      CandidateKnown(m, q);
      CandidateAlike(m, q);
      InMoved(known, m.base, m.base + q);
    }
    forall p | p in c.known && c.seen[|c.seen| - 1] < p < c.n && Alike(m.text, p, c.n, m.sh) ensures p in c.seen {
      InMoved(known, m.base, p);
      var q := p - m.base;
      CandidateAlike(m, q);
      InShifted(visited, m.base, q);
    }
  }

  lemma CandidateKnown(m: Finder, q: nat)
    requires m.Candidate(q, m.strstart)
    ensures q in m.ins
  {
  }

  // All of the bucket in reach was visited.
  lemma NoneLeft(m: Finder, known: set<nat>, visited: seq<nat>, raw: nat, dist: nat)
    requires Poised(m, known) && m.sh.Valid()
    requires forall r <- m.ins :: m.Limit() < r < m.strstart && m.Candidate(r, m.strstart) ==> r in visited
    ensures AllCompared(m.text, Made(m, known, visited, raw, dist), m.sh)
  {
    hide Moved, Alike, Finder.Candidate, Finder.Holds, Finder.Sizes;
    var c := Made(m, known, visited, raw, dist);
    forall p | p in c.known && p < c.n < p + m.sh.MaxDist() && Alike(m.text, p, c.n, m.sh) ensures p in c.seen {
      InMoved(known, m.base, p);
      var q := p - m.base;
      CandidateAlike(m, q);
      InShifted(visited, m.base, q);
    }
  }

  // There was nothing to visit.
  lemma NothingNear(m: Finder, known: set<nat>, hashHead: nat, raw: nat, dist: nat)
    requires Poised(m, known) && m.Newest(hashHead, m.strstart)
    requires hashHead == 0 || m.strstart - hashHead > m.sh.MaxDist()
    ensures NoneInReach(m.text, Made(m, known, [], raw, dist), m.sh)
  {
    hide Moved, Alike, Hash3, HashAt, Finder.Holds, Finder.Sizes;
    var c := Made(m, known, [], raw, dist);
    forall p | p in c.known && p < c.n && Alike(m.text, p, c.n, m.sh) ensures p + m.sh.MaxDist() < c.n {
      InMoved(known, m.base, p);
      var q := p - m.base;
      CandidateAlike(m, q);
    }
  }

  // What longest_match returns, in terms of the text.
  lemma LongestFound(m: Finder, u: Tuning, known: set<nat>, visited: seq<nat>, best: nat, len: nat)
    requires Poised(m, known) && Tuned(m, u) && 2 <= best < MAX_MATCH && best < m.lookahead
    requires best <= len <= m.lookahead && len <= MAX_MATCH && m.Searched(visited, best, len)
    requires len > best ==> m.Best(m.matchStart, len) && m.First(visited, m.matchStart, len)
    requires forall i, n: nat :: 0 <= i < |visited| && n <= MAX_MATCH && n <= m.lookahead && m.Equal(visited[i], n) ==>
      n <= len
    ensures Longest(m.text, u, Made(m, known, visited, len, if len > best then m.strstart - m.matchStart else 0), best)
  {
    hide Moved, Alike, Repeats, Finder.Candidate, Finder.Holds, Finder.Newests, Finder.Equal, Latest, AllCompared,
         Nearest, Finder.First;
    var c := Made(m, known, visited, len, if len > best then m.strstart - m.matchStart else 0);
    NewestsLatest(m, known, visited, c.raw, c.dist);
    if |visited| < m.Budget(best) && len < m.Nice() { NoneLeft(m, known, visited, c.raw, c.dist); }
    VisitedBefore(m, visited);
    forall i | 0 <= i < |visited| ensures Back(c, i) == m.strstart - visited[i] {}
    forall i | 0 <= i < |c.seen| - 1 ensures !Repeats(m.text, c.n, Back(c, i), Ending(u, c, best)) {
      assert visited[..|visited| - 1][i] == visited[i];
      EqualRepeats(m, visited[i], Ending(u, c, best));
    }
    forall i, k: nat | 0 <= i < |c.seen| && k <= MAX_MATCH && k <= c.look && Repeats(m.text, c.n, Back(c, i), k)
      ensures k <= c.raw {
      EqualRepeats(m, visited[i], k);
    }
    if len > best { NearestFound(m, known, visited, len); }
  }

  lemma VisitedBefore(m: Finder, visited: seq<nat>)
    requires m.Newests(visited)
    ensures forall i :: 0 <= i < |visited| ==> visited[i] < m.strstart
  {
  }

  lemma NearestFound(m: Finder, known: set<nat>, visited: seq<nat>, len: nat)
    requires Poised(m, known) && len <= m.lookahead && m.Best(m.matchStart, len)
    requires m.First(visited, m.matchStart, len) && forall i :: 0 <= i < |visited| ==> visited[i] < m.strstart
    ensures Nearest(m.text, Made(m, known, visited, len, m.strstart - m.matchStart))
  {
    hide Moved, Repeats, Finder.Holds, Finder.Equal;
    var c := Made(m, known, visited, len, m.strstart - m.matchStart);
    EqualRepeats(m, m.matchStart, len);
    var k :| 0 <= k < |visited| && visited[k] == m.matchStart && forall i :: 0 <= i < k ==> !m.Equal(visited[i], len);
    forall i | 0 <= i < |c.seen| ensures Back(c, i) == m.strstart - visited[i] {}
    forall i | 0 <= i < k ensures !Repeats(m.text, c.n, Back(c, i), len) { EqualRepeats(m, visited[i], len); }
    assert c.dist == Back(c, k);
  }

  lemma Entering(m: Finder, known: set<nat>)
    requires m.Entered() && m.lookahead >= 3 && m.ins == known + if m.strstart > 0 then {m.strstart} else {}
    ensures Poised(m, known)
  {
    hide Chains, HasTwo, Finder.Holds;
    ChainsKnown(m.window[..], m.head[..], m.prev[..], m.ins, m.hi, m.strstart + m.lookahead, m.sh);
  }

  // Every string in reach has been inserted.
  lemma FullReach(m: Finder)
    requires m.Valid() && m.Full() && m.lookahead >= 3
    ensures forall p: nat :: m.origin < p < m.base + m.strstart < p + m.sh.MaxDist() ==> p in Moved(m.ins, m.base)
  {
    hide Chains, HasTwo, Finder.Holds, Moved, Finder.Primed, Pow2;
    forall p: nat | m.origin < p < m.base + m.strstart < p + m.sh.MaxDist() ensures p in Moved(m.ins, m.base) {
      InMoved(m.ins, m.base, p);
    }
  }

  // These strings can be compared with the one at strstart, as far as they are in reach.
  ghost predicate Within(s: set<nat>, m: Finder)
    reads m
  {
    forall p <- s :: m.origin < p && m.base + m.strstart < p + m.sh.MaxDist() ==> p in Moved(m.ins, m.base)
  }

  lemma WithinSlide(s: set<nat>, m: Finder, ins0: set<nat>, base0: nat)
    requires m.Rooted() && m.sh.MaxDist() >= 0 && Finder.Keeps(ins0, base0, m.ins, m.base)
    requires forall p <- s :: m.origin < p && m.base + m.strstart < p + m.sh.MaxDist() ==> p in Moved(ins0, base0)
    ensures Within(s, m)
  {
    hide Moved;
    forall p | p in s && m.origin < p && m.base + m.strstart < p + m.sh.MaxDist() ensures p in Moved(m.ins, m.base) {
      InMoved(ins0, base0, p);
      InMoved(m.ins, m.base, p);
    }
  }

  // More strings in the window, and further on in the text.
  lemma WithinNext(s: set<nat>, m: Finder, ins0: set<nat>, n0: nat, more: set<nat>)
    requires m.base + m.strstart >= n0 && ins0 <= m.ins
    requires forall p <- s :: m.origin < p && n0 < p + m.sh.MaxDist() ==> p in Moved(ins0, m.base)
    requires forall p <- more :: m.base < p && p - m.base in m.ins
    ensures Within(s + more, m)
  {
    hide Moved;
    forall p | p in s + more && m.origin < p && m.base + m.strstart < p + m.sh.MaxDist()
      ensures p in Moved(m.ins, m.base) {
      InMoved(ins0, m.base, p);
      InMoved(m.ins, m.base, p);
    }
  }

  lemma StringsMoved(a: nat, b: nat, base: nat, s: set<nat>, t: set<nat>)
    requires a > 0 && Strings(a, b) <= s && t == Strings(base + a, base + b)
    ensures forall p <- t :: base < p && p - base in s
  {
    forall p | p in t ensures base < p && p - base in s {
      InStrings(base + a, base + b, p);
      InStrings(a, b, p - base);
    }
  }

  // ---- what becomes of the choices ----

  /** What happens between two calls, or at a position: a choice; the end of a call that flushes; the end of the history
      at a full flush. */
  datatype Event = Look(c: Choice) | Close(at: nat) | Forget(at: nat)

  // Choices, and closings of a call that flushes with the text up to `end`.
  predicate Continued(before: seq<Event>, after: seq<Event>, end: int) {
    && before <= after
    && forall i :: |before| <= i < |after| ==> after[i].Look? || (after[i].Close? && after[i].at == end)
  }

  lemma ContinuedSelf(a: seq<Event>)
    ensures forall n :: Continued(a, a, n)
  {
  }

  lemma ContinuedOn(a: seq<Event>, b: seq<Event>, c: seq<Event>, m: int, n: int)
    requires Continued(a, b, m) && Continued(b, c, n) && (m == -1 || m == n)
    ensures Continued(a, c, n)
  {
    forall i | |a| <= i < |c| ensures c[i].Look? || (c[i].Close? && c[i].at == n) {
      if i < |b| { assert c[i] == b[i]; }
    }
  }

  function ByteAt(t: seq<Byte>, i: int): Byte {
    if 0 <= i < |t| then t[i] else 0
  }

  // Every string in reach that may be compared was inserted.
  ghost predicate ReachKnown(c: Choice, from: nat, sh: Shape) {
    c.look >= MIN_MATCH ==> forall p: nat :: from < p < c.n < p + sh.MaxDist() ==> p in c.known
  }

  // A search with less than MIN_LOOKAHEAD bytes ahead is one at the end of the input of a call that flushes.
  function EndOf(c: Choice, end: nat): nat {
    if c.look < MIN_LOOKAHEAD then c.n + c.look else end
  }

  /** deflate_slow: the symbols so far, the position, whether the byte before it is still open, the match found for that
      byte, where the text begins that matches may reach back to, and where it ends if that is near. */
  datatype Lazy = Lazy(toks: seq<Token>, n: nat, open: bool, len: nat, dist: nat, from: nat, end: nat)

  function Opened(t: seq<Byte>, s: Lazy): seq<Token> {
    if s.open then s.toks + [Literal(ByteAt(t, s.n - 1))] else s.toks
  }

  // A match gives way to a longer one at the next position.
  function LazyNext(t: seq<Byte>, u: Tuning, s: Lazy, e: Event): Lazy {
    match e
    case Look(c) =>
      var l := Length(u, c, s.len);
      if s.len >= MIN_MATCH && l <= s.len then
        Lazy(s.toks + [Pair(s.dist, s.len)], s.n - 1 + s.len, false, 2, 0, s.from, EndOf(c, s.end))
      else
        Lazy(Opened(t, s), s.n + 1, true, l, c.dist, s.from, EndOf(c, s.end))
    case Close(_) => s.(toks := Opened(t, s), open := false, end := 0)
    case Forget(_) => s.(from := s.n)
  }

  ghost predicate LazyMay(t: seq<Byte>, u: Tuning, s: Lazy, e: Event) {
    match e
    case Look(c) => c.n == s.n && Chosen(t, u, c, s.len) && ReachKnown(c, s.from, u.sh) && s.end in {0, c.n + c.look}
    case Close(at) => at == s.n <= |t| && s.end in {0, s.n} && s.len == 2
    case Forget(at) => at == s.n <= |t| && !s.open && s.end == 0
  }

  function LazyAfter(t: seq<Byte>, u: Tuning, log: seq<Event>): Lazy {
    if log == [] then Lazy([], 0, false, 2, 0, 0, 0)
    else LazyNext(t, u, LazyAfter(t, u, log[..|log| - 1]), log[|log| - 1])
  }

  ghost predicate LazyOk(t: seq<Byte>, u: Tuning, log: seq<Event>) {
    log == [] ||
      (LazyOk(t, u, log[..|log| - 1]) && LazyMay(t, u, LazyAfter(t, u, log[..|log| - 1]), log[|log| - 1]))
  }

  lemma LazyOne(t: seq<Byte>, u: Tuning, log: seq<Event>, e: Event)
    requires LazyOk(t, u, log) && LazyMay(t, u, LazyAfter(t, u, log), e)
    ensures LazyOk(t, u, log + [e]) && LazyAfter(t, u, log + [e]) == LazyNext(t, u, LazyAfter(t, u, log), e)
  {
    hide LazyMay, LazyNext;
    var all := log + [e];
    assert all[..|all| - 1] == log && all[|all| - 1] == e;
  }

  /** The choices do not depend on text that comes later. */
  lemma {:induction false} LazyMore(t: seq<Byte>, more: seq<Byte>, u: Tuning, log: seq<Event>)
    requires LazyOk(t, u, log) && t <= more
    ensures LazyOk(more, u, log) && LazyAfter(more, u, log) == LazyAfter(t, u, log)
  {
    hide Chosen, ReachKnown, Length;
    if log != [] {
      var s, e := LazyAfter(t, u, log[..|log| - 1]), log[|log| - 1];
      LazyMore(t, more, u, log[..|log| - 1]);
      if e.Look? { ChosenMore(t, more, u, e.c, s.len); LookFits(t, u, e.c, s.len); }
    }
  }

  lemma LookFits(t: seq<Byte>, u: Tuning, c: Choice, best: nat)
    requires Chosen(t, u, c, best)
    ensures c.n + c.look <= |t| && c.look > 0
  {
  }

  // A search at p, for more than l bytes, found more or did not.
  ghost predicate Beaten(t: seq<Byte>, u: Tuning, p: nat, l: nat) {
    exists c: Choice :: c.n == p && Chosen(t, u, c, l) && Length(u, c, l) > l
  }

  ghost predicate Unbeaten(t: seq<Byte>, u: Tuning, p: nat, l: nat) {
    exists c: Choice :: c.n == p && Chosen(t, u, c, l) && Length(u, c, l) <= l
  }

  // A search at p found this.
  ghost predicate Seen(t: seq<Byte>, u: Tuning, p: nat, l: nat, d: nat) {
    exists c: Choice, best: nat :: c.n == p && Chosen(t, u, c, best) && Length(u, c, best) == l && c.dist == d
  }

  // The symbol for position p: a match that the next position does not beat, or a byte without such a match.
  ghost predicate Adopted(t: seq<Byte>, u: Tuning, p: nat, tok: Token) {
    match tok
    case Pair(d, l) => l >= MIN_MATCH && Seen(t, u, p, l, d) && Unbeaten(t, u, p + 1, l)
    case Literal(b) =>
      b == ByteAt(t, p) && exists l: nat, d: nat :: Seen(t, u, p, l, d) && (l < MIN_MATCH || Beaten(t, u, p + 1, l))
  }

  ghost predicate AllAdopted(t: seq<Byte>, u: Tuning, toks: seq<Token>) {
    toks == [] || (AllAdopted(t, u, toks[..|toks| - 1])
      && Adopted(t, u, RunCoding.Length(toks[..|toks| - 1]), toks[|toks| - 1]))
  }

  lemma AdoptedNext(t: seq<Byte>, u: Tuning, toks: seq<Token>, tok: Token)
    requires AllAdopted(t, u, toks) && Adopted(t, u, RunCoding.Length(toks), tok)
    ensures AllAdopted(t, u, toks + [tok])
    ensures RunCoding.Length(toks + [tok]) == RunCoding.Length(toks) + RunCoding.Size(tok)
  {
    hide Adopted;
    var all := toks + [tok];
    assert all[..|all| - 1] == toks && all[|all| - 1] == tok;
  }

  // The open byte and its match.
  ghost predicate Awaits(t: seq<Byte>, u: Tuning, s: Lazy) {
    && AllAdopted(t, u, s.toks) && RunCoding.Length(s.toks) + (if s.open then 1 else 0) == s.n && s.len >= 2
    && (if s.open then Seen(t, u, s.n - 1, s.len, s.dist) else s.len == 2)
  }

  /** Lazy evaluation: a match is adopted if and only if the search at the next position finds no longer one. */
  lemma {:induction false} LazyRule(t: seq<Byte>, u: Tuning, log: seq<Event>)
    requires LazyOk(t, u, log)
    ensures Awaits(t, u, LazyAfter(t, u, log))
  {
    hide Chosen, ReachKnown, Length, Adopted, Seen;
    if log != [] {
      var s, e := LazyAfter(t, u, log[..|log| - 1]), log[|log| - 1];
      LazyRule(t, u, log[..|log| - 1]);
      match e
      case Look(c) => RuleLook(t, u, s, c);
      case Close(_) => if s.open { RuleLiteral(t, u, s); }
      case Forget(_) =>
    }
  }

  lemma RuleLook(t: seq<Byte>, u: Tuning, s: Lazy, c: Choice)
    requires Awaits(t, u, s) && c.n == s.n && Chosen(t, u, c, s.len)
    ensures Awaits(t, u, LazyNext(t, u, s, Look(c)))
  {
    hide Chosen, Length, AllAdopted, RunCoding.Length;
    var l := Length(u, c, s.len);
    LengthFacts(u, c, s.len);
    if s.len >= MIN_MATCH && l <= s.len {
      assert Unbeaten(t, u, s.n, s.len);
      AdoptedNext(t, u, s.toks, Pair(s.dist, s.len));
    } else {
      assert l > s.len ==> Beaten(t, u, s.n, s.len);
      assert Seen(t, u, s.n, l, c.dist);
      if s.open { RuleLiteral(t, u, s); }
    }
  }

  lemma LengthFacts(u: Tuning, c: Choice, best: nat)
    ensures Length(u, c, best) >= 2 || Length(u, c, best) > best
    ensures best >= 2 ==> Length(u, c, best) >= 2
  {
  }

  lemma RuleLiteral(t: seq<Byte>, u: Tuning, s: Lazy)
    requires Awaits(t, u, s) && s.open && (s.len < MIN_MATCH || Beaten(t, u, s.n, s.len))
    ensures AllAdopted(t, u, Opened(t, s)) && RunCoding.Length(Opened(t, s)) == s.n
  {
    hide Seen, Beaten, AllAdopted, RunCoding.Length;
    assert Seen(t, u, s.n - 1, s.len, s.dist);
    AdoptedNext(t, u, s.toks, Literal(ByteAt(t, s.n - 1)));
  }

  /** deflate_fast: the symbols so far, the position, and the strings inserted. */
  datatype Greedy = Greedy(toks: seq<Token>, n: nat, from: nat, known: set<nat>, end: nat)

  // Every match is taken at once.
  ghost function GreedyNext(t: seq<Byte>, u: Tuning, s: Greedy, e: Event): Greedy {
    match e
    case Look(c) =>
      var l := Length(u, c, 2);
      var here := s.known + if c.look >= MIN_MATCH && s.n > s.from then {s.n} else {};
      if l >= MIN_MATCH then
        Greedy(s.toks + [Pair(c.dist, l)], s.n + l, s.from,
               here + (if l <= u.lazy && c.look - l >= MIN_MATCH then Strings(s.n + 1, s.n + l) else {}),
               EndOf(c, s.end))
      else
        Greedy(s.toks + [Literal(ByteAt(t, s.n))], s.n + 1, s.from, here, EndOf(c, s.end))
    case Close(_) => s.(end := 0)
    case Forget(_) => s.(from := s.n, known := {})
  }

  ghost predicate GreedyMay(t: seq<Byte>, u: Tuning, s: Greedy, e: Event) {
    match e
    case Look(c) => c.n == s.n && Chosen(t, u, c, 2) && GreedyKnown(c, s, u.sh) && s.end in {0, c.n + c.look}
    case Close(at) => at == s.n <= |t| && s.end in {0, s.n}
    case Forget(at) => at == s.n <= |t| && s.end == 0
  }

  // Every string in reach that was inserted may be compared.
  ghost predicate GreedyKnown(c: Choice, s: Greedy, sh: Shape) {
    c.look >= MIN_MATCH ==> forall p: nat :: p in s.known && s.from < p < c.n < p + sh.MaxDist() ==> p in c.known
  }

  ghost function GreedyAfter(t: seq<Byte>, u: Tuning, log: seq<Event>): Greedy {
    if log == [] then Greedy([], 0, 0, {}, 0)
    else GreedyNext(t, u, GreedyAfter(t, u, log[..|log| - 1]), log[|log| - 1])
  }

  ghost predicate GreedyOk(t: seq<Byte>, u: Tuning, log: seq<Event>) {
    log == [] ||
      (GreedyOk(t, u, log[..|log| - 1]) && GreedyMay(t, u, GreedyAfter(t, u, log[..|log| - 1]), log[|log| - 1]))
  }

  lemma GreedyOne(t: seq<Byte>, u: Tuning, log: seq<Event>, e: Event)
    requires GreedyOk(t, u, log) && GreedyMay(t, u, GreedyAfter(t, u, log), e)
    ensures GreedyOk(t, u, log + [e]) && GreedyAfter(t, u, log + [e]) == GreedyNext(t, u, GreedyAfter(t, u, log), e)
  {
    hide GreedyMay, GreedyNext;
    var all := log + [e];
    assert all[..|all| - 1] == log && all[|all| - 1] == e;
  }

  lemma {:induction false} GreedyMore(t: seq<Byte>, more: seq<Byte>, u: Tuning, log: seq<Event>)
    requires GreedyOk(t, u, log) && t <= more
    ensures GreedyOk(more, u, log) && GreedyAfter(more, u, log) == GreedyAfter(t, u, log)
  {
    hide Chosen, GreedyKnown, Length;
    if log != [] {
      var s, e := GreedyAfter(t, u, log[..|log| - 1]), log[|log| - 1];
      GreedyMore(t, more, u, log[..|log| - 1]);
      if e.Look? { ChosenMore(t, more, u, e.c, 2); LookFits(t, u, e.c, 2); }
    }
  }
}
