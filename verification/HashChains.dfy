/** head[] and prev[] of deps/zlib/deflate.c: what every entry of a hash chain promises, and how insertion and the
    slide of the window keep it. */
module HashChains {
  import opened Bits
  import opened BitStream
  import opened RollingHash

  const MIN_MATCH: nat := 3
  const MAX_MATCH: nat := 258
  const MIN_LOOKAHEAD: nat := 262

  // w_bits, w_size, hash_bits and hash_shift.
  datatype Shape = Shape(wbits: nat, wsize: nat, bits: nat, shift: nat) {
    predicate Valid() {
      9 <= wbits <= 15 && wsize == Pow2(wbits) && 8 <= bits <= 3 * shift
    }
    function HashSize(): nat { Pow2(bits) }
    function MaxDist(): int { wsize - MIN_LOOKAHEAD }

    // p & w_mask
    function Slot(p: nat): (i: nat)
      requires wsize == Pow2(wbits)
      ensures i < wsize
    {
      Low(p, wbits)
    }
  }

  // The hash of the string at p.
  function HashAt(w: seq<Byte>, p: nat, sh: Shape): nat
    requires p + 3 <= |w|
  {
    Hash3(w[p], w[p + 1], w[p + 2], sh.shift, sh.bits)
  }

  // A string that was inserted: three bytes at p, all of them before `top`.
  ghost predicate Known(ins: set<nat>, p: nat, top: nat) {
    p in ins && 0 < p && p + 3 <= top
  }

  // A link from p to q: NIL, or an older string with the same hash.
  ghost predicate Link(w: seq<Byte>, ins: set<nat>, p: nat, q: nat, sh: Shape) {
    q == 0 || (q < p && p + 3 <= |w| && q in ins && HashAt(w, q, sh) == HashAt(w, p, sh))
  }

  /** Strings of the window up to `top` bytes; `ins` were inserted, none beyond `hi`.  Every head has the hash of its
      bucket, and the link of a string that is less than a window old leads to an older one with the same hash. */
  ghost predicate Sound(w: seq<Byte>, head: seq<nat>, prev: seq<nat>, ins: set<nat>, hi: nat, top: nat, sh: Shape) {
    && |head| == sh.HashSize() && |prev| == sh.wsize == Pow2(sh.wbits) && top <= |w|
    && (forall p <- ins :: Known(ins, p, top) && p <= hi)
    && (forall h :: 0 <= h < |head| ==> head[h] == 0 || (head[h] in ins && HashAt(w, head[h], sh) == h))
    && (forall p <- ins :: p + sh.wsize > hi ==> Link(w, ins, p, prev[sh.Slot(p)], sh))
  }

  /** No string is left out: those of a bucket that come after its head, or between a string and the one it links to,
      were not inserted. */
  ghost predicate Unbroken(w: seq<Byte>, head: seq<nat>, prev: seq<nat>, ins: set<nat>, hi: nat, sh: Shape) {
    && |head| == sh.HashSize() && |prev| == sh.wsize == Pow2(sh.wbits) && (forall p <- ins :: p + 3 <= |w| && p <= hi)
    && (forall r <- ins :: HashAt(w, r, sh) < |head| ==> r <= head[HashAt(w, r, sh)])
    && forall p <- ins, r <- ins :: p + sh.wsize > hi && r < p && HashAt(w, r, sh) == HashAt(w, p, sh) ==>
         r <= prev[sh.Slot(p)]
  }

  ghost predicate Chains(w: seq<Byte>, head: seq<nat>, prev: seq<nat>, ins: set<nat>, hi: nat, top: nat, sh: Shape) {
    Sound(w, head, prev, ins, hi, top, sh) && Unbroken(w, head, prev, ins, hi, sh)
  }

  // A fresh table.
  lemma ChainsNone(w: seq<Byte>, head: seq<nat>, prev: seq<nat>, sh: Shape)
    requires |head| == sh.HashSize() && |prev| == sh.wsize == Pow2(sh.wbits)
      && forall h :: 0 <= h < |head| ==> head[h] == 0
    ensures Chains(w, head, prev, {}, 0, 0, sh)
  {
  }

  lemma HashFits(w: seq<Byte>, p: nat, sh: Shape)
    requires p + 3 <= |w|
    ensures HashAt(w, p, sh) < sh.HashSize()
  {
    hide Pow2;
  }

  lemma UnbrokenInsert(w: seq<Byte>, head: seq<nat>, prev: seq<nat>, ins: set<nat>, hi: nat, sh: Shape, p: nat)
    requires Unbroken(w, head, prev, ins, hi, sh) && hi < p && p + 3 <= |w|
    ensures
      var h := HashAt(w, p, sh);
      h < |head| && Unbroken(w, head[h := p], prev[sh.Slot(p) := head[h]], ins + {p}, p, sh)
  {
    hide HashAt, Pow2;
    HashFits(w, p, sh);
    var h := HashAt(w, p, sh);
    var head', prev', ins' := head[h := p], prev[sh.Slot(p) := head[h]], ins + {p};
    forall q, r | q in ins' && r in ins' && q + sh.wsize > p && r < q && HashAt(w, r, sh) == HashAt(w, q, sh)
      ensures r <= prev'[sh.Slot(q)] {
      if q != p { OtherSlot(p, q, sh.wbits); }
    }
  }

  /** INSERT_STRING: the new string becomes the head of its bucket and links to the old one. */
  lemma ChainsInsert(w: seq<Byte>, head: seq<nat>, prev: seq<nat>, ins: set<nat>, hi: nat, top: nat, sh: Shape, p: nat)
    requires Chains(w, head, prev, ins, hi, top, sh) && hi < p && p + 3 <= top
    ensures
      var h := HashAt(w, p, sh);
      Chains(w, head[h := p], prev[sh.Slot(p) := head[h]], ins + {p}, p, top, sh)
  {
    hide HashAt, Pow2, Sound, Unbroken;
    SoundInsert(w, head, prev, ins, hi, top, sh, p);
    SoundTop(w, head, prev, ins, hi, top, sh);
    UnbrokenInsert(w, head, prev, ins, hi, sh, p);
  }

  lemma SoundTop(w: seq<Byte>, head: seq<nat>, prev: seq<nat>, ins: set<nat>, hi: nat, top: nat, sh: Shape)
    requires Sound(w, head, prev, ins, hi, top, sh)
    ensures top <= |w|
  {
  }

  lemma SoundInsert(w: seq<Byte>, head: seq<nat>, prev: seq<nat>, ins: set<nat>, hi: nat, top: nat, sh: Shape, p: nat)
    requires Sound(w, head, prev, ins, hi, top, sh) && hi < p && p + 3 <= top
    ensures
      var h := HashAt(w, p, sh);
      Sound(w, head[h := p], prev[sh.Slot(p) := head[h]], ins + {p}, p, top, sh)
  {
    hide Hash3, Pow2;
    var h := HashAt(w, p, sh);
    var prev', ins' := prev[sh.Slot(p) := head[h]], ins + {p};
    forall q | q in ins' && q + sh.wsize > p ensures Link(w, ins', q, prev'[sh.Slot(q)], sh) {
      if q != p {
        OtherSlot(p, q, sh.wbits);
        assert Link(w, ins, q, prev[sh.Slot(q)], sh);
      }
    }
  }

  // The string at 0 cannot be told from NIL; it is only inserted into an empty table.
  lemma ChainsInsertZero(w: seq<Byte>, head: seq<nat>, prev: seq<nat>, ins: set<nat>, top: nat, sh: Shape)
    requires Chains(w, head, prev, ins, 0, top, sh) && 3 <= top
    ensures
      var h := HashAt(w, 0, sh);
      ins == {} && head[h] == 0 && Chains(w, head[h := 0], prev[sh.Slot(0) := head[h]], {}, 0, top, sh)
  {
    hide Hash3, Pow2;
    assert forall p <- ins :: Known(ins, p, top) && p <= 0;
    assert ins == {};
  }

  // The head of a bucket, before the string p of that bucket is inserted.
  lemma HeadFacts(w: seq<Byte>, head: seq<nat>, prev: seq<nat>, ins: set<nat>, hi: nat, top: nat, sh: Shape, p: nat)
    requires Chains(w, head, prev, ins, hi, top, sh) && hi < p && p + 3 <= top
    ensures
      var q := head[HashAt(w, p, sh)];
      q == 0 || (q in ins && q < p && q + 3 <= top && HashAt(w, q, sh) == HashAt(w, p, sh))
    // it is the newest
    ensures forall r <- ins :: r + 3 <= |w| && (HashAt(w, r, sh) == HashAt(w, p, sh) ==> r <= head[HashAt(w, p, sh)])
  {
    hide Hash3, Pow2;
    var q := head[HashAt(w, p, sh)];
    if q != 0 { assert Known(ins, q, top); }
  }

  // Positions less than a window apart have different slots.
  lemma OtherSlot(p: nat, q: nat, n: nat)
    requires q < p < q + Pow2(n)
    ensures Low(p, n) != Low(q, n)
  {
    hide Low, Shr, Shl, Pow2;
    Split(p, n);
    Split(q, n);
    ShlLess(Shr(q, n), Shr(p, n), n);
    ShlLess(Shr(p, n), Shr(q, n), n);
  }

  // More bytes arrive after the known ones.
  lemma ChainsGrow(w: seq<Byte>, w': seq<Byte>, head: seq<nat>, prev: seq<nat>, ins: set<nat>, hi: nat, top: nat,
                   top': nat, sh: Shape)
    requires Chains(w, head, prev, ins, hi, top, sh) && top <= top' <= |w'| && |w'| == |w|
    requires forall i :: 0 <= i < top ==> w'[i] == w[i]
    ensures Chains(w', head, prev, ins, hi, top', sh)
  {
    hide Hash3, Pow2;
    forall p | p in ins ensures p + 3 <= top && HashAt(w', p, sh) == HashAt(w, p, sh) { assert Known(ins, p, top); }
    forall p | p in ins && p + sh.wsize > hi ensures Link(w', ins, p, prev[sh.Slot(p)], sh) {
      assert Link(w, ins, p, prev[sh.Slot(p)], sh);
    }
  }

  // ---- the slide ----

  function Slid(m: nat, wsize: nat): nat {
    if m >= wsize then m - wsize else 0
  }

  function SlideAll(s: seq<nat>, wsize: nat): (r: seq<nat>)
    ensures |r| == |s|
  {
    seq(|s|, i requires 0 <= i < |s| => Slid(s[i], wsize))
  }

  ghost function SlideSet(ins: set<nat>, wsize: nat): set<nat> {
    set p | p in ins && p > wsize :: p - wsize
  }

  lemma InSlide(ins: set<nat>, n: nat, q: nat)
    ensures q in SlideSet(ins, n) <==> q > 0 && q + n in ins
  {
    if q > 0 && q + n in ins { assert q == (q + n) - n; }
  }

  // Moved down, an entry still names an inserted string with the same bytes.
  lemma SlideEntry(w: seq<Byte>, w': seq<Byte>, ins: set<nat>, top: nat, m: nat, sh: Shape)
    requires m in ins && Known(ins, m, top) && sh.wsize <= top <= 2 * sh.wsize <= |w| == |w'|
    requires forall i :: 0 <= i < sh.wsize ==> w'[i] == w[i + sh.wsize]
    ensures
      var q := Slid(m, sh.wsize);
      q == 0 || (q in SlideSet(ins, sh.wsize) && q + 3 <= top - sh.wsize && q + sh.wsize == m
        && HashAt(w', q, sh) == HashAt(w, m, sh))
  {
    hide Hash3, Pow2, SlideSet;
    InSlide(ins, sh.wsize, Slid(m, sh.wsize));
    if m > sh.wsize { SameString(w, w', m, sh.wsize, top, sh); }
  }

  lemma SlideLink(w: seq<Byte>, w': seq<Byte>, ins: set<nat>, top: nat, p: nat, m: nat, sh: Shape)
    requires p in ins && Known(ins, p, top) && p > sh.wsize && Link(w, ins, p, m, sh) && (m != 0 ==> Known(ins, m, top))
    requires sh.wsize <= top <= 2 * sh.wsize <= |w| == |w'|
      && forall i :: 0 <= i < sh.wsize ==> w'[i] == w[i + sh.wsize]
    ensures Link(w', SlideSet(ins, sh.wsize), p - sh.wsize, Slid(m, sh.wsize), sh)
  {
    hide Hash3, Pow2, SlideSet;
    SlideEntry(w, w', ins, top, p, sh);
    if m != 0 { SlideEntry(w, w', ins, top, m, sh); }
  }

  lemma UnbrokenSlide(w: seq<Byte>, w': seq<Byte>, head: seq<nat>, prev: seq<nat>, ins: set<nat>, hi: nat, top: nat,
                      sh: Shape)
    requires Unbroken(w, head, prev, ins, hi, sh) && sh.wsize <= hi && top <= 2 * sh.wsize <= |w| == |w'|
    requires (forall p <- ins :: p + 3 <= top) && forall i :: 0 <= i < sh.wsize ==> w'[i] == w[i + sh.wsize]
    ensures Unbroken(w', SlideAll(head, sh.wsize), SlideAll(prev, sh.wsize), SlideSet(ins, sh.wsize), hi - sh.wsize, sh)
  {
    hide HashAt, Pow2, SlideSet;
    var n := sh.wsize;
    var head', prev', ins' := SlideAll(head, n), SlideAll(prev, n), SlideSet(ins, n);
    forall q | q in ins' ensures q > 0 && q + n in ins && q + 3 <= |w'| && HashAt(w', q, sh) == HashAt(w, q + n, sh) {
      InSlide(ins, n, q);
      SameString(w, w', q + n, n, top, sh);
    }
    forall q, r | q in ins' && r in ins' && q + n > hi - n && r < q && HashAt(w', r, sh) == HashAt(w', q, sh)
      ensures r <= prev'[sh.Slot(q)] {
      SameSlot(q, sh.wbits);
      assert r + n <= prev[sh.Slot(q + n)];
    }
  }

  /** The upper half moves down: every surviving link names the same bytes, wsize lower. */
  lemma ChainsSlide(w: seq<Byte>, w': seq<Byte>, head: seq<nat>, prev: seq<nat>, ins: set<nat>, hi: nat, top: nat,
                    sh: Shape)
    requires Chains(w, head, prev, ins, hi, top, sh) && sh.wsize <= hi && sh.wsize <= top <= 2 * sh.wsize <= |w| == |w'|
    requires forall i :: 0 <= i < sh.wsize ==> w'[i] == w[i + sh.wsize]
    ensures Chains(w', SlideAll(head, sh.wsize), SlideAll(prev, sh.wsize), SlideSet(ins, sh.wsize), hi - sh.wsize,
      top - sh.wsize, sh)
  {
    hide HashAt, Pow2, SlideSet, SlideAll, Sound, Unbroken;
    SoundSlide(w, w', head, prev, ins, hi, top, sh);
    AllKnown(w, head, prev, ins, hi, top, sh);
    UnbrokenSlide(w, w', head, prev, ins, hi, top, sh);
  }

  lemma ChainsKnown(w: seq<Byte>, head: seq<nat>, prev: seq<nat>, ins: set<nat>, hi: nat, top: nat, sh: Shape)
    requires Chains(w, head, prev, ins, hi, top, sh)
    ensures forall p <- ins :: 0 < p && p + 3 <= top && p <= hi
  {
    hide Sound, Unbroken;
    AllKnown(w, head, prev, ins, hi, top, sh);
  }

  lemma AllKnown(w: seq<Byte>, head: seq<nat>, prev: seq<nat>, ins: set<nat>, hi: nat, top: nat, sh: Shape)
    requires Sound(w, head, prev, ins, hi, top, sh)
    ensures forall p <- ins :: 0 < p && p + 3 <= top && p <= hi
  {
    forall p | p in ins ensures 0 < p && p + 3 <= top && p <= hi { assert Known(ins, p, top); }
  }

  lemma SoundSlide(w: seq<Byte>, w': seq<Byte>, head: seq<nat>, prev: seq<nat>, ins: set<nat>, hi: nat, top: nat,
                    sh: Shape)
    requires Sound(w, head, prev, ins, hi, top, sh) && sh.wsize <= hi && sh.wsize <= top <= 2 * sh.wsize <= |w| == |w'|
    requires forall i :: 0 <= i < sh.wsize ==> w'[i] == w[i + sh.wsize]
    ensures Sound(w', SlideAll(head, sh.wsize), SlideAll(prev, sh.wsize), SlideSet(ins, sh.wsize), hi - sh.wsize,
      top - sh.wsize, sh)
  {
    hide Hash3, Pow2, SlideSet, HashAt, Link;
    var n := sh.wsize;
    var head', prev', ins' := SlideAll(head, n), SlideAll(prev, n), SlideSet(ins, n);
    forall q | q in ins' ensures Known(ins', q, top - n) && q <= hi - n {
      InSlide(ins, n, q);
      assert Known(ins, q + n, top);
      KnownDown(ins, ins', q, n, top);
    }
    forall h | 0 <= h < |head'| ensures head'[h] == 0 || (head'[h] in ins' && HashAt(w', head'[h], sh) == h) {
      if head[h] != 0 {
        assert Known(ins, head[h], top);
        SlideEntry(w, w', ins, top, head[h], sh);
      }
    }
    forall q | q in ins' && q + n > hi - n ensures Link(w', ins', q, prev'[sh.Slot(q)], sh) {
      var p := q + n;
      InSlide(ins, n, q);
      SameSlot(q, sh.wbits);
      var m := prev[sh.Slot(p)];
      assert Link(w, ins, p, m, sh) && Known(ins, p, top);
      LinkKnown(w, ins, p, m, sh);
      if m != 0 { assert Known(ins, m, top); }
      SlideLink(w, w', ins, top, p, m, sh);
    }
  }

  // All strings were in the half that is overwritten.
  lemma ChainsSlideAway(w: seq<Byte>, w': seq<Byte>, head: seq<nat>, prev: seq<nat>, ins: set<nat>, hi: nat, top: nat,
                        sh: Shape)
    requires Chains(w, head, prev, ins, hi, top, sh) && hi < sh.wsize <= top <= |w'|
    ensures Chains(w', SlideAll(head, sh.wsize), SlideAll(prev, sh.wsize), {}, 0, top - sh.wsize, sh)
  {
    hide Hash3, Pow2, HashAt, Link;
    forall h | 0 <= h < |head| ensures Slid(head[h], sh.wsize) == 0 {
      if head[h] != 0 { assert Known(ins, head[h], top); }
    }
  }

  ghost function SlidIns(ins: set<nat>, hi: nat, n: nat): set<nat> {
    if hi >= n then SlideSet(ins, n) else {}
  }

  /** The slide of window and tables keeps the chains. */
  lemma ChainsSlid(w: seq<Byte>, w': seq<Byte>, head: seq<nat>, prev: seq<nat>, ins: set<nat>, hi: nat, top: nat,
                   sh: Shape)
    requires Chains(w, head, prev, ins, hi, top, sh) && sh.wsize <= top <= 2 * sh.wsize <= |w| == |w'|
    requires forall i :: 0 <= i < sh.wsize ==> w'[i] == w[i + sh.wsize]
    ensures Chains(w', SlideAll(head, sh.wsize), SlideAll(prev, sh.wsize), SlidIns(ins, hi, sh.wsize),
      Slid(hi, sh.wsize), top - sh.wsize, sh)
  {
    hide Chains, SlideAll, SlideSet;
    if hi >= sh.wsize {
      ChainsSlide(w, w', head, prev, ins, hi, top, sh);
    } else {
      ChainsSlideAway(w, w', head, prev, ins, hi, top, sh);
    }
  }

  // The strings that begin from a to before b; the one at 0 does not count.
  ghost function Strings(a: nat, b: nat): set<nat>
    decreases b
  {
    if b <= a then {} else Strings(a, b - 1) + if b == 1 then {} else {b - 1}
  }

  lemma {:induction false} InStrings(a: nat, b: nat, p: nat)
    ensures p in Strings(a, b) <==> 0 < p && a <= p < b
    decreases b
  {
    if b > a { InStrings(a, b - 1, p); }
  }

  // What survives the slide.
  lemma SlideKeeps(ins: set<nat>, hi: nat, n: nat)
    requires forall p <- ins :: p <= hi
    ensures forall p :: p in ins && p > n ==> p - n in SlidIns(ins, hi, n)
    ensures hi >= n && (forall p :: 0 < p <= hi ==> p in ins) ==>
      forall p :: 0 < p <= hi - n ==> p in SlidIns(ins, hi, n)
  {
    hide SlideSet;
    forall p | p in ins && p > n ensures p - n in SlidIns(ins, hi, n) { InSlide(ins, n, p - n); }
    if hi >= n && forall p :: 0 < p <= hi ==> p in ins {
      forall p: nat | 0 < p <= hi - n ensures p in SlidIns(ins, hi, n) {
        InSlide(ins, n, p);
        assert p + n in ins;
      }
    }
  }

  lemma KnownDown(ins: set<nat>, ins': set<nat>, q: nat, n: nat, top: nat)
    requires Known(ins, q + n, top) && q in ins' && q > 0 && n <= top
    ensures Known(ins', q, top - n)
  {
  }

  lemma LinkKnown(w: seq<Byte>, ins: set<nat>, p: nat, m: nat, sh: Shape)
    requires Link(w, ins, p, m, sh)
    ensures m == 0 || m in ins
  {
  }

  lemma SameSlot(q: nat, n: nat)
    ensures Low(q + Pow2(n), n) == Low(q, n)
  {
    hide Low, Shr, Shl, Pow2;
    Split(q, n);
    ShlSucc(Shr(q, n), n);
    SplitUnique(Low(q, n), Shr(q, n) + 1, n);
  }

  lemma SameString(w: seq<Byte>, w': seq<Byte>, p: nat, n: nat, top: nat, sh: Shape)
    requires n < p && p + 3 <= top <= 2 * n <= |w| == |w'| && forall i :: 0 <= i < n ==> w'[i] == w[i + n]
    ensures HashAt(w', p - n, sh) == HashAt(w, p, sh)
  {
    assert w'[p - n] == w[p - n + n] && w'[p - n + 1] == w[p - n + 1 + n] && w'[p - n + 2] == w[p - n + 2 + n];
  }

  // ---- walking a chain ----

  /** A step along a chain from p, less than a window old: the string reached has the same hash and is older, and no
      other string of the bucket lies between. */
  lemma ChainStep(w: seq<Byte>, head: seq<nat>, prev: seq<nat>, ins: set<nat>, hi: nat, top: nat, sh: Shape, p: nat)
    requires Chains(w, head, prev, ins, hi, top, sh) && p in ins && p + sh.wsize > hi
    ensures p + 3 <= top
    ensures
      var q := prev[sh.Slot(p)];
      q == 0 || (q < p && q in ins && q + 3 <= top && HashAt(w, q, sh) == HashAt(w, p, sh))
    ensures forall r <- ins :: (r + 3 <= |w|
      && (r < p && HashAt(w, r, sh) == HashAt(w, p, sh) ==> r <= prev[sh.Slot(p)]))
  {
    hide Hash3, Pow2;
    assert Known(ins, p, top);
    assert Link(w, ins, p, prev[sh.Slot(p)], sh);
  }
}
