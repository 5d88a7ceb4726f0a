/** deps/utf8cpp/utf8/checked.h: append, next, prior, replace_invalid and the conversions between UTF-8, UTF-16 and
    UTF-32. What an output iterator receives is a sequence; an exception is a value beside it. */
module Utf8Checked {
  import opened Bits
  import opened BitStream
  import opened Utf8

  datatype Exception =
    | InvalidCodePoint(cp: nat)
    | InvalidUtf8(octet: Byte)
    | InvalidUtf16(word: nat)
    | NotEnoughRoom

  type Thrown = Option<Exception>

  // ---- append and next ----

  /** append: the octets of a valid code point, and nothing for any other number. */
  method Append(cp: nat, out: seq<Byte>) returns (r: seq<Byte>, thrown: Thrown)
    ensures if IsCodePoint(cp) then r == out + Encode(cp) && thrown == None
            else r == out && thrown == Some(InvalidCodePoint(cp))
  {
    if !IsCodePoint(cp) { return out, Some(InvalidCodePoint(cp)); }
    r := out;
    if cp < 0x80 {
      r := r + [cp];
    } else if cp < 0x800 {
      r := r + [cp / 64 + 0xc0];
      r := r + [cp % 64 + 0x80];
    } else if cp < 0x10000 {
      r := r + [cp / 4096 + 0xe0];
      r := r + [cp / 64 % 64 + 0x80];
      r := r + [cp % 64 + 0x80];
    } else {
      r := r + [cp / 0x40000 + 0xf0];
      r := r + [cp / 4096 % 64 + 0x80];
      r := r + [cp / 64 % 64 + 0x80];
      r := r + [cp % 64 + 0x80];
    }
    thrown := None;
  }

  // The exception for a failed validation; the code point it carries was never set.
  function ThrownFor(err: Error, octet: Byte): Thrown {
    match err
    case OK => None
    case NOT_ENOUGH_ROOM => Some(NotEnoughRoom)
    case INVALID_CODE_POINT => Some(InvalidCodePoint(0))
    case _ => Some(InvalidUtf8(octet))
  }

  /** next */
  method Next(s: seq<Byte>, it0: nat, end: nat) returns (it: nat, cp: nat, thrown: Thrown)
    requires it0 < end <= |s|
    ensures thrown == ThrownFor(Scan(s[it0..end]).err, s[it0])
    ensures thrown == None ==> it == it0 + Scan(s[it0..end]).n && cp == Scan(s[it0..end]).cp
    ensures thrown != None ==> it == it0
  {
    hide Scan;
    var err;
    err, it, cp := ValidateNext(s, it0, end, 0);
    thrown := ThrownFor(err, s[it0]);
  }

  // A sequence found in a longer range is found in its own.
  lemma ScanAlone(s: seq<Byte>)
    requires s != [] && Scan(s).err == OK
    ensures Scan(s[..Scan(s).n]) == Scan(s)
    ensures !IsTrail(s[0]) && forall i :: 1 <= i < Scan(s).n ==> IsTrail(s[i])
  {
    hide Scan, Encode, WellFormed;
    ScanExact(s);
    var n := Scan(s).n;
    ScanEncoded(Scan(s).cp, []);
    assert Encode(Scan(s).cp) + [] == s[..n];
    LeadLength(s[..n]);
    forall i | 1 <= i < n ensures IsTrail(s[i]) { assert s[..n][i] == s[i]; }
    NoTrailLeads(s[0]);
  }

  lemma NoTrailLeads(b: Byte)
    ensures SequenceLength(b) > 0 ==> !IsTrail(b)
  {
  }

  // The last octet before `it0` that is not a trail octet.
  predicate LastLead(s: seq<Byte>, it: nat, it0: nat) {
    it < it0 <= |s| && !IsTrail(s[it]) && forall j :: it < j < it0 ==> IsTrail(s[j])
  }

  lemma OneLastLead(s: seq<Byte>, a: nat, b: nat, it0: nat)
    requires LastLead(s, a, it0) && LastLead(s, b, it0)
    ensures a == b
  {
  }

  lemma ScannedLead(s: seq<Byte>, i: nat, end: nat, it0: nat)
    requires i < it0 <= end <= |s| && Scan(s[i..end]).err == OK && i + Scan(s[i..end]).n == it0
    ensures LastLead(s, i, it0) && Scan(s[i..it0]) == Scan(s[i..end])
  {
    hide Scan;
    var r := s[i..end];
    ScanAlone(r);
    assert r[..Scan(r).n] == s[i..it0];
    forall j | i < j < it0 ensures IsTrail(s[j]) { assert s[j] == r[j - i]; }
  }

  /** prior: back to the last octet that is not a trail octet, then forward.  It undoes every successful next. */
  method Prior(s: seq<Byte>, it0: nat, start: nat) returns (it: nat, cp: nat, thrown: Thrown)
    requires start <= it0 <= |s|
    ensures start <= it <= it0 && (it0 == start ==> thrown == Some(NotEnoughRoom))
    ensures it0 > start && (forall j :: start <= j < it0 ==> IsTrail(s[j])) ==>
      it == start && thrown == Some(InvalidUtf8(s[it]))
    ensures it0 > start && !(forall j :: start <= j < it0 ==> IsTrail(s[j])) ==>
      && LastLead(s, it, it0) && thrown == ThrownFor(Scan(s[it..it0]).err, s[it])
      && (thrown == None ==> cp == Scan(s[it..it0]).cp)
    // it lands where next would come back from exactly when the trail octets passed over are all the lead octet
    // announces
    ensures thrown == None ==>
      it < it0 && (it + Scan(s[it..it0]).n == it0 <==> it0 - it - 1 == SequenceLength(s[it]) - 1)
    ensures forall i, end ::
      start <= i < it0 <= end <= |s| && Scan(s[i..end]).err == OK && i + Scan(s[i..end]).n == it0 ==>
      it == i && cp == Scan(s[i..end]).cp && thrown == None
  {
    hide Scan;
    if it0 == start { return it0, 0, Some(NotEnoughRoom); }
    it, cp := it0 - 1, 0;
    while IsTrail(s[it])
      invariant start <= it < it0 && forall j :: it < j < it0 ==> IsTrail(s[j])
      decreases it
    {
      if it == start {
        thrown := Some(InvalidUtf8(s[it]));
        forall i, end | start <= i < it0 <= end <= |s| && Scan(s[i..end]).err == OK && i + Scan(s[i..end]).n == it0
          ensures false
        {
          ScannedLead(s, i, end, it0);
        }
        return;
      }
      it := it - 1;
    }
    var ignored;
    ignored, cp, thrown := Next(s, it, it0);
    ScanLength(s[it..it0]);
    forall i, end | start <= i < it0 <= end <= |s| && Scan(s[i..end]).err == OK && i + Scan(s[i..end]).n == it0
      ensures it == i && cp == Scan(s[i..end]).cp && thrown == None
    {
      ScannedLead(s, i, end, it0);
      OneLastLead(s, i, it, it0);
    }
  }

  lemma ScanLength(s: seq<Byte>)
    requires s != []
    ensures Scan(s).err == OK ==> Scan(s).n == SequenceLength(s[0])
  {
  }

  /** Too many trail octets: prior succeeds at the letter A, although next from there ends before the octet it came
      from. */
  method PriorPassesOver() returns (it: nat, cp: nat, thrown: Thrown, back: nat)
    ensures it == 0 && cp == 0x41 && thrown == None && back == 1
  {
    var s: seq<Byte> := [0x41, 0x80];
    PassedOver(s);
    it, cp, thrown := Prior(s, 2, 0);
    OneLastLead(s, it, 0, 2);
    var cp', thrown';
    back, cp', thrown' := Next(s, it, 2);
  }

  lemma PassedOver(s: seq<Byte>)
    requires s == [0x41, 0x80]
    ensures LastLead(s, 0, 2) && Scan(s[0..2]) == Scanned(OK, 1, 0x41) && !IsTrail(s[0])
  {
    assert s[0..2] == s;
  }

  /** The exception for an invalid code point never carries the number that was spelled. */
  lemma NumberLost(s: seq<Byte>)
    requires s != [] && Scan(s).err == INVALID_CODE_POINT
    ensures
      var n := SequenceLength(s[0]);
      && 1 <= n <= |s| && n <= 4 && !IsCodePoint(Value(s, n))
        && ThrownFor(Scan(s).err, s[0]) == Some(InvalidCodePoint(0)) && Value(s, n) != 0
  {
    TrailsRoom(s, SequenceLength(s[0]));
  }

  /** A surrogate, spelled in three octets, is reported as the code point 0. */
  method SurrogateReported() returns (it: nat, cp: nat, thrown: Thrown)
    ensures thrown == Some(InvalidCodePoint(0)) && it == 0
  {
    var s: seq<Byte> := [0xed, 0xa0, 0x80];
    Surrogate(s);
    it, cp, thrown := Next(s, 0, 3);
  }

  lemma Surrogate(s: seq<Byte>)
    requires s == [0xed, 0xa0, 0x80]
    ensures Scan(s[0..3]).err == INVALID_CODE_POINT && Value(s, 3) == 0xd800
  {
    assert s[0..3] == s;
    TrailsOk(s, 3);
  }

  // ---- UTF-32 ----

  /** utf32to8: all code points up to the first invalid one. */
  method Utf32To8(cps: seq<nat>) returns (out: seq<Byte>, thrown: Thrown)
    ensures thrown == None <==> AllCodePoints(cps)
    ensures thrown == None ==> out == EncodeAll(cps)
    ensures thrown != None ==> exists k :: 0 <= k < |cps| && AllCodePoints(cps[..k]) && out == EncodeAll(cps[..k])
                                           && !IsCodePoint(cps[k]) && thrown == Some(InvalidCodePoint(cps[k]))
  {
    hide Encode;
    out := [];
    for k := 0 to |cps|
      invariant AllCodePoints(cps[..k]) && out == EncodeAll(cps[..k])
    {
      out, thrown := Append(cps[k], out);
      if thrown != None { return; }
      EncodeSnoc(cps[..k], cps[k]);
      assert cps[..k + 1] == cps[..k] + [cps[k]];
    }
    assert cps[..|cps|] == cps;
    thrown := None;
  }

  // The code points of s up to position p.
  ghost predicate Read(s: seq<Byte>, p: nat, cps: seq<nat>) {
    p <= |s| && AllCodePoints(cps) && EncodeAll(cps) == s[..p]
  }

  lemma ReadMore(s: seq<Byte>, p: nat, cps: seq<nat>)
    requires Read(s, p, cps) && p < |s| && Scan(s[p..]).err == OK
    ensures Read(s, p + Scan(s[p..]).n, cps + [Scan(s[p..]).cp])
  {
    hide Scan, Encode, WellFormed;
    var r := Scan(s[p..]);
    ScanExact(s[p..]);
    EncodeSnoc(cps, r.cp);
    assert s[p..][..r.n] == s[p..p + r.n] && s[..p + r.n] == s[..p] + s[p..p + r.n];
  }

  // Reading stopped at p.
  lemma ReadStops(s: seq<Byte>, p: nat, cps: seq<nat>)
    requires Read(s, p, cps) && (p < |s| ==> Scan(s[p..]).err != OK)
    ensures Text(s) <==> p == |s|
  {
    hide Scan, Encode, Text;
    EncodedText(cps);
    StuckText(s, p);
  }

  /** utf8to32: the code points that spell the text; it throws exactly when the octets are not a text. */
  method Utf8To32(s: seq<Byte>) returns (out: seq<nat>, thrown: Thrown)
    ensures thrown == None <==> Text(s)
    ensures AllCodePoints(out) && EncodeAll(out) <= s && (thrown == None ==> EncodeAll(out) == s)
    ensures thrown != None ==> |EncodeAll(out)| < |s| && Stuck(s, |EncodeAll(out)|)
                               && thrown == ThrownFor(Scan(s[|EncodeAll(out)|..]).err, s[|EncodeAll(out)|])
  {
    hide Scan, Encode, EncodeAll, Text;
    out := [];
    var p := 0;
    ReadNone(s);
    while p != |s|
      invariant Read(s, p, out)
      decreases |s| - p
    {
      assert s[p..|s|] == s[p..];
      var q, cp;
      q, cp, thrown := Next(s, p, |s|);
      if thrown != None {
        ReadStops(s, p, out);
        EncodedText(out);
        return;
      }
      ReadMore(s, p, out);
      out, p := out + [cp], q;
    }
    ReadStops(s, p, out);
    assert s[..p] == s;
    thrown := None;
  }

  lemma ReadNone(s: seq<Byte>)
    ensures Read(s, 0, [])
  {
  }

  /** There and back from code points. */
  method From32(cps: seq<nat>) returns (out: seq<Byte>, back: seq<nat>, thrown: Thrown)
    requires AllCodePoints(cps)
    ensures back == cps && thrown == None && Text(out)
  {
    hide EncodeAll, Text;
    out, thrown := Utf32To8(cps);
    EncodedText(cps);
    back, thrown := Utf8To32(out);
    EncodeAllInjective(back, cps);
  }

  /** There and back from octets. */
  method To32(s: seq<Byte>) returns (out: seq<nat>, back: seq<Byte>, thrown: Thrown)
    requires Text(s)
    ensures back == s && thrown == None && AllCodePoints(out)
  {
    hide EncodeAll, Text;
    out, thrown := Utf8To32(s);
    back, thrown := Utf32To8(out);
  }

  // ---- UTF-16 ----

  type Word16 = w: nat | w < 0x10000

  const LEAD_OFFSET: nat := 0xd800 - 0x10000 / 1024
  const U32: int := 0x1_0000_0000
  // uint32_t arithmetic: the difference is negative and wraps around
  const SURROGATE_OFFSET: nat := (0x10000 - 0xd800 * 1024 - 0xdc00) % U32

  // One word, or a surrogate pair as section 2.1 of RFC 2781 defines it.
  function Encode16(cp: nat): (w: seq<Word16>)
    requires IsCodePoint(cp)
    ensures 1 <= |w| <= 2
  {
    if cp < 0x10000 then [cp] else
    var u := cp - 0x10000;
    [0xd800 + u / 1024, 0xdc00 + u % 1024]
  }

  function EncodeAll16(cps: seq<nat>): seq<Word16>
    requires AllCodePoints(cps)
  {
    if cps == [] then [] else EncodeAll16(cps[..|cps| - 1]) + Encode16(cps[|cps| - 1])
  }

  lemma Encode16Snoc(cps: seq<nat>, cp: nat)
    requires AllCodePoints(cps) && IsCodePoint(cp)
    ensures AllCodePoints(cps + [cp]) && EncodeAll16(cps + [cp]) == EncodeAll16(cps) + Encode16(cp)
  {
    hide Encode16;
    assert (cps + [cp])[..|cps|] == cps;
  }

  // The pair as utf8to16 makes it.
  lemma MakePair(cp: nat)
    requires IsCodePoint(cp) && cp > 0xffff
    ensures Encode16(cp) == [cp / 1024 + LEAD_OFFSET, cp % 1024 + 0xdc00]
  {
  }

  // The pair as utf16to8 takes it apart.
  lemma TakePair(lead: nat, trail: nat)
    requires IsLeadSurrogate(lead) && IsTrailSurrogate(trail)
    ensures
      var cp := (lead * 1024 + trail + SURROGATE_OFFSET) % U32;
      IsCodePoint(cp) && cp > 0xffff && Encode16(cp) == [lead, trail]
  {
    var u := (lead - 0xd800) * 1024 + (trail - 0xdc00);
    assert lead * 1024 + trail + SURROGATE_OFFSET == 0x10000 + u + U32;
    assert u / 1024 == lead - 0xd800 && u % 1024 == trail - 0xdc00;
  }

  /** Every pair of surrogates is that of one code point, and the pairs are in the order of the code points. */
  lemma PairOrder(a: nat, b: nat)
    requires 0xffff < a < b && IsCodePoint(b)
    ensures IsCodePoint(a)
    ensures
      var u, v := Encode16(a), Encode16(b);
      && |u| == |v| == 2 && 0xd800 <= u[0] <= v[0] <= 0xdbff && 0xdc00 <= u[1] <= 0xdfff && 0xdc00 <= v[1] <= 0xdfff
      && (u[0] == v[0] ==> u[1] < v[1])
    ensures Encode16(0x1d11e) == [0xd834, 0xdd1e]
  {
  }

  /** utf8to16: the words of the code points of a text. */
  method Utf8To16(s: seq<Byte>) returns (out: seq<Word16>, thrown: Thrown, ghost cps: seq<nat>)
    ensures thrown == None <==> Text(s)
    ensures AllCodePoints(cps) && EncodeAll(cps) <= s && out == EncodeAll16(cps)
      && (thrown == None ==> EncodeAll(cps) == s)
    ensures thrown != None ==> |EncodeAll(cps)| < |s| && Stuck(s, |EncodeAll(cps)|)
                               && thrown == ThrownFor(Scan(s[|EncodeAll(cps)|..]).err, s[|EncodeAll(cps)|])
  {
    hide Scan, Encode, EncodeAll, Text, Encode16;
    out, cps := [], [];
    var p := 0;
    ReadNone(s);
    while p != |s|
      invariant Read(s, p, cps) && out == EncodeAll16(cps)
      decreases |s| - p
    {
      assert s[p..|s|] == s[p..];
      var q, cp;
      q, cp, thrown := Next(s, p, |s|);
      if thrown != None {
        ReadStops(s, p, cps);
        EncodedText(cps);
        return;
      }
      ReadMore(s, p, cps);
      Encode16Snoc(cps, cp);
      out := PutWords(cp, out);
      cps, p := cps + [cp], q;
    }
    ReadStops(s, p, cps);
    assert s[..p] == s;
    thrown := None;
  }

  method PutWords(cp: nat, out: seq<Word16>) returns (r: seq<Word16>)
    requires IsCodePoint(cp)
    ensures r == out + Encode16(cp)
  {
    r := out;
    if cp > 0xffff {
      MakePair(cp);
      r := r + [cp / 1024 + LEAD_OFFSET];
      r := r + [cp % 1024 + 0xdc00];
    } else {
      r := r + [cp];
    }
  }

  // What stands at the head of a UTF-16 text, or why nothing does.
  datatype Scanned16 = Found(n: nat, cp: nat) | Refused(e: Exception)

  function Scan16(w: seq<Word16>): (r: Scanned16)
    requires w != []
    ensures r.Found? ==> 1 <= r.n <= |w| && IsCodePoint(r.cp) && Encode16(r.cp) == w[..r.n]
  {
    if IsLeadSurrogate(w[0]) then
      if |w| == 1 then Refused(InvalidUtf16(w[0]))
      else if IsTrailSurrogate(w[1]) then
        TakePair(w[0], w[1]);
        Found(2, (w[0] as nat * 1024 + w[1] + SURROGATE_OFFSET) % U32)
      else Refused(InvalidUtf16(w[1]))
    else if IsTrailSurrogate(w[0]) then Refused(InvalidUtf16(w[0]))
    else Found(1, w[0])
  }

  lemma Scan16Encoded(cp: nat, rest: seq<Word16>)
    requires IsCodePoint(cp)
    ensures Scan16(Encode16(cp) + rest) == Found(|Encode16(cp)|, cp)
  {
    var w := Encode16(cp) + rest;
    if cp >= 0x10000 {
      var u := cp - 0x10000;
      assert w[0] as nat * 1024 + w[1] + SURROGATE_OFFSET == 0x10000 + u / 1024 * 1024 + u % 1024 + U32;
    }
  }

  // A UTF-16 text is the words of some code points.
  ghost predicate Text16(w: seq<Word16>) {
    exists cps :: AllCodePoints(cps) && EncodeAll16(cps) == w
  }

  lemma {:induction false} Encode16Concat(a: seq<nat>, b: seq<nat>)
    requires AllCodePoints(a) && AllCodePoints(b) && AllCodePoints(a + b)
    ensures EncodeAll16(a + b) == EncodeAll16(a) + EncodeAll16(b)
    decreases |b|
  {
    hide Encode16;
    if b == [] {
      assert a + b == a;
    } else {
      var n := |b| - 1;
      assert (a + b)[..|a + b| - 1] == a + b[..n];
      Encode16Concat(a, b[..n]);
    }
  }

  lemma Encode16First(cps: seq<nat>)
    requires AllCodePoints(cps) && cps != []
    ensures AllCodePoints(cps[1..]) && EncodeAll16(cps) == Encode16(cps[0]) + EncodeAll16(cps[1..])
  {
    hide Encode16;
    assert cps == [cps[0]] + cps[1..] && [cps[0]][..0] == [];
    assert EncodeAll16([cps[0]]) == Encode16(cps[0]);
    Encode16Concat([cps[0]], cps[1..]);
  }

  // Words read so far are those of the first code points, whatever follows.
  lemma First16(cps: seq<nat>, all: seq<nat>, rest: seq<Word16>)
    requires AllCodePoints(cps) && AllCodePoints(all) && EncodeAll16(cps) + rest == EncodeAll16(all) && cps != []
    ensures all != [] && all[0] == cps[0] && AllCodePoints(cps[1..]) && AllCodePoints(all[1..])
    ensures EncodeAll16(cps[1..]) + rest == EncodeAll16(all[1..])
  {
    hide Encode16, Scan16;
    Encode16First(cps);
    assert all != [];
    Encode16First(all);
    hide EncodeAll16;
    var more := EncodeAll16(cps[1..]) + rest;
    assert EncodeAll16(all) == Encode16(cps[0]) + more;
    Scan16Encoded(cps[0], more);
    Scan16Encoded(all[0], EncodeAll16(all[1..]));
    assert more == EncodeAll16(all)[|Encode16(cps[0])|..] == EncodeAll16(all[1..]);
  }

  lemma {:induction false} Prefix16(cps: seq<nat>, all: seq<nat>, rest: seq<Word16>)
    requires AllCodePoints(cps) && AllCodePoints(all) && EncodeAll16(cps) + rest == EncodeAll16(all)
    ensures cps <= all && AllCodePoints(all[|cps|..]) && rest == EncodeAll16(all[|cps|..])
    decreases |cps|
  {
    hide Encode16, Scan16;
    if cps == [] {
      assert EncodeAll16(cps) + rest == rest && all[0..] == all;
    } else {
      First16(cps, all, rest);
      Prefix16(cps[1..], all[1..], rest);
      assert all[1..][|cps| - 1..] == all[|cps|..];
      assert cps == [cps[0]] + cps[1..] && all == [all[0]] + all[1..];
    }
  }

  lemma EncodeAll16Injective(a: seq<nat>, b: seq<nat>)
    requires AllCodePoints(a) && AllCodePoints(b) && EncodeAll16(a) == EncodeAll16(b)
    ensures a == b
  {
    hide Encode16;
    assert EncodeAll16(a) + [] == EncodeAll16(b);
    Prefix16(a, b, []);
    var tail := b[|a|..];
    if tail != [] { Encode16First(tail); }
  }

  ghost predicate Read16(w: seq<Word16>, p: nat, cps: seq<nat>) {
    p <= |w| && AllCodePoints(cps) && EncodeAll16(cps) == w[..p]
  }

  lemma Read16More(w: seq<Word16>, p: nat, cps: seq<nat>)
    requires Read16(w, p, cps) && p < |w| && Scan16(w[p..]).Found?
    ensures Read16(w, p + Scan16(w[p..]).n, cps + [Scan16(w[p..]).cp])
  {
    hide Scan16, Encode16;
    var r := Scan16(w[p..]);
    Encode16Snoc(cps, r.cp);
    assert w[p..][..r.n] == w[p..p + r.n] && w[..p + r.n] == w[..p] + w[p..p + r.n];
  }

  // A text is never refused.
  lemma Read16Stops(w: seq<Word16>, p: nat, cps: seq<nat>)
    requires Read16(w, p, cps) && (p < |w| ==> Scan16(w[p..]).Refused?)
    ensures Text16(w) <==> p == |w|
  {
    hide Scan16, Encode16;
    if p == |w| {
      assert w[..p] == w;
    } else if Text16(w) {
      var all :| AllCodePoints(all) && EncodeAll16(all) == w;
      assert w == w[..p] + w[p..];
      Prefix16(cps, all, w[p..]);
      var tail := all[|cps|..];
      Encode16First(tail);
      Scan16Encoded(tail[0], EncodeAll16(tail[1..]));
    }
  }

  /** utf16to8: the octets of the code points of a UTF-16 text; it throws exactly when the words are not one. */
  method Utf16To8(w: seq<Word16>) returns (out: seq<Byte>, thrown: Thrown, ghost cps: seq<nat>)
    ensures thrown == None <==> Text16(w)
    ensures AllCodePoints(cps) && EncodeAll16(cps) <= w && out == EncodeAll(cps)
      && (thrown == None ==> EncodeAll16(cps) == w)
    ensures thrown != None ==> |EncodeAll16(cps)| < |w| && Scan16(w[|EncodeAll16(cps)|..]).Refused?
                               && thrown == Some(Scan16(w[|EncodeAll16(cps)|..]).e)
  {
    hide Encode, Encode16, Text16, EncodeAll16;
    out, cps := [], [];
    var p := 0;
    Read16None(w);
    while p != |w|
      invariant Read16(w, p, cps) && out == EncodeAll(cps)
      decreases |w| - p
    {
      ghost var r := Scan16(w[p..]);
      var q, cp;
      q, cp, thrown := Take16(w, p);
      if thrown != None {
        Read16Stops(w, p, cps);
        return;
      }
      Read16More(w, p, cps);
      EncodeSnoc(cps, cp);
      out, thrown := Append(cp, out);
      cps, p := cps + [cp], q;
    }
    Read16Stops(w, p, cps);
    assert w[..p] == w;
    thrown := None;
  }

  lemma Read16None(w: seq<Word16>)
    ensures Read16(w, 0, [])
  {
  }

  // One code point off the words.
  method Take16(w: seq<Word16>, p: nat) returns (q: nat, cp: nat, thrown: Thrown)
    requires p < |w|
    ensures match Scan16(w[p..])
      case Found(n, c) => thrown == None && q == p + n && cp == c
      case Refused(e) => thrown == Some(e)
  {
    q, cp, thrown := p + 1, w[p], None;
    if IsLeadSurrogate(cp) {
      if q != |w| {
        var trail: nat := w[q];
        q := q + 1;
        if IsTrailSurrogate(trail) {
          cp := (cp * 1024 + trail + SURROGATE_OFFSET) % U32;
        } else {
          thrown := Some(InvalidUtf16(trail));
        }
      } else {
        thrown := Some(InvalidUtf16(cp));
      }
    } else if IsTrailSurrogate(cp) {
      thrown := Some(InvalidUtf16(cp));
    }
  }

  /** There and back from octets. */
  method To16(s: seq<Byte>) returns (out: seq<Word16>, back: seq<Byte>, thrown: Thrown)
    requires Text(s)
    ensures back == s && thrown == None && Text16(out)
  {
    hide EncodeAll, Text, EncodeAll16;
    ghost var cps, cps';
    out, thrown, cps := Utf8To16(s);
    back, thrown, cps' := Utf16To8(out);
    EncodeAll16Injective(cps, cps');
  }

  /** There and back from words. */
  method From16(w: seq<Word16>) returns (out: seq<Byte>, back: seq<Word16>, thrown: Thrown)
    requires Text16(w)
    ensures back == w && thrown == None && Text(out)
  {
    hide EncodeAll, Text, EncodeAll16;
    ghost var cps, cps';
    out, thrown, cps := Utf16To8(w);
    EncodedText(cps);
    back, thrown, cps' := Utf8To16(out);
    EncodeAllInjective(cps, cps');
  }

  // ---- replace_invalid ----

  // A sequence at the very end that lacks octets.
  predicate CutAt(s: seq<Byte>, k: nat) {
    k < |s| && SequenceLength(s[k]) > |s| - k && forall j :: k < j < |s| ==> IsTrail(s[j])
  }

  // The end of the trail octets from i on.
  function TrailRun(s: seq<Byte>, i: nat): (e: nat)
    requires i <= |s|
    ensures i <= e <= |s| && (forall j :: i <= j < e ==> IsTrail(s[j])) && (e < |s| ==> !IsTrail(s[e]))
    decreases |s| - i
  {
    if i < |s| && IsTrail(s[i]) then TrailRun(s, i + 1) else i
  }

  lemma {:induction false} TrailsShort(s: seq<Byte>, n: nat)
    requires s != [] && n > 0
    ensures Trails(s, n) == NOT_ENOUGH_ROOM <==> |s| < n && forall i :: 1 <= i < |s| ==> IsTrail(s[i])
    decreases n
  {
    if n > 1 {
      TrailsShort(s, n - 1);
      if Trails(s, n - 1) == OK { TrailsRoom(s, n - 1); }
      else if Trails(s, n - 1) == INCOMPLETE_SEQUENCE { Broken(s, n - 1); }
    }
  }

  lemma {:induction false} Broken(s: seq<Byte>, n: nat)
    requires Trails(s, n) == INCOMPLETE_SEQUENCE
    ensures exists i :: 1 <= i < n && i < |s| && !IsTrail(s[i])
  {
    if Trails(s, n - 1) == INCOMPLETE_SEQUENCE { Broken(s, n - 1); }
  }

  lemma CutIsNoRoom(s: seq<Byte>, k: nat)
    requires k < |s|
    ensures Scan(s[k..]).err == NOT_ENOUGH_ROOM <==> CutAt(s, k)
  {
    var r := s[k..];
    var n := SequenceLength(r[0]);
    if n > 0 { TrailsShort(r, n); }
    hide Trails;
    assert (forall i :: 1 <= i < |r| ==> IsTrail(r[i])) <==> (forall j :: k < j < |s| ==> IsTrail(s[j])) by {
      assert forall j :: k < j < |s| ==> s[j] == r[j - k];
    }
  }

  // Where replace_invalid goes on after the octets at p.
  function After(s: seq<Byte>, p: nat): (q: nat)
    requires p < |s|
    ensures p < q <= |s|
  {
    var r := Scan(s[p..]);
    match r.err
    case OK => p + r.n
    case INVALID_LEAD => p + 1
    case _ => TrailRun(s, p + 1)
  }

  lemma AfterTrails(s: seq<Byte>, p: nat)
    requires p < |s|
    ensures forall j :: p < j < After(s, p) ==> IsTrail(s[j])
  {
    hide Scan;
    if Scan(s[p..]).err == OK {
      ScanAlone(s[p..]);
      forall j | p < j < After(s, p) ensures IsTrail(s[j]) { assert s[j] == s[p..][j - p]; }
    }
  }

  lemma CutInside(s: seq<Byte>, k: nat)
    requires CutAt(s, k)
    ensures k < |s| && !IsTrail(s[k])
  {
    NoTrailLeads(s[k]);
  }

  // Octets that are passed over do not hide a cut.
  lemma CutLater(s: seq<Byte>, p: nat, k: nat)
    requires p < |s| && CutAt(s, k) && p <= k && Scan(s[p..]).err != NOT_ENOUGH_ROOM
    ensures After(s, p) <= k
  {
    hide Scan, CutAt, After;
    CutInside(s, k);
    CutIsNoRoom(s, k);
    AfterTrails(s, p);
  }

  // ---- what becomes of each octet ----

  // The last octet up to i that is no trail octet.
  function LeadBefore(s: seq<Byte>, i: int): (k: int)
    requires i < |s|
    ensures -1 <= k < |s| && (0 <= i ==> k <= i) && (0 <= k ==> !IsTrail(s[k]))
  {
    if i < 0 then -1 else if !IsTrail(s[i]) then i else LeadBefore(s, i - 1)
  }

  datatype Fate = Kept | Marked | Dropped

  /** An octet is kept in a well-formed sequence. An ill-formed sequence has one mark for its lead octet and all trail
      octets after it; trail octets that belong to no sequence have a mark each. From a sequence cut off by the end
      nothing remains. */
  function FateOf(s: seq<Byte>, i: nat): Fate
    requires i < |s|
  {
    var k := LeadBefore(s, i);
    if k < 0 then Marked else
    var r := Scan(s[k..]);
    match r.err
    case OK => if i < k + r.n then Kept else Marked
    case INVALID_LEAD => Marked
    case NOT_ENOUGH_ROOM => Dropped
    case _ => if i == k then Marked else Dropped
  }

  // The first n octets with the mark where it belongs.
  function Mended(s: seq<Byte>, n: nat, mark: seq<Byte>): seq<Byte>
    requires n <= |s|
  {
    if n == 0 then [] else
    Mended(s, n - 1, mark) +
    match FateOf(s, n - 1)
    case Kept => [s[n - 1]]
    case Marked => mark
    case Dropped => []
  }

  function Among(s: seq<Byte>, n: nat, f: Fate): nat
    requires n <= |s|
  {
    if n == 0 then 0 else Among(s, n - 1, f) + if FateOf(s, n - 1) == f then 1 else 0
  }

  /** The number of marks. */
  lemma {:induction false} MendedLength(s: seq<Byte>, n: nat, mark: seq<Byte>)
    requires n <= |s|
    ensures |Mended(s, n, mark)| == Among(s, n, Kept) + Among(s, n, Marked) * |mark|
  {
    hide FateOf;
    if n > 0 {
      MendedLength(s, n - 1, mark);
      assert (Among(s, n - 1, Marked) + 1) * |mark| == Among(s, n - 1, Marked) * |mark| + |mark|;
    }
  }

  lemma {:induction false} LeadOver(s: seq<Byte>, k: nat, i: nat)
    requires k <= i < |s| && !IsTrail(s[k]) && forall j :: k < j <= i ==> IsTrail(s[j])
    ensures LeadBefore(s, i) == k
  {
    if i > k { LeadOver(s, k, i - 1); }
  }

  // Octets kept are copied, octets dropped add nothing.
  lemma {:induction false} MendedKept(s: seq<Byte>, p: nat, q: nat, mark: seq<Byte>)
    requires p <= q <= |s| && forall i: nat :: p <= i < q ==> FateOf(s, i) == Kept
    ensures Mended(s, q, mark) == Mended(s, p, mark) + s[p..q]
  {
    hide FateOf;
    if p < q {
      MendedKept(s, p, q - 1, mark);
      assert s[p..q] == s[p..q - 1] + [s[q - 1]];
    }
  }

  lemma {:induction false} MendedDropped(s: seq<Byte>, p: nat, q: nat, mark: seq<Byte>)
    requires p <= q <= |s| && forall i: nat :: p <= i < q ==> FateOf(s, i) == Dropped
    ensures Mended(s, q, mark) == Mended(s, p, mark)
  {
    hide FateOf;
    if p < q { MendedDropped(s, p, q - 1, mark); }
  }

  // replace_invalid stands at p: a trail octet there belongs to no sequence.
  predicate Begins(s: seq<Byte>, p: nat) {
    p < |s| && IsTrail(s[p]) ==> FateOf(s, p) == Marked
  }

  lemma GoodFate(s: seq<Byte>, p: nat, mark: seq<Byte>)
    requires p < |s| && Scan(s[p..]).err == OK
    ensures After(s, p) == p + Scan(s[p..]).n && Begins(s, After(s, p))
    ensures Mended(s, After(s, p), mark) == Mended(s, p, mark) + s[p..After(s, p)]
  {
    hide Scan, Mended;
    var q := After(s, p);
    AfterTrails(s, p);
    LeadIsNoTrail(s, p);
    forall i: nat | p <= i < q ensures FateOf(s, i) == Kept { LeadOver(s, p, i); }
    MendedKept(s, p, q, mark);
    if q < |s| && IsTrail(s[q]) { LeadOver(s, p, q); }
  }

  lemma LeadIsNoTrail(s: seq<Byte>, p: nat)
    requires p < |s| && Scan(s[p..]).err != INVALID_LEAD
    ensures !IsTrail(s[p])
  {
    NoTrailLeads(s[p]);
  }

  lemma BadFate(s: seq<Byte>, p: nat, mark: seq<Byte>)
    requires p < |s| && Scan(s[p..]).err !in {OK, NOT_ENOUGH_ROOM} && Begins(s, p)
    ensures Begins(s, After(s, p)) && Mended(s, After(s, p), mark) == Mended(s, p, mark) + mark
  {
    hide Scan;
    var q := After(s, p);
    assert FateOf(s, p) == Marked;
    assert Mended(s, p + 1, mark) == Mended(s, p, mark) + mark;
    hide Mended;
    if Scan(s[p..]).err != INVALID_LEAD {
      AfterTrails(s, p);
      LeadIsNoTrail(s, p);
      forall i: nat | p + 1 <= i < q ensures FateOf(s, i) == Dropped { LeadOver(s, p, i); }
      MendedDropped(s, p + 1, q, mark);
    }
  }

  lemma CutFate(s: seq<Byte>, p: nat, mark: seq<Byte>)
    requires CutAt(s, p)
    ensures Mended(s, |s|, mark) == Mended(s, p, mark)
  {
    hide Scan, Mended;
    CutInside(s, p);
    CutIsNoRoom(s, p);
    forall i: nat | p <= i < |s| ensures FateOf(s, i) == Dropped { LeadOver(s, p, i); }
    MendedDropped(s, p, |s|, mark);
  }

  // A text goes on as one.
  lemma TextGoesOn(s: seq<Byte>, p: nat)
    requires p < |s| && Text(s[p..])
    ensures Scan(s[p..]).err == OK && Text(s[p + Scan(s[p..]).n..])
  {
    hide Scan, Text;
    TextStep(s[p..]);
    assert s[p..][Scan(s[p..]).n..] == s[p + Scan(s[p..]).n..];
  }

  lemma GoodPiece(s: seq<Byte>, p: nat, out: seq<Byte>)
    requires p < |s| && Scan(s[p..]).err == OK && Text(out)
    ensures Text(out + s[p..p + Scan(s[p..]).n])
  {
    hide Scan, Text, WellFormed, Encode;
    var n := Scan(s[p..]).n;
    ScanExact(s[p..]);
    assert s[p..][..n] == s[p..p + n];
    OneText(s[p..p + n]);
    TextConcat(out, s[p..p + n]);
  }

  lemma MarkText(out: seq<Byte>, replacement: nat)
    requires Text(out) && IsCodePoint(replacement)
    ensures Text(out + Encode(replacement))
  {
    hide Encode, Text, WellFormed;
    EncodeWellFormed(replacement);
    OneText(Encode(replacement));
    TextConcat(out, Encode(replacement));
  }

  method SkipTrails(s: seq<Byte>, p: nat) returns (q: nat)
    requires p <= |s|
    ensures q == TrailRun(s, p)
  {
    q := p;
    while q != |s| && IsTrail(s[q])
      invariant q <= |s| && TrailRun(s, q) == TrailRun(s, p)
      decreases |s| - q
    {
      q := q + 1;
    }
  }

  // One round of the loop for octets that are not well-formed.
  method Replace(s: seq<Byte>, p: nat, err: Error, out0: seq<Byte>, replacement: nat)
    returns (out: seq<Byte>, q: nat, thrown: Thrown)
    requires p < |s| && err == Scan(s[p..]).err && err != OK && err != NOT_ENOUGH_ROOM && Text(out0)
    ensures if IsCodePoint(replacement) then thrown == None && q == After(s, p) && Text(out)
      && out == out0 + Encode(replacement)
            else thrown == Some(InvalidCodePoint(replacement)) && out == out0
  {
    hide Scan, Text, Encode;
    q := p;
    out, thrown := Append(replacement, out0);
    if thrown != None { return; }
    MarkText(out0, replacement);
    q := q + 1;
    if err != INVALID_LEAD { q := SkipTrails(s, q); }
  }

  /** replace_invalid: with a valid replacement every octet has its fate, the result is a text, and it throws exactly
      when the octets end in a sequence that lacks octets. With an invalid one it stops at the first octet it would have
      to replace. */
  method ReplaceInvalid(s: seq<Byte>, replacement: nat) returns (out: seq<Byte>, thrown: Thrown)
    ensures Text(s) ==> out == s && thrown == None
    ensures IsCodePoint(replacement) ==>
      && out == Mended(s, |s|, Encode(replacement)) && Text(out)
      && thrown == if exists k :: CutAt(s, k) then Some(NotEnoughRoom) else None
    ensures !IsCodePoint(replacement) ==>
      && out <= s && Stuck(s, |out|)
      && thrown == if Text(s) then None else if CutAt(s, |out|) then Some(NotEnoughRoom)
        else Some(InvalidCodePoint(replacement))
  {
    hide Text, Scan, CutAt, Encode, After, Mended, Begins;
    out, thrown := [], None;
    ghost var mark := if IsCodePoint(replacement) then Encode(replacement) else [];
    NoText();
    AtFirst(s, mark);
    var p := 0;
    while p != |s|
      invariant p <= |s| && Text(out) && (Text(s) ==> out == s[..p] && Text(s[p..])) && thrown == None
      invariant forall k :: CutAt(s, k) ==> p <= k
      invariant if IsCodePoint(replacement) then out == Mended(s, p, mark) && Begins(s, p) else out == s[..p]
      decreases |s| - p
    {
      assert s[p..|s|] == s[p..];
      if Text(s[p..]) { TextGoesOn(s, p); }
      var err, q, cp := ValidateNext(s, p, |s|, 0);
      CutIsNoRoom(s, p);
      if err == NOT_ENOUGH_ROOM {
        CutFate(s, p, mark);
        thrown := Some(NotEnoughRoom);
        return;
      }
      forall k | CutAt(s, k) ensures After(s, p) <= k { CutLater(s, p, k); }
      if err == OK {
        GoodFate(s, p, mark);
        GoodPiece(s, p, out);
        assert s[..q] == s[..p] + s[p..q];
        out, p := out + s[p..q], q;
      } else {
        out, q, thrown := Replace(s, p, err, out, replacement);
        if thrown != None { return; }
        BadFate(s, p, mark);
        p := q;
      }
    }
    assert s[..|s|] == s;
    NoCutLeft(s);
  }

  lemma AtFirst(s: seq<Byte>, mark: seq<Byte>)
    ensures Mended(s, 0, mark) == [] && Begins(s, 0) && s[0..] == s && s[..0] == []
  {
  }

  lemma NoCutLeft(s: seq<Byte>)
    ensures (forall k :: CutAt(s, k) ==> |s| <= k) ==> !exists k :: CutAt(s, k)
  {
  }
}
