/** deps/utf8cpp/utf8/core.h: which octets validate_next accepts, against the grammar in section 4 of RFC 3629. */
module Utf8 {
  import opened BitStream

  const CODE_POINT_MAX: nat := 0x10ffff

  predicate IsLeadSurrogate(cp: nat) { 0xd800 <= cp <= 0xdbff }
  predicate IsTrailSurrogate(cp: nat) { 0xdc00 <= cp <= 0xdfff }
  predicate IsSurrogate(cp: nat) { 0xd800 <= cp <= 0xdfff }
  predicate IsCodePoint(cp: nat) { cp <= CODE_POINT_MAX && !IsSurrogate(cp) }

  predicate IsTrail(b: Byte) { b / 64 == 2 }

  function SequenceLength(lead: Byte): nat {
    if lead < 0x80 then 1
    else if lead / 32 == 0x6 then 2
    else if lead / 16 == 0xe then 3
    else if lead / 8 == 0x1e then 4
    else 0
  }

  predicate IsOverlong(cp: nat, length: nat) {
    if cp < 0x80 then length != 1
    else if cp < 0x800 then length != 2
    else if cp < 0x10000 then length != 3
    else false
  }

  // ---- the grammar ----

  predicate Tail(b: Byte) { 0x80 <= b <= 0xbf }

  predicate WellFormed(s: seq<Byte>) {
    match |s|
    case 1 => s[0] <= 0x7f
    case 2 => 0xc2 <= s[0] <= 0xdf && Tail(s[1])
    case 3 =>
      && Tail(s[2])
      && ( || (s[0] == 0xe0 && 0xa0 <= s[1] <= 0xbf)
           || (0xe1 <= s[0] <= 0xec && Tail(s[1]))
           || (s[0] == 0xed && 0x80 <= s[1] <= 0x9f)
           || (0xee <= s[0] <= 0xef && Tail(s[1])))
    case 4 =>
      && Tail(s[2]) && Tail(s[3])
      && ( || (s[0] == 0xf0 && 0x90 <= s[1] <= 0xbf)
           || (0xf1 <= s[0] <= 0xf3 && Tail(s[1]))
           || (s[0] == 0xf4 && 0x80 <= s[1] <= 0x8f))
    case _ => false
  }

  // The octets of a code point, by the table in section 3 of RFC 3629.
  function Encode(cp: nat): (s: seq<Byte>)
    requires IsCodePoint(cp)
    ensures 1 <= |s| <= 4
  {
    if cp < 0x80 then [cp]
    else if cp < 0x800 then [0xc0 + cp / 64, 0x80 + cp % 64]
    else if cp < 0x10000 then [0xe0 + cp / 4096, 0x80 + cp / 64 % 64, 0x80 + cp % 64]
    else [0xf0 + cp / 0x40000, 0x80 + cp / 4096 % 64, 0x80 + cp / 64 % 64, 0x80 + cp % 64]
  }

  // ---- what validate_next does ----

  datatype Error = OK | NOT_ENOUGH_ROOM | INVALID_LEAD | INCOMPLETE_SEQUENCE | OVERLONG_SEQUENCE | INVALID_CODE_POINT

  // Octets 2 to n of a sequence.
  function Trails(s: seq<Byte>, n: nat): (err: Error)
    ensures err == OK || err == NOT_ENOUGH_ROOM || err == INCOMPLETE_SEQUENCE
  {
    if n <= 1 then OK else
    var before := Trails(s, n - 1);
    if before != OK then before
    else if |s| < n then NOT_ENOUGH_ROOM
    else if !IsTrail(s[n - 1]) then INCOMPLETE_SEQUENCE
    else OK
  }

  // The number spelled by n octets; the masks keep the payload bits.
  function Value(s: seq<Byte>, n: nat): nat
    requires 1 <= n <= |s| && n <= 4
  {
    match n
    case 1 => s[0]
    case 2 => (s[0] as nat * 64) % 0x800 + s[1] % 64
    case 3 => (s[0] as nat * 4096) % 0x10000 + (s[1] as nat * 64) % 0x1000 + s[2] % 64
    case _ =>
      (s[0] as nat * 0x40000) % 0x200000 + (s[1] as nat * 4096) % 0x40000 + (s[2] as nat * 64) % 0x1000 + s[3] % 64
  }

  datatype Scanned = Scanned(err: Error, n: nat, cp: nat)

  lemma {:induction false} TrailsRoom(s: seq<Byte>, n: nat)
    requires Trails(s, n) == OK && s != []
    ensures n <= |s| && forall i :: 1 <= i < n ==> IsTrail(s[i])
  {
    if n > 1 { TrailsRoom(s, n - 1); }
  }

  function Scan(s: seq<Byte>): (r: Scanned)
    requires s != []
    ensures r.err == OK ==> 1 <= r.n <= |s| && r.n <= 4 && IsCodePoint(r.cp)
  {
    var n := SequenceLength(s[0]);
    if n == 0 then Scanned(INVALID_LEAD, 0, 0) else
    var err := Trails(s, n);
    if err != OK then Scanned(err, 0, 0) else
    TrailsRoom(s, n);
    var cp := Value(s, n);
    if !IsCodePoint(cp) then Scanned(INVALID_CODE_POINT, 0, 0)
    else if IsOverlong(cp, n) then Scanned(OVERLONG_SEQUENCE, 0, 0)
    else Scanned(OK, n, cp)
  }

  // ---- exactly the grammar ----

  lemma EncodeWellFormed(cp: nat)
    requires IsCodePoint(cp)
    ensures WellFormed(Encode(cp))
  {
    if cp >= 0x10000 {
      FourLead(cp);
    } else if cp >= 0x800 {
      ThreeLead(cp);
    }
  }

  lemma ThreeLead(cp: nat)
    requires IsCodePoint(cp) && 0x800 <= cp < 0x10000
    ensures
      var a, b := cp / 4096, cp / 64 % 64;
      a <= 15 && (a == 0 ==> b >= 0x20) && (a == 13 ==> b < 0x20)
  {
  }

  lemma FourLead(cp: nat)
    requires 0x10000 <= cp <= 0x10ffff
    ensures
      var a, b := cp / 0x40000, cp / 4096 % 64;
      a <= 4 && (a == 0 ==> b >= 0x10) && (a == 4 ==> b < 0x10)
  {
  }

  // The octets determine the code point, and the other way round.
  lemma Two(s: seq<Byte>)
    requires |s| >= 2 && s[0] / 32 == 0x6 && IsTrail(s[1])
    ensures
      var cp := Value(s, 2);
      && cp == (s[0] as nat - 0xc0) * 64 + (s[1] - 0x80)
        && (IsCodePoint(cp) && !IsOverlong(cp, 2) <==> WellFormed(s[..2]))
      && (WellFormed(s[..2]) ==> Encode(cp) == s[..2])
  {
  }

  lemma Three(s: seq<Byte>)
    requires |s| >= 3 && s[0] / 16 == 0xe && IsTrail(s[1]) && IsTrail(s[2])
    ensures
      var cp := Value(s, 3);
      && (IsCodePoint(cp) && !IsOverlong(cp, 3) <==> WellFormed(s[..3]))
      && (WellFormed(s[..3]) ==> Encode(cp) == s[..3])
  {
    var cp := Value(s, 3);
    var a: int, b: int, c: int := s[0] - 0xe0, s[1] - 0x80, s[2] - 0x80;
    assert cp == a * 4096 + b * 64 + c;
    assert cp / 64 == a * 64 + b && cp / 4096 == a;
  }

  lemma Four(s: seq<Byte>)
    requires |s| >= 4 && s[0] / 8 == 0x1e && IsTrail(s[1]) && IsTrail(s[2]) && IsTrail(s[3])
    ensures
      var cp := Value(s, 4);
      && (IsCodePoint(cp) && !IsOverlong(cp, 4) <==> WellFormed(s[..4]))
      && (WellFormed(s[..4]) ==> Encode(cp) == s[..4])
  {
    FourValue(s);
    var a: int, b: int, c: int, d: int := s[0] - 0xf0, s[1] - 0x80, s[2] - 0x80, s[3] - 0x80;
    FourParts(a, b, c, d);
    hide Value;
  }

  lemma FourValue(s: seq<Byte>)
    requires |s| >= 4 && s[0] / 8 == 0x1e && IsTrail(s[1]) && IsTrail(s[2]) && IsTrail(s[3])
    ensures Value(s, 4) == 
      (s[0] as int - 0xf0) * 0x40000 + (s[1] as int - 0x80) * 4096 + (s[2] as int - 0x80) * 64 + (s[3] as int - 0x80)
  {
  }

  lemma FourParts(a: nat, b: nat, c: nat, d: nat)
    requires b < 64 && c < 64 && d < 64
    ensures
      var cp := a * 0x40000 + b * 4096 + c * 64 + d;
      && cp / 64 == a * 4096 + b * 64 + c && cp / 4096 == a * 64 + b && cp / 0x40000 == a
      && cp % 64 == d && cp / 64 % 64 == c && cp / 4096 % 64 == b
  {
  }

  // The first octet of a well-formed sequence tells its length.
  lemma LeadLength(s: seq<Byte>)
    requires WellFormed(s)
    ensures SequenceLength(s[0]) == |s| && forall i :: 1 <= i < |s| ==> IsTrail(s[i])
  {
  }

  lemma {:induction false} TrailsOk(s: seq<Byte>, n: nat)
    requires 1 <= n <= |s| && forall i :: 1 <= i < n ==> IsTrail(s[i])
    ensures Trails(s, n) == OK
    decreases n
  {
    if n > 1 { TrailsOk(s, n - 1); }
  }

  // Whole sequences of n octets, n being what the first octet says.
  lemma ValueExact(s: seq<Byte>, n: nat)
    requires s != [] && SequenceLength(s[0]) == n && 1 <= n <= |s| && forall i :: 1 <= i < n ==> IsTrail(s[i])
    ensures n <= 4 && (IsCodePoint(Value(s, n)) && !IsOverlong(Value(s, n), n) <==> WellFormed(s[..n]))
    ensures WellFormed(s[..n]) ==> Encode(Value(s, n)) == s[..n]
  {
    hide WellFormed, Encode, Value;
    match n
    case 1 => One(s);
    case 2 => Two(s);
    case 3 => Three(s);
    case 4 => Four(s);
  }

  lemma One(s: seq<Byte>)
    requires |s| >= 1 && s[0] < 0x80
    ensures Value(s, 1) == s[0] && WellFormed(s[..1]) && Encode(s[0]) == s[..1]
  {
  }

  /** validate_next accepts exactly what starts with a well-formed sequence, takes all of it, and delivers the code
      point that is spelled so. */
  lemma ScanExact(s: seq<Byte>)
    requires s != []
    ensures Scan(s).err == OK ==> WellFormed(s[..Scan(s).n]) && Encode(Scan(s).cp) == s[..Scan(s).n]
    ensures forall n :: 1 <= n <= |s| && WellFormed(s[..n]) ==> Scan(s).err == OK && Scan(s).n == n
  {
    hide WellFormed, Encode, Value;
    var k := SequenceLength(s[0]);
    if Trails(s, k) == OK && k > 0 {
      TrailsRoom(s, k);
      ValueExact(s, k);
    }
    forall n | 1 <= n <= |s| && WellFormed(s[..n]) ensures Scan(s).err == OK && Scan(s).n == n {
      LeadLength(s[..n]);
      assert forall i :: 1 <= i < n ==> IsTrail(s[..n][i]);
      TrailsOk(s, n);
      ValueExact(s, n);
    }
  }

  /** Reading what was written. */
  lemma ScanEncoded(cp: nat, rest: seq<Byte>)
    requires IsCodePoint(cp)
    ensures Scan(Encode(cp) + rest) == Scanned(OK, |Encode(cp)|, cp)
  {
    hide WellFormed, Encode, Value;
    var s, n := Encode(cp) + rest, |Encode(cp)|;
    EncodeWellFormed(cp);
    assert s[..n] == Encode(cp);
    ScanExact(s);
    EncodeInjective(cp, Scan(s).cp);
  }

  lemma EncodeInjective(a: nat, b: nat)
    requires IsCodePoint(a) && IsCodePoint(b) && Encode(a) == Encode(b)
    ensures a == b
  {
    EncodeValue(a);
    EncodeValue(b);
    hide Encode;
  }

  // The code point from its octets.
  lemma EncodeValue(cp: nat)
    requires IsCodePoint(cp)
    ensures Value(Encode(cp), |Encode(cp)|) == cp
  {
    if cp < 0x800 { Value2(cp); } else if cp < 0x10000 { Value3(cp); } else { Value4(cp); }
  }

  lemma Value2(cp: nat)
    requires IsCodePoint(cp) && cp < 0x800
    ensures Value(Encode(cp), |Encode(cp)|) == cp
  {
  }

  lemma Value3(cp: nat)
    requires IsCodePoint(cp) && 0x800 <= cp < 0x10000
    ensures Value(Encode(cp), |Encode(cp)|) == cp
  {
    Digits(cp);
    var s := Encode(cp);
    assert (s[0] as nat * 4096) % 0x10000 == cp / 4096 * 4096 && (s[1] as nat * 64) % 0x1000 == cp / 64 % 64 * 64;
  }

  lemma Value4(cp: nat)
    requires IsCodePoint(cp) && 0x10000 <= cp
    ensures Value(Encode(cp), |Encode(cp)|) == cp
  {
    Digits(cp);
    var s := Encode(cp);
    assert (s[0] as nat * 0x40000) % 0x200000 == cp / 0x40000 * 0x40000;
    assert (s[1] as nat * 4096) % 0x40000 == cp / 4096 % 64 * 4096;
    assert (s[2] as nat * 64) % 0x1000 == cp / 64 % 64 * 64;
  }

  lemma Digits(cp: nat)
    ensures cp == cp / 64 * 64 + cp % 64 && cp == cp / 4096 * 4096 + cp / 64 % 64 * 64 + cp % 64
    ensures cp == cp / 0x40000 * 0x40000 + cp / 4096 % 64 * 4096 + cp / 64 % 64 * 64 + cp % 64
  {
    assert cp / 4096 == cp / 64 / 64 && cp / 0x40000 == cp / 4096 / 64;
  }

  // ---- the code ----

  // increase_safely
  method IncreaseSafely(s: seq<Byte>, it0: nat, end: nat) returns (err: Error, it: nat)
    requires it0 < end <= |s|
    ensures it == it0 + 1
    ensures err == if it == end then NOT_ENOUGH_ROOM else if !IsTrail(s[it]) then INCOMPLETE_SEQUENCE else OK
  {
    it := it0 + 1;
    if it == end { return NOT_ENOUGH_ROOM, it; }
    if !IsTrail(s[it]) { return INCOMPLETE_SEQUENCE, it; }
    err := OK;
  }

  // get_sequence_1 to get_sequence_4: on success the iterator stands on the last octet.
  ghost predicate Got(s: seq<Byte>, it0: nat, end: nat, n: nat, err: Error, it: nat, cp: nat)
    requires it0 < end <= |s| && 1 <= n <= 4
  {
    var rest := s[it0..end];
    err == Trails(rest, n) && (err == OK ==> it == it0 + n - 1 < end && n <= |rest| && cp == Value(rest, n))
  }

  method GetSequence1(s: seq<Byte>, it0: nat, end: nat) returns (err: Error, it: nat, cp: nat)
    requires it0 < end <= |s|
    ensures Got(s, it0, end, 1, err, it, cp)
  {
    err, it, cp := OK, it0, s[it0];
  }

  method GetSequence2(s: seq<Byte>, it0: nat, end: nat) returns (err: Error, it: nat, cp: nat)
    requires it0 < end <= |s|
    ensures Got(s, it0, end, 2, err, it, cp)
  {
    cp := s[it0];
    ghost var rest := s[it0..end];
    assert Trails(rest, 1) == OK;
    err, it := IncreaseSafely(s, it0, end);
    if err != OK { return; }
    cp := (cp * 64) % 0x800 + s[it] % 64;
  }

  method GetSequence3(s: seq<Byte>, it0: nat, end: nat) returns (err: Error, it: nat, cp: nat)
    requires it0 < end <= |s|
    ensures Got(s, it0, end, 3, err, it, cp)
  {
    cp := s[it0];
    ghost var rest := s[it0..end];
    assert Trails(rest, 1) == OK;
    err, it := IncreaseSafely(s, it0, end);
    assert Trails(rest, 2) == err;
    if err != OK { return; }
    cp := (cp * 4096) % 0x10000 + (s[it] as nat * 64) % 0x1000;
    err, it := IncreaseSafely(s, it, end);
    if err != OK { return; }
    cp := cp + s[it] % 64;
  }

  method GetSequence4(s: seq<Byte>, it0: nat, end: nat) returns (err: Error, it: nat, cp: nat)
    requires it0 < end <= |s|
    ensures Got(s, it0, end, 4, err, it, cp)
  {
    cp := s[it0];
    ghost var rest := s[it0..end];
    assert Trails(rest, 1) == OK;
    err, it := IncreaseSafely(s, it0, end);
    assert Trails(rest, 2) == err;
    if err != OK { return; }
    cp := (cp * 0x40000) % 0x200000 + (s[it] as nat * 4096) % 0x40000;
    err, it := IncreaseSafely(s, it, end);
    assert Trails(rest, 3) == err;
    if err != OK { return; }
    cp := cp + (s[it] as nat * 64) % 0x1000;
    err, it := IncreaseSafely(s, it, end);
    if err != OK { return; }
    cp := cp + s[it] % 64;
  }

  /** validate_next: on failure neither the iterator nor the code point is changed. */
  method ValidateNext(s: seq<Byte>, it0: nat, end: nat, cp0: nat) returns (err: Error, it: nat, cp: nat)
    requires it0 < end <= |s|
    ensures err == Scan(s[it0..end]).err
    ensures if err == OK then it == it0 + Scan(s[it0..end]).n && cp == Scan(s[it0..end]).cp else it == it0 && cp == cp0
  {
    hide Trails, Value;
    var length := SequenceLength(s[it0]);
    var c;
    it, cp := it0, cp0;
    match length {
      case 0 => return INVALID_LEAD, it0, cp0;
      case 1 => err, it, c := GetSequence1(s, it0, end);
      case 2 => err, it, c := GetSequence2(s, it0, end);
      case 3 => err, it, c := GetSequence3(s, it0, end);
      case 4 => err, it, c := GetSequence4(s, it0, end);
    }
    if err == OK {
      if IsCodePoint(c) {
        if !IsOverlong(c, length) { return OK, it + 1, c; }
        err := OVERLONG_SEQUENCE;
      } else {
        err := INVALID_CODE_POINT;
      }
    }
    it := it0;
  }

  // ---- texts ----

  predicate AllCodePoints(cps: seq<nat>) {
    forall i :: 0 <= i < |cps| ==> IsCodePoint(cps[i])
  }

  function EncodeAll(cps: seq<nat>): seq<Byte>
    requires AllCodePoints(cps)
  {
    if cps == [] then [] else EncodeAll(cps[..|cps| - 1]) + Encode(cps[|cps| - 1])
  }

  // A text is any number of well-formed sequences.
  ghost predicate Text(s: seq<Byte>) {
    s == [] || exists n :: 1 <= n <= |s| && WellFormed(s[..n]) && Text(s[n..])
  }

  lemma TextStep(s: seq<Byte>)
    requires s != []
    ensures Text(s) <==> Scan(s).err == OK && Text(s[Scan(s).n..])
  {
    hide WellFormed, Scan, Encode;
    ScanExact(s);
    if Text(s) {
      var n :| 1 <= n <= |s| && WellFormed(s[..n]) && Text(s[n..]);
    }
  }

  lemma {:induction false} TextConcat(a: seq<Byte>, b: seq<Byte>)
    requires Text(a)
    ensures Text(a + b) <==> Text(b)
    decreases |a|
  {
    hide WellFormed, Scan, Encode;
    if a == [] {
      assert a + b == b;
    } else {
      var n :| 1 <= n <= |a| && WellFormed(a[..n]) && Text(a[n..]);
      assert (a + b)[..n] == a[..n] && (a + b)[n..] == a[n..] + b;
      TextConcat(a[n..], b);
      ScanExact(a + b);
      TextStep(a + b);
    }
  }

  lemma OneText(s: seq<Byte>)
    requires WellFormed(s)
    ensures Text(s)
  {
    assert s[..|s|] == s && s[|s|..] == [];
    assert Text([]);
  }

  lemma {:induction false} EncodedText(cps: seq<nat>)
    requires AllCodePoints(cps)
    ensures Text(EncodeAll(cps))
  {
    hide Encode, WellFormed;
    if cps != [] {
      var n := |cps| - 1;
      EncodedText(cps[..n]);
      EncodeWellFormed(cps[n]);
      OneText(Encode(cps[n]));
      TextConcat(EncodeAll(cps[..n]), Encode(cps[n]));
    }
  }

  lemma EncodeSnoc(cps: seq<nat>, cp: nat)
    requires AllCodePoints(cps) && IsCodePoint(cp)
    ensures AllCodePoints(cps + [cp]) && EncodeAll(cps + [cp]) == EncodeAll(cps) + Encode(cp)
  {
    hide Encode;
    assert (cps + [cp])[..|cps|] == cps;
  }

  lemma {:induction false} EncodeConcat(a: seq<nat>, b: seq<nat>)
    requires AllCodePoints(a) && AllCodePoints(b) && AllCodePoints(a + b)
    ensures EncodeAll(a + b) == EncodeAll(a) + EncodeAll(b)
    decreases |b|
  {
    hide Encode;
    if b == [] {
      assert a + b == a;
    } else {
      var n := |b| - 1;
      assert (a + b)[..|a + b| - 1] == a + b[..n];
      EncodeConcat(a, b[..n]);
    }
  }

  lemma EncodeFirst(cps: seq<nat>)
    requires AllCodePoints(cps) && cps != []
    ensures AllCodePoints(cps[1..]) && EncodeAll(cps) == Encode(cps[0]) + EncodeAll(cps[1..])
  {
    hide Encode;
    assert cps == [cps[0]] + cps[1..] && [cps[0]][..0] == [];
    assert EncodeAll([cps[0]]) == Encode(cps[0]);
    EncodeConcat([cps[0]], cps[1..]);
  }

  /** The octets of a text determine its code points. */
  lemma {:induction false} EncodeAllInjective(a: seq<nat>, b: seq<nat>)
    requires AllCodePoints(a) && AllCodePoints(b) && EncodeAll(a) == EncodeAll(b)
    ensures a == b
    decreases |a|
  {
    hide Encode, Scan;
    if a == [] || b == [] {
      if a != [] { EncodeFirst(a); }
      if b != [] { EncodeFirst(b); }
    } else {
      EncodeFirst(a);
      EncodeFirst(b);
      ScanEncoded(a[0], EncodeAll(a[1..]));
      ScanEncoded(b[0], EncodeAll(b[1..]));
      assert EncodeAll(a)[|Encode(a[0])|..] == EncodeAll(a[1..]) && EncodeAll(b)[|Encode(b[0])|..] == EncodeAll(b[1..]);
      EncodeAllInjective(a[1..], b[1..]);
      assert a == [a[0]] + a[1..] && b == [b[0]] + b[1..];
    }
  }

  // Where the text stops being one.
  ghost predicate Stuck(s: seq<Byte>, p: nat) {
    p <= |s| && Text(s[..p]) && (p < |s| ==> Scan(s[p..]).err != OK)
  }

  lemma StuckText(s: seq<Byte>, p: nat)
    requires Stuck(s, p)
    ensures Text(s) <==> p == |s|
  {
    hide Scan;
    assert s == s[..p] + s[p..];
    TextConcat(s[..p], s[p..]);
    if p < |s| { TextStep(s[p..]); } else { assert s[..p] == s; }
  }

  lemma TextGrows(s: seq<Byte>, p: nat)
    requires p < |s| && Text(s[..p]) && Scan(s[p..]).err == OK
    ensures Text(s[..p + Scan(s[p..]).n])
  {
    hide Scan, WellFormed, Encode;
    var n := Scan(s[p..]).n;
    ScanExact(s[p..]);
    assert s[p..][..n] == s[p..p + n];
    OneText(s[p..p + n]);
    assert s[..p + n] == s[..p] + s[p..p + n];
    TextConcat(s[..p], s[p..p + n]);
  }

  /** find_invalid: the end of the longest prefix that is a text; all of the octets exactly when they are one. */
  method FindInvalid(s: seq<Byte>) returns (result: nat)
    ensures Stuck(s, result) && (result == |s| <==> Text(s))
  {
    hide Scan, Text;
    result := 0;
    NoText();
    while result != |s|
      invariant result <= |s| && Text(s[..result])
      decreases |s| - result
    {
      var err, it, cp := ValidateNext(s, result, |s|, 0);
      assert s[result..|s|] == s[result..];
      if err != OK {
        StuckText(s, result);
        return;
      }
      TextGrows(s, result);
      result := it;
    }
    StuckText(s, result);
  }

  lemma NoText()
    ensures Text([])
  {
  }
}
