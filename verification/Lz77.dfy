/** Literals and (distance, length) pairs, and the bytes they stand for. */
module Lz77 {
  import opened BitStream

  datatype Token = Literal(c: Byte) | Pair(dist: nat, len: nat)

  // Copy len bytes from dist back; source and destination may overlap.
  function CopyBack(out: seq<Byte>, dist: nat, len: nat): (r: seq<Byte>)
    requires 0 < dist <= |out|
    ensures out <= r && |r| == |out| + len
    decreases len
  {
    if len == 0 then out else CopyBack(out + [out[|out| - dist]], dist, len - 1)
  }

  // The token can be expanded after `out`.
  predicate Fits(tok: Token, out: seq<Byte>) {
    tok.Pair? ==> 0 < tok.dist <= |out| && tok.dist <= 32768 && 3 <= tok.len <= 258
  }

  function Put(out: seq<Byte>, tok: Token): (r: seq<Byte>)
    requires Fits(tok, out)
    ensures out <= r
  {
    match tok
    case Literal(c) => out + [c]
    case Pair(dist, len) => CopyBack(out, dist, len)
  }

  predicate AllFit(toks: seq<Token>, out: seq<Byte>)
    decreases |toks|
  {
    toks == [] || (Fits(toks[0], out) && AllFit(toks[1..], Put(out, toks[0])))
  }

  function Expand(toks: seq<Token>, out: seq<Byte>): (r: seq<Byte>)
    requires AllFit(toks, out)
    ensures out <= r
    decreases |toks|
  {
    if toks == [] then out else Expand(toks[1..], Put(out, toks[0]))
  }

  lemma {:induction false} ExpandConcat(a: seq<Token>, b: seq<Token>, out: seq<Byte>)
    ensures AllFit(a + b, out) <==> AllFit(a, out) && AllFit(b, Expand(a, out))
    ensures AllFit(a + b, out) ==> Expand(a + b, out) == Expand(b, Expand(a, out))
    decreases |a|
  {
    if a == [] {
      assert a + b == b;
    } else {
      assert (a + b)[1..] == a[1..] + b;
      if Fits(a[0], out) { ExpandConcat(a[1..], b, Put(out, a[0])); }
    }
  }

  // A copied run is the text it continues, when each byte equals the one dist before it.
  lemma {:induction false} CopyIsText(text: seq<Byte>, n: nat, dist: nat, len: nat)
    requires 0 < dist <= n && n + len <= |text|
    requires forall i :: n <= i < n + len ==> text[i] == text[i - dist]
    ensures CopyBack(text[..n], dist, len) == text[..n + len]
    decreases len
  {
    if len > 0 {
      assert text[..n] + [text[n]] == text[..n + 1];
      CopyIsText(text, n + 1, dist, len - 1);
    }
  }
}
