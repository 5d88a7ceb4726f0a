/** The circular window of deps/zlib/inflate.c: the last bytes of output kept between calls. */
module Window {
  import opened BitStream

  class SlidingWindow {
    const size: nat            // 1 << wbits
    const data: array<Byte>
    var whave: nat             // valid bytes
    var wnext: nat             // write index

    ghost predicate Valid()
      reads this, data
    {
      && data.Length == size > 0 && whave <= size && wnext < size
      && (whave == size || wnext == whave)
    }

    // Place of the byte written d bytes ago.
    function Index(d: nat): nat
      requires 0 < d <= size && wnext < size
      reads this
    {
      if d <= wnext then wnext - d else wnext + size - d
    }

    // The window holds the end of `hist`, as much of it as fits.
    ghost predicate Holds(hist: seq<Byte>)
      requires Valid()
      reads this, data
    {
      && whave == Whave(|hist|, size)
      && forall d :: 0 < d <= whave ==> data[Index(d)] == hist[|hist| - d]
    }

    constructor (n: nat)
      requires n > 0
      ensures Valid() && Holds([]) && fresh(data) && size == n
    {
      size := n;
      data := new Byte[n](_ => 0);
      whave, wnext := 0, 0;
    }

    // memcpy of src[from..from + n] to index `at`.
    method CopyIn(at: nat, src: seq<Byte>, from: nat, n: nat)
      requires at + n <= data.Length && from + n <= |src|
      modifies data
      ensures forall i :: 0 <= i < data.Length ==>
        data[i] == if at <= i < at + n then src[from + (i - at)] else old(data[i])
    {
      for k := 0 to n
        invariant forall i :: 0 <= i < data.Length ==>
          data[i] == if at <= i < at + k then src[from + (i - at)] else old(data[i])
      {
        data[at + k] := src[from + k];
      }
    }

    // Take in the bytes written since the last update.
    method Update(buf: seq<Byte>, ghost hist: seq<Byte>)
      requires Valid() && Holds(hist)
      modifies this, data
      ensures Valid() && Holds(hist + buf)
    {
      if |buf| >= size { Replace(buf, hist); } else { Append(buf, hist); }
    }

    // At least a windowful: only its end is kept.
    method Replace(buf: seq<Byte>, ghost hist: seq<Byte>)
      requires Valid() && |buf| >= size
      modifies this, data
      ensures Valid() && Holds(hist + buf)
    {
      CopyIn(0, buf, |buf| - size, size);
      wnext, whave := 0, size;
    }

    method Append(buf: seq<Byte>, ghost hist: seq<Byte>)
      requires Valid() && Holds(hist) && |buf| < size
      modifies this, data
      ensures Valid() && Holds(hist + buf)
    {
      ghost var was, at := data[..], wnext;
      forall d | 0 < d <= whave ensures was[Back(at, d)] == hist[|hist| - d] { assert Back(at, d) == Index(d); }
      Lay(buf);
      ghost var all := hist + buf;
      forall d | 0 < d <= whave ensures data[Index(d)] == all[|all| - d] { Moved(was, at, buf, hist, d); }
    }

    // Lay the bytes over the window from wnext on, around its end.
    method Lay(buf: seq<Byte>)
      requires Valid() && |buf| < size
      modifies this, data
      ensures Valid() && forall i :: 0 <= i < size ==> data[i] == Merged(old(data[..]), old(wnext), buf, i)
      ensures wnext == if old(wnext) + |buf| < size then old(wnext) + |buf| else old(wnext) + |buf| - size
      ensures whave == if old(whave) + |buf| < size then old(whave) + |buf| else size
    {
      var copy := |buf|;
      var dist := size - wnext;
      if dist > copy { dist := copy; }
      CopyIn(wnext, buf, 0, dist);
      copy := copy - dist;
      if copy != 0 {
        CopyIn(0, buf, dist, copy);
        wnext, whave := copy, size;
      } else {
        wnext := wnext + dist;
        if wnext == size { wnext := 0; }
        if whave < size { whave := whave + dist; }
      }
    }

    // The byte d back: one of the new ones, or an old one in its old place.
    lemma Moved(was: seq<Byte>, at: nat, buf: seq<Byte>, hist: seq<Byte>, d: nat)
      requires data.Length == size == |was| && at < size && |buf| < size && 0 < d <= size && d <= |hist| + |buf|
      requires wnext == if at + |buf| < size then at + |buf| else at + |buf| - size
      requires forall i :: 0 <= i < size ==> data[i] == Merged(was, at, buf, i)
      requires d > |buf| ==> was[Back(at, d - |buf|)] == hist[|hist| + |buf| - d]
      ensures wnext < size && data[Index(d)] == (hist + buf)[|hist + buf| - d]
    {
      if d <= |buf| {
        var k := at + (|buf| - d);
        assert Index(d) == if k < size then k else k - size;
      } else {
        assert Index(d) == Back(at, d - |buf|);
      }
    }

    // What position i holds after the new bytes were laid over the old ones from `at` on.
    function Merged(was: seq<Byte>, at: nat, buf: seq<Byte>, i: nat): Byte
      requires i < size == |was| && at < size && |buf| < size
    {
      if at <= i < at + |buf| then buf[i - at] else if i + size < at + |buf| then buf[i + size - at] else was[i]
    }

    function Back(at: nat, d: nat): nat
      requires at < size
    {
      if d <= at then at - d else if d <= at + size then at + size - d else 0
    }
  }

  // ---- how far back a distance may reach ----

  // The test both decoding loops make before copying: `written` bytes of this call, whave bytes of earlier ones.
  predicate TooFar(offset: nat, written: nat, whave: nat) {
    offset > written && offset - written > whave
  }

  // Valid bytes of a window of this size after `hist` bytes of earlier calls.
  function Whave(hist: nat, size: nat): nat {
    if hist < size then hist else size
  }

  // Whether a distance is refused does not depend on how the output was cut into calls exactly
  // when the distance is at most the window size.
  lemma CutIndependent(offset: nat, size: nat)
    ensures offset <= size <==>
      forall written: nat, hist: nat :: TooFar(offset, written, Whave(hist, size)) <==> offset > written + hist
  {
    if offset > size {
      assert TooFar(offset, 0, Whave(offset, size));
      assert !(offset > 0 + offset);
    }
  }
}
