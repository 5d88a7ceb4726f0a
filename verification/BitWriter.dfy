/** The bit packer of deps/zlib/trees.c: a 16-bit buffer in front of the pending bytes. */
module BitWriter {
  import opened Bits
  import opened BitStream

  const BUF_SIZE: nat := 16

  class Writer {
    var pending: seq<Byte>
    var bi_buf: nat
    var bi_valid: nat

    // All bits above the last valid one are zero, so `|=` of a shifted value is an addition.
    ghost predicate Valid()
      reads this
    {
      bi_valid <= BUF_SIZE && bi_buf < Pow2(bi_valid)
    }

    // Everything sent so far, bit by bit.
    ghost function Sent(): seq<bool>
      reads this
    {
      BytesBits(pending) + BitsOf(bi_buf, bi_valid)
    }

    constructor ()
      ensures Valid() && Sent() == [] && pending == [] && bi_valid == 0
    {
      pending, bi_buf, bi_valid := [], 0, 0;
    }

    method PutByte(c: Byte)
      modifies this`pending
      ensures pending == old(pending) + [c]
      ensures BytesBits(pending) == old(BytesBits(pending)) + BitsOf(c, 8)
    {
      BytesBitsConcat(pending, [c]);
      BytesBitsOne(c);
      pending := pending + [c];
    }

    method PutShort(w: nat)
      requires w < Pow2(BUF_SIZE)
      modifies this`pending
      ensures pending == old(pending) + [Low(w, 8), Shr(w, 8)]
      ensures BytesBits(pending) == old(BytesBits(pending)) + BitsOf(w, BUF_SIZE)
    {
      hide Pow2, Low, Shr, BitsOf, BytesBits;
      ShortBytes(w);
      PutByte(Low(w, 8));
      PutByte(Shr(w, 8));
    }

    method SendBits(value: nat, length: nat)
      requires Valid() && length <= BUF_SIZE && value < Pow2(length)
      modifies this
      ensures Valid() && Sent() == old(Sent()) + BitsOf(value, length)
    {
      hide Shl, Shr, Low, Pow2, BitsOf, BytesBits;
      if bi_valid > BUF_SIZE - length {
        ghost var before, out := bi_valid, BytesBits(pending);
        SplitSend(bi_buf, bi_valid, value, length);
        // (ush)value << bi_valid keeps only the 16 bits that fit
        var full := bi_buf + Low(Shl(value, bi_valid), BUF_SIZE);
        PutShort(full);
        bi_buf := Shr(value, BUF_SIZE - bi_valid);
        bi_valid := bi_valid + length - BUF_SIZE;
        assert Sent() == out + (BitsOf(full, 16) + BitsOf(bi_buf, bi_valid));
      } else {
        JoinSend(bi_buf, bi_valid, value, length);
        bi_buf := bi_buf + Shl(value, bi_valid);
        bi_valid := bi_valid + length;
      }
    }

    // Keep at most 7 bits.
    method Flush()
      requires Valid()
      modifies this
      ensures Valid() && Sent() == old(Sent()) && bi_valid < 8
    {
      hide Shl, Shr, Low, Pow2, BitsOf, BytesBits;
      Empty();
      if bi_valid == 16 {
        PutShort(bi_buf);
        bi_buf, bi_valid := 0, 0;
      } else if bi_valid >= 8 {
        LowByte(bi_buf, bi_valid);
        PutByte(Low(bi_buf, 8));
        bi_buf := Shr(bi_buf, 8);
        bi_valid := bi_valid - 8;
      }
    }

    // Fill up to a byte boundary with zero bits.
    method Windup()
      requires Valid()
      modifies this
      ensures Valid() && bi_valid == 0
      ensures Sent() == BytesBits(pending)
      ensures exists pad :: |pad| < 8 && Sent() == old(Sent()) + pad
      ensures old(bi_valid) == 0 ==> pending == old(pending)
    {
      hide Shl, Shr, Low, Pow2, BitsOf, BytesBits;
      Empty();
      PadBits(bi_buf, bi_valid);
      ghost var pad: seq<bool> := [];
      if bi_valid > 8 {
        pad := BitsOf(0, 16 - bi_valid);
        PutShort(bi_buf);
      } else if bi_valid > 0 {
        pad := BitsOf(0, 8 - bi_valid);
        PutByte(bi_buf);
      }
      ghost var all := BytesBits(pending);
      bi_buf, bi_valid := 0, 0;
      assert |pad| < 8 && all == old(Sent()) + pad;
    }

    // A stored block: align, lengths, then the bytes themselves.
    method CopyBlock(buf: seq<Byte>, header: bool)
      requires Valid() && |buf| < Pow2(16)
      modifies this
      ensures Valid() && bi_valid == 0 && Sent() == BytesBits(pending)
      ensures exists pad :: |pad| < 8 && Sent() == old(Sent()) + pad
                + (if header then BitsOf(|buf|, 16) + BitsOf(Pow2(16) - 1 - |buf|, 16) else [])
                + BytesBits(buf)
    {
      hide Shl, Shr, Low, Pow2, BitsOf, BytesBits;
      Windup();
      ghost var pad :| |pad| < 8 && Sent() == old(Sent()) + pad;
      ghost var head: seq<bool> := [];
      if header {
        head := BitsOf(|buf|, 16) + BitsOf(Pow2(16) - 1 - |buf|, 16);
        PutShort(|buf|);
        PutShort(Pow2(16) - 1 - |buf|);
      }
      Empty();
      var i := 0;
      while i < |buf|
        invariant 0 <= i <= |buf| && Valid() && bi_valid == 0 && bi_buf == 0
        invariant BytesBits(pending) == old(Sent()) + pad + head + BytesBits(buf[..i])
      {
        assert buf[..i + 1] == buf[..i] + [buf[i]];
        BytesBitsConcat(buf[..i], [buf[i]]);
        BytesBitsOne(buf[i]);
        PutByte(buf[i]);
        i := i + 1;
      }
      assert buf[..i] == buf;
    }
  }

  lemma Empty()
    ensures BitsOf(0, 0) == [] && Pow2(0) == 1 && BytesBits([]) == []
  {
  }

  lemma ShortBytes(w: nat)
    requires w < Pow2(16)
    ensures Low(w, 8) < 256 && Shr(w, 8) < 256
    ensures BitsOf(w, 16) == BitsOf(Low(w, 8), 8) + BitsOf(Shr(w, 8), 8)
  {
    BitsOfConcat(w, 8, 8);
    BitsOfLow(w, 8, 8);
    ShrBound(w, 8, 8);
    assert Pow2(8) == 256;
  }

  // The value fits behind the valid bits.
  lemma JoinSend(buf: nat, valid: nat, value: nat, length: nat)
    requires buf < Pow2(valid) && value < Pow2(length)
    ensures buf + Shl(value, valid) < Pow2(valid + length)
    ensures BitsOf(buf + Shl(value, valid), valid + length) == BitsOf(buf, valid) + BitsOf(value, length)
  {
    BitsOfAppend(buf, value, valid, length);
    SplitUnique(buf, value, valid);
    ShrBound(buf + Shl(value, valid), length, valid);
    assert valid + length == length + valid;
  }

  // The value straddles the end of the buffer.
  lemma SplitSend(buf: nat, valid: nat, value: nat, length: nat)
    requires buf < Pow2(valid) && value < Pow2(length) && valid <= 16 < valid + length && length <= 16
    ensures buf + Low(Shl(value, valid), 16) < Pow2(16)
    ensures Shr(value, 16 - valid) < Pow2(valid + length - 16)
    ensures BitsOf(buf + Low(Shl(value, valid), 16), 16) + BitsOf(Shr(value, 16 - valid), valid + length - 16)
            == BitsOf(buf, valid) + BitsOf(value, length)
  {
    hide Pow2, Low, Shr, Shl, BitsOf;
    var fit := 16 - valid;
    LowOfShl(value, valid, fit);
    JoinSend(buf, valid, Low(value, fit), fit);
    BitsOfConcat(value, fit, length - fit);
    BitsOfLow(value, fit, fit);
    ShrBound(value, length - fit, fit);
  }

  lemma {:induction false} LowOfShl(x: nat, m: nat, n: nat)
    ensures Low(Shl(x, m), m + n) == Shl(Low(x, n), m)
  {
    if m > 0 { LowOfShl(x, m - 1, n); }
  }

  lemma LowByte(w: nat, n: nat)
    requires 8 <= n && w < Pow2(n)
    ensures Low(w, 8) < 256 && Shr(w, 8) < Pow2(n - 8)
    ensures BitsOf(w, n) == BitsOf(Low(w, 8), 8) + BitsOf(Shr(w, 8), n - 8)
  {
    BitsOfConcat(w, 8, n - 8);
    BitsOfLow(w, 8, 8);
    ShrBound(w, n - 8, 8);
    assert Pow2(8) == 256;
  }

  lemma PadBits(w: nat, valid: nat)
    requires valid <= 16 && w < Pow2(valid)
    ensures w < Pow2(16) && (valid <= 8 ==> w < 256)
    ensures BitsOf(w, 16) == BitsOf(w, valid) + BitsOf(0, 16 - valid)
    ensures valid <= 8 ==> BitsOf(w, 8) == BitsOf(w, valid) + BitsOf(0, 8 - valid)
    ensures valid > 8 ==> |BitsOf(0, 16 - valid)| < 8
  {
    hide Low, Shr, BitsOf;
    Pow2Mono(valid, 16);
    LowSmall(w, valid);
    BitsOfConcat(w, valid, 16 - valid);
    if valid <= 8 {
      Pow2Mono(valid, 8);
      assert Pow2(8) == 256;
      BitsOfConcat(w, valid, 8 - valid);
    }
  }
}
