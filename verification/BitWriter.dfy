/** The output side of the compressor: the pending byte buffer and the 16-bit,
    least-significant-bit-first bit buffer in front of it. */
module BitWriters {
  import opened Prelude
  import opened Bits

  const BUF_SIZE: nat := 16

  lemma {:induction false} LowOfShifted(v: nat, k: nat, m: nat)
    ensures Low(Shl(v, k), k + m) == Shl(Low(v, m), k)
  {
    if k > 0 {
      var y := Shl(v, k);
      assert y % 2 == 0 && y / 2 == Shl(v, k - 1);
      LowOfShifted(v, k - 1, m);
    }
  }

  lemma {:induction false} SumBelow(buf: nat, lo: nat, k: nat, m: nat)
    requires buf < Pow2(k) && lo < Pow2(m)
    ensures buf + Shl(lo, k) < Pow2(k + m)
  {
    if k > 0 {
      SumBelow(buf / 2, lo, k - 1, m);
    }
  }

  // A 16-bit word filled by the first bits of value, and the bits of value left over.
  lemma Spill(buf: nat, value: nat, k: nat, m: nat, rest: nat, word: nat)
    requires buf < Pow2(k) && value < Pow2(m + rest) && k + m == BUF_SIZE
    requires word == BitOr(buf, Low(Shl(value, k), BUF_SIZE))
    ensures word < 0x1_0000 && Shr(value, m) < Pow2(rest)
    ensures LowBits(word, BUF_SIZE) + LowBits(Shr(value, m), rest) == LowBits(buf, k) + LowBits(value, m + rest)
  {
    LowOfShifted(value, k, m);
    ShrLow(value, m);
    OrDisjoint(buf, Low(value, m), k);
    LowBitsConcat(buf, Low(value, m), k, m);
    SumBelow(buf, Low(value, m), k, m);
    Pow2Values();
    LowBitsSplit(value, m, rest);
    ShrSmall(value, m, rest);
  }

  // A value that fits in the free bits of the word.
  lemma Fill(buf: nat, value: nat, k: nat, m: nat, length: nat, word: nat)
    requires length <= m && buf < Pow2(k) && value < Pow2(length) && k + m == BUF_SIZE
    requires word == BitOr(buf, Low(Shl(value, k), BUF_SIZE))
    ensures word < Pow2(k + length) && LowBits(word, k + length) == LowBits(buf, k) + LowBits(value, length)
  {
    hide LowBits, Low, Shl, Shr, BitOr, Pow2;
    Pow2Mono(length, m);
    ShlZero(m);
    ShrLowUnique(value, m, 0, value);
    LowOfShifted(value, k, m);
    OrDisjoint(buf, value, k);
    LowBitsConcat(buf, value, k, length);
    SumBelow(buf, value, k, length);
  }

  lemma Regroup(a: seq<bool>, b: seq<bool>, c: seq<bool>, d: seq<bool>, e: seq<bool>)
    requires b + c == d + e
    ensures a + b + c == a + d + e
  {
    assert a + b + c == a + (b + c);
    assert a + d + e == a + (d + e);
  }

  // How many bits a stream of n bits is short of a byte boundary.
  function PadLength(n: nat): (k: nat)
    ensures (n + k) % 8 == 0 && k < 8
  {
    (8 - n % 8) % 8
  }

  // The zero bits that take it there.
  function Padding(n: nat): (z: seq<bool>)
    ensures |z| == PadLength(n)
  {
    LowBits(0, PadLength(n))
  }

  lemma ToBoundary(q: nat, v: nat, n: nat, t: nat)
    requires (0 < v <= 8 && n == 8) || (8 < v <= 16 && n == 16)
    requires t == 8 * q + v
    ensures PadLength(t) == PadLength(v) == n - v
  {
  }

  lemma PadBits(w: nat, v: nat, n: nat)
    requires w < Pow2(v) && v <= n
    ensures LowBits(w, n) == LowBits(w, v) + LowBits(0, n - v)
  {
    ShlZero(v);
    LowBitsConcat(w, 0, v, n - v);
  }

  // Writing the word of v valid bits out as n bits pads the stream to the next byte.
  lemma Windup(q: seq<bool>, w: nat, v: nat, n: nat, t: nat)
    requires w < Pow2(v) && v <= n && PadLength(t) == n - v
    ensures q + LowBits(w, n) == q + LowBits(w, v) + Padding(t)
  {
    PadBits(w, v, n);
  }

  lemma WindupBound(w: nat, v: nat)
    requires w < Pow2(v)
    ensures v <= 8 ==> w < 0x100
    ensures v <= 16 ==> w < 0x1_0000
  {
    Pow2Values();
    if v <= 8 {
      Pow2Mono(v, 8);
    } else if v <= 16 {
      Pow2Mono(v, 16);
    }
  }

  lemma TwoBytes(lo: nat, hi: nat)
    requires lo < 256
    ensures LowBits(lo + 256 * hi, 16) == LowBits(lo, 8) + LowBits(hi, 8)
  {
    Pow2Values();
    Shl256(hi);
    LowBitsConcat(lo, hi, 8, 8);
  }

  lemma ShortBits(s: seq<byte>, lo: byte, hi: byte, w: nat)
    requires w == lo + 256 * hi
    ensures BytesToBits(s + [lo, hi]) == BytesToBits(s) + LowBits(w, 16)
  {
    hide LowBits;
    assert s + [lo, hi] == (s + [lo]) + [hi];
    BytesToBitsSnoc(s, lo);
    BytesToBitsSnoc(s + [lo], hi);
    TwoBytes(lo, hi);
  }

  lemma ByteBits(s: seq<byte>, lo: byte, hi: nat, rest: nat)
    requires lo + 256 * hi < Pow2(8 + rest)
    ensures BytesToBits(s + [lo]) + LowBits(hi, rest) == BytesToBits(s) + LowBits(lo + 256 * hi, 8 + rest)
    ensures hi < Pow2(rest)
  {
    BytesToBitsSnoc(s, lo);
    LowByte(lo, hi, rest);
    Regroup(BytesToBits(s), LowBits(lo, 8), LowBits(hi, rest), LowBits(lo + 256 * hi, 8 + rest), []);
  }

  lemma LowByte(lo: nat, hi: nat, rest: nat)
    requires lo < 256 && lo + 256 * hi < Pow2(8 + rest)
    ensures LowBits(lo + 256 * hi, 8 + rest) == LowBits(lo, 8) + LowBits(hi, rest)
    ensures hi < Pow2(rest)
  {
    hide LowBits, Shl, Shr, Low, Pow2;
    Pow2Values();
    Shl256(hi);
    LowBitsConcat(lo, hi, 8, rest);
    ShrLowUnique(lo + 256 * hi, 8, hi, lo);
    ShrSmall(lo + 256 * hi, 8, rest);
  }

  lemma Shl256(v: nat)
    ensures Shl(v, 8) == 256 * v
  {
    ShlIsProduct(v, 8);
    Pow2Values();
  }

  // The pending bytes split where the caller's room ends.
  lemma PendingSplit(buf: seq<byte>, at: nat, n: nat, len: nat, handed: seq<byte>)
    requires len <= n && at + n <= |buf|
    ensures handed + buf[at..at + n] == handed + buf[at..at + len] + buf[at + len..at + n]
  {
  }

  class BitWriter {
    const pending_buf: array<byte>
    var pending: nat       // bytes in pending_buf not yet handed to the caller
    var pending_out: nat   // index of the first of them
    var bi_buf: nat
    var bi_valid: nat
    ghost var put: seq<byte>     // every byte ever put
    ghost var handed: seq<byte>  // the bytes the caller has taken

    ghost predicate Valid()
      reads this, pending_buf
    {
      PendingValid() && bi_valid <= BUF_SIZE && bi_buf < Pow2(bi_valid)
    }

    // The pending bytes are the ones put and not yet taken.
    ghost predicate PendingValid()
      reads this`pending, this`pending_out, this`put, this`handed, pending_buf
    {
      && pending_out + pending <= pending_buf.Length
      && put == handed + pending_buf[pending_out..pending_out + pending]
      && (pending == 0 ==> pending_out == 0)
    }

    // Everything written so far, bit by bit.
    ghost function Written(): seq<bool>
      reads this`put, this`bi_buf, this`bi_valid
    {
      BytesToBits(put) + LowBits(bi_buf, bi_valid)
    }

    // What is pending comes after what was handed over.
    lemma WrittenLength()
      requires Valid()
      ensures |Written()| == 8 * |handed| + 8 * pending + bi_valid
    {
    }

    // With an empty bit buffer everything written is in bytes.
    lemma Aligned()
      requires bi_valid == 0
      ensures Written() == BytesToBits(put)
    {
    }

    lemma NothingWritten()
      requires put == [] && bi_valid == 0
      ensures Written() == []
    {
    }

    // n more bits fit into the pending buffer.
    predicate Room(n: int)
      reads this`pending, this`bi_valid
    {
      8 * pending + bi_valid + n <= 8 * pending_buf.Length
    }

    // There is room up to the next byte boundary whenever what was sent fitted.
    lemma PadFits()
      requires Room(0)
      ensures Room(PadLength(bi_valid))
    {
      var k := PadLength(bi_valid);
      assert (bi_valid + k) % 8 == 0;
    }

    constructor (size: nat)
      ensures Valid() && fresh(pending_buf) && pending_buf.Length == size
      ensures pending == bi_valid == 0 && put == handed == []
    {
      pending_buf := new byte[size];
      pending, pending_out, bi_buf, bi_valid := 0, 0, 0, 0;
      put, handed := [], [];
    }

    // The part of flush_pending that lets go of the first len pending bytes.
    method Release(len: nat)
      requires PendingValid() && len <= pending
      modifies this`pending, this`pending_out, this`handed
      ensures PendingValid() && pending == old(pending) - len
      ensures handed == old(handed) + pending_buf[old(pending_out)..old(pending_out) + len]
    {
      PendingSplit(pending_buf[..], pending_out, pending, len, handed);
      handed := handed + pending_buf[pending_out..pending_out + len];
      pending_out := pending_out + len;
      pending := pending - len;
      if pending == 0 {
        pending_out := 0;
      }
    }

    method PutByte(p: byte)
      requires PendingValid() && pending_out == 0 && pending < pending_buf.Length
      modifies this`pending, this`put, pending_buf
      ensures PendingValid()
      ensures put == old(put) + [p] && pending == old(pending) + 1
    {
      pending_buf[pending] := p;
      pending := pending + 1;
      put := put + [p];
      assert pending_buf[0..pending] == old(pending_buf[0..pending]) + [p];
    }

    // Copies len bytes of src, as pending_buf.set does.
    method PutBytes(src: array<byte>, buf: nat, len: nat)
      requires PendingValid() && pending_out == 0 && pending + len <= pending_buf.Length
      requires src != pending_buf && buf + len <= src.Length
      modifies this`pending, this`put, pending_buf
      ensures PendingValid()
      ensures put == old(put) + src[buf..buf + len] && pending == old(pending) + len
    {
      forall i | 0 <= i < len {
        pending_buf[pending + i] := src[buf + i];
      }
      ghost var front := old(pending_buf[0..pending]);
      pending := pending + len;
      put := put + src[buf..buf + len];
      assert pending_buf[0..pending] == front + src[buf..buf + len];
    }

    method PutShort(w: nat)
      requires PendingValid() && pending_out == 0 && pending + 2 <= pending_buf.Length
      requires w < 0x1_0000
      modifies this`pending, this`put, pending_buf
      ensures PendingValid() && pending == old(pending) + 2 && |put| == old(|put|) + 2
      ensures BytesToBits(put) == old(BytesToBits(put)) + LowBits(w, 16)
    {
      var lo, hi := w % 256, (w / 256) % 256;
      PutByte(lo);
      PutByte(hi);
      assert put == old(put) + [lo, hi];
      ShortBits(old(put), lo, hi, w);
    }

    method SendBits(value: nat, length: nat)
      requires Valid() && pending_out == 0 && Room(length)
      requires length <= BUF_SIZE && value < Pow2(length)
      modifies this`pending, this`put, this`bi_buf, this`bi_valid, pending_buf
      ensures Valid()
      ensures Written() == old(Written()) + LowBits(value, length)
      ensures 8 * pending + bi_valid == old(8 * pending + bi_valid) + length
      ensures bi_valid == old(bi_valid) + length - if old(bi_valid) + length > BUF_SIZE then BUF_SIZE else 0
    {
      hide LowBits, Pow2, BitOr, Low, Shl, Shr, BytesToBits;
      var free := BUF_SIZE - bi_valid;
      var word := BitOr(bi_buf, Low(Shl(value, bi_valid), BUF_SIZE));
      if bi_valid > BUF_SIZE - length {
        var rest := Shr(value, BUF_SIZE - bi_valid);
        Spill(bi_buf, value, bi_valid, free, length - free, word);
        PutShort(word);
        bi_buf := rest;
        bi_valid := bi_valid + length - BUF_SIZE;
        Regroup(old(BytesToBits(put)), LowBits(word, 16), LowBits(rest, bi_valid),
                LowBits(old(bi_buf), old(bi_valid)), LowBits(value, length));
      } else {
        Fill(bi_buf, value, bi_valid, free, length, word);
        bi_buf := word;
        bi_valid := bi_valid + length;
      }
    }

    // Keeps at most 7 bits in the bit buffer.
    method BiFlush()
      requires Valid() && pending_out == 0 && Room(0)
      modifies this`pending, this`put, this`bi_buf, this`bi_valid, pending_buf
      ensures Valid() && bi_valid < 8
      ensures Written() == old(Written())
      ensures 8 * pending + bi_valid == old(8 * pending + bi_valid)
    {
      hide LowBits, Pow2, BitOr, Low, Shl, Shr, BytesToBits;
      if bi_valid == 16 {
        Pow2Values();
        PutShort(bi_buf);
        bi_buf := 0;
        bi_valid := 0;
      } else if bi_valid >= 8 {
        var lo, hi := bi_buf % 256, bi_buf / 256;
        PutByte(lo);
        ByteBits(old(put), lo, hi, bi_valid - 8);
        bi_buf := hi;
        bi_valid := bi_valid - 8;
      }
    }

    // Flushes the bit buffer and aligns the output on a byte boundary with zero bits.
    method BiWindup()
      requires Valid() && pending_out == 0 && Room(PadLength(bi_valid))
      modifies this`pending, this`put, this`bi_buf, this`bi_valid, pending_buf
      ensures Valid() && bi_valid == 0
      ensures Written() == old(Written()) + Padding(|old(Written())|)
      ensures 8 * pending == old(8 * pending + bi_valid + PadLength(bi_valid))
    {
      hide LowBits, Pow2, BytesToBits, Padding, PadLength;
      ghost var t := |Written()|;
      WindupBound(bi_buf, bi_valid);
      if bi_valid > 8 {
        ToBoundary(|put|, bi_valid, 16, t);
        Windup(BytesToBits(put), bi_buf, bi_valid, 16, t);
        PutShort(bi_buf);
      } else if bi_valid > 0 {
        ToBoundary(|put|, bi_valid, 8, t);
        Windup(BytesToBits(put), bi_buf, bi_valid, 8, t);
        var b := bi_buf % 256;
        assert b == bi_buf;
        PutByte(b);
        BytesToBitsSnoc(old(put), b);
      }
      bi_buf := 0;
      bi_valid := 0;
    }
  }
}
