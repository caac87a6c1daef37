/** Whole blocks, as the decoder sees them in the middle of a longer stream. */
module BlockFormat {
  import opened Prelude
  import opened Bits
  import opened Inflate
  import opened Canonical
  import opened BitWriters
  import opened RunLength
  import opened Codes
  import opened BlockCoding

  const STORED_BLOCK: nat := 0
  const STATIC_TREES: nat := 1
  const DYN_TREES: nat := 2

  // now is was followed by one block, after which the output out' stands for out; the block ends at bit end,
  // whatever is sent later. Only a final block may be followed by padding.
  ghost predicate Appended(was: seq<bool>, now: seq<bool>, out: seq<byte>, out': seq<byte>, final: bool,
                           content: Content, end: nat) {
    && was <= now
    && |was| <= end <= |now| && |now| == (if final then NextBoundary(end) else end)
    && (forall ext: seq<bool> :: ReadBlock(now + ext, |was|, out) == Some(BlockEnd(final, content, out', end)))
  }

  function Header(kind: nat, final: bool): (e: seq<bool>)
    ensures |e| == 3
  {
    LowBits(2 * kind + (if final then 1 else 0), 3)
  }

  lemma HeaderRead(kind: nat, final: bool, s: seq<bool>, pos: nat)
    requires kind <= 2 && At(s, pos, Header(kind, final))
    ensures ReadBits(s, pos, 1) == Some(if final then 1 else 0) && ReadBits(s, pos + 1, 2) == Some(kind)
  {
    var f := if final then 1 else 0;
    HeaderSplit(kind, f);
    AtSplit(s, pos, LowBits(f, 1), LowBits(kind, 2));
    assert Pow2(1) == 2 && Pow2(2) == 4;
    ReadNumber(s, pos, f, 1);
    ReadNumber(s, pos + 1, kind, 2);
  }

  lemma HeaderSplit(kind: nat, f: nat)
    requires f < 2
    ensures LowBits(2 * kind + f, 3) == LowBits(f, 1) + LowBits(kind, 2)
  {
    assert (2 * kind + f) % 2 == f && (2 * kind + f) / 2 == kind;
    assert LowBits(f, 1) == [f == 1];
  }

  // ---- bytes ----

  lemma {:induction false} BytesConcat(a: seq<byte>, b: seq<byte>)
    ensures BytesToBits(a + b) == BytesToBits(a) + BytesToBits(b)
  {
    hide LowBits;
    if b == [] {
      assert a + b == a;
    } else {
      var c, x := b[..|b| - 1], b[|b| - 1];
      assert b == c + [x] && a + b == (a + c) + [x];
      BytesToBitsSnoc(a + c, x);
      BytesToBitsSnoc(c, x);
      BytesConcat(a, c);
    }
  }

  lemma {:induction false} BytesRead(data: seq<byte>, s: seq<bool>, pos: nat)
    requires At(s, pos, BytesToBits(data))
    ensures ReadBytes(s, pos, |data|) == Some(data)
    decreases |data|
  {
    hide LowBits, At, ReadBits;
    if data != [] {
      var x, rest := data[0], data[1..];
      assert data == [x] + rest;
      BytesConcat([x], rest);
      BytesToBitsSnoc([], x);
      assert [] + [x] == [x] && BytesToBits([]) == [];
      assert BytesToBits([x]) == LowBits(x, 8);
      AtSplit(s, pos, LowBits(x, 8), BytesToBits(rest));
      Pow2Values();
      ReadNumber(s, pos, x, 8);
      BytesRead(rest, s, pos + 8);
    }
  }

  // ---- stored blocks ----

  // A stored block that starts at bit pos of the stream.
  function StoredBits(pos: nat, data: seq<byte>, final: bool): seq<bool>
    requires |data| <= 0xffff
  {
    Header(STORED_BLOCK, final) + Padding(pos + 3) + (LowBits(|data|, 16) + LowBits(0xffff - |data|, 16))
           + BytesToBits(data)
  }

  lemma StoredRead(data: seq<byte>, final: bool, s: seq<bool>, pos: nat, out: seq<byte>)
    requires |data| <= 0xffff && At(s, pos, StoredBits(pos, data, final))
    ensures ReadBlock(s, pos, out) ==
            Some(BlockEnd(final, Copied(|data|), out + data, pos + |StoredBits(pos, data, final)|))
  {
    hide LowBits, At, ReadBits, BytesToBits, Padding, Pow2, ReadBytes;
    var a, b, c, d := Header(STORED_BLOCK, final), Padding(pos + 3), LowBits(|data|, 16), LowBits(0xffff - |data|, 16);
    var e := BytesToBits(data);
    AtSplit(s, pos, a + b + (c + d), e);
    AtSplit(s, pos, a + b, c + d);
    AtSplit(s, pos, a, b);
    var p := pos + 3 + |b|;
    assert p == NextBoundary(pos + 3);
    AtSplit(s, p, c, d);
    HeaderRead(STORED_BLOCK, final, s, pos);
    Pow2Values();
    ReadNumber(s, p, |data|, 16);
    ReadNumber(s, p + 16, 0xffff - |data|, 16);
    BytesRead(data, s, p + 32);
  }

  // ---- compressed blocks ----

  // A compressed body read by the decoder's last step.
  lemma CompressedRead(llens: seq<nat>, dlens: seq<nat>, syms: seq<Symbol>, s: seq<bool>, pos: nat, out: seq<byte>,
                       out': seq<byte>)
    requires Complete(llens) && Complete(dlens) && AllCoded(llens, dlens, syms) && HasCode(llens, END_BLOCK)
    requires At(s, pos, EncodeBody(llens, dlens, syms)) && Expand(out, syms) == Some(out')
    ensures ReadCompressed(llens, dlens, s, pos, out) ==
            Some((Compressed(syms), out', pos + |EncodeBody(llens, dlens, syms)|))
  {
    hide Complete, EncodeBody, ReadSymbols, Expand, At;
    BodyRead(llens, dlens, syms, s, pos);
  }

  ghost function StaticBits(syms: seq<Symbol>, final: bool): seq<bool>
    requires AllCoded(FixedLiteralLengths(), FixedDistanceLengths(), syms) && HasCode(FixedLiteralLengths(), END_BLOCK)
  {
    Header(STATIC_TREES, final) + EncodeBody(FixedLiteralLengths(), FixedDistanceLengths(), syms)
  }

  lemma StaticRead(syms: seq<Symbol>, final: bool, s: seq<bool>, pos: nat, out: seq<byte>, out': seq<byte>)
    requires AllCoded(FixedLiteralLengths(), FixedDistanceLengths(), syms) && HasCode(FixedLiteralLengths(), END_BLOCK)
    requires At(s, pos, StaticBits(syms, final)) && Expand(out, syms) == Some(out')
    ensures ReadBlock(s, pos, out) == Some(BlockEnd(final, Compressed(syms), out', pos + |StaticBits(syms, final)|))
  {
    hide Complete, EncodeBody, ReadCompressed, Expand, At, ReadBits, FixedLiteralLengths, FixedDistanceLengths, Header,
      AllCoded, HasCode;
    FixedComplete();
    AtSplit(s, pos, Header(STATIC_TREES, final), EncodeBody(FixedLiteralLengths(), FixedDistanceLengths(), syms));
    HeaderRead(STATIC_TREES, final, s, pos);
    CompressedRead(FixedLiteralLengths(), FixedDistanceLengths(), syms, s, pos + 3, out, out');
  }

  ghost predicate DynamicFits(t: Tables, syms: seq<Symbol>) {
    && TablesFit(t) && Complete(t.llens) && Complete(t.dlens)
    && AllCoded(t.llens, t.dlens, syms) && HasCode(t.llens, END_BLOCK)
  }

  ghost function DynamicBits(t: Tables, syms: seq<Symbol>, final: bool): seq<bool>
    requires DynamicFits(t, syms)
  {
    Header(DYN_TREES, final) + TablesBits(t) + EncodeBody(t.llens, t.dlens, syms)
  }

  lemma DynamicRead(t: Tables, syms: seq<Symbol>, final: bool, s: seq<bool>, pos: nat, out: seq<byte>, out': seq<byte>)
    requires DynamicFits(t, syms)
    requires At(s, pos, DynamicBits(t, syms, final)) && Expand(out, syms) == Some(out')
    ensures ReadBlock(s, pos, out) == Some(BlockEnd(final, Compressed(syms), out', pos + |DynamicBits(t, syms, final)|))
  {
    hide Complete, EncodeBody, ReadCompressed, Expand, At, ReadBits, Header, AllCoded, HasCode, TablesFit, TablesBits,
      ReadTables;
    var a, b, c := Header(DYN_TREES, final), TablesBits(t), EncodeBody(t.llens, t.dlens, syms);
    AtSplit(s, pos, a + b, c);
    AtSplit(s, pos, a, b);
    HeaderRead(DYN_TREES, final, s, pos);
    TablesRead(t, s, pos + 3);
    CompressedRead(t.llens, t.dlens, syms, s, pos + 3 + |b|, out, out');
  }

  // ---- a block at the end of a stream ----

  // A block has been sent but not yet padded: with the padding due after a final block it is appended.
  ghost predicate Ends(was: seq<bool>, end: seq<bool>, out: seq<byte>, out': seq<byte>, final: bool, content: Content) {
    Appended(was, end + (if final then Padding(|end|) else []), out, out', final, content, |end|)
  }

  lemma AppendStored(was: seq<bool>, data: seq<byte>, final: bool, out: seq<byte>)
    requires |data| <= 0xffff
    ensures var now := was + StoredBits(|was|, data, final);
            Appended(was, now, out, out + data, final, Copied(|data|), |now|)
  {
    hide ReadBlock, StoredBits;
    var e := StoredBits(|was|, data, final);
    StoredAligned(|was|, data, final);
    forall ext: seq<bool>
      ensures ReadBlock(was + e + ext, |was|, out) == Some(BlockEnd(final, Copied(|data|), out + data, |was + e|))
    {
      AtEnd(was, e, ext);
      StoredRead(data, final, was + e + ext, |was|, out);
    }
  }

  lemma StoredAligned(pos: nat, data: seq<byte>, final: bool)
    requires |data| <= 0xffff
    ensures (pos + |StoredBits(pos, data, final)|) % 8 == 0
  {
    hide LowBits, BytesToBits, Padding;
    assert (pos + 3 + |Padding(pos + 3)|) % 8 == 0;
  }

  // A compressed block, padded to a byte boundary when it is the final one.
  lemma AppendStatic(was: seq<bool>, syms: seq<Symbol>, final: bool, out: seq<byte>, out': seq<byte>)
    requires AllCoded(FixedLiteralLengths(), FixedDistanceLengths(), syms) && HasCode(FixedLiteralLengths(), END_BLOCK)
    requires Expand(out, syms) == Some(out')
    ensures Ends(was, was + StaticBits(syms, final), out, out', final, Compressed(syms))
  {
    hide ReadBlock, StaticBits, Expand, AllCoded, HasCode, FixedLiteralLengths, FixedDistanceLengths, Padding;
    var e := StaticBits(syms, final);
    var pad := if final then Padding(|was + e|) else [];
    forall ext: seq<bool>
      ensures ReadBlock(was + e + pad + ext, |was|, out) == Some(BlockEnd(final, Compressed(syms), out', |was + e|))
    {
      assert was + e + pad + ext == was + e + (pad + ext);
      AtEnd(was, e, pad + ext);
      StaticRead(syms, final, was + e + pad + ext, |was|, out, out');
    }
  }

  lemma AppendDynamic(was: seq<bool>, t: Tables, syms: seq<Symbol>, final: bool, out: seq<byte>, out': seq<byte>)
    requires DynamicFits(t, syms) && Expand(out, syms) == Some(out')
    ensures Ends(was, was + DynamicBits(t, syms, final), out, out', final, Compressed(syms))
  {
    hide ReadBlock, DynamicBits, Expand, DynamicFits, Padding;
    var e := DynamicBits(t, syms, final);
    var pad := if final then Padding(|was + e|) else [];
    forall ext: seq<bool>
      ensures ReadBlock(was + e + pad + ext, |was|, out) == Some(BlockEnd(final, Compressed(syms), out', |was + e|))
    {
      assert was + e + pad + ext == was + e + (pad + ext);
      AtEnd(was, e, pad + ext);
      DynamicRead(t, syms, final, was + e + pad + ext, |was|, out, out');
    }
  }

  lemma EndsStored(was: seq<bool>, data: seq<byte>, final: bool, out: seq<byte>)
    requires |data| <= 0xffff
    ensures Ends(was, was + StoredBits(|was|, data, final), out, out + data, final, Copied(|data|))
  {
    hide ReadBlock, StoredBits;
    var end := was + StoredBits(|was|, data, final);
    StoredAligned(|was|, data, final);
    AppendStored(was, data, final, out);
    assert end + Padding(|end|) == end;
    assert end + [] == end;
  }

  // The same block after other bytes, if its symbols can be read there.
  lemma AppendedElsewhere(was: seq<bool>, now: seq<bool>, out: seq<byte>, other: seq<byte>, data: seq<byte>,
                          final: bool,
                          content: Content, end: nat)
    requires Appended(was, now, out, out + data, final, content, end)
    requires content.Compressed? ==> Expand(other, content.syms) == Some(other + data)
    ensures Appended(was, now, other, other + data, final, content, end)
  {
    hide ReadBlock, Expand;
    forall ext: seq<bool>
      ensures ReadBlock(now + ext, |was|, other) == Some(BlockEnd(final, content, other + data, end))
    {
      ReadElsewhere(now + ext, |was|, out, other, data);
    }
  }

  // ---- the fixed codes are complete ----

  lemma {:induction false} CountConcat(a: seq<nat>, b: seq<nat>, x: nat)
    ensures Count(a + b, x) == Count(a, x) + Count(b, x)
  {
    if b == [] {
      assert a + b == a;
    } else {
      assert (a + b)[..|a + b| - 1] == a + b[..|b| - 1];
      CountConcat(a, b[..|b| - 1], x);
    }
  }

  lemma {:induction false} CountRepeat(y: nat, n: nat, x: nat)
    ensures Count(Repeat(y, n), x) == if x == y then n else 0
  {
    if n > 0 {
      CountRepeat(y, n - 1, x);
      assert Repeat(y, n)[..n - 1] == Repeat(y, n - 1);
    }
  }

  lemma FixedCounts(b: nat)
    ensures Count(FixedLiteralLengths(), b) == if b == 7 then 24 else if b == 8 then 152 else if b == 9 then 112 else 0
    ensures Count(FixedDistanceLengths(), b) == if b == 5 then 32 else 0
  {
    hide Count, Repeat;
    CountConcat(Repeat(8, 144) + Repeat(9, 112) + Repeat(7, 24), Repeat(8, 8), b);
    CountConcat(Repeat(8, 144) + Repeat(9, 112), Repeat(7, 24), b);
    CountConcat(Repeat(8, 144), Repeat(9, 112), b);
    CountRepeat(8, 144, b);
    CountRepeat(9, 112, b);
    CountRepeat(7, 24, b);
    CountRepeat(8, 8, b);
    CountRepeat(5, 32, b);
  }

  // The length of every code, without computing the table.
  lemma FixedAt(c: nat)
    ensures c < 288 ==>
              FixedLiteralLengths()[c] ==
              (if c < 144 then 8 else if c < 256 then 9 else if c < 280 then 7 else 8)
    ensures c < 32 ==> FixedDistanceLengths()[c] == 5
  {
    hide Repeat;
    RepeatIs(8, 144);
    RepeatIs(9, 112);
    RepeatIs(7, 24);
    RepeatIs(8, 8);
    RepeatIs(5, 32);
  }

  lemma {:induction false} FixedKraft(b: nat)
    requires b <= MAX_BITS
    ensures Kraft(FixedLiteralLengths(), b) == if b < 7 then 0 else if b == 7 then 6144 else if b == 8 then 25600
            else 32768
    ensures Kraft(FixedDistanceLengths(), b) == if b < 5 then 0 else 32768
  {
    hide FixedLiteralLengths, FixedDistanceLengths, Count, Shl;
    if b > 0 {
      FixedKraft(b - 1);
      FixedCounts(b);
      ShlZero(MAX_BITS - b);
      FixedShl();
    }
  }

  lemma FixedShl()
    ensures Shl(24, 8) == 6144 && Shl(152, 7) == 19456 && Shl(112, 6) == 7168 && Shl(32, 10) == 32768
  {
    ShlIsProduct(24, 8);
    ShlIsProduct(152, 7);
    ShlIsProduct(112, 6);
    ShlIsProduct(32, 10);
    Pow2Values();
    assert Pow2(6) == 64;
    assert Pow2(10) == 1024;
  }

  lemma FixedComplete()
    ensures Complete(FixedLiteralLengths()) && Complete(FixedDistanceLengths())
  {
    hide FixedLiteralLengths, FixedDistanceLengths, Kraft;
    FixedKraft(MAX_BITS);
    Pow2Values();
    forall c | 0 <= c < 288
      ensures FixedLiteralLengths()[c] <= MAX_BITS
    {
      FixedAt(c);
    }
    forall c | 0 <= c < 32
      ensures FixedDistanceLengths()[c] <= MAX_BITS
    {
      FixedAt(c);
    }
  }

  lemma FixedCoded(syms: seq<Symbol>)
    requires forall i :: 0 <= i < |syms| ==> Sendable(syms[i])
    ensures AllCoded(FixedLiteralLengths(), FixedDistanceLengths(), syms) && HasCode(FixedLiteralLengths(), END_BLOCK)
  {
    hide FixedLiteralLengths, FixedDistanceLengths, LitCode, DisCode;
    FixedAt(END_BLOCK);
    forall i | 0 <= i < |syms|
      ensures Coded(FixedLiteralLengths(), FixedDistanceLengths(), syms[i])
    {
      FixedAt(LitCode(syms[i]));
      if syms[i].Match? {
        FixedAt(DisCode(syms[i]));
      }
    }
  }
}
