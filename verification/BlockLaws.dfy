/** What every block of a stream keeps to, as it can be read off the stream: its form, its size, how far its matches
    reach back, how much input it takes. Added up these give the number of blocks and the length of the stream. */
module BlockLaws {
  import opened Prelude
  import opened Bits
  import opened BitWriters
  import opened Inflate
  import opened Codes
  import opened BlockCoding
  import opened BlockFormat
  import opened DynamicBound
  import opened BlockChoice
  import opened BestTrees

  // ---- one block ----

  // The choice of _tr_flush_block when t are the trees of the dynamic form: what is sent and in how many bits.
  ghost predicate ChosenWith(t: Tables, syms: seq<Symbol>, kept: bool, len: nat, held: nat, content: Content, size: int)
    requires DynamicFits(t, syms)
    requires AllCoded(FixedLiteralLengths(), FixedDistanceLengths(), syms) && HasCode(FixedLiteralLengths(), END_BLOCK)
  {
    var opt_len := |TablesBits(t)| + |EncodeBody(t.llens, t.dlens, syms)|;
    var static_len := |EncodeBody(FixedLiteralLengths(), FixedDistanceLengths(), syms)|;
    && WellChosen(len, if kept then 0 else -1, opt_len, static_len, held, size)
    && content == if kept && len + 4 <= BestBytes(opt_len, static_len) then Copied(len) else Compressed(syms)
  }

  // A block of len bytes with these symbols is sent in the best form, where the dynamic one has the best trees; kept
  // says that its bytes are still there.
  ghost predicate Chosen(syms: seq<Symbol>, kept: bool, len: nat, held: nat, content: Content, size: int) {
    && AllCoded(FixedLiteralLengths(), FixedDistanceLengths(), syms) && HasCode(FixedLiteralLengths(), END_BLOCK)
    && exists t: Tables ::
         DynamicFits(t, syms) && BestCodes(t, syms) && BestHeader(t)
         && ChosenWith(t, syms, kept, len, held, content, size)
  }

  // Only the position within a byte matters.
  lemma ChosenAnywhere(syms: seq<Symbol>, kept: bool, len: nat, held: nat, pos: nat, content: Content, size: int)
    requires Chosen(syms, kept, len, held, content, size) && held % 8 == pos % 8
    ensures Chosen(syms, kept, len, pos, content, size)
  {
    hide DynamicFits, BestCodes, BestHeader, TablesBits, EncodeBody, AllCoded, HasCode, FixedLiteralLengths,
      FixedDistanceLengths;
    SameBit(held, pos);
    var t :| DynamicFits(t, syms) && BestCodes(t, syms) && BestHeader(t)
             && ChosenWith(t, syms, kept, len, held, content, size);
    assert ChosenWith(t, syms, kept, len, pos, content, size);
  }

  lemma SameBit(held: nat, pos: nat)
    requires held % 8 == pos % 8
    ensures PadLength(held + 3) == PadLength(pos + 3)
            && forall len: nat :: StoredSize(len, held) == StoredSize(len, pos)
  {
    assert (held + 3) % 8 == (pos + 3) % 8;
  }

  // What a compressor was set up with; far is the largest distance of a match.
  datatype Setting = Setting(level: nat, strategy: nat, lit_bufsize: nat, far: int)

  const Z_FILTERED: nat := 1
  const Z_HUFFMAN_ONLY: nat := 2

  // A literal, or a match that is worth sending: none without string matching, no short ones for filtered data, and
  // from level 4 on, where matches are weighed, no shortest ones from far away.
  predicate Allowed(s: Setting, sym: Symbol) {
    sym.Match? ==>
      && MIN_MATCH <= sym.length <= MAX_MATCH && 1 <= sym.distance <= s.far && s.strategy != Z_HUFFMAN_ONLY
      && (s.level > 3 ==>
            && (s.strategy == Z_FILTERED ==> sym.length > 5)
            && (sym.length == MIN_MATCH ==> sym.distance <= 4096))
  }

  predicate Within(s: Setting, syms: seq<Symbol>) {
    forall i :: 0 <= i < |syms| ==> Allowed(s, syms[i])
  }

  lemma WithinMore(s: Setting, syms: seq<Symbol>, sym: Symbol)
    requires Within(s, syms) && Allowed(s, sym)
    ensures Within(s, syms + [sym])
  {
    hide Allowed;
  }

  // An empty block that marks a flush.
  predicate Marker(b: Block) {
    && b.len == 0
    && ((b.content == Copied(0) && b.to == b.from + StoredSize(0, b.from))
        || (b.content == Compressed([]) && b.to == b.from + 10))
  }

  // At level 0 the bytes are copied; at the others the block is sent in the best form for the symbols told, and at
  // least for blocks within the reach of a match the stored form is considered.
  ghost predicate Proper(s: Setting, b: Block, told: seq<Symbol>) {
    if s.level == 0 then
      b.len >= 0 && b.content == Copied(b.len) && b.to == b.from + StoredSize(b.len, b.from)
    else
      && |told| < s.lit_bufsize && |told| <= b.len && Within(s, told)
      && (Chosen(told, true, b.len, b.from, b.content, b.to - b.from)
          || (b.len > s.far && Chosen(told, false, b.len, b.from, b.content, b.to - b.from)))
  }

  ghost predicate Law(s: Setting, b: Block, told: seq<Symbol>) {
    Marker(b) || Proper(s, b, told)
  }

  ghost predicate Lawful(s: Setting, blocks: seq<Block>, told: seq<seq<Symbol>>) {
    |told| == |blocks| && forall i :: 0 <= i < |blocks| ==> Law(s, blocks[i], told[i])
  }

  lemma LawfulMore(s: Setting, blocks: seq<Block>, told: seq<seq<Symbol>>, b: Block, syms: seq<Symbol>)
    requires Lawful(s, blocks, told) && Law(s, b, syms)
    ensures Lawful(s, blocks + [b], told + [syms])
  {
    hide Law;
  }

  // The input that a block takes at least, unless a flush or the end cuts it short.
  function Quota(s: Setting): int {
    if s.level == 0 then Min(Min(0xffff, 4 * s.lit_bufsize - 5), s.far) else Min(8192, s.lit_bufsize - 1)
  }

  // The bytes that the symbols stand for.
  function Said(syms: seq<Symbol>): nat {
    if syms == [] then 0 else (if syms[0].Match? then syms[0].length else 1) + Said(syms[1..])
  }

  lemma {:induction false} SaidExpands(out: seq<byte>, syms: seq<Symbol>)
    requires Expand(out, syms).Some?
    ensures |Expand(out, syms).value| == |out| + Said(syms)
    decreases |syms|
  {
    if syms != [] {
      match syms[0] {
        case Literal(b) => SaidExpands(out + [b], syms[1..]);
        case Match(length, distance) => SaidExpands(Copy(out, length, distance), syms[1..]);
      }
    }
  }

  lemma {:induction false} SaidAtLeast(s: Setting, syms: seq<Symbol>)
    requires Within(s, syms)
    ensures Said(syms) >= |syms|
  {
    if syms != [] {
      assert forall i :: 0 <= i < |syms[1..]| ==> syms[1..][i] == syms[i + 1];
      SaidAtLeast(s, syms[1..]);
      assert Allowed(s, syms[0]);
    }
  }

  // With the fixed codes a symbol takes at most one bit more than its bytes: the shortest match has the first code.
  lemma {:induction false} SymbolCost(sym: Symbol)
    requires Coded(FixedLiteralLengths(), FixedDistanceLengths(), sym)
    ensures |EncodeSymbol(FixedLiteralLengths(), FixedDistanceLengths(), sym)| <=
            8 * (if sym.Match? then sym.length else 1) + 1
  {
    hide FixedLiteralLengths, FixedDistanceLengths, SymbolBits, LengthExtra, DistExtra, LengthCode, DistCode;
    FixedAt(LitCode(sym));
    if sym.Match? {
      ExtraBound(LengthCode(sym.length - MIN_MATCH));
      ExtraBound(DisCode(sym));
      FixedAt(DisCode(sym));
      ShortestLength();
    }
  }

  lemma ShortestLength()
    ensures LengthCode(0) == 0 && LENGTH_EXTRA[0] == 0
  {
    BaseAbove(LengthCode(0));
  }

  lemma BaseAbove(c: nat)
    ensures 1 <= c <= 27 ==> BASE_LENGTH[c] > 0
  {
  }

  lemma {:induction false} SymbolsCost(syms: seq<Symbol>)
    requires AllCoded(FixedLiteralLengths(), FixedDistanceLengths(), syms)
    ensures |EncodeSymbols(FixedLiteralLengths(), FixedDistanceLengths(), syms)| <= 8 * Said(syms) + |syms|
  {
    hide FixedLiteralLengths, FixedDistanceLengths, EncodeSymbol, Coded;
    if syms != [] {
      SymbolCost(syms[0]);
      SymbolsCost(syms[1..]);
    }
  }

  lemma {:induction false} BodyCost(syms: seq<Symbol>)
    requires AllCoded(FixedLiteralLengths(), FixedDistanceLengths(), syms) && HasCode(FixedLiteralLengths(), END_BLOCK)
    ensures |EncodeBody(FixedLiteralLengths(), FixedDistanceLengths(), syms)| <= 8 * Said(syms) + |syms| + 7
  {
    hide FixedLiteralLengths, FixedDistanceLengths, EncodeSymbols, AllCoded;
    SymbolsCost(syms);
    FixedAt(END_BLOCK);
  }

  // ---- what the decoder finds ----

  // The length of a block is that of its contents.
  predicate Genuine(b: Block) {
    b.len == match b.content case Copied(count) => count case Compressed(syms) => Said(syms)
  }

  lemma ReadGenuine(s: seq<bool>, pos: nat, out: seq<byte>)
    requires ReadBlock(s, pos, out).Some?
    ensures Genuine(Found(pos, out, ReadBlock(s, pos, out).value))
  {
    hide ReadBits, ReadSymbols, ReadTables, ReadBytes, Complete, Expand, FixedLiteralLengths, FixedDistanceLengths,
      Said;
    var e := ReadBlock(s, pos, out).value;
    if e.content.Compressed? {
      assert Expand(out, e.content.syms) == Some(e.out);
      SaidExpands(out, e.content.syms);
    } else {
      var p := NextBoundary(pos + 3);
      var len := ReadBits(s, p, 16).value;
      BytesCount(s, p + 32, len);
    }
  }

  lemma {:induction false} BytesCount(s: seq<bool>, pos: nat, n: nat)
    requires ReadBytes(s, pos, n).Some?
    ensures |ReadBytes(s, pos, n).value| == n
    decreases n
  {
    hide ReadBits;
    if n > 0 {
      BytesCount(s, pos + 8, n - 1);
    }
  }

  function TotalLen(blocks: seq<Block>): int {
    if blocks == [] then 0 else TotalLen(blocks[..|blocks| - 1]) + blocks[|blocks| - 1].len
  }

  function TotalBits(blocks: seq<Block>): int {
    if blocks == [] then 0 else TotalBits(blocks[..|blocks| - 1])
                                + (blocks[|blocks| - 1].to - blocks[|blocks| - 1].from)
  }

  lemma {:induction false} TotalsFirst(b: Block, rest: seq<Block>)
    ensures TotalLen([b] + rest) == b.len + TotalLen(rest)
    ensures TotalBits([b] + rest) == b.to - b.from + TotalBits(rest)
  {
    if rest == [] {
      assert [b] + rest == [b] && [b][..0] == [];
    } else {
      var front, last := rest[..|rest| - 1], rest[|rest| - 1];
      TotalsFirst(b, front);
      assert ([b] + rest)[..|rest|] == [b] + front;
    }
  }

  // The blocks of a stream, one after the other, take all its bits and stand for all its bytes.
  lemma {:induction false} InflateTotals(s: seq<bool>, pos: nat, out: seq<byte>)
    requires Inflate.Inflate(s, pos, out).Some?
    ensures var (data, end) := Inflate.Inflate(s, pos, out).value;
            && TotalLen(BlocksOf(s, pos, out)) == |data| - |out| && TotalBits(BlocksOf(s, pos, out)) == end - pos
    ensures forall i :: 0 <= i < |BlocksOf(s, pos, out)| ==> Genuine(BlocksOf(s, pos, out)[i])
    decreases |s| - pos
  {
    hide ReadBlock, Genuine;
    var e := ReadBlock(s, pos, out).value;
    var b := Found(pos, out, e);
    ReadGenuine(s, pos, out);
    if e.final {
      TotalsFirst(b, []);
    } else {
      InflateTotals(s, e.pos, e.out);
      TotalsFirst(b, BlocksOf(s, e.pos, e.out));
    }
  }

  // ---- how many blocks, and how long the stream ----

  // The blocks that take less than q bytes.
  function Short(blocks: seq<Block>, q: int): (n: nat)
    ensures n <= |blocks|
  {
    if blocks == [] then 0 else
      Short(blocks[..|blocks| - 1], q) + (if blocks[|blocks| - 1].len < q then 1 else 0)
  }

  lemma ShortMore(blocks: seq<Block>, b: Block, q: int)
    ensures Short(blocks + [b], q) == Short(blocks, q) + (if b.len < q then 1 else 0)
  {
    assert (blocks + [b])[..|blocks|] == blocks;
  }

  lemma {:induction false} ManyLong(blocks: seq<Block>, q: int)
    requires q > 0 && forall i :: 0 <= i < |blocks| ==> blocks[i].len >= 0
    ensures (|blocks| - Short(blocks, q)) * q <= TotalLen(blocks)
  {
    if blocks != [] {
      var n := |blocks| - 1;
      ManyLong(blocks[..n], q);
      if blocks[n].len >= q {
        OneTimesMore(n - Short(blocks[..n], q), q);
      }
    }
  }

  lemma OneTimesMore(k: int, q: int)
    ensures (k + 1) * q == k * q + q
  {
  }

  lemma {:induction false} AtMost(k: int, q: int, n: int)
    requires q > 0 && k * q <= n
    ensures k <= n / q
  {
    DivMod(n, q);
    MulGrows(k - n / q, q);
    assert (k - n / q) * q == k * q - n / q * q;
  }

  // The bits that a block may take beyond those of its bytes.
  function Excess(s: Setting, b: Block): int {
    if s.level == 0 || b.len <= s.far || s.lit_bufsize <= 33 then 42 else s.lit_bufsize + 9
  }

  lemma LawExcess(s: Setting, b: Block, told: seq<Symbol>)
    requires Law(s, b, told) && Genuine(b)
    ensures b.len >= 0 && b.to - b.from <= 8 * b.len + Excess(s, b)
  {
    hide Chosen, PadLength;
    assert PadLength(b.from + 3) < 8;
    if Proper(s, b, told) && s.level > 0 {
      if Chosen(told, true, b.len, b.from, b.content, b.to - b.from) {
        ChosenExcess(told, true, b.len, b.from, b.content, b.to - b.from);
      } else {
        ChosenExcess(told, false, b.len, b.from, b.content, b.to - b.from);
      }
    }
  }

  lemma ChosenExcess(syms: seq<Symbol>, kept: bool, len: nat, held: nat, content: Content, size: int)
    requires Chosen(syms, kept, len, held, content, size)
    ensures content == Copied(len) || content == Compressed(syms)
    ensures kept ==> size <= 8 * len + 42
    ensures content == Compressed(syms) ==> size <= 8 * Said(syms) + |syms| + 10
    ensures !kept ==> content == Compressed(syms)
  {
    hide DynamicFits, BestCodes, BestHeader, TablesBits, EncodeBody, AllCoded, HasCode, FixedLiteralLengths,
      FixedDistanceLengths, PadLength, Said;
    assert PadLength(held + 3) < 8;
    var t :| DynamicFits(t, syms) && BestCodes(t, syms) && BestHeader(t)
             && ChosenWith(t, syms, kept, len, held, content, size);
    BodyCost(syms);
  }

  function Excesses(s: Setting, blocks: seq<Block>): int {
    if blocks == [] then 0 else Excesses(s, blocks[..|blocks| - 1]) + Excess(s, blocks[|blocks| - 1])
  }

  lemma {:induction false} TotalExcess(s: Setting, blocks: seq<Block>, told: seq<seq<Symbol>>)
    requires Lawful(s, blocks, told) && forall i :: 0 <= i < |blocks| ==> Genuine(blocks[i])
    ensures forall i :: 0 <= i < |blocks| ==> blocks[i].len >= 0
    ensures TotalBits(blocks) <= 8 * TotalLen(blocks) + Excesses(s, blocks)
  {
    hide Law, Genuine, Excess;
    if blocks != [] {
      var n := |blocks| - 1;
      TotalExcess(s, blocks[..n], told[..n]);
      LawExcess(s, blocks[n], told[n]);
    }
  }

  // Only blocks beyond the reach of a match take more than 42 bits extra.
  lemma {:induction false} ExcessBound(s: Setting, blocks: seq<Block>)
    ensures s.level == 0 ==> Excesses(s, blocks) <= 42 * |blocks|
    ensures Excesses(s, blocks) <= 42 * |blocks| + s.lit_bufsize * (|blocks| - Short(blocks, s.far + 1))
  {
    if blocks != [] {
      var n := |blocks| - 1;
      ExcessBound(s, blocks[..n]);
      var k := n - Short(blocks[..n], s.far + 1);
      assert |blocks| - Short(blocks, s.far + 1) == k + (if blocks[n].len > s.far then 1 else 0);
      OneTimesMore(k, s.lit_bufsize);
      Commutes(k, s.lit_bufsize);
      Commutes(k + 1, s.lit_bufsize);
    }
  }

  lemma Commutes(a: int, b: int)
    ensures a * b == b * a
  {
  }

  // A whole stream whose blocks keep to the law, all but extra of them and the last one of the full length.
  ghost predicate Obeys(s: Setting, bits: seq<bool>, extra: nat) {
    var blocks := BlocksOf(bits, 0, []);
    && blocks != [] && Short(blocks[..|blocks| - 1], Quota(s)) <= extra
    && exists told: seq<seq<Symbol>> ::
         Lawful(s, blocks, told) && Proper(s, blocks[|blocks| - 1], told[|blocks| - 1])
  }

  lemma ObeysNow(s: Setting, bits: seq<bool>, blocks: seq<Block>, told: seq<seq<Symbol>>, b: Block, syms: seq<Symbol>,
                 extra: nat)
    requires BlocksOf(bits, 0, []) == blocks + [b] && Lawful(s, blocks, told) && Proper(s, b, syms)
    requires Short(blocks, Quota(s)) <= extra
    ensures Obeys(s, bits, extra)
  {
    hide BlocksOf, Proper, Short, Quota, Lawful, Marker;
    var all := blocks + [b];
    LawfulMore(s, blocks, told, b, syms);
    assert all[..|all| - 1] == blocks && all[|all| - 1] == b;
    assert (told + [syms])[|all| - 1] == syms by {
      LawfulLength(s, blocks, told);
    }
  }

  lemma ObeysMore(s: Setting, bits: seq<bool>, extra: nat, more: nat)
    requires Obeys(s, bits, extra) && extra <= more
    ensures Obeys(s, bits, more)
  {
    hide BlocksOf, Proper, Short, Quota, Lawful;
  }

  lemma LawfulLength(s: Setting, blocks: seq<Block>, told: seq<seq<Symbol>>)
    requires Lawful(s, blocks, told)
    ensures |told| == |blocks|
  {
  }

  lemma Telling(s: Setting, bits: seq<bool>, extra: nat) returns (told: seq<seq<Symbol>>)
    requires Obeys(s, bits, extra)
    ensures var blocks := BlocksOf(bits, 0, []);
            && blocks != [] && Lawful(s, blocks, told) && |told| == |blocks|
            && Proper(s, blocks[|blocks| - 1], told[|blocks| - 1])
            && Short(blocks[..|blocks| - 1], Quota(s)) <= extra
  {
    hide BlocksOf, Law, Proper, Short, Quota;
    var blocks := BlocksOf(bits, 0, []);
    told :| Lawful(s, blocks, told) && Proper(s, blocks[|blocks| - 1], told[|blocks| - 1]);
  }

  // Few blocks:
  lemma StreamBlocks(s: Setting, bits: seq<bool>, data: seq<byte>, end: nat, extra: nat)
    requires Inflate.Inflate(bits, 0, []) == Some((data, end)) && Obeys(s, bits, extra) && Quota(s) > 0
    ensures |BlocksOf(bits, 0, [])| <= 1 + extra + |data| / Quota(s)
  {
    hide Inflate.Inflate, ReadBlock, Lawful, Proper, BlocksOf, Genuine, Short, TotalLen, TotalBits, Quota;
    var blocks, q := BlocksOf(bits, 0, []), Quota(s);
    var n := |blocks| - 1;
    var told := Telling(s, bits, extra);
    InflateTotals(bits, 0, []);
    TotalExcess(s, blocks, told);
    ManyLong(blocks[..n], q);
    LastTotal(blocks);
    AtMost(n - Short(blocks[..n], q), q, |data|);
  }

  // and hardly more bits than the input has.
  lemma StreamSize(s: Setting, bits: seq<bool>, data: seq<byte>, end: nat, extra: nat)
    requires Inflate.Inflate(bits, 0, []) == Some((data, end)) && Obeys(s, bits, extra) && s.far >= 0
    ensures var blocks := BlocksOf(bits, 0, []);
            end <= 8 * |data| + 42 * |blocks| + (if s.level == 0 then 0 else s.lit_bufsize * (|data| / (s.far + 1)))
  {
    hide Inflate.Inflate, ReadBlock, Lawful, Proper, BlocksOf, Genuine, Short, TotalLen, TotalBits, Excesses;
    var blocks := BlocksOf(bits, 0, []);
    var n, far := |blocks| - 1, s.far + 1;
    var told := Telling(s, bits, extra);
    InflateTotals(bits, 0, []);
    TotalExcess(s, blocks, told);
    ExcessBound(s, blocks);
    ManyLong(blocks, far);
    AtMost(|blocks| - Short(blocks, far), far, |data|);
    MoreTimes(s.lit_bufsize, |blocks| - Short(blocks, far), |data| / far);
  }

  lemma LastTotal(blocks: seq<Block>)
    requires blocks != []
    ensures TotalLen(blocks) == TotalLen(blocks[..|blocks| - 1]) + blocks[|blocks| - 1].len
  {
  }

  lemma MoreTimes(l: nat, a: int, b: int)
    requires a <= b
    ensures l * a <= l * b
  {
  }

  // What the contents of the blocks are.
  lemma StreamContents(s: Setting, bits: seq<bool>, extra: nat)
    requires Obeys(s, bits, extra) && Quota(s) > 0
    ensures var blocks := BlocksOf(bits, 0, []);
            && (s.level == 0 && extra == 0 ==> forall i :: 0 <= i < |blocks| ==> blocks[i].content.Copied?)
            && (forall i :: 0 <= i < |blocks| && blocks[i].content.Compressed? ==> Within(s, blocks[i].content.syms))
  {
    hide BlocksOf, Short, Quota, Within, Chosen;
    var blocks := BlocksOf(bits, 0, []);
    var n := |blocks| - 1;
    var told := Telling(s, bits, extra);
    forall i | 0 <= i < |blocks|
      ensures s.level == 0 && extra == 0 ==> blocks[i].content.Copied?
      ensures blocks[i].content.Compressed? ==> Within(s, blocks[i].content.syms)
    {
      assert Law(s, blocks[i], told[i]);
      NoneWithin(s);
      if Proper(s, blocks[i], told[i]) {
        if s.level > 0 {
          ChosenContent(s, blocks[i], told[i]);
        }
      } else if extra == 0 {
        NoneShort(blocks[..n], Quota(s), i);
      }
    }
  }

  lemma NoneWithin(s: Setting)
    ensures Within(s, [])
  {
  }

  lemma ChosenContent(s: Setting, b: Block, told: seq<Symbol>)
    requires Proper(s, b, told) && s.level > 0
    ensures b.content == Copied(b.len) || (b.content == Compressed(told) && Within(s, told))
  {
    hide Chosen, Within;
    if Chosen(told, true, b.len, b.from, b.content, b.to - b.from) {
      ChosenExcess(told, true, b.len, b.from, b.content, b.to - b.from);
    } else {
      ChosenExcess(told, false, b.len, b.from, b.content, b.to - b.from);
    }
  }

  lemma {:induction false} NoneShort(blocks: seq<Block>, q: int, i: nat)
    requires Short(blocks, q) == 0 && i < |blocks|
    ensures blocks[i].len >= q
  {
    if i < |blocks| - 1 {
      NoneShort(blocks[..|blocks| - 1], q, i);
    }
  }
}
