/** The reference decoder: RFC 1951 as a function from bits to bytes.
    It accepts a Huffman code only when its lengths describe a complete code. */
module Inflate {
  import opened Prelude
  import opened Bits

  const MAX_BITS: nat := 15
  const END_BLOCK: nat := 256

  // ---- section 3.2.2: codes from code lengths ----

  function Count(lens: seq<nat>, b: nat): (c: nat)
    ensures c <= |lens|
  {
    if lens == [] then 0 else
      Count(lens[..|lens| - 1], b) + (if lens[|lens| - 1] == b then 1 else 0)
  }

  // The numerically smallest code of b bits.
  function FirstCode(lens: seq<nat>, b: nat): nat {
    if b <= 1 then 0 else 2 * (FirstCode(lens, b - 1) + Count(lens, b - 1))
  }

  // Codes of one length are consecutive, in the order of the symbols.
  function CodeOf(lens: seq<nat>, s: nat): nat
    requires s < |lens|
  {
    FirstCode(lens, lens[s]) + Count(lens[..s], lens[s])
  }

  function Rev(s: seq<bool>): (r: seq<bool>)
    ensures |r| == |s|
  {
    if s == [] then [] else Rev(s[1..]) + [s[0]]
  }

  // Huffman codes are packed most significant bit first (section 3.1.1).
  function CodeBits(code: nat, length: nat): (s: seq<bool>)
    ensures |s| == length
  {
    Rev(LowBits(code, length))
  }

  function SymbolBits(lens: seq<nat>, s: nat): (e: seq<bool>)
    requires s < |lens|
    ensures |e| == lens[s]
  {
    CodeBits(CodeOf(lens, s), lens[s])
  }

  // The share of the code space, in units of the longest codes, taken by codes of at most b bits.
  function Kraft(lens: seq<nat>, b: nat): nat
    requires b <= MAX_BITS
  {
    if b == 0 then 0 else Kraft(lens, b - 1) + Shl(Count(lens, b), MAX_BITS - b)
  }

  predicate Complete(lens: seq<nat>) {
    && (forall i :: 0 <= i < |lens| ==> lens[i] <= MAX_BITS)
    && Kraft(lens, MAX_BITS) == Pow2(MAX_BITS)
  }

  // ---- reading ----

  function ReadBits(s: seq<bool>, pos: nat, n: nat): Option<nat> {
    if pos + n <= |s| then Some(Val(s[pos..pos + n])) else None
  }

  // The first symbol from c on whose code is next in the stream.
  function FindSymbol(lens: seq<nat>, s: seq<bool>, pos: nat, c: nat): (r: Option<(nat, nat)>)
    requires c <= |lens|
    ensures r.Some? ==> r.value.0 < |lens| && pos < r.value.1 <= |s|
    decreases |lens| - c
  {
    if c == |lens| then None
    else if lens[c] > 0 && At(s, pos, SymbolBits(lens, c)) then Some((c, pos + lens[c]))
    else FindSymbol(lens, s, pos, c + 1)
  }

  function ReadSymbol(lens: seq<nat>, s: seq<bool>, pos: nat): (r: Option<(nat, nat)>)
    ensures r.Some? ==> r.value.0 < |lens| && pos < r.value.1 <= |s|
  {
    FindSymbol(lens, s, pos, 0)
  }

  // ---- section 3.2.5: literals, lengths and distances ----

  datatype Symbol = Literal(b: byte) | Match(length: nat, distance: nat)

  const LENGTH_BASE: seq<nat> := [3, 4, 5, 6, 7, 8, 9, 10, 11, 13, 15, 17, 19, 23, 27, 31, 35, 43, 51, 59, 67, 83, 99,
    115, 131, 163, 195, 227, 258]
  const LENGTH_EXTRA: seq<nat> := [0, 0, 0, 0, 0, 0, 0, 0, 1, 1, 1, 1, 2, 2, 2, 2, 3, 3, 3, 3, 4, 4, 4, 4, 5, 5, 5, 5,
    0]
  const DIST_BASE: seq<nat> := [1, 2, 3, 4, 5, 7, 9, 13, 17, 25, 33, 49, 65, 97, 129, 193, 257, 385, 513, 769, 1025,
    1537, 2049, 3073, 4097, 6145, 8193, 12289, 16385, 24577]
  const DIST_EXTRA: seq<nat> := [0, 0, 0, 0, 1, 1, 2, 2, 3, 3, 4, 4, 5, 5, 6, 6, 7, 7, 8, 8, 9, 9, 10, 10, 11, 11, 12,
    12, 13, 13]

  // A base value plus its extra bits.
  function ReadExtra(base: seq<nat>, extra: seq<nat>, code: nat, s: seq<bool>, pos: nat): (r: Option<(nat, nat)>)
    requires |base| == |extra|
    ensures r.Some? ==> pos <= r.value.1 <= |s|
  {
    if code >= |base| then None else
      match ReadBits(s, pos, extra[code])
      case None => None
      case Some(x) => Some((base[code] + x, pos + extra[code]))
  }

  function ReadMatch(lengthCode: nat, dlens: seq<nat>, s: seq<bool>, pos: nat): (r: Option<(Symbol, nat)>)
    ensures r.Some? ==> pos <= r.value.1 <= |s|
  {
    match ReadExtra(LENGTH_BASE, LENGTH_EXTRA, lengthCode, s, pos)
    case None => None
    case Some((length, p1)) =>
      match ReadSymbol(dlens, s, p1)
      case None => None
      case Some((distanceCode, p2)) =>
        match ReadExtra(DIST_BASE, DIST_EXTRA, distanceCode, s, p2)
        case None => None
        case Some((distance, p3)) => Some((Match(length, distance), p3))
  }

  // The symbols of a compressed block, up to and including the end-of-block code.
  function ReadSymbols(llens: seq<nat>, dlens: seq<nat>, s: seq<bool>, pos: nat): (r: Option<(seq<Symbol>, nat)>)
    ensures r.Some? ==> pos <= r.value.1
    decreases |s| - pos
  {
    match ReadSymbol(llens, s, pos)
    case None => None
    case Some((code, p)) =>
      if code == END_BLOCK then Some(([], p))
      else if code < END_BLOCK then
        match ReadSymbols(llens, dlens, s, p)
        case None => None
        case Some((rest, p')) => Some(([Literal(code)] + rest, p'))
      else
        match ReadMatch(code - END_BLOCK - 1, dlens, s, p)
        case None => None
        case Some((sym, q)) =>
          match ReadSymbols(llens, dlens, s, q)
          case None => None
          case Some((rest, p')) => Some(([sym] + rest, p'))
  }

  // ---- section 3.2.3: what the symbols say ----

  function Copy(out: seq<byte>, length: nat, distance: nat): (r: seq<byte>)
    requires 1 <= distance <= |out|
    ensures |r| == |out| + length && out <= r
    decreases length
  {
    if length == 0 then out else Copy(out + [out[|out| - distance]], length - 1, distance)
  }

  function Expand(out: seq<byte>, syms: seq<Symbol>): Option<seq<byte>>
    decreases |syms|
  {
    if syms == [] then Some(out) else
      match syms[0]
      case Literal(b) => Expand(out + [b], syms[1..])
      case Match(length, distance) =>
        if 1 <= distance <= |out| then Expand(Copy(out, length, distance), syms[1..]) else None
  }

  // ---- section 3.2.7: dynamic code lengths ----

  const LENGTH_ORDER: seq<nat> := [16, 17, 18, 0, 8, 7, 9, 6, 10, 5, 11, 4, 12, 3, 13, 2, 14, 1, 15]

  function Repeat(x: nat, n: nat): (r: seq<nat>)
    ensures |r| == n
  {
    if n == 0 then [] else Repeat(x, n - 1) + [x]
  }

  // n more code lengths after those in acc.
  function ReadLengths(clens: seq<nat>, s: seq<bool>, pos: nat, acc: seq<nat>, n: nat): (r: Option<(seq<nat>, nat)>)
    ensures r.Some? ==> pos <= r.value.1
    decreases |s| - pos
  {
    if n == 0 then Some((acc, pos)) else
      match ReadSymbol(clens, s, pos)
      case None => None
      case Some((code, p)) =>
        if code < 16 then ReadLengths(clens, s, p, acc + [code], n - 1)
        else if code == 16 && acc == [] then None
        else if code > 18 then None
        else
          var bits := if code == 16 then 2 else if code == 17 then 3 else 7;
          var least := if code == 18 then 11 else 3;
          var item := if code == 16 then acc[|acc| - 1] else 0;
          match ReadBits(s, p, bits)
          case None => None
          case Some(x) =>
            if least + x > n then None
            else ReadLengths(clens, s, p + bits, acc + Repeat(item, least + x), n - (least + x))
  }

  // The n three-bit lengths of the code length code, in transmission order.
  function ReadOrdered(s: seq<bool>, pos: nat, clens: seq<nat>, rank: nat, n: nat): (r: Option<seq<nat>>)
    requires rank <= n <= |LENGTH_ORDER| == |clens|
    ensures r.Some? ==> |r.value| == |clens|
    decreases n - rank
  {
    if rank == n then Some(clens) else
      match ReadBits(s, pos, 3)
      case None => None
      case Some(x) => ReadOrdered(s, pos + 3, clens[LENGTH_ORDER[rank] := x], rank + 1, n)
  }

  // Both code length tables of a dynamic block.
  function ReadTables(s: seq<bool>, pos: nat): (r: Option<(seq<nat>, seq<nat>, nat)>)
    ensures r.Some? ==> pos <= r.value.2
  {
    match (ReadBits(s, pos, 5), ReadBits(s, pos + 5, 5), ReadBits(s, pos + 10, 4))
    case (Some(hlit), Some(hdist), Some(hclen)) =>
      if hlit > 29 || hclen > 15 then None else
        (match ReadOrdered(s, pos + 14, Repeat(0, 19), 0, hclen + 4)
         case None => None
         case Some(clens) =>
           if !Complete(clens) then None else
             match ReadLengths(clens, s, pos + 14 + 3 * (hclen + 4), [], hlit + hdist + 258)
             case None => None
             case Some((all, p)) =>
               if |all| != hlit + hdist + 258 then None else Some((all[..hlit + 257], all[hlit + 257..], p)))
    case _ => None
  }

  // ---- section 3.2.6: fixed codes ----

  function FixedLiteralLengths(): (lens: seq<nat>)
    ensures |lens| == 288
  {
    Repeat(8, 144) + Repeat(9, 112) + Repeat(7, 24) + Repeat(8, 8)
  }

  function FixedDistanceLengths(): (lens: seq<nat>)
    ensures |lens| == 32
  {
    Repeat(5, 32)
  }

  // ---- section 3.2.4: stored blocks ----

  function ReadBytes(s: seq<bool>, pos: nat, n: nat): Option<seq<byte>>
    decreases n
  {
    if n == 0 then Some([]) else
      match ReadBits(s, pos, 8)
      case None => None
      case Some(x) =>
        if x > 255 then None else
          match ReadBytes(s, pos + 8, n - 1)
          case None => None
          case Some(rest) => Some([x] + rest)
  }

  function NextBoundary(pos: nat): (p: nat)
    ensures pos <= p < pos + 8 && p % 8 == 0
  {
    pos + (8 - pos % 8) % 8
  }

  // What a block consisted of.
  datatype Content = Copied(count: nat) | Compressed(syms: seq<Symbol>)

  function ReadStored(s: seq<bool>, pos: nat, out: seq<byte>): (r: Option<(Content, seq<byte>, nat)>)
    ensures r.Some? ==> pos <= r.value.2
  {
    var p := NextBoundary(pos);
    match (ReadBits(s, p, 16), ReadBits(s, p + 16, 16))
    case (Some(len), Some(nlen)) =>
      if len + nlen != 0xffff then None else
        (match ReadBytes(s, p + 32, len)
         case None => None
         case Some(bytes) => Some((Copied(len), out + bytes, p + 32 + 8 * len)))
    case _ => None
  }

  // ---- section 3.2.3: blocks ----

  function ReadCompressed(llens: seq<nat>, dlens: seq<nat>, s: seq<bool>, pos: nat,
                          out: seq<byte>): (r: Option<(Content, seq<byte>, nat)>)
    ensures r.Some? ==> pos <= r.value.2
  {
    if !Complete(llens) || !Complete(dlens) then None else
      match ReadSymbols(llens, dlens, s, pos)
      case None => None
      case Some((syms, p)) =>
        match Expand(out, syms)
        case None => None
        case Some(out') => Some((Compressed(syms), out', p))
  }

  datatype BlockEnd = BlockEnd(final: bool, content: Content, out: seq<byte>, pos: nat)

  // One block: out is what the blocks before it produced.
  function ReadBlock(s: seq<bool>, pos: nat, out: seq<byte>): (r: Option<BlockEnd>)
    ensures r.Some? ==> pos < r.value.pos && pos < |s|
  {
    match (ReadBits(s, pos, 1), ReadBits(s, pos + 1, 2))
    case (Some(final), Some(kind)) =>
      var body :=
        if kind == 0 then ReadStored(s, pos + 3, out)
        else if kind == 1 then ReadCompressed(FixedLiteralLengths(), FixedDistanceLengths(), s, pos + 3, out)
        else if kind == 2 then
          match ReadTables(s, pos + 3)
          case None => None
          case Some((llens, dlens, p)) => ReadCompressed(llens, dlens, s, p, out)
        else None;
      (match body
       case None => None
       case Some((content, out', p)) => Some(BlockEnd(final == 1, content, out', p)))
    case _ => None
  }

  // A block as it was found in a stream: its bits, and how many bytes it stands for.
  datatype Block = Block(content: Content, from: nat, to: nat, len: int)

  function Found(pos: nat, out: seq<byte>, e: BlockEnd): Block {
    Block(e.content, pos, e.pos, |e.out| - |out|)
  }

  // The n blocks from bit from on, none of them final, and what they stand for on their own.
  function ReadOpenBlocks(s: seq<bool>, from: nat, n: nat): Option<(seq<Block>, seq<byte>, nat)> {
    if n == 0 then Some(([], [], from)) else
      match ReadOpenBlocks(s, from, n - 1)
      case None => None
      case Some((blocks, out, pos)) =>
        match ReadBlock(s, pos, out)
        case None => None
        case Some(e) => if e.final then None else Some((blocks + [Found(pos, out, e)], e.out, e.pos))
  }

  // The rest of the stream, block after block up to the final one.
  function Inflate(s: seq<bool>, pos: nat, out: seq<byte>): Option<(seq<byte>, nat)>
    decreases |s| - pos
  {
    match ReadBlock(s, pos, out)
    case None => None
    case Some(e) => if e.final then Some((e.out, e.pos)) else Inflate(s, e.pos, e.out)
  }

  // The blocks that Inflate reads.
  function BlocksOf(s: seq<bool>, pos: nat, out: seq<byte>): seq<Block>
    decreases |s| - pos
  {
    match ReadBlock(s, pos, out)
    case None => []
    case Some(e) => [Found(pos, out, e)] + (if e.final then [] else BlocksOf(s, e.pos, e.out))
  }

  lemma {:induction false} InflateAfterOpen(s: seq<bool>, from: nat, n: nat)
    requires ReadOpenBlocks(s, from, n).Some?
    ensures var (blocks, out, pos) := ReadOpenBlocks(s, from, n).value;
            && Inflate(s, from, []) == Inflate(s, pos, out)
            && BlocksOf(s, from, []) == blocks + BlocksOf(s, pos, out)
  {
    hide ReadBlock;
    if n > 0 {
      InflateAfterOpen(s, from, n - 1);
    }
  }

  // A block that can be read after other bytes as well stands for the same bytes there.
  lemma ReadElsewhere(s: seq<bool>, pos: nat, out: seq<byte>, other: seq<byte>, data: seq<byte>)
    requires ReadBlock(s, pos, out).Some? && ReadBlock(s, pos, out).value.out == out + data
    requires var content := ReadBlock(s, pos, out).value.content;
             content.Compressed? ==> Expand(other, content.syms) == Some(other + data)
    ensures var e := ReadBlock(s, pos, out).value;
            ReadBlock(s, pos, other) == Some(BlockEnd(e.final, e.content, other + data, e.pos))
  {
    hide ReadBits, ReadSymbols, ReadTables, ReadBytes, Complete, Expand, FixedLiteralLengths, FixedDistanceLengths;
    var e := ReadBlock(s, pos, out).value;
    if e.content.Copied? {
      var p := NextBoundary(pos + 3);
      var bytes := ReadBytes(s, p + 32, ReadBits(s, p, 16).value).value;
      assert out + bytes == out + data;
      SameRest(out, bytes, data);
    }
  }

  lemma SameRest(out: seq<byte>, a: seq<byte>, b: seq<byte>)
    requires out + a == out + b
    ensures a == b
  {
    assert a == (out + a)[|out|..] == (out + b)[|out|..] == b;
  }
}
