/** The block layer of the compressor: it tallies literals and matches, builds the trees of a
    block, chooses between its three encodings and sends it. */
module Blocks {
  import opened Prelude
  import opened Bits
  import opened BitWriters
  import opened BlockChoice
  import opened BlockLaws
  import opened Inflate
  import opened Canonical
  import opened Heaps
  import opened TreeCosts
  import opened LeafHeap
  import opened TreeLimits
  import opened Trees
  import opened RunLength
  import opened Codes
  import opened BlockCoding
  import opened BlockFormat
  import opened Frequencies
  import opened TableFacts
  import opened DynamicBound
  import opened BlockSizes
  import opened BestTrees

  // ---- the symbol buffer ----

  // Entry i of the buffer: a distance of zero marks a literal.
  function SymbolAt(dbuf: seq<byte>, lbuf: seq<byte>, i: nat): Symbol
    requires 2 * i + 1 < |dbuf| && i < |lbuf|
  {
    var hi: nat, lo: nat := dbuf[2 * i], dbuf[2 * i + 1];
    var dist := 256 * hi + lo;
    if dist == 0 then Literal(lbuf[i]) else Match(lbuf[i] + MIN_MATCH, dist)
  }

  ghost predicate Buffered(dbuf: seq<byte>, lbuf: seq<byte>, size: nat, syms: seq<Symbol>) {
    && |dbuf| == 2 * size && |lbuf| == size && |syms| <= size
    && (forall i :: 0 <= i < |syms| ==> SymbolAt(dbuf, lbuf, i) == syms[i])
  }

  lemma BufferOne(dbuf: seq<byte>, lbuf: seq<byte>, size: nat, syms: seq<Symbol>, dist: nat, lc: byte)
    requires Buffered(dbuf, lbuf, size, syms) && |syms| < size && dist < 0x1_0000
    ensures var i := |syms|;
            Buffered(dbuf[2 * i := dist / 256][2 * i + 1 := dist % 256], lbuf[i := lc], size,
                     syms + [if dist == 0 then Literal(lc) else Match(lc + MIN_MATCH, dist)])
  {
    assert 256 * (dist / 256) + dist % 256 == dist;
  }

  lemma BufferShape(dbuf: seq<byte>, lbuf: seq<byte>, size: nat, syms: seq<Symbol>)
    requires Buffered(dbuf, lbuf, size, syms)
    ensures |dbuf| == 2 * size && |lbuf| == size && |syms| <= size
  {
  }

  lemma BufferNone(size: nat)
    ensures Buffered(seq(2 * size, _ => 0), seq(size, _ => 0), size, [])
  {
  }

  // ---- run-length coding in progress ----

  lemma {:induction false} CopiesCounted(f: seq<nat>, len: nat, n: nat)
    requires len < |f|
    ensures FreqOf(f, RunCodes(Copies(len, n))) == f[len := f[len] + n]
    decreases n
  {
    hide FreqOf, RunCodes, Copies;
    CopiesIs(len, n);
    if n == 0 {
      NothingCounted(f);
    } else {
      var one, rest := RunSymbol(len, 0), Copies(len, n - 1);
      CopiesCounted(Bump(f, len), len, n - 1);
      ScanStep(f, [one], rest);
      RunCodesOne(one);
      FreqOne(f, len);
    }
  }

  lemma CopiesIs(len: nat, n: nat)
    ensures Copies(len, n) == if n == 0 then [] else [RunSymbol(len, 0)] + Copies(len, n - 1)
  {
  }

  lemma RunCodesOne(r: RunSymbol)
    ensures RunCodes([r]) == [r.code]
  {
    assert [r][..0] == [];
  }

  lemma FreqOne(f: seq<nat>, c: nat)
    ensures FreqOf(f, [c]) == Bump(f, c)
  {
    assert [c][..0] == [];
  }

  // What scan_tree adds for one run.
  lemma RunCounted(f: seq<nat>, len: nat, count: nat, prevlen: int, minCount: nat)
    requires |f| == HEAP_SIZE && len <= MAX_BITS && minCount == NewRun(prevlen, len).minCount
    ensures FreqOf(f, RunCodes(RunSymbols(len, count, prevlen, minCount))) ==
              if count < minCount then f[len := f[len] + count]
              else if len != 0 then Bump(if len != prevlen then Bump(f, len) else f, REP_3_6)
              else if count <= 10 then Bump(f, REPZ_3_10)
              else Bump(f, REPZ_11_138)
  {
    hide Bump, FreqOf, RunCodes;
    if count < minCount {
      CopiesCounted(f, len, count);
    } else if len != 0 && len != prevlen {
      var a, b := RunSymbol(len, 0), RunSymbol(REP_3_6, count - 4);
      assert [a, b] == [a] + [b];
      RunCodesConcat([a], [b]);
      RunCodesOne(a);
      RunCodesOne(b);
      FreqConcat(f, [len], [REP_3_6]);
      FreqOne(f, len);
      FreqOne(Bump(f, len), REP_3_6);
    } else {
      var r := RunSymbols(len, count, prevlen, minCount)[0];
      RunCodesOne(r);
      FreqOne(f, r.code);
    }
  }

  lemma SymbolsStep(dl: seq<nat>, n: nat, maxCode: nat, r: Run)
    requires n <= maxCode && maxCode + 1 < |dl| && r.minCount == NewRun(r.prevlen, dl[n]).minCount
    ensures r.count + 1 < r.maxCount && dl[n] == dl[n + 1] ==>
              Symbols(dl, n, maxCode, r) == Symbols(dl, n + 1, maxCode, r.(count := r.count + 1))
    ensures !(r.count + 1 < r.maxCount && dl[n] == dl[n + 1]) ==>
              Symbols(dl, n, maxCode, r) == RunSymbols(dl[n], r.count + 1, r.prevlen, r.minCount)
                                            + Symbols(dl, n + 1, maxCode, NewRun(dl[n], dl[n + 1]))
  {
  }

  lemma SymbolsDone(dl: seq<nat>, n: nat, maxCode: nat, r: Run)
    requires n > maxCode && maxCode + 1 < |dl|
    ensures Symbols(dl, n, maxCode, r) == []
  {
  }

  // One more run counted.
  lemma ScanStep(f: seq<nat>, a: seq<RunSymbol>, b: seq<RunSymbol>)
    ensures FreqOf(f, RunCodes(a + b)) == FreqOf(FreqOf(f, RunCodes(a)), RunCodes(b))
  {
    RunCodesConcat(a, b);
    FreqConcat(f, RunCodes(a), RunCodes(b));
  }

  // ---- encodings in progress ----

  lemma {:induction false} EncodePrefix(llens: seq<nat>, dlens: seq<nat>, syms: seq<Symbol>, k: nat)
    requires AllCoded(llens, dlens, syms) && k < |syms|
    ensures AllCoded(llens, dlens, syms[..k]) && AllCoded(llens, dlens, syms[..k + 1]) && Coded(llens, dlens, syms[k])
    ensures EncodeSymbols(llens, dlens, syms[..k + 1]) == EncodeSymbols(llens, dlens, syms[..k])
            + EncodeSymbol(llens, dlens, syms[k])
    ensures |EncodeSymbols(llens, dlens, syms[..k + 1])| <= |EncodeSymbols(llens, dlens, syms)|
    decreases |syms| - k
  {
    hide Coded, EncodeSymbol, EncodeSymbols;
    assert syms[..k + 1] == syms[..k] + [syms[k]];
    EncodeSnoc(llens, dlens, syms[..k], syms[k]);
    if k + 1 < |syms| {
      EncodePrefix(llens, dlens, syms, k + 1);
    } else {
      assert syms[..k + 1] == syms;
    }
  }

  lemma CodeValueFits(lens: seq<nat>, c: nat)
    requires c < |lens| && lens[c] <= MAX_BITS
    ensures Reversed(CodeOf(lens, c), lens[c]) < Pow2(lens[c]) <= Pow2(MAX_BITS) < 0x1_0000
    ensures LowBits(Reversed(CodeOf(lens, c), lens[c]), lens[c]) == SymbolBits(lens, c)
  {
    Pow2Mono(lens[c], MAX_BITS);
    Pow2Values();
  }

  lemma LengthExtraIs(lc: nat)
    requires lc < 256
    ensures var c := LengthCode(lc);
            && (LENGTH_EXTRA[c] == 0 ==> LengthExtra(lc) == [])
            && (LENGTH_EXTRA[c] != 0 ==>
                  && c < 28 && BASE_LENGTH[c] <= lc && lc - BASE_LENGTH[c] < Pow2(LENGTH_EXTRA[c])
                  && LENGTH_EXTRA[c] <= 5 && LengthExtra(lc) == LowBits(lc - BASE_LENGTH[c], LENGTH_EXTRA[c]))
  {
    LengthParts(lc);
    ExtraBound(LengthCode(lc));
  }

  lemma DistExtraIs(d: nat)
    requires d < 32768
    ensures var c := DistCode(d);
            && (DIST_EXTRA[c] == 0 ==> DistExtra(d) == [])
            && d - BASE_DIST[c] < Pow2(DIST_EXTRA[c]) && DIST_EXTRA[c] <= 13
            && DistExtra(d) == LowBits(d - BASE_DIST[c], DIST_EXTRA[c])
  {
    DistParts(d);
    ExtraBound(DistCode(d));
  }

  lemma SpellsAt(t: CodeTable, lens: seq<nat>, c: nat)
    requires Spells(t, lens) && HasCode(lens, c)
    ensures SpellsCode(t, lens, c)
  {
  }

  lemma SpelledLength(t: CodeTable, lens: seq<nat>, c: nat)
    requires c < |lens| && SpellsCode(t, lens, c)
    ensures c < |t.len| && t.len[c] == lens[c]
  {
  }

  lemma NothingCounted(f: seq<nat>)
    ensures FreqOf(f, RunCodes([])) == f
  {
  }

  lemma NoBits(v: nat)
    ensures LowBits(v, 0) == []
  {
  }

  lemma NoRuns(clens: seq<nat>)
    ensures EncodeRuns(clens, []) == []
  {
  }

  lemma SingleRun(clens: seq<nat>, runs: seq<RunSymbol>)
    requires |runs| == 1 && AllRunCoded(clens, runs)
    ensures RunCoded(clens, runs[0]) && EncodeRuns(clens, runs) == EncodeRun(clens, runs[0])
  {
    assert runs == [runs[0]];
    assert RunCoded(clens, runs[0]);
    OneRun(clens, runs[0]);
  }

  lemma PairSplit(clens: seq<nat>, runs: seq<RunSymbol>)
    requires |runs| == 2 && AllRunCoded(clens, runs)
    ensures RunCoded(clens, runs[0]) && RunCoded(clens, runs[1])
    ensures EncodeRuns(clens, runs) == EncodeRun(clens, runs[0]) + EncodeRun(clens, runs[1])
  {
    hide EncodeRun, RunCoded;
    assert runs == [runs[0]] + [runs[1]];
    assert RunCoded(clens, runs[0]) && RunCoded(clens, runs[1]);
    OneRun(clens, runs[0]);
    OneRun(clens, runs[1]);
    RunsConcat(clens, [runs[0]], [runs[1]]);
  }

  lemma CopiesSplit(clens: seq<nat>, len: nat, n: nat)
    requires n > 0 && AllRunCoded(clens, Copies(len, n))
    ensures RunCoded(clens, RunSymbol(len, 0)) && AllRunCoded(clens, Copies(len, n - 1))
    ensures EncodeRuns(clens, Copies(len, n)) == EncodeRun(clens, RunSymbol(len, 0))
            + EncodeRuns(clens, Copies(len, n - 1))
  {
    hide EncodeRun, RunCoded;
    var all := Copies(len, n);
    assert RunCoded(clens, all[0]);
    assert all[1..] == Copies(len, n - 1);
  }

  lemma NoOrdered(start: seq<bool>, clens: seq<nat>)
    requires |clens| == BL_CODES
    ensures start + OrderedBits(clens, 0) == start
  {
  }

  // ---- stored blocks and early flushes ----

  function OutLength(dfc: seq<nat>, start: nat, n: nat): nat
    requires n <= D_CODES <= |dfc|
  {
    if n == 0 then start else OutLength(dfc, start, n - 1) + dfc[n - 1] * (5 + DIST_EXTRA[n - 1])
  }

  // The matches among the symbols.
  function MatchCount(syms: seq<Symbol>): nat {
    if syms == [] then 0 else
      MatchCount(syms[..|syms| - 1]) + (if syms[|syms| - 1].Match? then 1 else 0)
  }

  // What _tr_tally takes for the compressed length in bits: eight for every symbol, and what a distance takes.
  function Estimate(syms: seq<Symbol>): nat
    requires AllSendable(syms)
  {
    if syms == [] then 0 else
      Estimate(syms[..|syms| - 1]) + 8
      + (if syms[|syms| - 1].Match? then 5 + DIST_EXTRA[DisCode(syms[|syms| - 1])] else 0)
  }

  lemma {:induction false} OutLengthStart(dfc: seq<nat>, start: nat, more: nat, n: nat)
    requires n <= D_CODES <= |dfc|
    ensures OutLength(dfc, start + more, n) == OutLength(dfc, start, n) + more
  {
    if n > 0 {
      OutLengthStart(dfc, start, more, n - 1);
    }
  }

  lemma {:induction false} OutLengthSame(dfc: seq<nat>, same: seq<nat>, start: nat, n: nat)
    requires n <= D_CODES <= |dfc| == |same| && forall c :: 0 <= c < D_CODES ==> dfc[c] == same[c]
    ensures OutLength(dfc, start, n) == OutLength(same, start, n)
  {
    if n > 0 {
      OutLengthSame(dfc, same, start, n - 1);
    }
  }

  lemma {:induction false} OutLengthBumped(dfc: seq<nat>, c: nat, start: nat, n: nat)
    requires n <= D_CODES <= |dfc| && c < D_CODES
    ensures OutLength(Bump(dfc, c), start, n) == OutLength(dfc, start, n) + if c < n then 5 + DIST_EXTRA[c] else 0
  {
    if n > 0 {
      OutLengthBumped(dfc, c, start, n - 1);
      if c == n - 1 {
        OneMoreOf(dfc[c], 5 + DIST_EXTRA[c]);
      }
    }
  }

  lemma OneMoreOf(k: nat, x: nat)
    ensures (k + 1) * x == k * x + x
  {
  }

  lemma {:induction false} OutLengthNone(dfc: seq<nat>, n: nat)
    requires n <= D_CODES <= |dfc| && forall c :: 0 <= c < D_CODES ==> dfc[c] == 0
    ensures OutLength(dfc, 0, n) == 0
  {
    if n > 0 {
      OutLengthNone(dfc, n - 1);
    }
  }

  // The loop over the distance frequencies adds up what every match takes.
  lemma {:induction false} EstimateIs(syms: seq<Symbol>)
    requires AllSendable(syms)
    ensures OutLength(DisFreq(syms), 8 * |syms|, D_CODES) == Estimate(syms)
  {
    hide OutLength, Bump, Sendable, DisCode;
    if syms == [] {
      OutLengthNone(DisFreq(syms), D_CODES);
    } else {
      hide DisFreq;
      var front, sym := syms[..|syms| - 1], syms[|syms| - 1];
      assert syms == front + [sym];
      EstimateIs(front);
      TallySnoc(front, sym);
      OutLengthStart(DisFreq(front), 8 * |front|, 8, D_CODES);
      if sym.Match? {
        OutLengthBumped(DisFreq(front), DisCode(sym), 8 * |syms|, D_CODES);
      }
    }
  }

  lemma TalliedEstimate(lfc: seq<nat>, dfc: seq<nat>, syms: seq<Symbol>)
    requires Tallied(lfc, dfc, syms)
    ensures |dfc| == HEAP_SIZE && AllSendable(syms) && OutLength(dfc, 8 * |syms|, D_CODES) == Estimate(syms)
  {
    hide OutLength, DisFreq, LitFreq;
    EstimateIs(syms);
    OutLengthSame(dfc, DisFreq(syms), 8 * |syms|, D_CODES);
  }

  // A block is worth flushing early: few of many symbols are matches, and the estimate is under half the input.
  predicate WorthFlushing(syms: seq<Symbol>, inLength: int)
    requires AllSendable(syms)
  {
    |syms| % 8192 == 0 && MatchCount(syms) < |syms| / 2 && Estimate(syms) / 8 < inLength / 2
  }

  lemma CountSnoc(syms: seq<Symbol>, sym: Symbol)
    ensures MatchCount(syms + [sym]) == MatchCount(syms) + if sym.Match? then 1 else 0
  {
    assert (syms + [sym])[..|syms|] == syms;
  }

  lemma SamePad(p: nat, v: nat, total: nat, p0: nat, v0: nat)
    requires 8 * p + v == total + 3 == 8 * p0 + v0 + 3
    ensures PadLength(v) == PadLength(v0 + 3)
  {
    var k := p - p0;
    assert v0 + 3 == v + 8 * k;
    assert (v + 8 * k) % 8 == v % 8;
  }

  lemma FourParts(a: seq<bool>, b: seq<bool>, c: seq<bool>, d: seq<bool>)
    ensures a + b + c + d == a + (b + c + d)
  {
  }

  lemma FiveParts(a: seq<bool>, b: seq<bool>, c: seq<bool>, d: seq<bool>, e: seq<bool>)
    ensures a + b + c + d + e == a + (b + c + d + e)
  {
  }

  lemma StoredAssembled(start: seq<bool>, data: seq<byte>, eof: bool, h: seq<bool>, p: seq<bool>, l: seq<bool>)
    requires |data| <= 0xffff && h == LowBits(2 * STORED_BLOCK + (if eof then 1 else 0), 3) && p == Padding(|start| + 3)
    requires l == LowBits(|data|, 16) + LowBits(0xffff - |data|, 16)
    ensures start + h + p + l + BytesToBits(data) == start + StoredBits(|start|, data, eof)
  {
    hide LowBits, BytesToBits, Padding;
    FiveParts(start, h, p, l, BytesToBits(data));
  }

  lemma EmptyBlock(was: seq<bool>, hist: seq<byte>)
    ensures var now := was + LowBits(2 * STATIC_TREES, 3) + SymbolBits(FixedLiteralLengths(), END_BLOCK);
            Appended(was, now, hist, hist, false, Compressed([]), |now|)
  {
    hide FixedLiteralLengths, FixedDistanceLengths, LowBits, Appended, SymbolBits;
    var f := FixedLiteralLengths();
    FixedCoded([]);
    EmptyBody(f, FixedDistanceLengths());
    AppendStatic(was, [], false, hist, hist);
    var end := was + StaticBits([], false);
    assert end + [] == end;
    Regroup(was, LowBits(2 * STATIC_TREES, 3), SymbolBits(f, END_BLOCK), StaticBits([], false), []);
  }

  // ---- finished trees ----

  // The tree has a complete code for the first elements of its alphabet, ready to be sent.
  ghost predicate Carries(t: Tree, elems: nat)
    reads t`fc, t`dl, t`max_code
  {
    t.Sized() && 0 <= t.max_code < elems && t.stat_desc.elems == elems && Complete(t.Lens())
            && Spells(CodeTable(t.fc, t.dl), t.Lens())
  }

  lemma CodedCarries(t: Tree, elems: nat)
    requires t.Sized() && t.stat_desc.elems == elems && t.Coded()
    ensures Carries(t, elems) && t.dl[t.max_code] > 0 && forall n :: t.max_code < n < elems ==> t.dl[n] == 0
  {
    hide Reversed, CodeOf, Kraft;
  }

  lemma CarriesShape(t: Tree, elems: nat)
    requires Carries(t, elems)
    ensures t.Sized() && 0 <= t.max_code < elems == t.stat_desc.elems
    ensures t.Lens() == t.dl[..t.max_code + 1]
  {
  }

  lemma CompleteLimited(lens: seq<nat>)
    requires Complete(lens)
    ensures forall i :: 0 <= i < |lens| ==> lens[i] <= MAX_BITS
  {
  }

  lemma CarriesLimited(t: Tree, elems: nat)
    requires Carries(t, elems)
    ensures forall i :: 0 <= i <= t.max_code ==> t.dl[i] <= MAX_BITS
  {
    CompleteLimited(t.Lens());
    forall i | 0 <= i <= t.max_code
      ensures t.dl[i] <= MAX_BITS
    {
      assert t.dl[i] == t.Lens()[i];
    }
  }

  lemma CarriesComplete(t: Tree, elems: nat)
    requires Carries(t, elems)
    ensures Complete(t.Lens()) && Spells(CodeTable(t.fc, t.dl), t.Lens())
  {
  }

  ghost predicate WholeTable(t: Tree, elems: nat)
    reads t`fc, t`dl
  {
    && elems <= |t.dl| && Complete(t.dl[..elems]) && Spells(CodeTable(t.fc, t.dl), t.dl[..elems])
    && (forall n :: 0 <= n < elems ==> t.dl[n] <= t.stat_desc.max_length)
  }

  // The bit length code as it is sent: with its trailing codes of length zero.
  lemma WholeCode(t: Tree, elems: nat)
    requires t.Sized() && t.stat_desc.elems == elems && t.Coded()
    ensures WholeTable(t, elems)
  {
    hide Complete, Reversed, CodeOf, Spells, Repeat;
    CodedCarries(t, elems);
    var lens, k := t.Lens(), elems - (t.max_code + 1);
    RepeatAll(t.dl[t.max_code + 1..elems], 0);
    assert t.dl[..elems] == lens + Repeat(0, k);
    PadTable(CodeTable(t.fc, t.dl), lens, k);
    forall n | 0 <= n < elems
      ensures t.dl[n] <= t.stat_desc.max_length
    {
      if n <= t.max_code {
        assert t.dl[n] == t.Lens()[n];
      }
    }
  }

  lemma GuardedBy(was: seq<nat>, dl: seq<nat>, max: nat, elems: nat)
    requires |was| == HEAP_SIZE && max < elems < HEAP_SIZE && dl == was[max + 1 := GUARD]
    requires Complete(was[..max + 1])
    ensures Guarded(dl, max, elems) && dl[..max + 1] == was[..max + 1]
  {
    CompleteLimited(was[..max + 1]);
    assert dl[..max + 1] == was[..max + 1];
    forall i | 0 <= i <= max
      ensures dl[i] <= MAX_BITS
    {
      assert was[..max + 1][i] == dl[i];
    }
  }

  lemma SameSpelling(fc: seq<nat>, was: seq<nat>, dl: seq<nat>, max: nat)
    requires |was| == |dl| && max < |dl| && dl[..max + 1] == was[..max + 1]
             && Spells(CodeTable(fc, was), was[..max + 1])
    ensures Spells(CodeTable(fc, dl), dl[..max + 1])
  {
    hide Reversed, CodeOf;
    var lens := dl[..max + 1];
    forall c | 0 <= c < |lens| && lens[c] > 0
      ensures SpellsCode(CodeTable(fc, dl), lens, c)
    {
      assert SpellsCode(CodeTable(fc, was), lens, c);
      assert dl[c] == lens[c];
    }
  }

  class BlockCoder {
    const level: nat
    const lit_bufsize: nat
    const l_desc: Tree
    const d_desc: Tree
    const bl_desc: Tree
    const work: Work
    const out: BitWriter
    var d_buf: seq<byte>
    var l_buf: seq<byte>
    var last_lit: nat
    var matches: nat
    var last_eob_len: nat
    ghost var syms: seq<Symbol>   // what the buffer holds

    constructor (level: nat, lit_bufsize: nat)
      requires lit_bufsize >= 128
      ensures Valid() && syms == [] && this.level == level && this.lit_bufsize == lit_bufsize && last_eob_len == 8
      ensures fresh(l_desc) && fresh(d_desc) && fresh(bl_desc) && fresh(work) && fresh(out) && fresh(out.pending_buf)
      ensures out.put == out.handed == [] && out.pending == 0 && out.bi_valid == 0
    {
      hide LiteralDesc, DistanceDesc, LengthDesc, Tallied, Buffered, BitWriter.Valid, StaticTree.Valid, FreqOf;
      DescsValid();
      var l := new Tree(LiteralDesc());
      l.fc := l.fc[END_BLOCK := 1];
      var d := new Tree(DistanceDesc());
      TallyNone(l.fc, d.fc);
      BufferNone(lit_bufsize);
      this.level, this.lit_bufsize := level, lit_bufsize;
      l_desc, d_desc := l, d;
      bl_desc := new Tree(LengthDesc());
      work := new Work();
      out := new BitWriter(4 * lit_bufsize);
      d_buf, l_buf := seq(2 * lit_bufsize, _ => 0), seq(lit_bufsize, _ => 0);
      last_lit, matches, last_eob_len, syms := 0, 0, 8, [];
    }

    // The three trees and their working space.
    ghost predicate ThreeTrees()
      reads l_desc`fc, l_desc`dl, d_desc`fc, d_desc`dl, bl_desc`fc, bl_desc`dl, work
    {
      && l_desc != d_desc && l_desc != bl_desc && d_desc != bl_desc
      && l_desc.stat_desc == LiteralDesc() && d_desc.stat_desc == DistanceDesc() && bl_desc.stat_desc == LengthDesc()
      && l_desc.Sized() && d_desc.Sized() && bl_desc.Sized()
      && |work.heap| == |work.depth| == HEAP_SIZE && |work.bl_count| == MAX_BITS + 1
    }

    ghost predicate Shape()
      reads l_desc`fc, l_desc`dl, d_desc`fc, d_desc`dl, bl_desc`fc, bl_desc`dl, work, out, out.pending_buf
    {
      ThreeTrees() && lit_bufsize >= 128 && out.pending_buf.Length == 4 * lit_bufsize && out.Valid()
    }

    // The symbols since the last block, in the buffer and in the frequencies.
    ghost predicate Tally()
      reads this`last_lit, this`matches, this`d_buf, this`l_buf, this`syms, l_desc`fc, d_desc`fc
    {
      && last_lit == |syms| < lit_bufsize && matches == MatchCount(syms) && Buffered(d_buf, l_buf, lit_bufsize, syms)
      && Tallied(l_desc.fc, d_desc.fc, syms)
    }

    lemma RoomAfterBlock()
      requires Valid()
      ensures lit_bufsize >= 128 && (syms == [] ==> last_lit + 1 < lit_bufsize)
    {
      hide ThreeTrees, Buffered, Tallied, Clear, BitWriter.Valid;
    }

    // Between blocks the bit length tree and the accounts are clear.
    ghost predicate Clear()
      reads bl_desc`fc, work`opt_len, work`static_len
    {
      && |bl_desc.fc| == HEAP_SIZE && (forall c :: 0 <= c < BL_CODES ==> bl_desc.fc[c] == 0)
      && work.opt_len == work.static_len == 0
    }

    ghost predicate Valid()
      reads this, l_desc, d_desc, bl_desc, work, out, out.pending_buf
    {
      Shape() && Tally() && Clear()
    }

    // What _tr_flush_block may be asked to send: the bytes data, which the tallied symbols say after the
    // bytes hist. They still stand in the window unless buf is negative; at level 0 they have to.
    ghost predicate Flushable(window: array<byte>, buf: int, stored_len: nat, hist: seq<byte>, data: seq<byte>)
      reads this`syms, out`bi_valid, window
    {
      && |data| == stored_len && buf >= -1
      && (buf >= 0 ==>
            buf + stored_len <= window.Length && window[buf..buf + stored_len] == data
            && stored_len <= 0xffff)
      && (level > 0 ==> Expand(hist, syms) == Some(hist + data))
      && (level == 0 ==> buf >= 0 && stored_len + 5 <= 4 * lit_bufsize && out.bi_valid <= 5)
    }

    // Sends the code c of a table.
    method SendCode(c: nat, t: CodeTable, ghost lens: seq<nat>)
      requires out.Valid() && out.pending_out == 0
      requires HasCode(lens, c) && SpellsCode(t, lens, c) && out.Room(lens[c])
      modifies out`pending, out`put, out`bi_buf, out`bi_valid, out.pending_buf
      ensures out.Valid()
      ensures out.Written() == old(out.Written()) + SymbolBits(lens, c)
      ensures 8 * out.pending + out.bi_valid == old(8 * out.pending + out.bi_valid) + lens[c]
    {
      hide Reversed, CodeOf, Pow2, LowBits, SymbolBits, BitWriter.Written, BitWriter.Valid;
      CodeValueFits(lens, c);
      out.SendBits(t.code[c] % 0x1_0000, t.len[c] % 0x1_0000);
    }

    // Sends one tallied symbol.
    method SendSymbol(dist: nat, lc: byte, ltree: CodeTable, dtree: CodeTable, ghost llens: seq<nat>,
                      ghost dlens: seq<nat>, ghost sym: Symbol)
      requires out.Valid() && out.pending_out == 0 && Coded(llens, dlens, sym)
      requires Spells(ltree, llens) && Spells(dtree, dlens)
      requires sym == if dist == 0 then Literal(lc) else Match(lc + MIN_MATCH, dist)
      requires out.Room(|EncodeSymbol(llens, dlens, sym)|)
      modifies out`pending, out`put, out`bi_buf, out`bi_valid, out.pending_buf
      ensures out.Valid()
      ensures out.Written() == old(out.Written()) + EncodeSymbol(llens, dlens, sym)
      ensures 8 * out.pending + out.bi_valid == old(8 * out.pending + out.bi_valid) + |EncodeSymbol(llens, dlens, sym)|
    {
      hide Spells, SpellsCode, SymbolBits, LengthExtra, DistExtra, LengthCode, DistCode, BitWriter.Written,
        BitWriter.Valid;
      ghost var start := out.Written();
      if dist == 0 {
        SpellsAt(ltree, llens, lc);
        SendCode(lc, ltree, llens);
      } else {
        SendLength(lc, ltree, llens);
        SendDistance(dist - 1, dtree, dlens);
        Regroup(start, SymbolBits(llens, LitCode(sym)) + LengthExtra(lc),
                SymbolBits(dlens, DisCode(sym)) + DistExtra(dist - 1),
                EncodeSymbol(llens, dlens, sym), []);
      }
    }

    // The code of a match length and its extra bits.
    method SendLength(lc: byte, ltree: CodeTable, ghost llens: seq<nat>)
      requires out.Valid() && out.pending_out == 0 && Spells(ltree, llens)
      requires HasCode(llens, LengthCode(lc) + LITERALS + 1)
      requires out.Room(llens[LengthCode(lc) + LITERALS + 1] + |LengthExtra(lc)|)
      modifies out`pending, out`put, out`bi_buf, out`bi_valid, out.pending_buf
      ensures out.Valid()
      ensures out.Written() == old(out.Written()) + (SymbolBits(llens, LengthCode(lc) + LITERALS + 1) + LengthExtra(lc))
      ensures 8 * out.pending + out.bi_valid == old(8 * out.pending + out.bi_valid)
              + llens[LengthCode(lc) + LITERALS + 1] + |LengthExtra(lc)|
    {
      hide Spells, SpellsCode, SymbolBits, LowBits, Pow2, LengthCode, LengthExtra, BitWriter.Written, BitWriter.Valid;
      var code := LengthCode(lc);
      LengthExtraIs(lc);
      SpellsAt(ltree, llens, code + LITERALS + 1);
      SendCode(code + LITERALS + 1, ltree, llens);
      var extra := LENGTH_EXTRA[code];
      if extra != 0 {
        out.SendBits(lc - BASE_LENGTH[code], extra);
      }
    }

    // The code of a distance, one less than given in dist, and its extra bits.
    method SendDistance(dist: nat, dtree: CodeTable, ghost dlens: seq<nat>)
      requires out.Valid() && out.pending_out == 0 && Spells(dtree, dlens) && dist < 32768
      requires HasCode(dlens, DistCode(dist)) && out.Room(dlens[DistCode(dist)] + |DistExtra(dist)|)
      modifies out`pending, out`put, out`bi_buf, out`bi_valid, out.pending_buf
      ensures out.Valid()
      ensures out.Written() == old(out.Written()) + (SymbolBits(dlens, DistCode(dist)) + DistExtra(dist))
      ensures 8 * out.pending + out.bi_valid == old(8 * out.pending + out.bi_valid) + dlens[DistCode(dist)]
              + |DistExtra(dist)|
    {
      hide Spells, SpellsCode, SymbolBits, LowBits, Pow2, DistCode, DistExtra, BitWriter.Written, BitWriter.Valid;
      var code := DistCode(dist);
      DistExtraIs(dist);
      SpellsAt(dtree, dlens, code);
      SendCode(code, dtree, dlens);
      var extra := DIST_EXTRA[code];
      if extra != 0 {
        out.SendBits(dist - BASE_DIST[code], extra);
      }
    }

    // compress_block: all tallied symbols and the end-of-block code.
    method CompressBlock(ltree: CodeTable, dtree: CodeTable, ghost llens: seq<nat>, ghost dlens: seq<nat>)
      requires out.Valid() && out.pending_out == 0
      requires last_lit == |syms| && Buffered(d_buf, l_buf, lit_bufsize, syms)
      requires AllCoded(llens, dlens, syms) && HasCode(llens, END_BLOCK)
      requires Spells(ltree, llens) && Spells(dtree, dlens)
      requires out.Room(|EncodeBody(llens, dlens, syms)|)
      modifies this`last_eob_len, out`pending, out`put, out`bi_buf, out`bi_valid, out.pending_buf
      ensures out.Valid()
      ensures out.Written() == old(out.Written()) + EncodeBody(llens, dlens, syms)
      ensures 8 * out.pending + out.bi_valid == old(8 * out.pending + out.bi_valid) + |EncodeBody(llens, dlens, syms)|
      ensures last_eob_len == llens[END_BLOCK]
    {
      hide Coded, EncodeSymbol, SymbolBits, EncodeSymbols, SpellsCode, BitWriter.Written, BitWriter.Valid;
      ghost var start, used := out.Written(), 8 * out.pending + out.bi_valid;
      var lx := 0;
      assert syms[..0] == [];
      EncodeNone(llens, dlens);
      while lx < last_lit
        invariant lx <= |syms| == last_lit && out.Valid() && out.pending_out == 0
        invariant AllCoded(llens, dlens, syms[..lx])
        invariant out.Written() == start + EncodeSymbols(llens, dlens, syms[..lx])
        invariant 8 * out.pending + out.bi_valid == used + |EncodeSymbols(llens, dlens, syms[..lx])|
      {
        var hi: nat, lo: nat := d_buf[2 * lx], d_buf[2 * lx + 1];
        var dist := 256 * hi + lo;
        var lc := l_buf[lx];
        assert SymbolAt(d_buf, l_buf, lx) == syms[lx];
        EncodePrefix(llens, dlens, syms, lx);
        SendSymbol(dist, lc, ltree, dtree, llens, dlens, syms[lx]);
        lx := lx + 1;
      }
      assert syms[..lx] == syms;
      SpellsAt(ltree, llens, END_BLOCK);
      SendCode(END_BLOCK, ltree, llens);
      SpelledLength(ltree, llens, END_BLOCK);
      last_eob_len := ltree.len[END_BLOCK];
    }

    // scan_tree: counts the symbols that send_tree will send for the table, and sets its guard.
    method ScanTree(t: Tree)
      requires t != bl_desc && t.Sized() && 0 <= t.max_code < 300 && |bl_desc.fc| == HEAP_SIZE
      requires forall i :: 0 <= i <= t.max_code ==> t.dl[i] <= MAX_BITS
      modifies t`dl, bl_desc`fc
      ensures t.dl == old(t.dl)[t.max_code + 1 := GUARD]
      ensures bl_desc.fc == FreqOf(old(bl_desc.fc), RunCodes(TableSymbols(t.dl, t.max_code)))
    {
      hide FreqOf, RunCodes, Symbols, RunSymbols;
      var maxCode: nat := t.max_code;
      var nextlen := t.dl[0];
      var prevlen: int, count: nat, max_count: nat, min_count: nat := -1, 0, 7, 4;
      if nextlen == 0 {
        max_count, min_count := 138, 3;
      }
      t.dl := t.dl[maxCode + 1 := GUARD];
      var tree: seq<nat>, f: seq<nat> := t.dl, bl_desc.fc;
      ghost var all := FreqOf(f, RunCodes(TableSymbols(tree, maxCode)));
      for n := 0 to maxCode + 1
        invariant |f| == HEAP_SIZE && nextlen == tree[n] && t.dl == tree
        invariant n <= maxCode ==>
                  Run(prevlen, count, max_count, min_count) ==
                  NewRun(prevlen, nextlen).(count := count)
        invariant all == FreqOf(f, RunCodes(Symbols(tree, n, maxCode, Run(prevlen, count, max_count, min_count))))
      {
        ghost var r := Run(prevlen, count, max_count, min_count);
        var curlen := nextlen;
        nextlen := tree[n + 1];
        SymbolsStep(tree, n, maxCode, r);
        count := count + 1;
        if count < max_count && curlen == nextlen {
          continue;
        }
        RunCounted(f, curlen, count, prevlen, min_count);
        ScanStep(f, RunSymbols(curlen, count, prevlen, min_count),
                 Symbols(tree, n + 1, maxCode, NewRun(curlen, nextlen)));
        if count < min_count {
          f := f[curlen := f[curlen] + count];
        } else if curlen != 0 {
          if curlen != prevlen {
            f := Bump(f, curlen);
          }
          f := Bump(f, REP_3_6);
        } else if count <= 10 {
          f := Bump(f, REPZ_3_10);
        } else {
          f := Bump(f, REPZ_11_138);
        }
        count := 0;
        prevlen := curlen;
        if nextlen == 0 {
          max_count, min_count := 138, 3;
        } else if curlen == nextlen {
          max_count, min_count := 6, 3;
        } else {
          max_count, min_count := 7, 4;
        }
      }
      SymbolsDone(tree, maxCode + 1, maxCode, Run(prevlen, count, max_count, min_count));
      NothingCounted(f);
      bl_desc.fc := f;
    }

    // Sends one code of the bit length alphabet with its extra bits.
    method SendRun(code: nat, extra: nat, ghost clens: seq<nat>)
      requires out.Valid() && out.pending_out == 0 && RunCoded(clens, RunSymbol(code, extra))
      requires Spells(CodeTable(bl_desc.fc, bl_desc.dl), clens) && extra < Pow2(ExtraBits(code))
      requires out.Room(|EncodeRun(clens, RunSymbol(code, extra))|)
      modifies out`pending, out`put, out`bi_buf, out`bi_valid, out.pending_buf
      ensures out.Valid()
      ensures out.Written() == old(out.Written()) + EncodeRun(clens, RunSymbol(code, extra))
      ensures 8 * out.pending + out.bi_valid == old(8 * out.pending + out.bi_valid)
              + |EncodeRun(clens, RunSymbol(code, extra))|
    {
      hide Spells, SpellsCode, SymbolBits, Pow2, LowBits, BitWriter.Written, BitWriter.Valid;
      var t := CodeTable(bl_desc.fc, bl_desc.dl);
      SpellsAt(t, clens, code);
      SendCode(code, t, clens);
      NoBits(extra);
      if ExtraBits(code) != 0 {
        out.SendBits(extra, ExtraBits(code));
      }
    }

    // The branch of send_tree that sends one run.
    method SendRuns(curlen: nat, count: nat, prevlen: int, min_count: nat, ghost clens: seq<nat>)
      requires out.Valid() && out.pending_out == 0
      requires curlen <= MAX_BITS && min_count == NewRun(prevlen, curlen).minCount
               && 1 <= count <= NewRun(prevlen, curlen).maxCount
      requires Spells(CodeTable(bl_desc.fc, bl_desc.dl), clens)
      requires AllRunCoded(clens, RunSymbols(curlen, count, prevlen, min_count))
      requires out.Room(|EncodeRuns(clens, RunSymbols(curlen, count, prevlen, min_count))|)
      modifies out`pending, out`put, out`bi_buf, out`bi_valid, out.pending_buf
      ensures out.Valid()
      ensures out.Written() == old(out.Written()) + EncodeRuns(clens, RunSymbols(curlen, count, prevlen, min_count))
      ensures 8 * out.pending + out.bi_valid == old(8 * out.pending + out.bi_valid)
              + |EncodeRuns(clens, RunSymbols(curlen, count, prevlen, min_count))|
    {
      hide Spells, EncodeRun, EncodeRuns, RunCoded, Pow2, BitWriter.Written, BitWriter.Valid;
      ghost var runs := RunSymbols(curlen, count, prevlen, min_count);
      Pow2Small();
      var left := count;
      if count < min_count {
        ghost var start, total := out.Written(), EncodeRuns(clens, runs);
        ghost var used := 8 * out.pending + out.bi_valid;
        while left != 0
          invariant left <= count && AllRunCoded(clens, Copies(curlen, left)) && out.Valid() && out.pending_out == 0
          invariant out.Written() + EncodeRuns(clens, Copies(curlen, left)) == start + total
          invariant 8 * out.pending + out.bi_valid + |EncodeRuns(clens, Copies(curlen, left))| == used + |total|
        {
          CopiesSplit(clens, curlen, left);
          SendRun(curlen, 0, clens);
          left := left - 1;
        }
        assert Copies(curlen, 0) == [];
        NoRuns(clens);
      } else if curlen != 0 {
        if curlen != prevlen {
          PairSplit(clens, runs);
          SendRun(curlen, 0, clens);
          left := left - 1;
        } else {
          SingleRun(clens, runs);
        }
        SendRun(REP_3_6, left - 3, clens);
      } else if count <= 10 {
        SingleRun(clens, runs);
        SendRun(REPZ_3_10, count - 3, clens);
      } else {
        SingleRun(clens, runs);
        SendRun(REPZ_11_138, count - 11, clens);
      }
    }

    // send_tree: the table in run-length form, with the codes of the bit length tree.
    method SendTree(t: Tree, ghost clens: seq<nat>)
      requires out.Valid() && out.pending_out == 0 && t.Sized() && 0 <= t.max_code < 300
      requires forall i :: 0 <= i <= t.max_code ==> t.dl[i] <= MAX_BITS
      requires Spells(CodeTable(bl_desc.fc, bl_desc.dl), clens)
      requires AllRunCoded(clens, TableSymbols(t.dl, t.max_code))
      requires out.Room(|EncodeRuns(clens, TableSymbols(t.dl, t.max_code))|)
      modifies out`pending, out`put, out`bi_buf, out`bi_valid, out.pending_buf
      ensures out.Valid()
      ensures out.Written() == old(out.Written()) + EncodeRuns(clens, TableSymbols(t.dl, t.max_code))
      ensures 8 * out.pending + out.bi_valid == old(8 * out.pending + out.bi_valid)
              + |EncodeRuns(clens, TableSymbols(t.dl, t.max_code))|
    {
      hide Spells, EncodeRuns, AllRunCoded, Symbols, RunSymbols, BitWriter.Written, BitWriter.Valid;
      var tree, maxCode: nat := t.dl, t.max_code;
      var nextlen := tree[0];
      var prevlen: int, count: nat, max_count: nat, min_count: nat := -1, 0, 7, 4;
      if nextlen == 0 {
        max_count, min_count := 138, 3;
      }
      ghost var start, total, used := out.Written(), EncodeRuns(clens, TableSymbols(tree, maxCode)),
        8 * out.pending + out.bi_valid;
      for n := 0 to maxCode + 1
        invariant nextlen == tree[n] && out.Valid() && out.pending_out == 0
        invariant n <= maxCode ==>
                  Run(prevlen, count, max_count, min_count) ==
                  NewRun(prevlen, nextlen).(count := count) && count < max_count
        invariant AllRunCoded(clens, Symbols(tree, n, maxCode, Run(prevlen, count, max_count, min_count)))
        invariant out.Written() + EncodeRuns(clens,
                  Symbols(tree, n, maxCode, Run(prevlen, count, max_count, min_count))) == start + total
        invariant 8 * out.pending + out.bi_valid
                  + |EncodeRuns(clens, Symbols(tree, n, maxCode, Run(prevlen, count, max_count, min_count)))| == used
                  + |total|
      {
        ghost var r := Run(prevlen, count, max_count, min_count);
        var curlen := nextlen;
        nextlen := tree[n + 1];
        SymbolsStep(tree, n, maxCode, r);
        count := count + 1;
        if count < max_count && curlen == nextlen {
          continue;
        }
        SplitCoded(clens, RunSymbols(curlen, count, prevlen, min_count),
                   Symbols(tree, n + 1, maxCode, NewRun(curlen, nextlen)));
        SendRuns(curlen, count, prevlen, min_count, clens);
        count := 0;
        prevlen := curlen;
        if nextlen == 0 {
          max_count, min_count := 138, 3;
        } else if curlen == nextlen {
          max_count, min_count := 6, 3;
        } else {
          max_count, min_count := 7, 4;
        }
      }
      SymbolsDone(tree, maxCode + 1, maxCode, Run(prevlen, count, max_count, min_count));
      NoRuns(clens);
    }

    // The index in the transmission order of the last bit length code that is in use.
    method LastInUse(ghost c: nat) returns (max_blindex: nat)
      requires bl_desc.Sized() && c < BL_CODES && bl_desc.dl[c] > 0 && ORDER_RANK[c] >= 4
      ensures 4 <= max_blindex < BL_CODES && bl_desc.dl[LENGTH_ORDER[max_blindex]] != 0
      ensures forall i :: 0 <= i < BL_CODES && ORDER_RANK[i] > max_blindex ==> bl_desc.dl[i] == 0
    {
      max_blindex := BL_CODES - 1;
      OrderIsPermutation(c);
      while max_blindex >= 3
        invariant ORDER_RANK[c] <= max_blindex < BL_CODES
        invariant forall i :: 0 <= i < BL_CODES && ORDER_RANK[i] > max_blindex ==> bl_desc.dl[i] == 0
      {
        OrderIsPermutation(max_blindex);
        if bl_desc.dl[LENGTH_ORDER[max_blindex]] != 0 {
          break;
        }
        forall i | 0 <= i < BL_CODES && ORDER_RANK[i] > max_blindex - 1
          ensures bl_desc.dl[i] == 0
        {
          OrderIsPermutation(i);
        }
        max_blindex := max_blindex - 1;
      }
    }

    // build_tree on one of the trees, as the rest of the block needs it.
    method BuildFinished(t: Tree, elems: nat)
      requires t.Sized() && t.stat_desc.elems == elems
      requires |work.heap| == |work.depth| == HEAP_SIZE && |work.bl_count| == MAX_BITS + 1
      modifies t`fc, t`dl, t`max_code, work
      ensures |work.heap| == |work.depth| == HEAP_SIZE && |work.bl_count| == MAX_BITS + 1
      ensures Carries(t, elems) && Covers(old(t.fc), t.dl, t.max_code, elems)
      ensures work.opt_len == old(work.opt_len) + TotalCost(old(t.fc), t.dl, t.stat_desc)
      ensures t.stat_desc.static_tree.Some? ==>
              work.static_len == old(work.static_len) + TotalStatic(old(t.fc), t.stat_desc)
      ensures t.stat_desc.static_tree.None? ==> work.static_len == old(work.static_len)
      ensures 0 <= t.max_code < elems <= |t.dl| && t.dl[t.max_code] > 0 && WholeTable(t, elems)
      ensures Grown(old(t.fc), t.dl, t.stat_desc) && forall n :: t.max_code < n < elems ==> t.dl[n] == 0
    {
      hide Covers, Carries, HuffmanLengths, TotalCost, TotalStatic, StaticTree.Valid, Tree.Coded, Spells, Grown;
      ghost var was := t.fc;
      var overflow;
      ghost var forced, script;
      overflow, forced, script := t.BuildTree(work);
      CodedCarries(t, elems);
      CarriesShape(t, elems);
      WholeCode(t, elems);
      IsGrown(was, forced, t.dl, t.stat_desc, script, overflow);
      Covered(was, forced, t.dl, t.stat_desc, script, overflow, t.max_code);
    }

    // scan_tree on a finished tree.
    method ScanFinished(t: Tree, elems: nat)
      requires t != bl_desc && Carries(t, elems) && elems < 300 && |bl_desc.fc| == HEAP_SIZE
      modifies t`dl, bl_desc`fc
      ensures Carries(t, elems) && t.Lens() == old(t.Lens()) && Guarded(t.dl, t.max_code, elems)
      ensures bl_desc.fc == FreqOf(old(bl_desc.fc), RunCodes(TableSymbols(t.dl, t.max_code)))
    {
      hide Complete, FreqOf, Spells, StaticTree.Valid, TableSymbols, RunCodes, Guarded;
      ghost var was: seq<nat>, max: nat := t.dl, t.max_code;
      CompleteLimited(t.Lens());
      assert forall i :: 0 <= i <= max ==> was[i] == t.Lens()[i];
      ScanTree(t);
      GuardedBy(was, t.dl, max, elems);
      SameSpelling(t.fc, was, t.dl, max);
    }

    // The first half of build_bl_tree: counts the symbols of both tables.
    method ScanTables()
      requires ThreeTrees() && Carries(l_desc, 286) && Carries(d_desc, D_CODES)
      requires forall c :: 0 <= c < BL_CODES ==> bl_desc.fc[c] == 0
      modifies l_desc`dl, d_desc`dl, bl_desc`fc
      ensures ThreeTrees() && Carries(l_desc, 286) && Carries(d_desc, D_CODES)
      ensures l_desc.Lens() == old(l_desc.Lens()) && d_desc.Lens() == old(d_desc.Lens())
      ensures Guarded(l_desc.dl, l_desc.max_code, 286) && Guarded(d_desc.dl, d_desc.max_code, D_CODES)
      ensures Scanned(bl_desc.fc, l_desc.dl, l_desc.max_code, d_desc.dl, d_desc.max_code)
    {
      hide Complete, Scanned, FreqOf, Spells, StaticTree.Valid, LengthDesc, LiteralDesc, DistanceDesc, TableSymbols,
        RunCodes, Guarded;
      ghost var f0 := bl_desc.fc;
      ScanFinished(l_desc, 286);
      ScanFinished(d_desc, D_CODES);
      GuardedShape(l_desc.dl, l_desc.max_code, 286);
      GuardedShape(d_desc.dl, d_desc.max_code, D_CODES);
      ScannedBoth(f0, l_desc.dl, l_desc.max_code, d_desc.dl, d_desc.max_code);
    }

    // build_tree on the bit length tree.
    method BuildLengthTree()
      requires bl_desc.Sized() && bl_desc.stat_desc == LengthDesc()
      requires |work.heap| == |work.depth| == HEAP_SIZE && |work.bl_count| == MAX_BITS + 1
      modifies bl_desc`fc, bl_desc`dl, bl_desc`max_code, work
      ensures bl_desc.Sized() && |bl_desc.dl| == HEAP_SIZE && 0 <= bl_desc.max_code
      ensures |work.heap| == |work.depth| == HEAP_SIZE && |work.bl_count| == MAX_BITS + 1
      ensures Covers(old(bl_desc.fc), bl_desc.dl, bl_desc.max_code, BL_CODES) && Complete(bl_desc.dl[..BL_CODES])
      ensures Spells(CodeTable(bl_desc.fc, bl_desc.dl), bl_desc.dl[..BL_CODES])
      ensures forall i :: 0 <= i < BL_CODES ==> bl_desc.dl[i] < 8
      ensures LengthDesc().Valid() && work.static_len == old(work.static_len)
      ensures work.opt_len == old(work.opt_len) + TotalCost(old(bl_desc.fc), bl_desc.dl, LengthDesc())
      ensures Grown(old(bl_desc.fc), bl_desc.dl, LengthDesc())
    {
      hide Complete, Covers, TotalCost, TotalStatic, Spells, StaticTree.Valid, Carries, Grown;
      LiteralDescIs();
      BuildFinished(bl_desc, BL_CODES);
      CarriesShape(bl_desc, BL_CODES);
    }

    // The second half of build_bl_tree: the tree of the bit length alphabet, and how much of it the header has to
    // describe.
    method BuildHeader(ghost ldl: seq<nat>, ghost lmax: nat, ghost ddl: seq<nat>, ghost dmax: nat)
      returns (max_blindex: nat, ghost t: Tables)
      requires bl_desc.Sized() && bl_desc.stat_desc == LengthDesc()
      requires |work.heap| == |work.depth| == HEAP_SIZE && |work.bl_count| == MAX_BITS + 1
      requires Guarded(ldl, lmax, 286) && Guarded(ddl, dmax, D_CODES) && lmax >= END_BLOCK && ldl[END_BLOCK] > 0
      requires Scanned(bl_desc.fc, ldl, lmax, ddl, dmax)
      modifies bl_desc`fc, bl_desc`dl, bl_desc`max_code, work
      ensures bl_desc.Sized() && |work.heap| == |work.depth| == HEAP_SIZE && |work.bl_count| == MAX_BITS + 1
      ensures lmax + 1 < |ldl| && dmax + 1 < |ddl| && t == TablesOf(ldl, lmax, ddl, dmax, bl_desc.dl, max_blindex + 1)
      ensures TablesFit(t) && BestHeader(t) && Spells(CodeTable(bl_desc.fc, bl_desc.dl), t.clens)
      ensures work.opt_len == old(work.opt_len) + |TablesBits(t)| && work.static_len == old(work.static_len)
    {
      hide Complete, Scanned, Covers, TotalCost, Spells, StaticTree.Valid, LengthDesc, TablesFit, TablesBits, Guarded,
        TablesOf, Grown, BestHeader;
      GuardedShape(ldl, lmax, 286);
      GuardedShape(ddl, dmax, D_CODES);
      ghost var freq := bl_desc.fc;
      BuildLengthTree();
      ghost var bdl, bmax: nat := bl_desc.dl, bl_desc.max_code;
      ghost var late := SomeLateCode(freq, bdl, bmax, ldl, lmax, ddl, dmax);
      max_blindex := LastInUse(late);
      t := TablesOf(ldl, lmax, ddl, dmax, bdl, max_blindex + 1);
      HeaderBuilt(freq, bdl, bmax, ldl, lmax, ddl, dmax, max_blindex + 1);
      HeaderFound(freq, ldl, lmax, ddl, dmax, bdl, max_blindex + 1);
      work.opt_len := work.opt_len + 3 * (max_blindex + 1) + 5 + 5 + 4;
    }

    // build_bl_tree
    method BuildBlTree() returns (max_blindex: nat, ghost t: Tables)
      requires ThreeTrees() && Carries(l_desc, 286) && Carries(d_desc, D_CODES) && HasCode(l_desc.Lens(), END_BLOCK)
      requires forall c :: 0 <= c < BL_CODES ==> bl_desc.fc[c] == 0
      modifies l_desc`dl, d_desc`dl, bl_desc`fc, bl_desc`dl, bl_desc`max_code, work
      ensures ThreeTrees() && Carries(l_desc, 286) && Carries(d_desc, D_CODES)
      ensures l_desc.Lens() == old(l_desc.Lens()) && d_desc.Lens() == old(d_desc.Lens())
      ensures t == TablesOf(l_desc.dl, l_desc.max_code, d_desc.dl, d_desc.max_code, bl_desc.dl, max_blindex + 1)
      ensures TablesFit(t) && BestHeader(t) && Spells(CodeTable(bl_desc.fc, bl_desc.dl), t.clens)
      ensures work.opt_len == old(work.opt_len) + |TablesBits(t)| && work.static_len == old(work.static_len)
    {
      hide Scanned, Spells, StaticTree.Valid, LengthDesc, LiteralDesc, DistanceDesc, TablesFit, TablesBits, Guarded,
        TablesOf, Carries, BestHeader;
      CarriesShape(l_desc, 286);
      ScanTables();
      CarriesShape(l_desc, 286);
      CarriesShape(d_desc, D_CODES);
      GuardedShape(l_desc.dl, l_desc.max_code, 286);
      assert l_desc.dl[END_BLOCK] == l_desc.Lens()[END_BLOCK];
      max_blindex, t := BuildHeader(l_desc.dl, l_desc.max_code, d_desc.dl, d_desc.max_code);
    }

    // send_all_trees: the header of a dynamic block.
    method SendAllTrees(lcodes: nat, dcodes: nat, blcodes: nat, ghost t: Tables)
      requires out.Valid() && out.pending_out == 0 && bl_desc.Sized() && Carries(l_desc, 286)
               && Carries(d_desc, D_CODES)
      requires lcodes == l_desc.max_code + 1 && dcodes == d_desc.max_code + 1
      requires t == TablesOf(l_desc.dl, l_desc.max_code, d_desc.dl, d_desc.max_code, bl_desc.dl, blcodes)
               && TablesFit(t)
      requires Spells(CodeTable(bl_desc.fc, bl_desc.dl), t.clens) && out.Room(|TablesBits(t)|)
      modifies out`pending, out`put, out`bi_buf, out`bi_valid, out.pending_buf
      ensures out.Valid()
      ensures out.Written() == old(out.Written()) + TablesBits(t)
      ensures 8 * out.pending + out.bi_valid == old(8 * out.pending + out.bi_valid) + |TablesBits(t)|
    {
      hide TablesBits, TablesFit, EncodeRuns, OrderedBits, Pow2, LowBits, Spells, BitWriter.Written, BitWriter.Valid,
        TableSymbols, LiteralDesc, DistanceDesc, LengthDesc, StaticTree.Valid, AllRunCoded, Complete, TablesOf;
      ghost var start, used := out.Written(), 8 * out.pending + out.bi_valid;
      TablesShape(t);
      TablesOfIs(l_desc.dl, l_desc.max_code, d_desc.dl, d_desc.max_code, bl_desc.dl, blcodes);
      CarriesLimited(l_desc, 286);
      CarriesLimited(d_desc, D_CODES);
      TablesBitsAfter(start, t);
      Pow2Values();
      SendCounts(lcodes, dcodes, blcodes, t);
      NoOrdered(start + CountBits(t), t.clens);
      var rank := 0;
      while rank < blcodes
        invariant rank <= blcodes && out.Valid() && out.pending_out == 0
        invariant out.Written() == start + CountBits(t) + OrderedBits(t.clens, rank)
        invariant 8 * out.pending + out.bi_valid == used + 14 + 3 * rank
      {
        OrderedNext(start + CountBits(t), t.clens, rank);
        out.SendBits(bl_desc.dl[LENGTH_ORDER[rank]], 3);
        rank := rank + 1;
      }
      SendTree(l_desc, t.clens);
      SendTree(d_desc, t.clens);
    }

    // The three counts that open the header of a dynamic block.
    method SendCounts(lcodes: nat, dcodes: nat, blcodes: nat, ghost t: Tables)
      requires out.Valid() && out.pending_out == 0 && out.Room(14)
      requires 257 <= lcodes <= 286 && 1 <= dcodes <= 30 && 4 <= blcodes <= BL_CODES
      requires |t.llens| == lcodes && |t.dlens| == dcodes && t.blcodes == blcodes
      modifies out`pending, out`put, out`bi_buf, out`bi_valid, out.pending_buf
      ensures out.Valid()
      ensures out.Written() == old(out.Written()) + CountBits(t)
      ensures 8 * out.pending + out.bi_valid == old(8 * out.pending + out.bi_valid) + 14
    {
      hide Pow2, LowBits, BitWriter.Written, BitWriter.Valid;
      ghost var start := out.Written();
      Pow2Values();
      out.SendBits(lcodes - 257, 5);
      out.SendBits(dcodes - 1, 5);
      out.SendBits(blcodes - 4, 4);
      assert start + (LowBits(lcodes - 257, 5) + LowBits(dcodes - 1, 5) + LowBits(blcodes - 4, 4))
          == start + LowBits(lcodes - 257, 5) + LowBits(dcodes - 1, 5) + LowBits(blcodes - 4, 4);
    }

    // The first half of _tr_flush_block: all three trees, and what the block takes with each kind of code.
    method BuildTrees() returns (max_blindex: nat, ghost t: Tables)
      requires ThreeTrees() && Tallied(l_desc.fc, d_desc.fc, syms) && Clear()
      modifies l_desc`fc, l_desc`dl, l_desc`max_code, d_desc`fc, d_desc`dl, d_desc`max_code, bl_desc`fc, bl_desc`dl,
               bl_desc`max_code, work
      ensures ThreeTrees() && Carries(l_desc, 286) && Carries(d_desc, D_CODES)
      ensures t == TablesOf(l_desc.dl, l_desc.max_code, d_desc.dl, d_desc.max_code, bl_desc.dl, max_blindex + 1)
      ensures DynamicFits(t, syms) && LoneDistances(t, syms) && Spells(CodeTable(bl_desc.fc, bl_desc.dl), t.clens)
      ensures BestCodes(t, syms) && BestHeader(t)
      ensures work.opt_len == |TablesBits(t)| + |EncodeBody(t.llens, t.dlens, syms)|
      ensures AllCoded(FixedLiteralLengths(), FixedDistanceLengths(), syms) && HasCode(FixedLiteralLengths(), END_BLOCK)
      ensures work.static_len == |EncodeBody(FixedLiteralLengths(), FixedDistanceLengths(), syms)|
    {
      hide Covers, Carries, TotalCost, TotalStatic, StaticTree.Valid, Spells, LiteralDesc, DistanceDesc, LengthDesc,
        TablesFit, TablesBits, EncodeBody, FixedLiteralLengths, FixedDistanceLengths, AllCoded, HasCode, Tallied,
        TablesOf, Complete, NoMatches, Grown, Grows, BestCodes, BestHeader;
      ghost var lfc, dfc := l_desc.fc, d_desc.fc;
      LiteralDescIs();
      BuildFinished(l_desc, 286);
      BuildFinished(d_desc, D_CODES);
      CarriesShape(l_desc, 286);
      CarriesShape(d_desc, D_CODES);
      ghost var ldl, ddl, lmax: nat, dmax: nat := l_desc.dl, d_desc.dl, l_desc.max_code, d_desc.max_code;
      TreesDone(lfc, dfc, syms, ldl, ddl, lmax, dmax);
      CarriesComplete(d_desc, D_CODES);
      NoDistances(lfc, dfc, syms, ddl, dmax);
      GrownGrows(lfc, ldl, lmax + 1, LiteralDesc());
      GrownGrows(dfc, ddl, dmax + 1, DistanceDesc());
      max_blindex, t := BuildBlTree();
      CarriesShape(l_desc, 286);
      CarriesShape(d_desc, D_CODES);
      TablesOfIs(l_desc.dl, l_desc.max_code, d_desc.dl, d_desc.max_code, bl_desc.dl, max_blindex + 1);
      CarriesComplete(l_desc, 286);
      CarriesComplete(d_desc, D_CODES);
      CodesFound(t, syms, lfc, dfc);
    }

    // init_block: forgets the block that was just sent.
    method InitBlock()
      requires ThreeTrees() && |d_buf| == 2 * lit_bufsize && |l_buf| == lit_bufsize
      modifies this`last_lit, this`matches, this`syms, l_desc`fc, d_desc`fc, bl_desc`fc, work`opt_len, work`static_len
      ensures ThreeTrees() && Clear() && syms == [] && last_lit == matches == 0
      ensures Tallied(l_desc.fc, d_desc.fc, []) && Buffered(d_buf, l_buf, lit_bufsize, [])
    {
      hide LiteralDesc, DistanceDesc, LengthDesc, StaticTree.Valid, Tallied;
      var l: seq<nat>, d: seq<nat>, bl: seq<nat> := l_desc.fc, d_desc.fc, bl_desc.fc;
      for i := 0 to L_CODES
        invariant |l| == HEAP_SIZE && forall c :: 0 <= c < i ==> l[c] == 0
      {
        l := l[i := 0];
      }
      for i := 0 to D_CODES
        invariant |d| == HEAP_SIZE && forall c :: 0 <= c < i ==> d[c] == 0
      {
        d := d[i := 0];
      }
      for i := 0 to BL_CODES
        invariant |bl| == HEAP_SIZE && forall c :: 0 <= c < i ==> bl[c] == 0
      {
        bl := bl[i := 0];
      }
      l := l[END_BLOCK := 1];
      TallyNone(l, d);
      l_desc.fc, d_desc.fc, bl_desc.fc := l, d, bl;
      work.opt_len, work.static_len := 0, 0;
      last_lit, matches, syms := 0, 0, [];
    }

    // The first lines of _tr_tally: the symbol goes into the buffer.
    method BufferSymbol(dist: nat, lc: byte)
      requires last_lit == |syms| && last_lit < lit_bufsize && Buffered(d_buf, l_buf, lit_bufsize, syms)
               && dist <= 32768
      modifies this`d_buf, this`l_buf, this`last_lit
      ensures last_lit == old(last_lit) + 1
      ensures Buffered(d_buf, l_buf, lit_bufsize,
              syms + [if dist == 0 then Literal(lc) else Match(lc + MIN_MATCH, dist)])
    {
      hide Buffered;
      BufferShape(d_buf, l_buf, lit_bufsize, syms);
      BufferOne(d_buf, l_buf, lit_bufsize, syms, dist, lc);
      var hi := dist / 256 % 256;
      assert hi == dist / 256;
      d_buf := d_buf[last_lit * 2 := hi];
      d_buf := d_buf[last_lit * 2 + 1 := dist % 256];
      l_buf := l_buf[last_lit := lc];
      last_lit := last_lit + 1;
    }

    // The next ones: its codes are counted.
    method CountSymbol(dist: nat, lc: byte)
      requires l_desc != d_desc && Tallied(l_desc.fc, d_desc.fc, syms) && dist <= 32768
      modifies this`matches, l_desc`fc, d_desc`fc
      ensures Tallied(l_desc.fc, d_desc.fc, syms + [if dist == 0 then Literal(lc) else Match(lc + MIN_MATCH, dist)])
      ensures matches == old(matches) + if dist == 0 then 0 else 1
    {
      hide Tallied, LengthCode, DistCode, LitFreq, DisFreq;
      ghost var sym := if dist == 0 then Literal(lc) else Match(lc + MIN_MATCH, dist);
      TallyShape(l_desc.fc, d_desc.fc, syms);
      TallyOne(l_desc.fc, d_desc.fc, syms, sym);
      if dist == 0 {
        l_desc.fc := l_desc.fc[lc := l_desc.fc[lc] + 1];
      } else {
        matches := matches + 1;
        var code, dcode := LengthCode(lc) + LITERALS + 1, DistCode(dist - 1);
        l_desc.fc := l_desc.fc[code := l_desc.fc[code] + 1];
        d_desc.fc := d_desc.fc[dcode := d_desc.fc[dcode] + 1];
      }
    }

    // _tr_tally: one more literal or match; true when the block has to be flushed.
    method TrTally(dist: nat, lc: byte, inLength: int) returns (full: bool)
      requires Valid() && last_lit + 1 < lit_bufsize && dist <= 32768
      modifies this`d_buf, this`l_buf, this`last_lit, this`matches, this`syms, l_desc`fc, d_desc`fc
      ensures Valid()
      ensures syms == old(syms) + [if dist == 0 then Literal(lc) else Match(lc + MIN_MATCH, dist)]
      ensures last_lit == |syms| && AllSendable(syms)
      ensures full <==> last_lit + 1 == lit_bufsize || (level > 2 && WorthFlushing(syms, inLength))
    {
      hide WorthFlushing, MatchCount, LiteralDesc, DistanceDesc, LengthDesc, StaticTree.Valid, Tallied, LengthCode,
        DistCode, Buffered, BitWriter.Valid;
      ghost var sym := if dist == 0 then Literal(lc) else Match(lc + MIN_MATCH, dist);
      TallyShape(l_desc.fc, d_desc.fc, syms);
      BufferSymbol(dist, lc);
      CountSymbol(dist, lc);
      CountSnoc(syms, sym);
      syms := syms + [sym];
      TallyShape(l_desc.fc, d_desc.fc, syms);
      full := EarlyFlush(inLength);
      full := full || last_lit == lit_bufsize - 1;
    }

    // Whether the block is worth flushing early: an upper bound on its compressed length is small.
    method EarlyFlush(inLength: int) returns (early: bool)
      requires last_lit == |syms| && matches == MatchCount(syms) && Tallied(l_desc.fc, d_desc.fc, syms)
      ensures AllSendable(syms) && (early <==> level > 2 && WorthFlushing(syms, inLength))
    {
      hide Tallied, AllSendable, MatchCount, Estimate;
      TalliedEstimate(l_desc.fc, d_desc.fc, syms);
      if last_lit % 8192 != 0 || level <= 2 {
        return false;
      }
      var out_length := last_lit * 8;
      for dcode := 0 to D_CODES
        invariant out_length == OutLength(d_desc.fc, last_lit * 8, dcode)
      {
        out_length := out_length + d_desc.fc[dcode] * (5 + DIST_EXTRA[dcode]);
      }
      early := matches < last_lit / 2 && out_length / 8 < inLength / 2;
    }

    // copy_block: the bytes after their length and its complement, on a byte boundary.
    method CopyBlock(window: array<byte>, buf: nat, len: nat)
      requires out.Valid() && out.pending_out == 0 && window != out.pending_buf
      requires buf + len <= window.Length && len <= 0xffff
      requires out.Room(PadLength(out.bi_valid) + 32 + 8 * len)
      modifies this`last_eob_len, out`pending, out`put, out`bi_buf, out`bi_valid, out.pending_buf
      ensures out.Valid() && out.bi_valid == 0 && last_eob_len == 8
      ensures out.Written() == old(out.Written()) + Padding(|old(out.Written())|)
              + (LowBits(len, 16) + LowBits(0xffff - len, 16))
                               + BytesToBits(old(window[buf..buf + len]))
      ensures 8 * out.pending == old(8 * out.pending + out.bi_valid + PadLength(out.bi_valid)) + 32 + 8 * len
    {
      hide LowBits, BytesToBits, Padding, PadLength, Pow2;
      ghost var data := window[buf..buf + len];
      out.BiWindup();
      last_eob_len := 8;
      out.Aligned();
      ghost var start := out.Written();
      PutLengths(len);
      ghost var bytes := out.put;
      out.PutBytes(window, buf, len);
      BytesConcat(bytes, data);
      out.Aligned();
    }

    // The two lengths of a stored block.
    method PutLengths(len: nat)
      requires out.Valid() && out.pending_out == 0 && out.bi_valid == 0 && len <= 0xffff && out.Room(32)
      modifies out`pending, out`put, out.pending_buf
      ensures out.Valid() && out.pending == old(out.pending) + 4 && |out.put| == old(|out.put|) + 4
      ensures BytesToBits(out.put) == old(BytesToBits(out.put)) + (LowBits(len, 16) + LowBits(0xffff - len, 16))
    {
      hide LowBits, BytesToBits, Pow2;
      ghost var start := BytesToBits(out.put);
      out.PutShort(len);
      out.PutShort(0xffff - len);
      Regroup(start, LowBits(len, 16), LowBits(0xffff - len, 16), LowBits(len, 16) + LowBits(0xffff - len, 16), []);
    }

    // _tr_stored_block: the bytes of the block as they are.
    method TrStoredBlock(window: array<byte>, buf: nat, stored_len: nat, eof: bool)
      requires out.Valid() && out.pending_out == 0 && window != out.pending_buf
      requires buf + stored_len <= window.Length && stored_len <= 0xffff
      requires out.Room(3 + PadLength(out.bi_valid + 3) + 32 + 8 * stored_len)
      modifies this`last_eob_len, out`pending, out`put, out`bi_buf, out`bi_valid, out.pending_buf
      ensures out.Valid() && out.bi_valid == 0 && last_eob_len == 8
      ensures out.Written() == old(out.Written())
              + StoredBits(|old(out.Written())|, old(window[buf..buf + stored_len]), eof)
      ensures 8 * out.pending == old(8 * out.pending + out.bi_valid + PadLength(out.bi_valid + 3)) + 35 + 8 * stored_len
    {
      hide LowBits, BytesToBits, Padding, PadLength, Pow2, BitWriter.Written, BitWriter.Valid;
      ghost var start, data := out.Written(), window[buf..buf + stored_len];
      var kind := 2 * STORED_BLOCK + (if eof then 1 else 0);
      Pow2Values();
      out.SendBits(kind, 3);
      SamePad(out.pending, out.bi_valid, old(8 * out.pending + out.bi_valid), old(out.pending), old(out.bi_valid));
      CopyBlock(window, buf, stored_len);
      StoredAssembled(start, data, eof, LowBits(kind, 3), Padding(|start| + 3),
                      LowBits(stored_len, 16) + LowBits(0xffff - stored_len, 16));
    }

    // The static branch of _tr_flush_block sends exactly 3 + static_len bits.
    method SendStatic(eof: bool)
      requires out.Valid() && out.pending_out == 0 && last_lit == |syms| && Buffered(d_buf, l_buf, lit_bufsize, syms)
      requires StaticLengthIs(work.static_len, syms) && out.Room(3 + work.static_len)
      modifies this`last_eob_len, out`pending, out`put, out`bi_buf, out`bi_valid, out.pending_buf
      ensures out.Valid()
      ensures out.Written() == old(out.Written()) + StaticBits(syms, eof)
      ensures 8 * out.pending + out.bi_valid == old(8 * out.pending + out.bi_valid) + 3 + work.static_len
      ensures last_eob_len == 7
    {
      hide Buffered, AllCoded, HasCode, FixedLiteralLengths, FixedDistanceLengths, EncodeBody, Spells, LowBits, Pow2,
        BitWriter.Written, BitWriter.Valid, LiteralDesc, DistanceDesc;
      ghost var start, body := out.Written(), EncodeBody(FixedLiteralLengths(), FixedDistanceLengths(), syms);
      var kind := 2 * STATIC_TREES + (if eof then 1 else 0);
      Pow2Values();
      LiteralDescIs();
      FixedSpell();
      FixedAt(END_BLOCK);
      out.SendBits(kind, 3);
      CompressBlock(LiteralDesc().static_tree.value, DistanceDesc().static_tree.value, FixedLiteralLengths(),
                    FixedDistanceLengths());
      Regroup(start, LowBits(kind, 3), body, StaticBits(syms, eof), []);
    }

    // send_all_trees with the trees of the block.
    method SendHeader(max_blindex: nat, ghost t: Tables)
      requires out.Valid() && out.pending_out == 0 && Built(max_blindex, t) && out.Room(|TablesBits(t)|)
      modifies out`pending, out`put, out`bi_buf, out`bi_valid, out.pending_buf
      ensures out.Valid() && out.Written() == old(out.Written()) + TablesBits(t)
      ensures Pending() == old(Pending()) + |TablesBits(t)|
    {
      hide AllCoded, HasCode, EncodeBody, Spells, BitWriter.Written, BitWriter.Valid, LiteralDesc, DistanceDesc,
        LengthDesc, StaticTree.Valid, TablesFit, TablesBits, Carries, TablesOf, Complete, StaticLengthIs, BestCodes,
        BestHeader, LoneDistances;
      CarriesShape(l_desc, 286);
      CarriesShape(d_desc, D_CODES);
      SendAllTrees(l_desc.max_code + 1, d_desc.max_code + 1, max_blindex + 1, t);
    }

    // compress_block with the trees of the block.
    method SendBody(max_blindex: nat, ghost t: Tables)
      requires out.Valid() && out.pending_out == 0 && last_lit == |syms| && Buffered(d_buf, l_buf, lit_bufsize, syms)
      requires Built(max_blindex, t) && out.Room(|EncodeBody(t.llens, t.dlens, syms)|)
      modifies this`last_eob_len, out`pending, out`put, out`bi_buf, out`bi_valid, out.pending_buf
      ensures out.Valid() && out.Written() == old(out.Written()) + EncodeBody(t.llens, t.dlens, syms)
      ensures Pending() == old(Pending()) + |EncodeBody(t.llens, t.dlens, syms)|
      ensures END_BLOCK < |t.llens| && last_eob_len == t.llens[END_BLOCK]
    {
      hide Buffered, AllCoded, HasCode, EncodeBody, Spells, BitWriter.Written, BitWriter.Valid, LiteralDesc,
        DistanceDesc, LengthDesc, StaticTree.Valid, TablesFit, TablesBits, Carries, TablesOf, Complete, StaticLengthIs,
        BestCodes, BestHeader, LoneDistances;
      CarriesShape(l_desc, 286);
      CarriesShape(d_desc, D_CODES);
      CarriesComplete(l_desc, 286);
      CarriesComplete(d_desc, D_CODES);
      TablesOfIs(l_desc.dl, l_desc.max_code, d_desc.dl, d_desc.max_code, bl_desc.dl, max_blindex + 1);
      BuiltEnd(max_blindex, t);
      CompressBlock(CodeTable(l_desc.fc, l_desc.dl), CodeTable(d_desc.fc, d_desc.dl), t.llens, t.dlens);
    }

    lemma BuiltFits(max_blindex: nat, t: Tables)
      requires Built(max_blindex, t)
      ensures DynamicFits(t, syms) && TablesFit(t) && AllCoded(t.llens, t.dlens, syms) && HasCode(t.llens, END_BLOCK)
      ensures work.opt_len == |TablesBits(t)| + |EncodeBody(t.llens, t.dlens, syms)|
    {
      hide TablesFit, TablesBits, AllCoded, HasCode, EncodeBody, Complete, Carries, TablesOf, StaticLengthIs, BestCodes,
        BestHeader;
    }

    lemma BuiltEnd(max_blindex: nat, t: Tables)
      requires Built(max_blindex, t)
      ensures END_BLOCK < |t.llens|
    {
      hide Built;
      BuiltFits(max_blindex, t);
    }

    // The dynamic branch of _tr_flush_block sends exactly 3 + opt_len bits.
    method SendDynamic(eof: bool, max_blindex: nat, ghost t: Tables)
      requires out.Valid() && out.pending_out == 0 && last_lit == |syms| && Buffered(d_buf, l_buf, lit_bufsize, syms)
      requires Built(max_blindex, t) && out.Room(3 + work.opt_len)
      modifies this`last_eob_len, out`pending, out`put, out`bi_buf, out`bi_valid, out.pending_buf
      ensures out.Valid()
      ensures out.Written() == old(out.Written()) + DynamicBits(t, syms, eof)
      ensures Pending() == old(Pending()) + 3 + work.opt_len
      ensures END_BLOCK < |t.llens| && last_eob_len == t.llens[END_BLOCK]
    {
      hide Buffered, AllCoded, HasCode, EncodeBody, LowBits, Pow2, BitWriter.Written, BitWriter.Valid, TablesFit,
        TablesBits, DynamicFits, Built;
      BuiltFits(max_blindex, t);
      ghost var start, body := out.Written(), EncodeBody(t.llens, t.dlens, syms);
      var kind := 2 * DYN_TREES + (if eof then 1 else 0);
      Pow2Values();
      out.SendBits(kind, 3);
      SendHeader(max_blindex, t);
      SendBody(max_blindex, t);
      FourParts(start, LowBits(kind, 3), TablesBits(t), body);
    }

    // How many bits are pending.
    ghost function Pending(): int
      reads out`pending, out`bi_valid
    {
      8 * out.pending + out.bi_valid
    }

    // So many bits were sent for the block, when held were waiting before.
    ghost predicate Sent(stored_len: nat, buf: int, held: nat, sent: int)
      reads work
    {
      work.opt_len >= 0 && work.static_len >= 0
        && WellChosen(stored_len, buf, work.opt_len, work.static_len, held, sent)
    }

    // static_len is the size of the body with the fixed codes.
    ghost predicate StaticLengthIs(n: int, syms: seq<Symbol>) {
      && AllCoded(FixedLiteralLengths(), FixedDistanceLengths(), syms) && HasCode(FixedLiteralLengths(), END_BLOCK)
      && n == |EncodeBody(FixedLiteralLengths(), FixedDistanceLengths(), syms)|
    }

    // The trees are built: t is the header, and opt_len and static_len are the sizes of the two compressed forms.
    ghost predicate Built(max_blindex: nat, t: Tables)
      reads this`syms, l_desc, d_desc, bl_desc, work
    {
      && ThreeTrees() && Carries(l_desc, 286) && Carries(d_desc, D_CODES)
      && t == TablesOf(l_desc.dl, l_desc.max_code, d_desc.dl, d_desc.max_code, bl_desc.dl, max_blindex + 1)
      && DynamicFits(t, syms) && LoneDistances(t, syms) && BestCodes(t, syms) && BestHeader(t)
      && Spells(CodeTable(bl_desc.fc, bl_desc.dl), t.clens)
      && work.opt_len == |TablesBits(t)| + |EncodeBody(t.llens, t.dlens, syms)|
      && StaticLengthIs(work.static_len, syms)
    }

    // The two compressed branches of _tr_flush_block.
    method SendCoded(fixed: bool, eof: bool, max_blindex: nat, ghost t: Tables, ghost hist: seq<byte>,
                     ghost data: seq<byte>)
      requires out.Valid() && out.pending_out == 0 && last_lit == |syms| && Buffered(d_buf, l_buf, lit_bufsize, syms)
      requires Expand(hist, syms) == Some(hist + data) && Built(max_blindex, t)
      requires out.Room(3 + (if fixed then work.static_len else work.opt_len))
      modifies this`last_eob_len, out`pending, out`put, out`bi_buf, out`bi_valid, out.pending_buf
      ensures out.Valid() && Ends(old(out.Written()), out.Written(), hist, hist + data, eof, Compressed(syms))
      ensures Pending() == old(Pending()) + 3 + (if fixed then work.static_len else work.opt_len)
      ensures END_BLOCK < |t.llens| && last_eob_len == if fixed then 7 else t.llens[END_BLOCK]
    {
      hide Buffered, Tallied, Expand, AllCoded, HasCode, FixedLiteralLengths, FixedDistanceLengths, EncodeBody, Spells,
        BitWriter.Written, LiteralDesc, DistanceDesc, LengthDesc, StaticTree.Valid, TablesBits, TablesOf, Ends,
        DynamicFits, StaticBits, DynamicBits, Carries, ThreeTrees;
      ghost var was := out.Written();
      BuiltEnd(max_blindex, t);
      if fixed {
        SendStatic(eof);
        AppendStatic(was, syms, eof, hist, hist + data);
      } else {
        SendDynamic(eof, max_blindex, t);
        AppendDynamic(was, t, syms, eof, hist, hist + data);
      }
    }

    lemma BufferedNow()
      requires Tally()
      ensures last_lit == |syms| < lit_bufsize && Buffered(d_buf, l_buf, lit_bufsize, syms)
    {
      hide Buffered, Tallied;
    }

    // The first half of _tr_flush_block: the sizes in bytes of the two compressed forms, the smaller one as opt_lenb.
    method Sizes(stored_len: nat) returns (opt_lenb: nat, static_lenb: nat, max_blindex: nat, ghost t: Tables)
      requires Valid()
      modifies l_desc`fc, l_desc`dl, l_desc`max_code, d_desc`fc, d_desc`dl, d_desc`max_code, bl_desc`fc, bl_desc`dl,
               bl_desc`max_code, work
      ensures Shape() && (level == 0 ==> opt_lenb == static_lenb == stored_len + 5)
      ensures level > 0 ==>
                && Built(max_blindex, t) && work.opt_len >= 0 && 0 <= work.static_len <= 31 * |syms| + 7
                && static_lenb == (work.static_len + 10) / 8 && opt_lenb == Min((work.opt_len + 10) / 8, static_lenb)
    {
      hide Buffered, Tallied, AllCoded, HasCode, FixedLiteralLengths, FixedDistanceLengths, EncodeBody, Spells,
        BitWriter.Written, LiteralDesc, DistanceDesc, LengthDesc, StaticTree.Valid, TablesBits, TablesOf, DynamicFits,
        Carries;
      max_blindex := 0;
      opt_lenb, static_lenb := stored_len + 5, stored_len + 5;
      if level > 0 {
        max_blindex, t := BuildTrees();
        StaticFits(syms);
        opt_lenb, static_lenb := (work.opt_len + 3 + 7) / 8, (work.static_len + 3 + 7) / 8;
        if static_lenb <= opt_lenb {
          opt_lenb := static_lenb;
        }
      } else {
        t := *;
      }
    }

    // The stored branch of _tr_flush_block.
    method SendStored(window: array<byte>, buf: nat, stored_len: nat, eof: bool, ghost hist: seq<byte>,
                      ghost data: seq<byte>)
      requires out.Valid() && out.pending_out == 0 && window != out.pending_buf && stored_len <= 0xffff
      requires buf + stored_len <= window.Length && window[buf..buf + stored_len] == data
      requires out.Room(StoredSize(stored_len, out.bi_valid))
      modifies this`last_eob_len, out`pending, out`put, out`bi_buf, out`bi_valid, out.pending_buf
      ensures out.Valid() && out.bi_valid == 0 && last_eob_len == 8
      ensures Ends(old(out.Written()), out.Written(), hist, hist + data, eof, Copied(stored_len))
      ensures Pending() == old(Pending()) + StoredSize(stored_len, old(out.bi_valid))
    {
      hide BitWriter.Written, Ends, StoredBits, PadLength;
      ghost var was := out.Written();
      TrStoredBlock(window, buf, stored_len, eof);
      EndsStored(was, data, eof, hist);
    }

    // The second half: the stored form if its bytes and four more are no more than opt_lenb, or else a compressed one.
    method SendForm(window: array<byte>, buf: int, stored_len: nat, eof: bool, opt_lenb: nat, static_lenb: nat,
                    max_blindex: nat, ghost t: Tables, ghost hist: seq<byte>, ghost data: seq<byte>)
      returns (ghost content: Content)
      requires out.Valid() && out.pending == 0 && out.pending_out == 0 && window != out.pending_buf
      requires lit_bufsize >= 128 && out.pending_buf.Length == 4 * lit_bufsize
      requires last_lit == |syms| < lit_bufsize && Buffered(d_buf, l_buf, lit_bufsize, syms)
      requires Flushable(window, buf, stored_len, hist, data)
      requires level == 0 ==> opt_lenb == static_lenb == stored_len + 5
      requires level > 0 ==>
                 && Built(max_blindex, t) && work.opt_len >= 0 && 0 <= work.static_len <= 31 * |syms| + 7
                 && static_lenb == (work.static_len + 10) / 8 && opt_lenb == Min((work.opt_len + 10) / 8, static_lenb)
      modifies this`last_eob_len, out`pending, out`put, out`bi_buf, out`bi_valid, out.pending_buf
      ensures out.Valid() && out.Room(0) && (level == 0 ==> out.bi_valid == 0)
      ensures Ends(old(out.Written()), out.Written(), hist, hist + data, eof, content)
      ensures level == 0 ==> content == Copied(stored_len)
                             && Pending() - old(Pending()) == StoredSize(stored_len, old(out.bi_valid))
      ensures content == if buf != -1 && stored_len + 4 <= opt_lenb then Copied(stored_len) else Compressed(syms)
      ensures last_eob_len == if content.Copied? then 8 else if static_lenb == opt_lenb then 7
                              else if END_BLOCK < |t.llens| then t.llens[END_BLOCK] else 0
      ensures level > 0 ==> Sent(stored_len, buf, old(out.bi_valid), Pending() - old(Pending()))
    {
      hide Buffered, Tallied, Expand, AllCoded, HasCode, FixedLiteralLengths, FixedDistanceLengths, EncodeBody, Spells,
        BitWriter.Written, LiteralDesc, DistanceDesc, LengthDesc, StaticTree.Valid, TablesBits, TablesOf, Ends,
        DynamicFits, StoredBits, StaticBits, DynamicBits, Carries, WellChosen, Built, Tally, Clear, ThreeTrees,
        PadLength;
      ghost var before, held := Pending(), out.bi_valid;
      if stored_len + 4 <= opt_lenb && buf != -1 {
        SendStored(window, buf, stored_len, eof, hist, data);
        content := Copied(stored_len);
        if level > 0 {
          StoredChosen(stored_len, buf, work.opt_len, work.static_len, held, Pending() - before);
        }
      } else {
        SendCoded(static_lenb == opt_lenb, eof, max_blindex, t, hist, data);
        content := Compressed(syms);
        CodedChosen(stored_len, buf, work.opt_len, work.static_len, held, Pending() - before);
      }
    }

    // Sends the block in the form that _tr_flush_block prefers by the true sizes of all three.
    method SendBest(window: array<byte>, buf: int, stored_len: nat, eof: bool, ghost hist: seq<byte>,
                    ghost data: seq<byte>) returns (ghost content: Content)
      requires Valid() && out.pending == 0 && window != out.pending_buf
      requires Flushable(window, buf, stored_len, hist, data)
      modifies this`last_eob_len, l_desc`fc, l_desc`dl, l_desc`max_code, d_desc`fc, d_desc`dl, d_desc`max_code,
               bl_desc`fc, bl_desc`dl, bl_desc`max_code, work, out`pending, out`put, out`bi_buf, out`bi_valid,
               out.pending_buf
      ensures Shape() && out.pending_out == 0 && out.Room(0)
      ensures Ends(old(out.Written()), out.Written(), hist, hist + data, eof, content)
      ensures level == 0 ==> out.bi_valid == 0
      ensures level == 0 ==> content == Copied(stored_len)
                             && Pending() - old(Pending()) == StoredSize(stored_len, old(out.bi_valid))
      ensures level > 0 ==>
                Chosen(syms, buf != -1, stored_len, old(out.bi_valid), content, Pending() - old(Pending()))
      ensures level > 0 ==> exists max_blindex: nat, t :: Built(max_blindex, t)
      ensures content.Copied? ==> last_eob_len == 8
      ensures level > 0 ==> Sent(stored_len, buf, old(out.bi_valid), Pending() - old(Pending()))
    {
      hide Buffered, Tallied, Expand, AllCoded, HasCode, FixedLiteralLengths, FixedDistanceLengths, EncodeBody, Spells,
        BitWriter.Written, LiteralDesc, DistanceDesc, LengthDesc, StaticTree.Valid, TablesBits, TablesOf, Ends,
        DynamicFits, StoredBits, StaticBits, DynamicBits, Carries, WellChosen, Chosen, Sent, Built, Tally, Clear,
        ThreeTrees, PadLength;
      BufferedNow();
      var opt_lenb, static_lenb, max_blindex, t := Sizes(stored_len);
      ghost var before, held := Pending(), out.bi_valid;
      content := SendForm(window, buf, stored_len, eof, opt_lenb, static_lenb, max_blindex, t, hist, data);
      if level > 0 {
        assert Built(max_blindex, t);
        BuiltChosen(max_blindex, t, stored_len, buf, held, content, Pending() - before);
      }
    }

    lemma BuiltChosen(max_blindex: nat, t: Tables, stored_len: nat, buf: int, held: nat, content: Content, sent: int)
      requires Built(max_blindex, t) && Sent(stored_len, buf, held, sent) && buf >= -1
      requires content == if buf != -1 && stored_len + 4 <= BestBytes(work.opt_len, work.static_len)
                          then Copied(stored_len) else Compressed(syms)
      ensures Chosen(syms, buf != -1, stored_len, held, content, sent)
    {
      hide TablesFit, TablesBits, AllCoded, HasCode, EncodeBody, Complete, Carries, TablesOf, ThreeTrees, DynamicFits,
        LoneDistances, BestCodes, BestHeader, Spells, FixedLiteralLengths, FixedDistanceLengths, StoredSize, CodedSize,
        BestBytes;
      assert ChosenWith(t, syms, buf != -1, stored_len, held, content, sent);
    }

    lemma TallyRoom()
      requires Valid()
      ensures last_lit == |syms|
    {
      hide ThreeTrees, Buffered, Tallied, Clear, BitWriter.Valid;
    }

    // Bytes that all go out as literals.
    method TallyBytes(window: array<byte>)
      requires Valid() && syms == [] && window.Length < lit_bufsize
      modifies this`d_buf, this`l_buf, this`last_lit, this`matches, this`syms, l_desc`fc, d_desc`fc
      ensures Valid() && syms == Literals(window[..])
    {
      hide Valid;
      ghost var bs := window[..];
      for k := 0 to window.Length
        invariant Valid() && syms == Literals(bs[..k])
      {
        TallyRoom();
        assert Literals(bs[..k + 1]) == Literals(bs[..k]) + [Literal(bs[k])];
        var full := TrTally(0, window[k], k);
      }
      assert bs[..|bs|] == bs;
    }

    // What is sent for the fifteen literals of which the comparison is wrong.
    lemma FifteenSent(bs: seq<byte>, sent: int)
      requires |bs| == 15 && (forall i :: 0 <= i < 15 ==> bs[i] == 144 + i) && syms == Literals(bs)
      requires exists max_blindex: nat, t :: Built(max_blindex, t)
      requires Sent(15, 0, 0, sent)
      ensures sent == 160 && work.static_len == 142
    {
      hide Carries, ThreeTrees, TablesOf, DynamicFits, TablesBits, EncodeBody, FixedLiteralLengths,
        FixedDistanceLengths, WellChosen, AllCoded, HasCode, TablesFit, Spells, LoneDistances, BestCodes, BestHeader;
      var max_blindex: nat, t :| Built(max_blindex, t);
      FifteenLiterals(bs, t, sent);
      HighLiterals(bs);
    }

    method SendFifteen(window: array<byte>) returns (sent: nat, fixed: nat)
      requires Valid() && level > 0 && out.pending == 0 && out.bi_valid == 0 && window != out.pending_buf
      requires window.Length == 15 && syms == Literals(window[..])
      requires forall i :: 0 <= i < 15 ==> window[i] == 144 + i
      modifies this`last_eob_len, l_desc`fc, l_desc`dl, l_desc`max_code, d_desc`fc, d_desc`dl, d_desc`max_code,
               bl_desc`fc, bl_desc`dl, bl_desc`max_code, work, out`pending, out`put, out`bi_buf, out`bi_valid,
               out.pending_buf
      ensures sent == 160 && fixed == 145
    {
      hide Valid, Built, Sent, Chosen, BitWriter.Written, Ends, Expand, Literals, Shape;
      ghost var bs := window[..];
      assert window[0..15] == bs && [] + bs == bs;
      LiteralsExpand([], bs);
      ghost var _ := SendBest(window, 0, 15, true, [], bs);
      FifteenSent(bs, Pending());
      sent, fixed := 8 * out.pending + out.bi_valid, 3 + work.static_len;
    }

    // The size of what SendBest sends, as the decoder will find it.
    method SendMeasured(window: array<byte>, buf: int, stored_len: nat, eof: bool, ghost hist: seq<byte>,
                        ghost data: seq<byte>) returns (ghost content: Content)
      requires Valid() && out.pending == 0 && window != out.pending_buf
      requires Flushable(window, buf, stored_len, hist, data)
      modifies this`last_eob_len, l_desc`fc, l_desc`dl, l_desc`max_code, d_desc`fc, d_desc`dl, d_desc`max_code,
               bl_desc`fc, bl_desc`dl, bl_desc`max_code, work, out`pending, out`put, out`bi_buf, out`bi_valid,
               out.pending_buf
      ensures Shape() && out.pending_out == 0 && out.Room(0)
      ensures Ends(old(out.Written()), out.Written(), hist, hist + data, eof, content)
      ensures level == 0 ==> out.bi_valid == 0
      ensures var from, size := |old(out.Written())|, |out.Written()| - |old(out.Written())|;
              && (level == 0 ==> content == Copied(stored_len) && size == StoredSize(stored_len, from))
              && (level > 0 ==> Chosen(syms, buf != -1, stored_len, from, content, size))
      ensures content.Copied? ==> last_eob_len == 8
    {
      hide Buffered, Tallied, Expand, LiteralDesc, DistanceDesc, LengthDesc, StaticTree.Valid, Ends, Flushable, Tally,
        Clear, ThreeTrees, BitWriter.Written, BitWriter.Valid, Padding, Chosen, StoredSize, Sent, Built;
      ghost var before, held, from := Pending(), out.bi_valid, |out.Written()|;
      out.WrittenLength();
      content := SendBest(window, buf, stored_len, eof, hist, data);
      out.WrittenLength();
      SameBit(held, from);
      if level > 0 {
        ChosenAnywhere(syms, buf != -1, stored_len, held, from, content, Pending() - before);
      }
    }

    // _tr_flush_block: the decoder reads the block back as the bytes it stands for, whatever the encoding.
    method TrFlushBlock(window: array<byte>, buf: int, stored_len: nat, eof: bool, ghost hist: seq<byte>,
                        ghost data: seq<byte>) returns (ghost end: nat, ghost content: Content)
      requires Valid() && out.pending == 0 && window != out.pending_buf
      requires Flushable(window, buf, stored_len, hist, data)
      modifies this`last_eob_len, this`last_lit, this`matches, this`syms, l_desc`fc, l_desc`dl, l_desc`max_code,
               d_desc`fc, d_desc`dl, d_desc`max_code, bl_desc`fc, bl_desc`dl, bl_desc`max_code, work, out`pending,
               out`put, out`bi_buf, out`bi_valid, out.pending_buf
      ensures Valid() && syms == [] && out.pending_out == 0
      ensures Appended(old(out.Written()), out.Written(), hist, hist + data, eof, content, end)
      ensures level == 0 || eof ==> out.bi_valid == 0
      ensures var from := |old(out.Written())|;
              && (level == 0 ==> content == Copied(stored_len) && end - from == StoredSize(stored_len, from))
              && (level > 0 ==> Chosen(old(syms), buf != -1, stored_len, from, content, end - from))
      ensures content.Copied? ==> last_eob_len == 8
    {
      hide Buffered, Tallied, Expand, LiteralDesc, DistanceDesc, LengthDesc, StaticTree.Valid, Appended, Flushable,
        BitWriter.Written, Padding, Chosen, StoredSize;
      ghost var was := out.Written();
      BufferShape(d_buf, l_buf, lit_bufsize, syms);
      content := SendMeasured(window, buf, stored_len, eof, hist, data);
      ghost var sent := out.Written();
      end := |sent|;
      InitBlock();
      if eof {
        out.PadFits();
        out.BiWindup();
      } else {
        assert sent + [] == sent;
      }
    }

    // One empty static block.
    method SendEmptyBlock(ghost hist: seq<byte>)
      requires out.Valid() && out.pending_out == 0 && out.Room(10)
      modifies out`pending, out`put, out`bi_buf, out`bi_valid, out.pending_buf
      ensures out.Valid() && out.bi_valid < 8
      ensures 8 * out.pending + out.bi_valid == old(8 * out.pending + out.bi_valid) + 10
      ensures Appended(old(out.Written()), out.Written(), hist, hist, false, Compressed([]), |out.Written()|)
      ensures |out.Written()| == |old(out.Written())| + 10
    {
      hide FixedLiteralLengths, FixedDistanceLengths, LiteralDesc, LowBits, Pow2, BitWriter.Written, BitWriter.Valid,
        Appended, Spells, StaticBits, SymbolBits;
      ghost var was := out.Written();
      out.WrittenLength();
      Pow2Values();
      FixedCoded([]);
      FixedAt(END_BLOCK);
      FixedSpell();
      LiteralDescIs();
      SpellsAt(LiteralDesc().static_tree.value, FixedLiteralLengths(), END_BLOCK);
      out.SendBits(2 * STATIC_TREES, 3);
      SendCode(END_BLOCK, LiteralDesc().static_tree.value, FixedLiteralLengths());
      EmptyBlock(was, hist);
      out.WrittenLength();
      out.BiFlush();
    }

    // _tr_align: one or two empty static blocks, which add nothing to the output. mid is what was written after the
    // first.
    method TrAlign(ghost hist: seq<byte>) returns (two: bool, ghost mid: seq<bool>)
      requires Valid() && out.pending == 0
      modifies this`last_eob_len, out`pending, out`put, out`bi_buf, out`bi_valid, out.pending_buf
      ensures Valid() && out.pending_out == 0
      ensures Appended(old(out.Written()), mid, hist, hist, false, Compressed([]), |mid|)
              && |mid| == |old(out.Written())| + 10
      ensures if two then Appended(mid, out.Written(), hist, hist, false, Compressed([]), |out.Written()|)
                          && |out.Written()| == |mid| + 10
              else mid == out.Written()
      ensures old(out.bi_valid) == 0 ==> !two && out.bi_valid == 2
      ensures (two <==> 1 + old(last_eob_len) + 10 - |mid| % 8 < 9) && last_eob_len == 7
    {
      hide BitWriter.Written, Appended, ThreeTrees, Tally, Clear;
      SendEmptyBlock(hist);
      mid := out.Written();
      out.WrittenLength();
      two := 1 + last_eob_len + 10 - out.bi_valid < 9;
      if two {
        SendEmptyBlock(hist);
      }
      last_eob_len := 7;
    }

    // _tr_stored_block(0, 0, false): the empty stored block that marks a flush.
    method StoredMarker(window: array<byte>, ghost hist: seq<byte>)
      requires Valid() && out.pending == 0 && window != out.pending_buf
      modifies this`last_eob_len, out`pending, out`put, out`bi_buf, out`bi_valid, out.pending_buf
      ensures Valid() && out.pending_out == 0 && out.bi_valid == 0
      ensures Appended(old(out.Written()), out.Written(), hist, hist, false, Copied(0), |out.Written()|)
      ensures |out.Written()| == |old(out.Written())| + StoredSize(0, |old(out.Written())|)
    {
      hide BitWriter.Written, Appended, ThreeTrees, Tally, Clear, StoredBits, PadLength;
      ghost var was := out.Written();
      out.WrittenLength();
      SameBit(out.bi_valid, |was|);
      TrStoredBlock(window, 0, 0, false);
      AppendStored(was, [], false, hist);
      out.WrittenLength();
      assert hist + [] == hist;
    }
  }

  // The comparison at work: fifteen different bytes from 144 on as the only block of a stream are sent as 160 stored
  // bits, although the static form takes 145.
  method LongerForm(level: nat, lit_bufsize: nat) returns (sent: nat, fixed: nat)
    requires level > 0 && lit_bufsize >= 128
    ensures sent == 160 && fixed == 145
  {
    hide *;
    var window := new byte[15](i requires 0 <= i < 15 => 144 + i);
    var coder := new BlockCoder(level, lit_bufsize);
    coder.TallyBytes(window);
    sent, fixed := coder.SendFifteen(window);
  }
}
