/** What building the three trees of a block establishes: the header describes them,
    and the accounts are the exact number of bits the block takes. */
module BlockSizes {
  import opened Prelude
  import opened Bits
  import opened Inflate
  import opened Canonical
  import opened Heaps
  import opened TreeCosts
  import opened LeafHeap
  import opened TreeLimits
  import opened RunLength
  import opened Codes
  import opened BlockCoding
  import opened BlockFormat
  import opened Frequencies
  import opened TableFacts
  import opened DynamicBound

  const GUARD: nat := 0xffff

  // The frequencies in the literal and distance trees are those of the tallied symbols.
  ghost predicate Tallied(lfc: seq<nat>, dfc: seq<nat>, syms: seq<Symbol>) {
    && |lfc| == |dfc| == HEAP_SIZE && AllSendable(syms)
    && (forall c :: 0 <= c < 286 ==> lfc[c] == LitFreq(syms)[c])
    && (forall c :: 0 <= c < D_CODES ==> dfc[c] == DisFreq(syms)[c])
  }

  lemma TallyOne(lfc: seq<nat>, dfc: seq<nat>, syms: seq<Symbol>, sym: Symbol)
    requires Tallied(lfc, dfc, syms) && Sendable(sym)
    ensures Tallied(Bump(lfc, LitCode(sym)), if sym.Match? then Bump(dfc, DisCode(sym)) else dfc, syms + [sym])
  {
    hide LitFreq, DisFreq, LitCode, DisCode;
    TallySnoc(syms, sym);
  }

  lemma TallyShape(lfc: seq<nat>, dfc: seq<nat>, syms: seq<Symbol>)
    requires Tallied(lfc, dfc, syms)
    ensures |lfc| == |dfc| == HEAP_SIZE && AllSendable(syms)
  {
  }

  lemma TallyNone(lfc: seq<nat>, dfc: seq<nat>)
    requires |lfc| == |dfc| == HEAP_SIZE
    requires forall c :: 0 <= c < 286 ==> lfc[c] == if c == END_BLOCK then 1 else 0
    requires forall c :: 0 <= c < D_CODES ==> dfc[c] == 0
    ensures Tallied(lfc, dfc, [])
  {
  }

  // ---- what the accounts are worth ----

  // The literal and distance trees account for exactly the bits of the body of the block.
  lemma BodySize(lfc: seq<nat>, dfc: seq<nat>, syms: seq<Symbol>, ldl: seq<nat>, ddl: seq<nat>, lmax: nat, dmax: nat)
    requires Tallied(lfc, dfc, syms) && |ldl| == |ddl| == HEAP_SIZE && END_BLOCK <= lmax < 286 && dmax < D_CODES
    requires AllCoded(ldl[..lmax + 1], ddl[..dmax + 1], syms) && HasCode(ldl[..lmax + 1], END_BLOCK)
    requires LiteralDesc().Valid() && DistanceDesc().Valid()
    ensures |EncodeBody(ldl[..lmax + 1], ddl[..dmax + 1], syms)|
         == TotalCost(lfc, ldl, LiteralDesc()) + TotalCost(dfc, ddl, DistanceDesc())
  {
    hide LiteralDesc, DistanceDesc, StaticTree.Valid, TotalCost, FreqOf, EncodeSymbols, Coded, CostOf, NoCodes, EndOnly;
    LiteralDescIs();
    SymbolsCost(ldl[..lmax + 1], ddl[..dmax + 1], ldl, ddl, syms);
    TotalSame(lfc, LitFreq(syms), ldl, LiteralDesc());
    TotalSame(dfc, DisFreq(syms), ddl, DistanceDesc());
    FreqCost(EndOnly(), LitCodes(syms), ldl, LiteralDesc());
    FreqCost(NoCodes(), DisCodes(syms), ddl, DistanceDesc());
    EndCost(ldl);
    NoCost(ddl, DistanceDesc());
  }

  // The distance tree of a block without matches has a code of one bit.
  lemma NoDistances(lfc: seq<nat>, dfc: seq<nat>, syms: seq<Symbol>, ddl: seq<nat>, dmax: nat)
    requires Tallied(lfc, dfc, syms) && Covers(dfc, ddl, dmax, D_CODES) && Complete(ddl[..dmax + 1])
    ensures NoMatches(syms) ==> 1 in ddl[..dmax + 1]
  {
    hide Complete, LonePair, LitFreq, DisFreq;
    if NoMatches(syms) {
      NoneTallied(syms);
      assert forall c :: 0 <= c < D_CODES ==> dfc[c] == 0;
      var a, b :| LonePair(ddl, D_CODES, a, b);
      PairOfOne(ddl, dmax, D_CODES, a, b);
    }
  }

  lemma NoneTallied(syms: seq<Symbol>)
    requires AllSendable(syms) && NoMatches(syms)
    ensures forall c :: 0 <= c < D_CODES ==> DisFreq(syms)[c] == 0
  {
    NoDisCodes(syms);
    NoneCounted();
  }

  lemma {:induction false} NoDisCodes(syms: seq<Symbol>)
    requires AllSendable(syms) && NoMatches(syms)
    ensures DisCodes(syms) == []
  {
    if syms != [] {
      NoDisCodes(syms[..|syms| - 1]);
    }
  }

  // static_len is what the same body takes with the fixed codes.
  lemma StaticSize(lfc: seq<nat>, dfc: seq<nat>, syms: seq<Symbol>)
    requires Tallied(lfc, dfc, syms) && LiteralDesc().Valid() && DistanceDesc().Valid()
    ensures AllCoded(FixedLiteralLengths(), FixedDistanceLengths(), syms) && HasCode(FixedLiteralLengths(), END_BLOCK)
    ensures |EncodeBody(FixedLiteralLengths(), FixedDistanceLengths(), syms)|
         == TotalStatic(lfc, LiteralDesc()) + TotalStatic(dfc, DistanceDesc())
  {
    hide LiteralDesc, DistanceDesc, StaticTree.Valid, TotalStatic, TotalCost, FreqOf, EncodeSymbols, Coded, CostOf,
      NoCodes, EndOnly, FixedLiteralLengths, FixedDistanceLengths;
    LiteralDescIs();
    FixedCoded(syms);
    SymbolsCost(FixedLiteralLengths(), FixedDistanceLengths(), FixedLiteralLengths(), FixedDistanceLengths(), syms);
    TotalSame(lfc, LitFreq(syms), NoCodes(), LiteralDesc());
    TotalSame(dfc, DisFreq(syms), NoCodes(), DistanceDesc());
    FreqStatic(EndOnly(), LitCodes(syms), LiteralDesc());
    FreqStatic(NoCodes(), DisCodes(syms), DistanceDesc());
    EndCost(NoCodes());
    NoCost(NoCodes(), DistanceDesc());
  }

  // With the fixed codes a symbol never takes more than 31 bits.
  lemma {:induction false} StaticBound(syms: seq<Symbol>)
    requires AllCoded(FixedLiteralLengths(), FixedDistanceLengths(), syms)
    ensures |EncodeSymbols(FixedLiteralLengths(), FixedDistanceLengths(), syms)| <= 31 * |syms|
  {
    hide FixedLiteralLengths, FixedDistanceLengths, EncodeSymbol, EncodeSymbols, Coded;
    if syms == [] {
      EncodeNone(FixedLiteralLengths(), FixedDistanceLengths());
    } else {
      var front, sym := syms[..|syms| - 1], syms[|syms| - 1];
      assert syms == front + [sym];
      assert Coded(FixedLiteralLengths(), FixedDistanceLengths(), sym);
      StaticBound(front);
      EncodeSnoc(FixedLiteralLengths(), FixedDistanceLengths(), front, sym);
      SymbolBound(sym);
    }
  }

  lemma SymbolBound(sym: Symbol)
    requires Coded(FixedLiteralLengths(), FixedDistanceLengths(), sym)
    ensures |EncodeSymbol(FixedLiteralLengths(), FixedDistanceLengths(), sym)| <= 31
  {
    hide FixedLiteralLengths, FixedDistanceLengths, SymbolBits, LengthExtra, DistExtra, LengthCode, DistCode;
    FixedAt(LitCode(sym));
    if sym.Match? {
      ExtraBound(LengthCode(sym.length - MIN_MATCH));
      ExtraBound(DisCode(sym));
      FixedAt(DisCode(sym));
    }
  }

  // ---- the bit length tree ----

  lemma {:induction false} FreqSame(f: seq<nat>, g: seq<nat>, codes: seq<nat>, k: nat)
    requires k <= |f| == |g| && forall c :: 0 <= c < k ==> f[c] == g[c]
    ensures forall c :: 0 <= c < k ==> FreqOf(f, codes)[c] == FreqOf(g, codes)[c]
  {
    if codes != [] {
      FreqSame(f, g, codes[..|codes| - 1], k);
    }
  }

  // The tables a dynamic block is sent with.
  function TablesOf(ldl: seq<nat>, lmax: nat, ddl: seq<nat>, dmax: nat, bdl: seq<nat>, blcodes: nat): Tables
    requires lmax + 1 < |ldl| && dmax + 1 < |ddl| && BL_CODES <= |bdl|
  {
    Tables(ldl[..lmax + 1], ddl[..dmax + 1], bdl[..BL_CODES], blcodes, TableSymbols(ldl, lmax), TableSymbols(ddl, dmax))
  }

  // The guarded code lengths of the literal and the distance tree.
  predicate Guarded(dl: seq<nat>, max: nat, elems: nat) {
    && |dl| == HEAP_SIZE && max < elems < HEAP_SIZE && dl[max + 1] == GUARD
    && (forall i :: 0 <= i <= max ==> dl[i] <= MAX_BITS)
  }

  lemma GuardedShape(dl: seq<nat>, max: nat, elems: nat)
    requires Guarded(dl, max, elems)
    ensures |dl| == HEAP_SIZE && max + 1 < HEAP_SIZE && max < elems
  {
  }

  lemma TablesOfIs(ldl: seq<nat>, lmax: nat, ddl: seq<nat>, dmax: nat, bdl: seq<nat>, blcodes: nat)
    requires lmax + 1 < |ldl| && dmax + 1 < |ddl| && BL_CODES <= |bdl|
    ensures var t := TablesOf(ldl, lmax, ddl, dmax, bdl, blcodes);
            && t.llens == ldl[..lmax + 1] && t.dlens == ddl[..dmax + 1] && t.clens == bdl[..BL_CODES]
                 && t.blcodes == blcodes
            && t.lruns == TableSymbols(ldl, lmax) && t.druns == TableSymbols(ddl, dmax)
  {
  }

  ghost predicate RunsCounted(freq: seq<nat>, runs: seq<RunSymbol>) {
    |freq| == HEAP_SIZE && forall c :: 0 <= c < BL_CODES ==> freq[c] == FreqOf(NoCodes(), RunCodes(runs))[c]
  }

  // What scan_tree counted for both trees.
  ghost predicate Scanned(freq: seq<nat>, ldl: seq<nat>, lmax: nat, ddl: seq<nat>, dmax: nat)
    requires lmax + 1 < |ldl| && dmax + 1 < |ddl|
  {
    RunsCounted(freq, TableSymbols(ldl, lmax) + TableSymbols(ddl, dmax))
  }

  lemma NoneCounted()
    ensures forall c :: 0 <= c < HEAP_SIZE ==> NoCodes()[c] == 0
  {
  }

  lemma ScannedBoth(f0: seq<nat>, ldl: seq<nat>, lmax: nat, ddl: seq<nat>, dmax: nat)
    requires lmax + 1 < |ldl| && dmax + 1 < |ddl| && |f0| == HEAP_SIZE && forall c :: 0 <= c < BL_CODES ==> f0[c] == 0
    ensures Scanned(FreqOf(FreqOf(f0, RunCodes(TableSymbols(ldl, lmax))), RunCodes(TableSymbols(ddl, dmax))), ldl,
            lmax, ddl, dmax)
  {
    hide FreqOf, RunCodes, TableSymbols, NoCodes;
    var a, b := TableSymbols(ldl, lmax), TableSymbols(ddl, dmax);
    RunCodesConcat(a, b);
    FreqConcat(f0, RunCodes(a), RunCodes(b));
    NoneCounted();
    FreqSame(f0, NoCodes(), RunCodes(a + b), BL_CODES);
  }

  lemma RunsValid(ldl: seq<nat>, lmax: nat, ddl: seq<nat>, dmax: nat)
    requires Guarded(ldl, lmax, 286) && Guarded(ddl, dmax, D_CODES)
    ensures var l, d := ldl[..lmax + 1], ddl[..dmax + 1];
            && Expands([], TableSymbols(ldl, lmax), l) && Expands(l, TableSymbols(ddl, dmax), l + d)
    ensures var runs := TableSymbols(ldl, lmax) + TableSymbols(ddl, dmax);
            forall i :: 0 <= i < |runs| ==> ValidSymbol(runs[i])
  {
    hide Expands, TableSymbols, ValidSymbol;
    var l, d := ldl[..lmax + 1], ddl[..dmax + 1];
    var a, b := TableSymbols(ldl, lmax), TableSymbols(ddl, dmax);
    assert [] + l == l;
    TableExpands([], ldl, lmax);
    TableExpands(l, ddl, dmax);
    ExpandsConcat([], a, l, b, l + d);
    ValidRunCodes([], a + b, l + d);
  }

  // Some code after the first four of the transmission order is in use.
  lemma SomeLateCode(freq: seq<nat>, bdl: seq<nat>, bmax: nat, ldl: seq<nat>, lmax: nat, ddl: seq<nat>, dmax: nat)
    returns (c: nat)
    requires Guarded(ldl, lmax, 286) && Guarded(ddl, dmax, D_CODES) && lmax >= END_BLOCK && ldl[END_BLOCK] > 0
    requires Scanned(freq, ldl, lmax, ddl, dmax) && Covers(freq, bdl, bmax, BL_CODES) && |bdl| == HEAP_SIZE
    ensures c < BL_CODES && bdl[c] > 0 && ORDER_RANK[c] >= 4
  {
    hide Expands, TableSymbols, FreqOf, RunCodes, Covers, NoCodes;
    RunsValid(ldl, lmax, ddl, dmax);
    var a, b := TableSymbols(ldl, lmax), TableSymbols(ddl, dmax);
    assert ldl[..lmax + 1][END_BLOCK] != 0;
    var i := SomeLiteral([], a, ldl[..lmax + 1]);
    c := a[i].code;
    LateRank(c);
    assert (a + b)[i] == a[i];
    RunListed(a + b, i);
    Occurs(NoCodes(), RunCodes(a + b), c);
    CodedBy(freq, bdl, bmax, BL_CODES, c);
  }

  lemma LateRank(c: nat)
    requires 1 <= c <= MAX_BITS
    ensures ORDER_RANK[c] >= 4
  {
  }

  // The header describes the three trees.
  lemma TablesDescribe(freq: seq<nat>, bdl: seq<nat>, bmax: nat, ldl: seq<nat>, lmax: nat, ddl: seq<nat>, dmax: nat,
                       blcodes: nat)
    requires Guarded(ldl, lmax, 286) && Guarded(ddl, dmax, D_CODES) && lmax >= END_BLOCK
    requires Scanned(freq, ldl, lmax, ddl, dmax) && Covers(freq, bdl, bmax, BL_CODES) && |bdl| == HEAP_SIZE
    requires Complete(bdl[..BL_CODES]) && 4 <= blcodes <= BL_CODES
    requires forall i :: 0 <= i < BL_CODES ==> bdl[i] < 8 && (ORDER_RANK[i] >= blcodes ==> bdl[i] == 0)
    ensures TablesFit(TablesOf(ldl, lmax, ddl, dmax, bdl, blcodes))
  {
    hide Complete, Expands, TableSymbols, FreqOf, RunCodes, Covers, NoCodes, RunCoded, ValidSymbol;
    RunsValid(ldl, lmax, ddl, dmax);
    var a, b := TableSymbols(ldl, lmax), TableSymbols(ddl, dmax);
    RunsCovered(a + b, freq, bdl, bmax);
    SplitCoded(bdl[..BL_CODES], a, b);
  }

  lemma SplitCoded(clens: seq<nat>, a: seq<RunSymbol>, b: seq<RunSymbol>)
    requires AllRunCoded(clens, a + b)
    ensures AllRunCoded(clens, a) && AllRunCoded(clens, b)
    ensures EncodeRuns(clens, a + b) == EncodeRuns(clens, a) + EncodeRuns(clens, b)
  {
    hide RunCoded, EncodeRuns;
    forall i | 0 <= i < |a|
      ensures RunCoded(clens, a[i])
    {
      assert RunCoded(clens, (a + b)[i]);
    }
    forall i | 0 <= i < |b|
      ensures RunCoded(clens, b[i])
    {
      assert RunCoded(clens, (a + b)[|a| + i]);
    }
    RunsConcat(clens, a, b);
  }

  // The bit length tree accounts for the run-length symbols; with the counts and the lengths of
  // its own codes that is the header.
  lemma HeaderSize(freq: seq<nat>, bdl: seq<nat>, ldl: seq<nat>, lmax: nat, ddl: seq<nat>, dmax: nat, blcodes: nat)
    requires Guarded(ldl, lmax, 286) && Guarded(ddl, dmax, D_CODES) && Scanned(freq, ldl, lmax, ddl, dmax)
             && |bdl| == HEAP_SIZE
    requires TablesFit(TablesOf(ldl, lmax, ddl, dmax, bdl, blcodes)) && LengthDesc().Valid()
    ensures |TablesBits(TablesOf(ldl, lmax, ddl, dmax, bdl, blcodes))| == 14 + 3 * blcodes
            + TotalCost(freq, bdl, LengthDesc())
  {
    hide TableSymbols, FreqOf, RunCodes, NoCodes, ValidSymbol, TablesFit, TablesBits, LengthDesc, TotalCost, CostOf,
      StaticTree.Valid;
    var runs := TableSymbols(ldl, lmax) + TableSymbols(ddl, dmax);
    LiteralDescIs();
    RunsValid(ldl, lmax, ddl, dmax);
    RunCodesBelow(runs);
    HeaderCost(TablesOf(ldl, lmax, ddl, dmax, bdl, blcodes), bdl);
    TotalSame(freq, FreqOf(NoCodes(), RunCodes(runs)), bdl, LengthDesc());
    FreqCost(NoCodes(), RunCodes(runs), bdl, LengthDesc());
    NoCost(bdl, LengthDesc());
  }

  lemma HeaderBuilt(freq: seq<nat>, bdl: seq<nat>, bmax: nat, ldl: seq<nat>, lmax: nat, ddl: seq<nat>, dmax: nat,
                    blcodes: nat)
    requires Guarded(ldl, lmax, 286) && Guarded(ddl, dmax, D_CODES) && lmax >= END_BLOCK
    requires Scanned(freq, ldl, lmax, ddl, dmax) && Covers(freq, bdl, bmax, BL_CODES) && |bdl| == HEAP_SIZE
    requires Complete(bdl[..BL_CODES]) && 4 <= blcodes <= BL_CODES && LengthDesc().Valid()
    requires forall i :: 0 <= i < BL_CODES ==> bdl[i] < 8 && (ORDER_RANK[i] >= blcodes ==> bdl[i] == 0)
    ensures var t := TablesOf(ldl, lmax, ddl, dmax, bdl, blcodes);
            && TablesFit(t) && t.clens == bdl[..BL_CODES]
            && |TablesBits(t)| == 14 + 3 * blcodes + TotalCost(freq, bdl, LengthDesc())
  {
    hide Complete, TableSymbols, Scanned, Covers, TablesFit, TablesBits, LengthDesc, TotalCost, StaticTree.Valid,
      Guarded;
    GuardedShape(ldl, lmax, 286);
    GuardedShape(ddl, dmax, D_CODES);
    TablesDescribe(freq, bdl, bmax, ldl, lmax, ddl, dmax, blcodes);
    HeaderSize(freq, bdl, ldl, lmax, ddl, dmax, blcodes);
  }

  // The literal and distance trees of a block have codes for all its symbols and account for both ways to send it.
  lemma TreesDone(lfc: seq<nat>, dfc: seq<nat>, syms: seq<Symbol>, ldl: seq<nat>, ddl: seq<nat>, lmax: nat, dmax: nat)
    requires Tallied(lfc, dfc, syms) && |ldl| == |ddl| == HEAP_SIZE && lmax < 286 && dmax < D_CODES
    requires Covers(lfc, ldl, lmax, 286) && Covers(dfc, ddl, dmax, D_CODES)
    requires LiteralDesc().Valid() && DistanceDesc().Valid()
    ensures AllCoded(ldl[..lmax + 1], ddl[..dmax + 1], syms) && HasCode(ldl[..lmax + 1], END_BLOCK)
    ensures |EncodeBody(ldl[..lmax + 1], ddl[..dmax + 1], syms)|
         == TotalCost(lfc, ldl, LiteralDesc()) + TotalCost(dfc, ddl, DistanceDesc())
    ensures AllCoded(FixedLiteralLengths(), FixedDistanceLengths(), syms) && HasCode(FixedLiteralLengths(), END_BLOCK)
    ensures |EncodeBody(FixedLiteralLengths(), FixedDistanceLengths(), syms)|
         == TotalStatic(lfc, LiteralDesc()) + TotalStatic(dfc, DistanceDesc())
  {
    hide Covers, AllCoded, HasCode, EncodeBody, TotalCost, TotalStatic, LiteralDesc, DistanceDesc, StaticTree.Valid,
      FreqOf;
    AllCovered(syms, lfc, dfc, ldl, ddl, lmax, dmax);
    BodySize(lfc, dfc, syms, ldl, ddl, lmax, dmax);
    StaticSize(lfc, dfc, syms);
  }

  lemma StaticFits(syms: seq<Symbol>)
    requires AllCoded(FixedLiteralLengths(), FixedDistanceLengths(), syms) && HasCode(FixedLiteralLengths(), END_BLOCK)
    ensures |EncodeBody(FixedLiteralLengths(), FixedDistanceLengths(), syms)| <= 31 * |syms| + 7
  {
    hide FixedLiteralLengths, FixedDistanceLengths, EncodeSymbols, Coded;
    StaticBound(syms);
    FixedAt(END_BLOCK);
  }
}
