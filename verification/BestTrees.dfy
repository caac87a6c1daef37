/** What makes the trees of a dynamic block the best ones: all three come from the greedy merges over what the block
    has to say, and the header describes no more of them than is in use. */
module BestTrees {
  import opened Prelude
  import opened Bits
  import opened Inflate
  import opened Canonical
  import opened Heaps
  import opened Huffman
  import opened TreeCosts
  import opened LeafHeap
  import opened TreeLimits
  import opened RunLength
  import opened Codes
  import opened BlockCoding
  import opened BlockFormat
  import opened Frequencies
  import opened TableFacts
  import opened BlockSizes

  // The code lengths dl come from the greedy merges over the frequencies was: unless a length had to be limited, no
  // other prefix code takes fewer bits, and a more frequent code is never longer.
  ghost predicate Grown(was: seq<nat>, dl: seq<nat>, desc: StaticTree) {
    && desc.Valid() && |was| == |dl| == HEAP_SIZE
    && exists freq: seq<nat>, script: seq<Merge>, overflow: nat ::
         |freq| == HEAP_SIZE && HuffmanLengths(was, freq, dl, desc, script, overflow)
  }

  // The same of lengths without the zeros that follow them.
  predicate Padded(lens: seq<nat>, dl: seq<nat>, elems: nat) {
    |lens| <= elems <= |dl| && lens == dl[..|lens|] && forall n :: |lens| <= n < elems ==> dl[n] == 0
  }

  ghost predicate Grows(was: seq<nat>, lens: seq<nat>, desc: StaticTree) {
    exists dl: seq<nat> :: Padded(lens, dl, desc.elems) && Grown(was, dl, desc)
  }

  lemma GrownGrows(was: seq<nat>, dl: seq<nat>, k: nat, desc: StaticTree)
    requires Grown(was, dl, desc) && k <= desc.elems <= |dl| && forall n :: k <= n < desc.elems ==> dl[n] == 0
    ensures Grows(was, dl[..k], desc)
  {
    hide Grown;
    assert Padded(dl[..k], dl, desc.elems);
  }

  lemma IsGrown(was: seq<nat>, freq: seq<nat>, dl: seq<nat>, desc: StaticTree, script: seq<Merge>, overflow: nat)
    requires desc.Valid() && |was| == |freq| == |dl| == HEAP_SIZE
    requires HuffmanLengths(was, freq, dl, desc, script, overflow)
    ensures Grown(was, dl, desc)
  {
    hide HuffmanLengths, StaticTree.Valid;
  }

  predicate InUse(lens: seq<nat>) {
    lens != [] && lens[|lens| - 1] > 0
  }

  // The run-length symbols of a table: those that scan_tree counts and send_tree sends.
  function RunsOf(lens: seq<nat>): seq<RunSymbol>
    requires lens != []
  {
    TableSymbols(lens + [GUARD], |lens| - 1)
  }

  lemma {:induction false} SymbolsSame(a: seq<nat>, b: seq<nat>, n: nat, maxCode: nat, r: Run)
    requires maxCode + 1 < |a| && maxCode + 1 < |b| && a[..maxCode + 2] == b[..maxCode + 2]
    requires n <= maxCode ==> r.minCount == NewRun(r.prevlen, a[n]).minCount
    ensures n <= maxCode ==> a[n] == b[n] && a[n + 1] == b[n + 1]
    ensures Symbols(a, n, maxCode, r) == Symbols(b, n, maxCode, r)
    decreases maxCode + 1 - n
  {
    hide RunSymbols;
    if n <= maxCode {
      assert a[n] == a[..maxCode + 2][n] && a[n + 1] == a[..maxCode + 2][n + 1];
      assert b[n] == b[..maxCode + 2][n] && b[n + 1] == b[..maxCode + 2][n + 1];
      if r.count + 1 < r.maxCount && a[n] == a[n + 1] {
        SymbolsSame(a, b, n + 1, maxCode, r.(count := r.count + 1));
      } else {
        SymbolsSame(a, b, n + 1, maxCode, NewRun(a[n], a[n + 1]));
      }
    }
  }

  lemma TableRuns(dl: seq<nat>, max: nat, elems: nat)
    requires Guarded(dl, max, elems)
    ensures TableSymbols(dl, max) == RunsOf(dl[..max + 1])
  {
    var lens := dl[..max + 1];
    assert dl[..max + 2] == (lens + [GUARD])[..max + 2];
    assert dl[0] == (lens + [GUARD])[0] by {
      assert dl[..max + 2][0] == dl[0];
    }
    SymbolsSame(dl, lens + [GUARD], 0, max, NewRun(-1, dl[0]));
  }

  // The literal and the distance tree are those of the symbols, up to the last code that is used.
  ghost predicate BestCodes(t: Tables, syms: seq<Symbol>) {
    && InUse(t.llens) && InUse(t.dlens)
    && exists lfc, dfc ::
         Tallied(lfc, dfc, syms) && Grows(lfc, t.llens, LiteralDesc()) && Grows(dfc, t.dlens, DistanceDesc())
  }

  // The header sends the runs of their lengths with the tree of those, up to the last length that is used.
  ghost predicate BestHeader(t: Tables) {
    && t.llens != [] && t.dlens != [] && t.lruns == RunsOf(t.llens) && t.druns == RunsOf(t.dlens)
    && |t.clens| == BL_CODES && 1 <= t.blcodes <= BL_CODES && LENGTH_ORDER[t.blcodes - 1] < BL_CODES
    && t.clens[LENGTH_ORDER[t.blcodes - 1]] > 0
    && exists freq :: RunsCounted(freq, t.lruns + t.druns) && Grows(freq, t.clens, LengthDesc())
  }

  lemma CodesFound(t: Tables, syms: seq<Symbol>, lfc: seq<nat>, dfc: seq<nat>)
    requires InUse(t.llens) && InUse(t.dlens) && Tallied(lfc, dfc, syms)
    requires Grows(lfc, t.llens, LiteralDesc()) && Grows(dfc, t.dlens, DistanceDesc())
    ensures BestCodes(t, syms)
  {
    hide Tallied, Grows;
  }

  lemma HeaderFound(freq: seq<nat>, ldl: seq<nat>, lmax: nat, ddl: seq<nat>, dmax: nat, bdl: seq<nat>, blcodes: nat)
    requires Guarded(ldl, lmax, 286) && Guarded(ddl, dmax, D_CODES) && lmax + 1 < |ldl| && dmax + 1 < |ddl|
    requires Scanned(freq, ldl, lmax, ddl, dmax) && |bdl| == HEAP_SIZE && Grown(freq, bdl, LengthDesc())
    requires 1 <= blcodes <= BL_CODES && LENGTH_ORDER[blcodes - 1] < BL_CODES && bdl[LENGTH_ORDER[blcodes - 1]] > 0
    ensures BestHeader(TablesOf(ldl, lmax, ddl, dmax, bdl, blcodes))
  {
    hide Grown, Grows, TableSymbols, RunsOf, StaticTree.Valid, RunsCounted;
    var t := TablesOf(ldl, lmax, ddl, dmax, bdl, blcodes);
    GuardedShape(ldl, lmax, 286);
    GuardedShape(ddl, dmax, D_CODES);
    TableRuns(ldl, lmax, 286);
    TableRuns(ddl, dmax, D_CODES);
    assert t.lruns == RunsOf(t.llens) && t.druns == RunsOf(t.dlens);
    GrownGrows(freq, bdl, BL_CODES, LengthDesc());
    assert RunsCounted(freq, t.lruns + t.druns);
  }
}
