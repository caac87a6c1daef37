/** The code length tables of a dynamic block: which codes have bits, and what the header describes. */
module TableFacts {
  import opened Prelude
  import opened Bits
  import opened Inflate
  import opened Canonical
  import opened Heaps
  import opened LengthCounts
  import opened TreeCosts
  import opened LeafHeap
  import opened TreeLimits
  import opened RunLength
  import opened Codes
  import opened BlockCoding
  import opened BlockFormat
  import opened Frequencies

  // The table spells, bit-reversed, the canonical code with these lengths.
  ghost predicate Spells(t: CodeTable, lens: seq<nat>) {
    forall c :: 0 <= c < |lens| && lens[c] > 0 ==> SpellsCode(t, lens, c)
  }

  ghost predicate SpellsCode(t: CodeTable, lens: seq<nat>, c: nat)
    requires c < |lens|
  {
    && c < |t.code| && c < |t.len| && t.len[c] == lens[c] <= MAX_BITS
    && t.code[c] == Reversed(CodeOf(lens, c), lens[c])
  }

  lemma FixedSpell()
    ensures Spells(LiteralDesc().static_tree.value, FixedLiteralLengths())
    ensures Spells(DistanceDesc().static_tree.value, FixedDistanceLengths())
  {
    hide FixedLiteralLengths, FixedDistanceLengths, Reversed, CodeOf, Complete;
    FixedComplete();
    CompleteShort(FixedLiteralLengths());
    CompleteShort(FixedDistanceLengths());
  }

  lemma CompleteShort(lens: seq<nat>)
    requires Complete(lens)
    ensures forall c :: 0 <= c < |lens| ==> lens[c] <= MAX_BITS
  {
  }

  // ---- codes of length zero at the end of a table change nothing ----

  lemma PadCount(lens: seq<nat>, k: nat, b: nat)
    requires b >= 1
    ensures Count(lens + Repeat(0, k), b) == Count(lens, b)
  {
    CountConcat(lens, Repeat(0, k), b);
    CountRepeat(0, k, b);
  }

  lemma {:induction false} PadFirst(lens: seq<nat>, k: nat, b: nat)
    ensures FirstCode(lens + Repeat(0, k), b) == FirstCode(lens, b)
  {
    hide Count, Repeat;
    if b > 1 {
      PadFirst(lens, k, b - 1);
      PadCount(lens, k, b - 1);
    }
  }

  lemma {:induction false} PadKraft(lens: seq<nat>, k: nat, b: nat)
    requires b <= MAX_BITS
    ensures Kraft(lens + Repeat(0, k), b) == Kraft(lens, b)
  {
    hide Count, Repeat, Shl;
    if b > 0 {
      PadKraft(lens, k, b - 1);
      PadCount(lens, k, b);
    }
  }

  lemma PadTable(t: CodeTable, lens: seq<nat>, k: nat)
    requires Complete(lens) && Spells(t, lens)
    ensures Complete(lens + Repeat(0, k)) && Spells(t, lens + Repeat(0, k))
  {
    hide Kraft, Reversed, FirstCode, Count, Pow2, Repeat;
    var more := lens + Repeat(0, k);
    PadKraft(lens, k, MAX_BITS);
    RepeatIs(0, k);
    forall c | 0 <= c < |more| && more[c] > 0
      ensures SpellsCode(t, more, c)
    {
      assert SpellsCode(t, lens, c);
      PadFirst(lens, k, lens[c]);
      assert more[..c] == lens[..c];
    }
  }

  // ---- every code that is counted has bits ----

  // Only a and b of the first elems codes have bits.
  predicate LonePair(dl: seq<nat>, elems: nat, a: nat, b: nat) {
    && a < b < elems <= |dl| && dl[a] > 0 && dl[b] > 0
    && (forall c :: 0 <= c < elems && c != a && c != b ==> dl[c] == 0)
  }

  // dl gives bits to every code that occurs and none above maxCode, and to just two when no code occurs.
  ghost predicate Covers(freq: seq<nat>, dl: seq<nat>, maxCode: nat, elems: nat) {
    && maxCode < elems <= |freq| && elems <= |dl|
    && (forall c :: 0 <= c < elems && freq[c] > 0 ==> dl[c] > 0)
    && (forall c :: maxCode < c < elems ==> dl[c] == 0)
    && ((forall c :: 0 <= c < elems ==> freq[c] == 0) ==> exists a, b :: LonePair(dl, elems, a, b))
  }

  lemma Covered(was: seq<nat>, freq: seq<nat>, dl: seq<nat>, desc: StaticTree, script: seq<Huffman.Merge>,
                overflow: nat, maxCode: nat)
    requires desc.Valid() && |was| == |freq| == |dl| == HEAP_SIZE && maxCode < desc.elems
    requires HuffmanLengths(was, freq, dl, desc, script, overflow)
    requires forall n :: maxCode < n < desc.elems ==> dl[n] == 0
    ensures Covers(was, dl, maxCode, desc.elems)
  {
    hide Optimal, Huffman.ValidScript, TreeShape.LengthsFrom, Huffman.Clamped;
    forall c | 0 <= c < desc.elems && was[c] > 0
      ensures dl[c] > 0
    {
      assert c in Used(was, desc.elems);
    }
    if forall c :: 0 <= c < desc.elems ==> was[c] == 0 {
      assert Used(was, desc.elems) == {};
      ForcedPair(Used(freq, desc.elems), dl, desc.elems);
    }
  }

  lemma ForcedPair(used: set<nat>, dl: seq<nat>, elems: nat)
    requires |used| == 2 && elems <= |dl| && (forall x :: x in used ==> x < elems)
    requires forall x :: 0 <= x < elems ==> (dl[x] > 0 <==> x in used)
    ensures exists a, b :: LonePair(dl, elems, a, b)
  {
    var a :| a in used;
    var rest := used - {a};
    assert |rest| == 1;
    var b :| b in rest;
    assert |rest - {b}| == 0;
    assert forall x :: x in used ==> x == a || x in rest - {b} || x == b;
    assert LonePair(dl, elems, if a < b then a else b, if a < b then b else a);
  }

  lemma CodedBy(freq: seq<nat>, dl: seq<nat>, maxCode: nat, elems: nat, c: nat)
    requires Covers(freq, dl, maxCode, elems) && c < elems && freq[c] > 0
    ensures c <= maxCode && HasCode(dl[..maxCode + 1], c)
  {
  }

  // The tables built for the tallied symbols have codes for all of them.
  lemma AllCovered(syms: seq<Symbol>, lfreq: seq<nat>, dfreq: seq<nat>, ldl: seq<nat>, ddl: seq<nat>, lmax: nat,
                   dmax: nat)
    requires AllSendable(syms) && Covers(lfreq, ldl, lmax, 286) && Covers(dfreq, ddl, dmax, D_CODES)
    requires |lfreq| == |dfreq| == HEAP_SIZE
    requires forall c :: 0 <= c < 286 ==> lfreq[c] == LitFreq(syms)[c]
    requires forall c :: 0 <= c < D_CODES ==> dfreq[c] == DisFreq(syms)[c]
    ensures AllCoded(ldl[..lmax + 1], ddl[..dmax + 1], syms) && HasCode(ldl[..lmax + 1], END_BLOCK)
    ensures lmax >= 256
  {
    hide FreqOf, LitCode, DisCode, HasCode;
    StillCounted(EndOnly(), LitCodes(syms), END_BLOCK);
    CodedBy(lfreq, ldl, lmax, 286, END_BLOCK);
    forall i | 0 <= i < |syms|
      ensures Coded(ldl[..lmax + 1], ddl[..dmax + 1], syms[i])
    {
      CodeListed(syms, i);
      Occurs(EndOnly(), LitCodes(syms), LitCode(syms[i]));
      CodedBy(lfreq, ldl, lmax, 286, LitCode(syms[i]));
      if syms[i].Match? {
        Occurs(NoCodes(), DisCodes(syms), DisCode(syms[i]));
        CodedBy(dfreq, ddl, dmax, D_CODES, DisCode(syms[i]));
      }
    }
  }

  lemma {:induction false} CodeListed(syms: seq<Symbol>, i: nat)
    requires AllSendable(syms) && i < |syms|
    ensures LitCode(syms[i]) in LitCodes(syms)
    ensures syms[i].Match? ==> DisCode(syms[i]) in DisCodes(syms)
  {
    hide LitCode, DisCode;
    if i < |syms| - 1 {
      CodeListed(syms[..|syms| - 1], i);
    }
  }

  // ---- the bit length code ----

  lemma {:induction false} RunListed(runs: seq<RunSymbol>, i: nat)
    requires i < |runs|
    ensures runs[i].code in RunCodes(runs)
  {
    if i < |runs| - 1 {
      RunListed(runs[..|runs| - 1], i);
    }
  }

  lemma {:induction false} RunCodesConcat(a: seq<RunSymbol>, b: seq<RunSymbol>)
    ensures RunCodes(a + b) == RunCodes(a) + RunCodes(b)
  {
    if b == [] {
      assert a + b == a;
    } else {
      assert (a + b)[..|a + b| - 1] == a + b[..|b| - 1];
      RunCodesConcat(a, b[..|b| - 1]);
    }
  }

  lemma {:induction false} ValidRunCodes(acc: seq<nat>, runs: seq<RunSymbol>, result: seq<nat>)
    requires Expands(acc, runs, result)
    ensures forall i :: 0 <= i < |runs| ==> ValidSymbol(runs[i])
    decreases |runs|
  {
    if runs != [] {
      ValidRunCodes(Meaning(acc, runs[0]), runs[1..], result);
      forall i | 0 <= i < |runs|
        ensures ValidSymbol(runs[i])
      {
        if i > 0 {
          assert runs[i] == runs[1..][i - 1];
        }
      }
    }
  }

  lemma {:induction false} RunCodesBelow(runs: seq<RunSymbol>)
    requires forall i :: 0 <= i < |runs| ==> ValidSymbol(runs[i])
    ensures Below(RunCodes(runs), BL_CODES)
  {
    if runs != [] {
      RunCodesBelow(runs[..|runs| - 1]);
    }
  }

  // A table with a code of non-zero length sends that length literally at least once.
  lemma {:induction false} SomeLiteral(acc: seq<nat>, runs: seq<RunSymbol>, result: seq<nat>) returns (i: nat)
    requires Expands(acc, runs, result)
    requires forall j :: 0 <= j < |acc| ==> acc[j] == 0
    requires exists j :: 0 <= j < |result| && result[j] != 0
    ensures i < |runs| && 1 <= runs[i].code <= MAX_BITS
    decreases |runs|
  {
    assert runs != [];
    if 1 <= runs[0].code <= MAX_BITS {
      i := 0;
    } else {
      ZerosStay(acc, runs[0]);
      i := SomeLiteral(Meaning(acc, runs[0]), runs[1..], result);
      i := i + 1;
    }
  }

  lemma ZerosStay(acc: seq<nat>, r: RunSymbol)
    requires ValidSymbol(r) && (r.code == REP_3_6 ==> acc != []) && !(1 <= r.code <= MAX_BITS)
    requires forall j :: 0 <= j < |acc| ==> acc[j] == 0
    ensures forall j :: 0 <= j < |Meaning(acc, r)| ==> Meaning(acc, r)[j] == 0
  {
    RepeatIs(0, 3 + r.extra);
    RepeatIs(0, 11 + r.extra);
  }

  // The bit length tree built for the run-length symbols has codes for all of them.
  lemma RunsCovered(runs: seq<RunSymbol>, freq: seq<nat>, dl: seq<nat>, maxCode: nat)
    requires |freq| == |dl| == HEAP_SIZE && Covers(freq, dl, maxCode, BL_CODES)
    requires forall i :: 0 <= i < |runs| ==> ValidSymbol(runs[i])
    requires forall c :: 0 <= c < BL_CODES ==> freq[c] == FreqOf(NoCodes(), RunCodes(runs))[c]
    ensures AllRunCoded(dl[..BL_CODES], runs)
  {
    hide FreqOf, Covers, RunCodes, ValidSymbol, RunCoded, NoCodes;
    forall i | 0 <= i < |runs|
      ensures RunCoded(dl[..BL_CODES], runs[i])
    {
      assert ValidSymbol(runs[i]);
      RunListed(runs, i);
      RunCovered(RunCodes(runs), freq, dl, maxCode, runs[i]);
    }
  }

  lemma RunCovered(codes: seq<nat>, freq: seq<nat>, dl: seq<nat>, maxCode: nat, r: RunSymbol)
    requires |freq| == |dl| == HEAP_SIZE && Covers(freq, dl, maxCode, BL_CODES)
    requires ValidSymbol(r) && r.code in codes
    requires forall c :: 0 <= c < BL_CODES ==> freq[c] == FreqOf(NoCodes(), codes)[c]
    ensures RunCoded(dl[..BL_CODES], r)
  {
    hide FreqOf, NoCodes, Pow2;
    Occurs(NoCodes(), codes, r.code);
    CodedBy(freq, dl, maxCode, BL_CODES, r.code);
  }

  // ---- lengths of headers ----

  lemma HeaderCost(t: Tables, dl: seq<nat>)
    requires TablesFit(t) && |dl| == HEAP_SIZE && t.clens == dl[..BL_CODES]
    ensures |TablesBits(t)| == 14 + 3 * t.blcodes + CostOf(RunCodes(t.lruns + t.druns), dl, LengthDesc())
  {
    hide EncodeRuns, OrderedBits, CountBits, LengthDesc, CostOf, Complete, Expands;
    RunsConcat(t.clens, t.lruns, t.druns);
    RunsCost(t.clens, dl, t.lruns + t.druns);
  }
}
