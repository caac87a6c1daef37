/** Frequencies as counts of the codes a block sends, and the bits those codes take. */
module Frequencies {
  import opened Prelude
  import opened Bits
  import opened Inflate
  import opened Canonical
  import opened Heaps
  import opened LengthCounts
  import opened TreeCosts
  import opened LeafHeap
  import opened TreeLimits
  import opened RunLength
  import opened Codes
  import opened BlockCoding
  import opened BlockFormat

  // ---- counting ----

  function Bump(freq: seq<nat>, c: nat): (f: seq<nat>)
    ensures |f| == |freq|
  {
    if c < |freq| then freq[c := freq[c] + 1] else freq
  }

  // base plus one for every code.
  function FreqOf(base: seq<nat>, codes: seq<nat>): (f: seq<nat>)
    ensures |f| == |base|
  {
    if codes == [] then base else Bump(FreqOf(base, codes[..|codes| - 1]), codes[|codes| - 1])
  }

  function CostOf(codes: seq<nat>, len: seq<nat>, desc: StaticTree): nat {
    if codes == [] then 0 else
      var c := codes[|codes| - 1];
      CostOf(codes[..|codes| - 1], len, desc) + (if c < |len| then len[c] else 0) + desc.Extra(c)
  }

  predicate Below(codes: seq<nat>, n: nat) {
    forall i :: 0 <= i < |codes| ==> codes[i] < n
  }

  lemma FreqSnoc(base: seq<nat>, codes: seq<nat>, c: nat)
    ensures FreqOf(base, codes + [c]) == Bump(FreqOf(base, codes), c)
  {
    assert (codes + [c])[..|codes|] == codes;
  }

  lemma {:induction false} FreqConcat(base: seq<nat>, a: seq<nat>, b: seq<nat>)
    ensures FreqOf(base, a + b) == FreqOf(FreqOf(base, a), b)
  {
    hide Bump;
    if b == [] {
      assert a + b == a;
    } else {
      assert (a + b)[..|a + b| - 1] == a + b[..|b| - 1];
      FreqConcat(base, a, b[..|b| - 1]);
    }
  }

  // A code that occurs is counted.
  lemma {:induction false} Occurs(base: seq<nat>, codes: seq<nat>, c: nat)
    requires c in codes && c < |base|
    ensures FreqOf(base, codes)[c] > 0
  {
    var rest, last := codes[..|codes| - 1], codes[|codes| - 1];
    if last != c {
      assert c in rest;
      Occurs(base, rest, c);
    }
  }

  lemma {:induction false} StillCounted(base: seq<nat>, codes: seq<nat>, c: nat)
    requires c < |base|
    ensures FreqOf(base, codes)[c] >= base[c]
  {
    if codes != [] {
      StillCounted(base, codes[..|codes| - 1], c);
    }
  }

  // ---- one more code costs its bits ----

  lemma BumpUsed(freq: seq<nat>, c: nat, k: nat)
    requires c < k <= |freq|
    ensures Used(Bump(freq, c), k) == Used(freq, k) + {c}
  {
  }

  lemma BumpCost(freq: seq<nat>, dl: seq<nat>, desc: StaticTree, c: nat)
    requires desc.Valid() && |freq| == |dl| == HEAP_SIZE && c < desc.elems
    ensures TotalCost(Bump(freq, c), dl, desc) == TotalCost(freq, dl, desc) + dl[c] + desc.Extra(c)
  {
    hide BitCost, Used;
    var f, u := Bump(freq, c), Used(freq, desc.elems);
    var rest := u - {c};
    BumpUsed(freq, c, desc.elems);
    UsedBelow(freq, desc.elems);
    assert Used(f, desc.elems) == rest + {c};
    BitCostInsert(rest, f, dl, desc, c);
    BitCostSame(rest, freq, f, dl, dl, desc);
    OneMore(freq[c], dl[c] + desc.Extra(c));
    if c in u {
      assert rest + {c} == u;
      BitCostInsert(rest, freq, dl, desc, c);
    } else {
      assert rest == u;
      NotUsed(freq, desc.elems, c);
    }
  }

  lemma BumpStatic(freq: seq<nat>, desc: StaticTree, c: nat)
    requires desc.Valid() && |freq| == HEAP_SIZE && c < desc.elems
    ensures TotalStatic(Bump(freq, c), desc) == TotalStatic(freq, desc) + desc.StaticLength(c) + desc.Extra(c)
  {
    hide StaticCost, Used;
    var f, u := Bump(freq, c), Used(freq, desc.elems);
    var rest := u - {c};
    BumpUsed(freq, c, desc.elems);
    UsedBelow(freq, desc.elems);
    assert Used(f, desc.elems) == rest + {c};
    StaticCostInsert(rest, f, desc, c);
    StaticCostSame(rest, freq, f, desc);
    OneMore(freq[c], desc.StaticLength(c) + desc.Extra(c));
    if c in u {
      assert rest + {c} == u;
      StaticCostInsert(rest, freq, desc, c);
    } else {
      assert rest == u;
      NotUsed(freq, desc.elems, c);
    }
  }

  lemma NotUsed(freq: seq<nat>, k: nat, c: nat)
    requires c < k <= |freq| && c !in Used(freq, k)
    ensures freq[c] == 0
  {
  }

  lemma OneMore(f: nat, x: nat)
    ensures (f + 1) * x == f * x + x && 1 * x == x
  {
  }

  lemma {:induction false} FreqCost(base: seq<nat>, codes: seq<nat>, dl: seq<nat>, desc: StaticTree)
    requires desc.Valid() && |base| == |dl| == HEAP_SIZE && Below(codes, desc.elems)
    ensures TotalCost(FreqOf(base, codes), dl, desc) == TotalCost(base, dl, desc) + CostOf(codes, dl, desc)
  {
    hide TotalCost, Bump;
    if codes != [] {
      FreqCost(base, codes[..|codes| - 1], dl, desc);
      BumpCost(FreqOf(base, codes[..|codes| - 1]), dl, desc, codes[|codes| - 1]);
    }
  }

  lemma {:induction false} FreqStatic(base: seq<nat>, codes: seq<nat>, desc: StaticTree)
    requires desc.Valid() && |base| == HEAP_SIZE && Below(codes, desc.elems) && desc.static_tree.Some?
    ensures TotalStatic(FreqOf(base, codes), desc) == TotalStatic(base, desc)
            + CostOf(codes, desc.static_tree.value.len, desc)
  {
    hide TotalStatic, Bump;
    if codes != [] {
      FreqStatic(base, codes[..|codes| - 1], desc);
      BumpStatic(FreqOf(base, codes[..|codes| - 1]), desc, codes[|codes| - 1]);
    }
  }

  // ---- only the frequencies of real codes matter ----

  lemma UsedSame(f: seq<nat>, g: seq<nat>, k: nat)
    requires k <= |f| == |g| && forall c :: 0 <= c < k ==> f[c] == g[c]
    ensures Used(f, k) == Used(g, k)
  {
  }

  lemma TotalSame(f: seq<nat>, g: seq<nat>, dl: seq<nat>, desc: StaticTree)
    requires desc.Valid() && |f| == |g| == |dl| == HEAP_SIZE && forall c :: 0 <= c < desc.elems ==> f[c] == g[c]
    ensures TotalCost(f, dl, desc) == TotalCost(g, dl, desc)
    ensures TotalStatic(f, desc) == TotalStatic(g, desc)
  {
    UsedSame(f, g, desc.elems);
    BitCostSame(Used(f, desc.elems), f, g, dl, dl, desc);
    StaticCostSame(Used(f, desc.elems), f, g, desc);
  }

  // ---- the three alphabets ----

  function LiteralDesc(): StaticTree {
    var lens := FixedLiteralLengths();
    StaticTree(Some(CodeTable(seq(288, c requires 0 <= c < 288 => Reversed(CodeOf(lens, c), lens[c])), lens)),
               LENGTH_EXTRA, LITERALS + 1, 286, 15)
  }

  function DistanceDesc(): StaticTree {
    var lens := FixedDistanceLengths();
    StaticTree(Some(CodeTable(seq(32, c requires 0 <= c < 32 => Reversed(CodeOf(lens, c), lens[c])), lens)),
               DIST_EXTRA, 0, D_CODES, 15)
  }

  const EXTRA_BLBITS: seq<nat> := [0, 0, 0, 0, 0, 0, 0, 0, 0, 0, 0, 0, 0, 0, 0, 0, 2, 3, 7]

  function LengthDesc(): StaticTree {
    StaticTree(None, EXTRA_BLBITS, 0, BL_CODES, 7)
  }

  lemma DescsValid()
    ensures LiteralDesc().Valid() && DistanceDesc().Valid() && LengthDesc().Valid()
  {
    hide FixedLiteralLengths, FixedDistanceLengths, Reversed, CodeOf, Pow2;
    Pow2Values();
  }

  lemma ExtraAre(c: nat)
    ensures c < 286 ==> LiteralDesc().Extra(c) == if c <= 256 then 0 else LENGTH_EXTRA[c - 257]
    ensures c < D_CODES ==> DistanceDesc().Extra(c) == DIST_EXTRA[c]
    ensures c < BL_CODES ==> LengthDesc().Extra(c) == ExtraBits(c)
  {
    hide FixedLiteralLengths, FixedDistanceLengths, Reversed, CodeOf;
  }

  function NoCodes(): (f: seq<nat>)
    ensures |f| == HEAP_SIZE
  {
    seq(HEAP_SIZE, _ => 0)
  }

  // Every block sends one end-of-block code.
  function EndOnly(): (f: seq<nat>)
    ensures |f| == HEAP_SIZE
  {
    NoCodes()[END_BLOCK := 1]
  }

  function LitCodes(syms: seq<Symbol>): (c: seq<nat>)
    requires AllSendable(syms)
    ensures |c| == |syms| && Below(c, 286)
  {
    if syms == [] then [] else LitCodes(syms[..|syms| - 1]) + [LitCode(syms[|syms| - 1])]
  }

  function DisCodes(syms: seq<Symbol>): (c: seq<nat>)
    requires AllSendable(syms)
    ensures Below(c, D_CODES)
  {
    if syms == [] then [] else
      DisCodes(syms[..|syms| - 1]) + (if syms[|syms| - 1].Match? then [DisCode(syms[|syms| - 1])] else [])
  }

  predicate AllSendable(syms: seq<Symbol>) {
    forall i :: 0 <= i < |syms| ==> Sendable(syms[i])
  }

  function RunCodes(runs: seq<RunSymbol>): (c: seq<nat>)
    ensures |c| == |runs|
  {
    if runs == [] then [] else RunCodes(runs[..|runs| - 1]) + [runs[|runs| - 1].code]
  }

  function LitFreq(syms: seq<Symbol>): (f: seq<nat>)
    requires AllSendable(syms)
    ensures |f| == HEAP_SIZE
  {
    FreqOf(EndOnly(), LitCodes(syms))
  }

  function DisFreq(syms: seq<Symbol>): (f: seq<nat>)
    requires AllSendable(syms)
    ensures |f| == HEAP_SIZE
  {
    FreqOf(NoCodes(), DisCodes(syms))
  }

  lemma TallySnoc(syms: seq<Symbol>, sym: Symbol)
    requires AllSendable(syms) && Sendable(sym)
    ensures AllSendable(syms + [sym])
    ensures LitFreq(syms + [sym]) == Bump(LitFreq(syms), LitCode(sym))
    ensures DisFreq(syms + [sym]) == if sym.Match? then Bump(DisFreq(syms), DisCode(sym)) else DisFreq(syms)
  {
    assert (syms + [sym])[..|syms|] == syms;
    FreqSnoc(EndOnly(), LitCodes(syms), LitCode(sym));
    if sym.Match? {
      FreqSnoc(NoCodes(), DisCodes(syms), DisCode(sym));
    } else {
      assert DisCodes(syms + [sym]) == DisCodes(syms);
    }
  }

  lemma NoCost(dl: seq<nat>, desc: StaticTree)
    requires desc.Valid() && |dl| == HEAP_SIZE
    ensures TotalCost(NoCodes(), dl, desc) == 0 && TotalStatic(NoCodes(), desc) == 0
  {
    assert Used(NoCodes(), desc.elems) == {};
    CostEmptySet(NoCodes(), dl, desc);
  }

  lemma EndIsBump()
    ensures EndOnly() == Bump(NoCodes(), END_BLOCK)
  {
  }

  lemma EndCost(dl: seq<nat>)
    requires |dl| == HEAP_SIZE
    ensures LiteralDesc().Valid()
    ensures TotalCost(EndOnly(), dl, LiteralDesc()) == dl[END_BLOCK]
    ensures TotalStatic(EndOnly(), LiteralDesc()) == FixedLiteralLengths()[END_BLOCK]
  {
    hide LiteralDesc, TotalCost, TotalStatic, FixedLiteralLengths, NoCodes, Bump, EndOnly, StaticTree.Valid,
      StaticTree.Extra, StaticTree.StaticLength;
    DescsValid();
    NoCost(dl, LiteralDesc());
    ExtraAre(END_BLOCK);
    EndIsBump();
    LiteralDescIs();
    BumpCost(NoCodes(), dl, LiteralDesc(), END_BLOCK);
    BumpStatic(NoCodes(), LiteralDesc(), END_BLOCK);
  }

  lemma LiteralDescIs()
    ensures LiteralDesc().elems == 286 && LiteralDesc().max_length == 15
    ensures LiteralDesc().static_tree.Some? && LiteralDesc().static_tree.value.len == FixedLiteralLengths()
    ensures forall c :: 0 <= c < 288 ==> LiteralDesc().StaticLength(c) == FixedLiteralLengths()[c]
    ensures DistanceDesc().elems == D_CODES && DistanceDesc().max_length == 15
    ensures DistanceDesc().static_tree.Some? && DistanceDesc().static_tree.value.len == FixedDistanceLengths()
    ensures LengthDesc().elems == BL_CODES && LengthDesc().max_length == 7 && LengthDesc().static_tree.None?
  {
  }

  // ---- the length of what is sent ----

  lemma CostSnoc(codes: seq<nat>, c: nat, len: seq<nat>, desc: StaticTree)
    requires c < |len|
    ensures CostOf(codes + [c], len, desc) == CostOf(codes, len, desc) + len[c] + desc.Extra(c)
  {
    assert (codes + [c])[..|codes|] == codes;
  }

  // Bits taken by the symbols of a block with any two tables that start with llens and dlens.
  lemma {:induction false} SymbolsCost(llens: seq<nat>, dlens: seq<nat>, ldl: seq<nat>, ddl: seq<nat>,
                                       syms: seq<Symbol>)
    requires llens <= ldl && dlens <= ddl && AllCoded(llens, dlens, syms) && AllSendable(syms)
    ensures |EncodeSymbols(llens, dlens, syms)|
         == CostOf(LitCodes(syms), ldl, LiteralDesc()) + CostOf(DisCodes(syms), ddl, DistanceDesc())
  {
    hide EncodeSymbol, EncodeSymbols, LiteralDesc, DistanceDesc, LengthCode, DistCode, Coded, CostOf;
    if syms == [] {
      NoneCost(ldl, LiteralDesc());
      NoneCost(ddl, DistanceDesc());
      assert |EncodeSymbols(llens, dlens, [])| == 0 by { EncodeNone(llens, dlens); }
    } else {
      var front, sym := syms[..|syms| - 1], syms[|syms| - 1];
      assert syms == front + [sym];
      assert Coded(llens, dlens, sym);
      SymbolsCost(llens, dlens, ldl, ddl, front);
      EncodeSnoc(llens, dlens, front, sym);
      SymbolCost(llens, dlens, ldl, ddl, sym);
      CostSnoc(LitCodes(front), LitCode(sym), ldl, LiteralDesc());
      if sym.Match? {
        CostSnoc(DisCodes(front), DisCode(sym), ddl, DistanceDesc());
      } else {
        assert DisCodes(syms) == DisCodes(front);
      }
    }
  }

  lemma NoneCost(len: seq<nat>, desc: StaticTree)
    ensures CostOf([], len, desc) == 0
  {
  }

  lemma EncodeNone(llens: seq<nat>, dlens: seq<nat>)
    ensures EncodeSymbols(llens, dlens, []) == []
  {
  }

  lemma SymbolCost(llens: seq<nat>, dlens: seq<nat>, ldl: seq<nat>, ddl: seq<nat>, sym: Symbol)
    requires llens <= ldl && dlens <= ddl && Coded(llens, dlens, sym)
    ensures LitCode(sym) < |ldl| && (sym.Match? ==> DisCode(sym) < |ddl|)
    ensures |EncodeSymbol(llens, dlens, sym)| == ldl[LitCode(sym)] + LiteralDesc().Extra(LitCode(sym))
              + (if sym.Match? then ddl[DisCode(sym)] + DistanceDesc().Extra(DisCode(sym)) else 0)
  {
    hide SymbolBits, LengthExtra, DistExtra, LiteralDesc, DistanceDesc, LengthCode, DistCode;
    ExtraAre(LitCode(sym));
    assert ldl[LitCode(sym)] == llens[LitCode(sym)];
    if sym.Match? {
      ExtraAre(DisCode(sym));
      assert ddl[DisCode(sym)] == dlens[DisCode(sym)];
    }
  }

  lemma {:induction false} RunsCost(clens: seq<nat>, dl: seq<nat>, runs: seq<RunSymbol>)
    requires clens <= dl && AllRunCoded(clens, runs) && |clens| <= BL_CODES
    ensures |EncodeRuns(clens, runs)| == CostOf(RunCodes(runs), dl, LengthDesc())
  {
    hide EncodeRun, EncodeRuns, LengthDesc, CostOf, StaticTree.Extra;
    if runs == [] {
      NoneCost(dl, LengthDesc());
      NoneSent(clens);
    } else {
      var front, r := runs[..|runs| - 1], runs[|runs| - 1];
      assert runs == front + [r];
      assert RunCoded(clens, r);
      RunsCost(clens, dl, front);
      RunsConcat(clens, front, [r]);
      assert EncodeRuns(clens, [r]) == EncodeRun(clens, r) by { OneRun(clens, r); }
      CostSnoc(RunCodes(front), r.code, dl, LengthDesc());
      ExtraAre(r.code);
      assert dl[r.code] == clens[r.code];
    }
  }

  lemma NoneSent(clens: seq<nat>)
    ensures EncodeRuns(clens, []) == []
  {
  }

  lemma OneRun(clens: seq<nat>, r: RunSymbol)
    requires RunCoded(clens, r)
    ensures EncodeRuns(clens, [r]) == EncodeRun(clens, r)
  {
    assert [r][1..] == [];
  }
}
