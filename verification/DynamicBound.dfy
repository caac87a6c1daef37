/** How few bits the dynamic form of a block can take: bounds from the code space and from section 3.2.7 of RFC 1951. */
module DynamicBound {
  import opened Prelude
  import opened Bits
  import opened Inflate
  import opened Canonical
  import opened RunLength
  import opened Codes
  import opened BlockCoding
  import opened BlockFormat
  import opened TableFacts

  // ---- the code space, symbol by symbol ----

  // The share of the code space that a code of x bits takes.
  function CodeShare(x: nat): nat {
    if 1 <= x <= MAX_BITS then Pow2(MAX_BITS - x) else 0
  }

  // Each symbol adds its share.
  lemma {:induction false} KraftSnoc(lens: seq<nat>, x: nat, b: nat)
    requires b <= MAX_BITS
    ensures Kraft(lens + [x], b) == Kraft(lens, b) + if x <= b then CodeShare(x) else 0
  {
    hide Shl, Pow2;
    if b > 0 {
      KraftSnoc(lens, x, b - 1);
      CountConcat(lens, [x], b);
      ShlAdd(Count(lens, b), if x == b then 1 else 0, MAX_BITS - b);
      ShlZero(MAX_BITS - b);
      ShlOne(MAX_BITS - b);
    }
  }

  lemma KraftNext(lens: seq<nat>, k: nat)
    requires k < |lens|
    ensures Kraft(lens[..k + 1], MAX_BITS) == Kraft(lens[..k], MAX_BITS) + CodeShare(lens[k])
  {
    hide Kraft;
    assert lens[..k + 1] == lens[..k] + [lens[k]];
    KraftSnoc(lens[..k], lens[k], MAX_BITS);
  }

  lemma {:induction false} KraftGrows(lens: seq<nat>, i: nat, j: nat)
    requires i <= j <= |lens|
    ensures Kraft(lens[..i], MAX_BITS) <= Kraft(lens[..j], MAX_BITS)
    decreases j
  {
    hide Kraft;
    if i < j {
      KraftNext(lens, j - 1);
      KraftGrows(lens, i, j - 1);
    }
  }

  lemma PowersAbove()
    ensures Pow2(11) == 2048 && Pow2(12) == 4096 && Pow2(13) == 8192 && Pow2(14) == 16384
  {
    Pow2Values();
    assert Pow2(11) == 8 * Pow2(8);
  }

  // Two to the power of -x, from below by a straight line.
  lemma ShareLine(x: nat)
    requires 1 <= x <= MAX_BITS
    ensures CodeShare(x) >= 2048 * (5 - x)
  {
    PowersAbove();
  }

  // A complete code of two symbols gives each one bit.
  lemma PairOfOne(dl: seq<nat>, maxCode: nat, elems: nat, a: nat, b: nat)
    requires maxCode < elems && LonePair(dl, elems, a, b) && forall c :: maxCode < c < elems ==> dl[c] == 0
    requires Complete(dl[..maxCode + 1])
    ensures 1 in dl[..maxCode + 1]
  {
    hide Kraft, CodeShare, Pow2;
    var lens := dl[..maxCode + 1];
    KraftPair(lens, a, b, |lens|);
    assert lens[..|lens|] == lens;
    Pow2Values();
    ShareHalf(lens[a]);
    ShareHalf(lens[b]);
    assert lens[b] == 1;
  }

  lemma {:induction false} KraftPair(lens: seq<nat>, a: nat, b: nat, k: nat)
    requires a < b < |lens| && k <= |lens| && forall c :: 0 <= c < |lens| && c != a && c != b ==> lens[c] == 0
    ensures Kraft(lens[..k], MAX_BITS)
         == (if a < k then CodeShare(lens[a]) else 0) + if b < k then CodeShare(lens[b]) else 0
  {
    if k == 0 {
      KraftNone(MAX_BITS);
    } else {
      KraftPair(lens, a, b, k - 1);
      KraftNext(lens, k - 1);
    }
  }

  lemma {:induction false} KraftNone(b: nat)
    requires b <= MAX_BITS
    ensures Kraft([], b) == 0
  {
    if b > 0 {
      KraftNone(b - 1);
      ShlZero(MAX_BITS - b);
    }
  }

  lemma ShareHalf(x: nat)
    ensures if x == 1 then CodeShare(x) == 16384 else CodeShare(x) <= 8192
  {
    PowersAbove();
    if 2 <= x <= MAX_BITS {
      Pow2Mono(MAX_BITS - x, 13);
    }
  }

  // ---- the body ----

  // Every literal takes code space, so consecutive ones that are short use up what there is.
  lemma {:induction false} ConsecutiveBits(llens: seq<nat>, dlens: seq<nat>, syms: seq<Symbol>, lo: nat)
    requires AllCoded(llens, dlens, syms) && forall i :: 0 <= i < |llens| ==> llens[i] <= MAX_BITS
    requires lo + |syms| <= |llens| && lo + |syms| <= 256
    requires forall i :: 0 <= i < |syms| ==> syms[i] == Literal(lo + i)
    ensures Kraft(llens[..lo + |syms|], MAX_BITS) + 2048 * |EncodeSymbols(llens, dlens, syms)|
         >= Kraft(llens[..lo], MAX_BITS) + 10240 * |syms|
    decreases |syms|
  {
    hide Kraft, CodeShare, SymbolBits;
    if syms != [] {
      assert syms[0] == Literal(lo) && Coded(llens, dlens, syms[0]);
      ConsecutiveBits(llens, dlens, syms[1..], lo + 1);
      KraftNext(llens, lo);
      ShareLine(llens[lo]);
    }
  }

  // A block of fifteen different literals has sixteen codes in use, so its body takes 64 bits or more.
  lemma BodyBound(llens: seq<nat>, dlens: seq<nat>, syms: seq<Symbol>, lo: nat)
    requires Complete(llens) && AllCoded(llens, dlens, syms) && HasCode(llens, END_BLOCK)
    requires |syms| == 15 && lo + 15 <= END_BLOCK && forall i :: 0 <= i < |syms| ==> syms[i] == Literal(lo + i)
    ensures |EncodeBody(llens, dlens, syms)| >= 64
  {
    hide Kraft, CodeShare, SymbolBits, EncodeSymbols, AllCoded, Pow2;
    ConsecutiveBits(llens, dlens, syms, lo);
    KraftGrows(llens, lo + 15, END_BLOCK);
    KraftNext(llens, END_BLOCK);
    ShareLine(llens[END_BLOCK]);
    KraftGrows(llens, END_BLOCK + 1, |llens|);
    assert llens[..|llens|] == llens;
    Pow2Values();
  }

  // ---- the header ----

  // A run-length symbol of k bits stands for at most 18 k lengths.
  lemma {:induction false} RunsBound(clens: seq<nat>, acc: seq<nat>, runs: seq<RunSymbol>, result: seq<nat>)
    requires AllRunCoded(clens, runs) && Expands(acc, runs, result)
    ensures |result| <= |acc| + 18 * |EncodeRuns(clens, runs)|
    decreases |runs|
  {
    hide SymbolBits, LowBits;
    if runs != [] {
      assert RunCoded(clens, runs[0]);
      RunsBound(clens, Meaning(acc, runs[0]), runs[1..], result);
      RunBound(clens, acc, runs[0]);
    }
  }

  lemma RunBound(clens: seq<nat>, acc: seq<nat>, r: RunSymbol)
    requires RunCoded(clens, r) && ValidSymbol(r) && (r.code == REP_3_6 ==> acc != [])
    ensures |Meaning(acc, r)| <= |acc| + 18 * |EncodeRun(clens, r)|
  {
    assert Pow2(2) == 4 && Pow2(3) == 8 && Pow2(7) == 128;
  }

  // A length other than 0 comes from a symbol that spells it out, if it was not there before.
  lemma {:induction false} LengthSpelled(acc: seq<nat>, runs: seq<RunSymbol>, result: seq<nat>, x: nat)
    requires Expands(acc, runs, result) && x in result && x > 0
    ensures x in acc || exists i :: 0 <= i < |runs| && runs[i].code == x
    decreases |runs|
  {
    if runs != [] {
      var next := Meaning(acc, runs[0]);
      LengthSpelled(next, runs[1..], result, x);
      if x in next {
        SpelledBy(acc, runs[0], x);
      } else {
        var i :| 0 <= i < |runs[1..]| && runs[1..][i].code == x;
        assert runs[i + 1].code == x;
      }
    }
  }

  lemma SpelledBy(acc: seq<nat>, r: RunSymbol, x: nat)
    requires (r.code == REP_3_6 ==> acc != []) && x in Meaning(acc, r) && x > 0
    ensures x in acc || r.code == x
  {
    if r.code >= 16 {
      var y, n := if r.code == REP_3_6 then acc[|acc| - 1] else 0,
        if r.code == REP_3_6 || r.code == REPZ_3_10 then 3 + r.extra else 11 + r.extra;
      RepeatIs(y, n);
      assert Meaning(acc, r) == acc + Repeat(y, n);
    }
  }

  predicate NoMatches(syms: seq<Symbol>) {
    forall i :: 0 <= i < |syms| ==> syms[i].Literal?
  }

  // Without matches the distance tree has just the two codes that are forced, of one bit each.
  predicate LoneDistances(t: Tables, syms: seq<Symbol>) {
    NoMatches(syms) ==> 1 in t.dlens
  }

  // A header that gives a code a length of one bit has to send eighteen bit length codes.
  lemma OneBitCode(t: Tables)
    requires TablesFit(t) && 1 in t.dlens
    ensures t.blcodes >= 18
  {
    hide Expands, Complete, Meaning;
    var all := t.llens + t.dlens;
    var k :| 0 <= k < |t.dlens| && t.dlens[k] == 1;
    assert all[|t.llens| + k] == 1;
    LengthSpelled(t.llens, t.druns, all, 1);
    if 1 in t.llens {
      LengthSpelled([], t.lruns, t.llens, 1);
      var i :| 0 <= i < |t.lruns| && t.lruns[i].code == 1;
      assert RunCoded(t.clens, t.lruns[i]);
    } else {
      var i :| 0 <= i < |t.druns| && t.druns[i].code == 1;
      assert RunCoded(t.clens, t.druns[i]);
    }
    assert t.clens[1] > 0 && ORDER_RANK[1] == 17;
  }

  lemma HeaderBound(t: Tables)
    requires TablesFit(t) && 1 in t.dlens
    ensures |TablesBits(t)| >= 83
  {
    hide Expands, Complete, EncodeRuns, TablesBits;
    OneBitCode(t);
    TablesBitsAfter([], t);
    RunsBound(t.clens, [], t.lruns, t.llens);
    RunsBound(t.clens, t.llens, t.druns, t.llens + t.dlens);
    assert [] + TablesBits(t) == TablesBits(t);
  }

  // The dynamic form of a block of fifteen different literals and no match.
  lemma FifteenDynamic(t: Tables, syms: seq<Symbol>, lo: nat)
    requires DynamicFits(t, syms) && LoneDistances(t, syms)
    requires |syms| == 15 && lo + 15 <= END_BLOCK && forall i :: 0 <= i < |syms| ==> syms[i] == Literal(lo + i)
    ensures |TablesBits(t)| + |EncodeBody(t.llens, t.dlens, syms)| >= 147
  {
    hide Complete, AllCoded, HasCode, TablesFit, TablesBits, EncodeBody;
    HeaderBound(t);
    BodyBound(t.llens, t.dlens, syms, lo);
  }
}
