/** The bits of a block, as mathematics: how tables and symbols are spelled,
    and why the decoder of RFC 1951 reads them back. */
module BlockCoding {
  import opened Prelude
  import opened Bits
  import opened Inflate
  import opened Canonical
  import opened RunLength
  import opened Codes

  // ---- literals and matches ----

  // What deflate may hand to _tr_tally.
  predicate Sendable(sym: Symbol) {
    sym.Match? ==> MIN_MATCH <= sym.length <= MAX_MATCH && 1 <= sym.distance <= 32768
  }

  // The code of the literal and length alphabet, and of the distance alphabet.
  function LitCode(sym: Symbol): (c: nat)
    requires Sendable(sym)
    ensures c < 286 && c != END_BLOCK && (sym.Literal? <==> c < END_BLOCK)
  {
    match sym
    case Literal(b) => b
    case Match(length, _) => LengthCode(length - MIN_MATCH) + LITERALS + 1
  }

  function DisCode(sym: Symbol): (c: nat)
    requires Sendable(sym) && sym.Match?
    ensures c < D_CODES
  {
    DistCode(sym.distance - 1)
  }

  predicate HasCode(lens: seq<nat>, c: nat) {
    c < |lens| && lens[c] > 0
  }

  // Both tables have codes for the symbol.
  predicate Coded(llens: seq<nat>, dlens: seq<nat>, sym: Symbol) {
    && Sendable(sym) && HasCode(llens, LitCode(sym))
    && (sym.Match? ==> HasCode(dlens, DisCode(sym)))
  }

  // The extra bits of a length with code c, and of a distance with code d.
  function LengthExtra(lc: nat): (e: seq<bool>)
    requires lc < 256
    ensures |e| == LENGTH_EXTRA[LengthCode(lc)]
  {
    var c := LengthCode(lc);
    LowBits(if c == 28 then 0 else lc - BASE_LENGTH[c], LENGTH_EXTRA[c])
  }

  function DistExtra(d: nat): (e: seq<bool>)
    ensures |e| == DIST_EXTRA[DistCode(d)]
  {
    LowBits(d - BASE_DIST[DistCode(d)], DIST_EXTRA[DistCode(d)])
  }

  function EncodeSymbol(llens: seq<nat>, dlens: seq<nat>, sym: Symbol): seq<bool>
    requires Coded(llens, dlens, sym)
  {
    match sym
    case Literal(b) => SymbolBits(llens, b)
    case Match(length, distance) =>
      (SymbolBits(llens, LitCode(sym)) + LengthExtra(length - MIN_MATCH))
      + (SymbolBits(dlens, DisCode(sym)) + DistExtra(distance - 1))
  }

  predicate AllCoded(llens: seq<nat>, dlens: seq<nat>, syms: seq<Symbol>) {
    forall i :: 0 <= i < |syms| ==> Coded(llens, dlens, syms[i])
  }

  function EncodeSymbols(llens: seq<nat>, dlens: seq<nat>, syms: seq<Symbol>): seq<bool>
    requires AllCoded(llens, dlens, syms)
  {
    if syms == [] then [] else EncodeSymbol(llens, dlens, syms[0]) + EncodeSymbols(llens, dlens, syms[1..])
  }

  lemma {:induction false} EncodeSnoc(llens: seq<nat>, dlens: seq<nat>, syms: seq<Symbol>, sym: Symbol)
    requires AllCoded(llens, dlens, syms) && Coded(llens, dlens, sym)
    ensures AllCoded(llens, dlens, syms + [sym])
    ensures EncodeSymbols(llens, dlens, syms + [sym]) == EncodeSymbols(llens, dlens, syms)
            + EncodeSymbol(llens, dlens, sym)
  {
    hide Coded, EncodeSymbol;
    if syms == [] {
      assert syms + [sym] == [sym] && [sym][1..] == [];
    } else {
      assert (syms + [sym])[1..] == syms[1..] + [sym];
      EncodeSnoc(llens, dlens, syms[1..], sym);
    }
  }

  lemma ReadExtraSent(base: seq<nat>, extra: seq<nat>, code: nat, v: nat, s: seq<bool>, pos: nat)
    requires |base| == |extra| && code < |base| && v < Pow2(extra[code]) && At(s, pos, LowBits(v, extra[code]))
    ensures ReadExtra(base, extra, code, s, pos) == Some((base[code] + v, pos + extra[code]))
  {
    ReadNumber(s, pos, v, extra[code]);
  }

  lemma LengthRead(lc: nat, s: seq<bool>, pos: nat)
    requires lc < 256 && At(s, pos, LengthExtra(lc))
    ensures ReadExtra(LENGTH_BASE, LENGTH_EXTRA, LengthCode(lc), s, pos) ==
            Some((lc + MIN_MATCH, pos + |LengthExtra(lc)|))
  {
    hide LowBits, LengthCode;
    LengthParts(lc);
    var c := LengthCode(lc);
    ReadExtraSent(LENGTH_BASE, LENGTH_EXTRA, c, if c == 28 then 0 else lc - BASE_LENGTH[c], s, pos);
  }

  lemma DistRead(d: nat, s: seq<bool>, pos: nat)
    requires d < 32768 && At(s, pos, DistExtra(d))
    ensures ReadExtra(DIST_BASE, DIST_EXTRA, DistCode(d), s, pos) == Some((d + 1, pos + |DistExtra(d)|))
  {
    hide LowBits, DistCode, At, ReadExtra, Pow2;
    DistParts(d);
    ReadExtraSent(DIST_BASE, DIST_EXTRA, DistCode(d), d - BASE_DIST[DistCode(d)], s, pos);
  }

  lemma MatchAssembled(lengthCode: nat, dlens: seq<nat>, s: seq<bool>, pos: nat, sym: Symbol, p1: nat, dcode: nat,
                       p2: nat, p3: nat)
    requires sym.Match? && ReadExtra(LENGTH_BASE, LENGTH_EXTRA, lengthCode, s, pos) == Some((sym.length, p1))
    requires ReadSymbol(dlens, s, p1) == Some((dcode, p2))
    requires ReadExtra(DIST_BASE, DIST_EXTRA, dcode, s, p2) == Some((sym.distance, p3))
    ensures ReadMatch(lengthCode, dlens, s, pos) == Some((sym, p3))
  {
    hide ReadExtra, ReadSymbol;
  }

  lemma MatchBits(llens: seq<nat>, dlens: seq<nat>, sym: Symbol, s: seq<bool>, pos: nat)
    requires Coded(llens, dlens, sym) && sym.Match? && At(s, pos, EncodeSymbol(llens, dlens, sym))
    ensures var lc, d := sym.length - MIN_MATCH, sym.distance - 1;
            var p1 := pos + llens[LitCode(sym)];
            var p2 := p1 + |LengthExtra(lc)|;
            var p3 := p2 + dlens[DisCode(sym)];
            && At(s, pos, SymbolBits(llens, LitCode(sym))) && At(s, p1, LengthExtra(lc))
            && At(s, p2, SymbolBits(dlens, DisCode(sym))) && At(s, p3, DistExtra(d))
            && pos + |EncodeSymbol(llens, dlens, sym)| == p3 + |DistExtra(d)|
  {
    hide SymbolBits, LengthExtra, DistExtra, LengthCode, DistCode, At;
    var lc, d := sym.length - MIN_MATCH, sym.distance - 1;
    var a, b := SymbolBits(llens, LitCode(sym)), LengthExtra(lc);
    var c, e := SymbolBits(dlens, DisCode(sym)), DistExtra(d);
    AtSplit(s, pos, a + b, c + e);
    AtSplit(s, pos, a, b);
    AtSplit(s, pos + |a + b|, c, e);
  }

  // A match reads back as it was sent.
  lemma MatchRead(llens: seq<nat>, dlens: seq<nat>, sym: Symbol, s: seq<bool>, pos: nat)
    requires Complete(llens) && Complete(dlens) && Coded(llens, dlens, sym) && sym.Match?
    requires At(s, pos, EncodeSymbol(llens, dlens, sym))
    ensures var p := pos + llens[LitCode(sym)];
            && ReadSymbol(llens, s, pos) == Some((LitCode(sym), p))
            && ReadMatch(LitCode(sym) - END_BLOCK - 1, dlens, s, p) ==
                 Some((sym, pos + |EncodeSymbol(llens, dlens, sym)|))
  {
    hide Complete, SymbolBits, LengthExtra, DistExtra, LengthCode, DistCode, ReadSymbol, ReadExtra, ReadMatch,
      EncodeSymbol, At;
    var lc, d := sym.length - MIN_MATCH, sym.distance - 1;
    var p1 := pos + llens[LitCode(sym)];
    var p2 := p1 + |LengthExtra(lc)|;
    var p3 := p2 + dlens[DisCode(sym)];
    MatchBits(llens, dlens, sym, s, pos);
    ReadSent(llens, s, pos, LitCode(sym));
    LengthRead(lc, s, p1);
    ReadSent(dlens, s, p2, DisCode(sym));
    DistRead(d, s, p3);
    MatchAssembled(LitCode(sym) - END_BLOCK - 1, dlens, s, p1, sym, p2, DisCode(sym), p3, p3 + |DistExtra(d)|);
  }

  // The symbols of a block followed by the end-of-block code.
  function EncodeBody(llens: seq<nat>, dlens: seq<nat>, syms: seq<Symbol>): seq<bool>
    requires AllCoded(llens, dlens, syms) && HasCode(llens, END_BLOCK)
  {
    EncodeSymbols(llens, dlens, syms) + SymbolBits(llens, END_BLOCK)
  }

  // Decoding the body of a block gives exactly its symbols.
  lemma {:induction false} BodyRead(llens: seq<nat>, dlens: seq<nat>, syms: seq<Symbol>, s: seq<bool>, pos: nat)
    requires Complete(llens) && Complete(dlens) && AllCoded(llens, dlens, syms) && HasCode(llens, END_BLOCK)
    requires At(s, pos, EncodeBody(llens, dlens, syms))
    ensures ReadSymbols(llens, dlens, s, pos) == Some((syms, pos + |EncodeBody(llens, dlens, syms)|))
    decreases |syms|
  {
    hide Complete, SymbolBits, ReadSymbol, EncodeSymbol, EncodeSymbols, EncodeBody, ReadSymbols, At, Coded;
    if syms == [] {
      EmptyBody(llens, dlens);
      ReadSent(llens, s, pos, END_BLOCK);
      EndRead(llens, dlens, s, pos);
    } else {
      var sym, rest := syms[0], syms[1..];
      BodySplit(llens, dlens, syms);
      var e := EncodeSymbol(llens, dlens, sym);
      AtSplit(s, pos, e, EncodeBody(llens, dlens, rest));
      BodyRead(llens, dlens, rest, s, pos + |e|);
      SymbolRead(llens, dlens, sym, s, pos);
      assert syms == [sym] + rest;
    }
  }

  // One symbol of the body, whatever the rest reads as.
  lemma SymbolRead(llens: seq<nat>, dlens: seq<nat>, sym: Symbol, s: seq<bool>, pos: nat)
    requires Complete(llens) && Complete(dlens) && Coded(llens, dlens, sym)
    requires At(s, pos, EncodeSymbol(llens, dlens, sym))
    requires ReadSymbols(llens, dlens, s, pos + |EncodeSymbol(llens, dlens, sym)|).Some?
    ensures var rest := ReadSymbols(llens, dlens, s, pos + |EncodeSymbol(llens, dlens, sym)|).value;
            ReadSymbols(llens, dlens, s, pos) == Some(([sym] + rest.0, rest.1))
  {
    hide Complete, SymbolBits, ReadSymbol, ReadMatch, EncodeSymbol, LitCode, ReadSymbols, At;
    var q := pos + |EncodeSymbol(llens, dlens, sym)|;
    if sym.Literal? {
      LiteralRead(llens, dlens, sym, s, pos);
    } else {
      MatchRead(llens, dlens, sym, s, pos);
    }
    OneRead(llens, dlens, s, pos, sym, pos + llens[LitCode(sym)], q);
  }

  lemma EmptyBody(llens: seq<nat>, dlens: seq<nat>)
    requires HasCode(llens, END_BLOCK)
    ensures EncodeBody(llens, dlens, []) == SymbolBits(llens, END_BLOCK)
  {
  }

  lemma EndRead(llens: seq<nat>, dlens: seq<nat>, s: seq<bool>, pos: nat)
    requires ReadSymbol(llens, s, pos).Some? && ReadSymbol(llens, s, pos).value.0 == END_BLOCK
    ensures ReadSymbols(llens, dlens, s, pos) == Some(([], ReadSymbol(llens, s, pos).value.1))
  {
    hide ReadSymbol;
  }

  // One symbol is read, then the rest.
  lemma OneRead(llens: seq<nat>, dlens: seq<nat>, s: seq<bool>, pos: nat, sym: Symbol, p: nat, q: nat)
    requires Sendable(sym) && ReadSymbol(llens, s, pos) == Some((LitCode(sym), p))
    requires if sym.Literal? then q == p else ReadMatch(LitCode(sym) - END_BLOCK - 1, dlens, s, p) == Some((sym, q))
    requires ReadSymbols(llens, dlens, s, q).Some?
    ensures ReadSymbols(llens, dlens, s, pos) ==
            Some(([sym] + ReadSymbols(llens, dlens, s, q).value.0, ReadSymbols(llens, dlens, s, q).value.1))
  {
    hide ReadSymbol, ReadMatch, LengthCode;
  }

  lemma BodySplit(llens: seq<nat>, dlens: seq<nat>, syms: seq<Symbol>)
    requires AllCoded(llens, dlens, syms) && HasCode(llens, END_BLOCK) && syms != []
    ensures AllCoded(llens, dlens, syms[1..]) && Coded(llens, dlens, syms[0])
    ensures EncodeBody(llens, dlens, syms) == EncodeSymbol(llens, dlens, syms[0]) + EncodeBody(llens, dlens, syms[1..])
  {
    hide Coded, EncodeSymbol, SymbolBits;
  }

  lemma LiteralRead(llens: seq<nat>, dlens: seq<nat>, sym: Symbol, s: seq<bool>, pos: nat)
    requires Complete(llens) && Coded(llens, dlens, sym) && sym.Literal?
    requires At(s, pos, EncodeSymbol(llens, dlens, sym))
    ensures ReadSymbol(llens, s, pos) == Some((LitCode(sym), pos + |EncodeSymbol(llens, dlens, sym)|))
    ensures |EncodeSymbol(llens, dlens, sym)| == llens[LitCode(sym)]
  {
    ReadSent(llens, s, pos, LitCode(sym));
  }

  // ---- code length tables ----

  predicate RunCoded(clens: seq<nat>, r: RunSymbol) {
    HasCode(clens, r.code)
  }

  predicate AllRunCoded(clens: seq<nat>, runs: seq<RunSymbol>) {
    forall i :: 0 <= i < |runs| ==> RunCoded(clens, runs[i])
  }

  function EncodeRun(clens: seq<nat>, r: RunSymbol): (e: seq<bool>)
    requires RunCoded(clens, r)
    ensures |e| == clens[r.code] + ExtraBits(r.code)
  {
    SymbolBits(clens, r.code) + LowBits(r.extra, ExtraBits(r.code))
  }

  function EncodeRuns(clens: seq<nat>, runs: seq<RunSymbol>): seq<bool>
    requires AllRunCoded(clens, runs)
  {
    if runs == [] then [] else EncodeRun(clens, runs[0]) + EncodeRuns(clens, runs[1..])
  }

  lemma {:induction false} RunsConcat(clens: seq<nat>, a: seq<RunSymbol>, b: seq<RunSymbol>)
    requires AllRunCoded(clens, a) && AllRunCoded(clens, b)
    ensures AllRunCoded(clens, a + b)
    ensures EncodeRuns(clens, a + b) == EncodeRuns(clens, a) + EncodeRuns(clens, b)
    decreases |a|
  {
    hide RunCoded, EncodeRun;
    if a == [] {
      assert a + b == b;
    } else {
      assert (a + b)[0] == a[0] && (a + b)[1..] == a[1..] + b;
      RunsConcat(clens, a[1..], b);
    }
  }

  lemma {:induction false} ExpandsGrows(acc: seq<nat>, runs: seq<RunSymbol>, result: seq<nat>)
    requires Expands(acc, runs, result)
    ensures |acc| <= |result|
    decreases |runs|
  {
    if runs != [] {
      ExpandsGrows(Meaning(acc, runs[0]), runs[1..], result);
    }
  }

  // The run-length symbols read back as the lengths they expand to.
  lemma {:induction false} RunsRead(clens: seq<nat>, acc: seq<nat>, runs: seq<RunSymbol>, result: seq<nat>,
                                    s: seq<bool>, pos: nat)
    requires Complete(clens) && AllRunCoded(clens, runs) && Expands(acc, runs, result)
    requires At(s, pos, EncodeRuns(clens, runs))
    ensures |acc| <= |result|
    ensures ReadLengths(clens, s, pos, acc, |result| - |acc|) == Some((result, pos + |EncodeRuns(clens, runs)|))
    decreases |runs|
  {
    hide Complete, SymbolBits, ReadSymbol, LowBits, Repeat, Pow2, ReadLengths, Meaning, At, ReadBits;
    ExpandsGrows(acc, runs, result);
    if runs == [] {
      NoneRead(clens, s, pos, acc);
    } else {
      var r, rest := runs[0], runs[1..];
      assert RunCoded(clens, r);
      AtSplit(s, pos, EncodeRun(clens, r), EncodeRuns(clens, rest));
      AtSplit(s, pos, SymbolBits(clens, r.code), LowBits(r.extra, ExtraBits(r.code)));
      ReadSent(clens, s, pos, r.code);
      ReadNumber(s, pos + clens[r.code], r.extra, ExtraBits(r.code));
      RunsRead(clens, Meaning(acc, r), rest, result, s, pos + |EncodeRun(clens, r)|);
      RunRead(clens, s, pos, acc, |result| - |acc|, r, pos + clens[r.code]);
    }
  }

  lemma NoneRead(clens: seq<nat>, s: seq<bool>, pos: nat, acc: seq<nat>)
    ensures ReadLengths(clens, s, pos, acc, 0) == Some((acc, pos))
  {
  }

  // One run-length symbol is read, then the rest.
  lemma RunRead(clens: seq<nat>, s: seq<bool>, pos: nat, acc: seq<nat>, n: nat, r: RunSymbol, p: nat)
    requires ValidSymbol(r) && (r.code == REP_3_6 ==> acc != [])
    requires ReadSymbol(clens, s, pos) == Some((r.code, p)) && ReadBits(s, p, ExtraBits(r.code)) == Some(r.extra)
    requires |Meaning(acc, r)| <= |acc| + n
    ensures |Meaning(acc, r)| > |acc|
    ensures ReadLengths(clens, s, pos, acc, n)
         == ReadLengths(clens, s, p + ExtraBits(r.code), Meaning(acc, r), |acc| + n - |Meaning(acc, r)|)
  {
    hide ReadSymbol, ReadBits, Repeat, Pow2;
  }

  // ---- the lengths of the bit length codes, in their transmission order ----

  function OrderedBits(clens: seq<nat>, n: nat): (e: seq<bool>)
    requires n <= |clens| == BL_CODES
    ensures |e| == 3 * n
  {
    if n == 0 then [] else OrderedBits(clens, n - 1) + LowBits(clens[LENGTH_ORDER[n - 1]], 3)
  }

  const ORDER_RANK: seq<nat> := [3, 17, 15, 13, 11, 9, 7, 5, 4, 6, 8, 10, 12, 14, 16, 18, 0, 1, 2]

  lemma OrderIsPermutation(i: nat)
    requires i < BL_CODES
    ensures LENGTH_ORDER[i] < BL_CODES && ORDER_RANK[i] < BL_CODES
    ensures LENGTH_ORDER[ORDER_RANK[i]] == i && ORDER_RANK[LENGTH_ORDER[i]] == i
  {
  }

  // known agrees with clens on the first rank places of the order and is zero elsewhere.
  ghost predicate KnownUpTo(known: seq<nat>, clens: seq<nat>, rank: nat) {
    && |known| == |clens| == BL_CODES
    && (forall i :: 0 <= i < BL_CODES ==> known[i] == if ORDER_RANK[i] < rank then clens[i] else 0)
  }

  lemma {:induction false} OrderedRead(clens: seq<nat>, n: nat, known: seq<nat>, rank: nat, s: seq<bool>, pos: nat)
    requires rank <= n <= |clens| == BL_CODES && KnownUpTo(known, clens, rank)
    requires forall i :: 0 <= i < BL_CODES ==> clens[i] < 8 && (ORDER_RANK[i] >= n ==> clens[i] == 0)
    requires At(s, pos, OrderedBits(clens, n))
    ensures ReadOrdered(s, pos + 3 * rank, known, rank, n) == Some(clens)
    decreases n - rank
  {
    hide LowBits, Pow2, ReadOrdered, ReadBits, At, OrderedBits, KnownUpTo;
    if rank == n {
      KnownAll(known, clens, n);
      OrderedDone(s, pos + 3 * rank, known, n);
    } else {
      var j := LENGTH_ORDER[rank];
      OrderIsPermutation(rank);
      OrderedAt(clens, n, rank, s, pos);
      Pow2Values();
      ReadNumber(s, pos + 3 * rank, clens[j], 3);
      KnowMore(known, clens, rank);
      var more := known[j := clens[j]];
      OrderedRead(clens, n, more, rank + 1, s, pos);
      OrderedStep(s, pos + 3 * rank, known, rank, n, clens[j]);
    }
  }

  lemma KnownAll(known: seq<nat>, clens: seq<nat>, n: nat)
    requires KnownUpTo(known, clens, n) && |clens| == BL_CODES
    requires forall i :: 0 <= i < BL_CODES && ORDER_RANK[i] >= n ==> clens[i] == 0
    ensures known == clens
  {
  }

  lemma KnowMore(known: seq<nat>, clens: seq<nat>, rank: nat)
    requires rank < BL_CODES && KnownUpTo(known, clens, rank)
    ensures LENGTH_ORDER[rank] < BL_CODES == |known|
            && KnownUpTo(known[LENGTH_ORDER[rank] := clens[LENGTH_ORDER[rank]]], clens, rank + 1)
  {
    OrderIsPermutation(rank);
    var j := LENGTH_ORDER[rank];
    var more := known[j := clens[j]];
    forall i | 0 <= i < BL_CODES
      ensures more[i] == if ORDER_RANK[i] < rank + 1 then clens[i] else 0
    {
      OrderIsPermutation(i);
    }
  }

  lemma OrderedDone(s: seq<bool>, pos: nat, known: seq<nat>, n: nat)
    requires n <= |known| == BL_CODES
    ensures ReadOrdered(s, pos, known, n, n) == Some(known)
  {
  }

  lemma OrderedStep(s: seq<bool>, pos: nat, known: seq<nat>, rank: nat, n: nat, x: nat)
    requires rank < n <= |known| == BL_CODES && ReadBits(s, pos, 3) == Some(x) && LENGTH_ORDER[rank] < BL_CODES
    ensures ReadOrdered(s, pos, known, rank, n) == ReadOrdered(s, pos + 3, known[LENGTH_ORDER[rank] := x], rank + 1, n)
  {
    hide ReadBits;
  }

  lemma {:induction false} OrderedAt(clens: seq<nat>, n: nat, rank: nat, s: seq<bool>, pos: nat)
    requires rank < n <= |clens| == BL_CODES && At(s, pos, OrderedBits(clens, n))
    ensures At(s, pos + 3 * rank, LowBits(clens[LENGTH_ORDER[rank]], 3))
    decreases n
  {
    hide LowBits;
    AtSplit(s, pos, OrderedBits(clens, n - 1), LowBits(clens[LENGTH_ORDER[n - 1]], 3));
    if rank < n - 1 {
      OrderedAt(clens, n - 1, rank, s, pos);
    }
  }

  // ---- the header of a dynamic block ----

  // What the header of a dynamic block describes: both tables, the bit length code and how much of it is sent.
  datatype Tables = Tables(llens: seq<nat>, dlens: seq<nat>, clens: seq<nat>, blcodes: nat, lruns: seq<RunSymbol>,
    druns: seq<RunSymbol>)

  ghost predicate TablesFit(t: Tables) {
    && 257 <= |t.llens| <= 286 && 1 <= |t.dlens| <= 30
    && |t.clens| == BL_CODES && 4 <= t.blcodes <= BL_CODES && Complete(t.clens)
    && (forall i :: 0 <= i < BL_CODES ==> t.clens[i] < 8 && (ORDER_RANK[i] >= t.blcodes ==> t.clens[i] == 0))
    && AllRunCoded(t.clens, t.lruns) && AllRunCoded(t.clens, t.druns)
    && Expands([], t.lruns, t.llens) && Expands(t.llens, t.druns, t.llens + t.dlens)
  }

  function CountBits(t: Tables): (e: seq<bool>)
    requires |t.llens| >= 257 && |t.dlens| >= 1 && t.blcodes >= 4
    ensures |e| == 14
  {
    LowBits(|t.llens| - 257, 5) + LowBits(|t.dlens| - 1, 5) + LowBits(t.blcodes - 4, 4)
  }

  ghost function TablesBits(t: Tables): seq<bool>
    requires TablesFit(t)
  {
    CountBits(t) + OrderedBits(t.clens, t.blcodes) + EncodeRuns(t.clens, t.lruns) + EncodeRuns(t.clens, t.druns)
  }

  // The same with anything before it, as the sender appends it.
  lemma TablesBitsAfter(start: seq<bool>, t: Tables)
    requires TablesFit(t)
    ensures start + TablesBits(t) == start + CountBits(t) + OrderedBits(t.clens, t.blcodes)
            + EncodeRuns(t.clens, t.lruns) + EncodeRuns(t.clens, t.druns)
    ensures |TablesBits(t)| == 14 + 3 * t.blcodes + |EncodeRuns(t.clens, t.lruns)| + |EncodeRuns(t.clens, t.druns)|
  {
    hide CountBits, OrderedBits, EncodeRuns, Complete, Expands, AllRunCoded;
    var a, b, c, d := CountBits(t), OrderedBits(t.clens, t.blcodes), EncodeRuns(t.clens, t.lruns),
      EncodeRuns(t.clens, t.druns);
    assert start + (a + b + c + d) == start + a + b + c + d;
  }

  lemma OrderedNext(start: seq<bool>, clens: seq<nat>, n: nat)
    requires n < |clens| == BL_CODES
    ensures LENGTH_ORDER[n] < BL_CODES
    ensures start + OrderedBits(clens, n + 1) == start + OrderedBits(clens, n) + LowBits(clens[LENGTH_ORDER[n]], 3)
  {
    hide LowBits;
    OrderIsPermutation(n);
    assert start + (OrderedBits(clens, n) + LowBits(clens[LENGTH_ORDER[n]], 3)) == start + OrderedBits(clens, n)
      + LowBits(clens[LENGTH_ORDER[n]], 3);
  }

  lemma TablesShape(t: Tables)
    requires TablesFit(t)
    ensures 257 <= |t.llens| <= 286 && 1 <= |t.dlens| <= 30 && |t.clens| == BL_CODES && 4 <= t.blcodes <= BL_CODES
    ensures AllRunCoded(t.clens, t.lruns) && AllRunCoded(t.clens, t.druns)
    ensures forall i :: 0 <= i < BL_CODES ==> t.clens[i] < 8
  {
    hide Complete, Expands, RunCoded;
  }

  lemma CountsRead(t: Tables, s: seq<bool>, pos: nat)
    requires 257 <= |t.llens| <= 286 && 1 <= |t.dlens| <= 30 && 4 <= t.blcodes <= BL_CODES
    requires At(s, pos, CountBits(t))
    ensures ReadBits(s, pos, 5) == Some(|t.llens| - 257) && ReadBits(s, pos + 5, 5) == Some(|t.dlens| - 1)
    ensures ReadBits(s, pos + 10, 4) == Some(t.blcodes - 4)
  {
    hide LowBits, Pow2;
    var a, b, c := LowBits(|t.llens| - 257, 5), LowBits(|t.dlens| - 1, 5), LowBits(t.blcodes - 4, 4);
    AtSplit(s, pos, a + b, c);
    AtSplit(s, pos, a, b);
    Pow2Values();
    ReadNumber(s, pos, |t.llens| - 257, 5);
    ReadNumber(s, pos + 5, |t.dlens| - 1, 5);
    ReadNumber(s, pos + 10, t.blcodes - 4, 4);
  }

  // The header of a dynamic block reads back as the tables it was written for.
  lemma TablesRead(t: Tables, s: seq<bool>, pos: nat)
    requires TablesFit(t) && At(s, pos, TablesBits(t))
    ensures ReadTables(s, pos) == Some((t.llens, t.dlens, pos + |TablesBits(t)|))
  {
    hide Complete, CountBits, OrderedBits, EncodeRuns, Expands, ReadOrdered, ReadLengths, ReadBits, AllRunCoded;
    var a, b, c, d := CountBits(t), OrderedBits(t.clens, t.blcodes), EncodeRuns(t.clens, t.lruns),
      EncodeRuns(t.clens, t.druns);
    AtSplit(s, pos, a + b + c, d);
    AtSplit(s, pos, a + b, c);
    AtSplit(s, pos, a, b);
    CountsRead(t, s, pos);
    NothingKnown(t.clens);
    OrderedRead(t.clens, t.blcodes, Repeat(0, BL_CODES), 0, s, pos + 14);
    var p := pos + 14 + 3 * t.blcodes;
    var runs := t.lruns + t.druns;
    RunsConcat(t.clens, t.lruns, t.druns);
    ExpandsConcat([], t.lruns, t.llens, t.druns, t.llens + t.dlens);
    AtSplit(s, p, c, d);
    RunsRead(t.clens, [], runs, t.llens + t.dlens, s, p);
    var all := t.llens + t.dlens;
    assert all[..|t.llens|] == t.llens && all[|t.llens|..] == t.dlens;
  }

  lemma NothingKnown(clens: seq<nat>)
    requires |clens| == BL_CODES
    ensures KnownUpTo(Repeat(0, BL_CODES), clens, 0)
  {
    RepeatIs(0, BL_CODES);
  }

  lemma {:induction false} RepeatIs(x: nat, n: nat)
    ensures forall i :: 0 <= i < n ==> Repeat(x, n)[i] == x
  {
    if n > 0 {
      RepeatIs(x, n - 1);
    }
  }
}
