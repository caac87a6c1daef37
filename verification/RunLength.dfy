/** Run-length coding of code lengths: the symbols scan_tree counts and send_tree sends,
    and why section 3.2.7 of RFC 1951 expands them to the lengths they came from. */
module RunLength {
  import opened Prelude
  import opened Bits
  import opened Inflate
  import opened Canonical

  const REP_3_6: nat := 16
  const REPZ_3_10: nat := 17
  const REPZ_11_138: nat := 18

  // One code of the bit length alphabet with the value of its extra bits.
  datatype RunSymbol = RunSymbol(code: nat, extra: nat)

  function ExtraBits(code: nat): nat {
    if code == REP_3_6 then 2 else if code == REPZ_3_10 then 3 else if code == REPZ_11_138 then 7 else 0
  }

  // The limits on the length of a run, from the length before it and its own length.
  datatype Run = Run(prevlen: int, count: nat, maxCount: nat, minCount: nat)

  function NewRun(prevlen: int, len: nat): Run {
    if len == 0 then Run(prevlen, 0, 138, 3)
    else if prevlen == len then Run(prevlen, 0, 6, 3)
    else Run(prevlen, 0, 7, 4)
  }

  function Copies(len: nat, n: nat): seq<RunSymbol> {
    if n == 0 then [] else [RunSymbol(len, 0)] + Copies(len, n - 1)
  }

  // The symbols for a run of count codes of length len.
  function RunSymbols(len: nat, count: nat, prevlen: int, minCount: nat): seq<RunSymbol>
    requires minCount == NewRun(prevlen, len).minCount
  {
    if count < minCount then Copies(len, count)
    else if len != 0 then
      if len != prevlen then [RunSymbol(len, 0), RunSymbol(REP_3_6, count - 4)]
      else [RunSymbol(REP_3_6, count - 3)]
    else if count <= 10 then [RunSymbol(REPZ_3_10, count - 3)]
    else [RunSymbol(REPZ_11_138, count - 11)]
  }

  // The symbols for codes n..=maxCode of a table, the run r being under way.
  function Symbols(dl: seq<nat>, n: nat, maxCode: nat, r: Run): seq<RunSymbol>
    requires maxCode + 1 < |dl| && (n <= maxCode ==> r.minCount == NewRun(r.prevlen, dl[n]).minCount)
    decreases maxCode + 1 - n
  {
    if n > maxCode then [] else
      var len, next := dl[n], dl[n + 1];
      if r.count + 1 < r.maxCount && len == next then Symbols(dl, n + 1, maxCode, r.(count := r.count + 1))
      else RunSymbols(len, r.count + 1, r.prevlen, r.minCount) + Symbols(dl, n + 1, maxCode, NewRun(len, next))
  }

  function TableSymbols(dl: seq<nat>, maxCode: nat): seq<RunSymbol>
    requires maxCode + 1 < |dl|
  {
    Symbols(dl, 0, maxCode, NewRun(-1, dl[0]))
  }

  // ---- what the symbols mean ----

  // Section 3.2.7: the lengths a symbol adds to those before it.
  function Meaning(acc: seq<nat>, s: RunSymbol): seq<nat>
    requires s.code == REP_3_6 ==> acc != []
  {
    if s.code < 16 then acc + [s.code]
    else if s.code == REP_3_6 then acc + Repeat(acc[|acc| - 1], 3 + s.extra)
    else if s.code == REPZ_3_10 then acc + Repeat(0, 3 + s.extra)
    else acc + Repeat(0, 11 + s.extra)
  }

  predicate ValidSymbol(s: RunSymbol) {
    s.code <= 18 && s.extra < Pow2(ExtraBits(s.code))
  }

  // Expanding the symbols after acc gives exactly the lengths result.
  predicate Expands(acc: seq<nat>, syms: seq<RunSymbol>, result: seq<nat>)
    decreases |syms|
  {
    if syms == [] then acc == result else
      && ValidSymbol(syms[0]) && (syms[0].code == REP_3_6 ==> acc != [])
      && Expands(Meaning(acc, syms[0]), syms[1..], result)
  }

  lemma {:induction false} ExpandsConcat(acc: seq<nat>, a: seq<RunSymbol>, mid: seq<nat>, b: seq<RunSymbol>,
                                         result: seq<nat>)
    requires Expands(acc, a, mid) && Expands(mid, b, result)
    ensures Expands(acc, a + b, result)
    decreases |a|
  {
    if a == [] {
      assert a + b == b;
    } else {
      assert (a + b)[0] == a[0] && (a + b)[1..] == a[1..] + b;
      ExpandsConcat(Meaning(acc, a[0]), a[1..], mid, b, result);
    }
  }

  lemma {:induction false} RepeatSplit(x: nat, a: nat, b: nat)
    ensures Repeat(x, a) + Repeat(x, b) == Repeat(x, a + b)
  {
    if b > 0 {
      RepeatSplit(x, a, b - 1);
      assert Repeat(x, a) + (Repeat(x, b - 1) + [x]) == (Repeat(x, a) + Repeat(x, b - 1)) + [x];
    }
  }

  lemma {:induction false} RepeatAll(s: seq<nat>, x: nat)
    requires forall i :: 0 <= i < |s| ==> s[i] == x
    ensures s == Repeat(x, |s|)
  {
    if s != [] {
      RepeatAll(s[..|s| - 1], x);
    }
  }

  lemma {:induction false} CopiesExpand(acc: seq<nat>, len: nat, n: nat)
    requires len <= MAX_BITS
    ensures Expands(acc, Copies(len, n), acc + Repeat(len, n))
    decreases n
  {
    hide Expands, Repeat;
    if n == 0 {
      RepeatNone(len);
      ExpandsNone(acc);
      assert acc + [] == acc;
    } else {
      var one := [RunSymbol(len, 0)];
      ExpandsOne(acc, one[0]);
      CopiesExpand(acc + [len], len, n - 1);
      RepeatOne(len);
      RepeatSplit(len, 1, n - 1);
      assert acc + [len] + Repeat(len, n - 1) == acc + ([len] + Repeat(len, n - 1));
      ExpandsConcat(acc, one, acc + [len], Copies(len, n - 1), acc + Repeat(len, n));
    }
  }

  lemma RepeatNone(len: nat)
    ensures Repeat(len, 0) == []
  {
  }

  lemma RepeatOne(len: nat)
    ensures Repeat(len, 1) == [len]
  {
  }

  // The run state fits the length of the codes it counts.
  predicate Fits(r: Run, len: nat) {
    r == NewRun(r.prevlen, len).(count := r.count) && r.count < r.maxCount
  }

  // acc ends in the length before the run.
  predicate EndsIn(acc: seq<nat>, prevlen: int) {
    prevlen < 0 || (acc != [] && acc[|acc| - 1] == prevlen)
  }

  lemma RunExpands(acc: seq<nat>, len: nat, r: Run)
    requires len <= MAX_BITS && Fits(r, len) && EndsIn(acc, r.prevlen)
    ensures Expands(acc, RunSymbols(len, r.count + 1, r.prevlen, r.minCount), acc + Repeat(len, r.count + 1))
  {
    Pow2Small();
    var count := r.count + 1;
    if count < r.minCount {
      CopiesExpand(acc, len, count);
    } else if len != 0 && len != r.prevlen {
      var first, then' := RunSymbol(len, 0), RunSymbol(REP_3_6, count - 4);
      var mid := acc + [len];
      RepeatSplit(len, 1, count - 1);
      assert Repeat(len, 1) == [len];
      assert mid + Repeat(len, count - 1) == acc + ([len] + Repeat(len, count - 1));
      ExpandsOne(mid, then');
      assert [first, then'][1..] == [then'];
    } else if len != 0 {
      ExpandsOne(acc, RunSymbol(REP_3_6, count - 3));
    } else if count <= 10 {
      ExpandsOne(acc, RunSymbol(REPZ_3_10, count - 3));
    } else {
      ExpandsOne(acc, RunSymbol(REPZ_11_138, count - 11));
    }
  }

  lemma Pow2Small()
    ensures Pow2(0) == 1 && Pow2(2) == 4 && Pow2(3) == 8 && Pow2(7) == 128
  {
    Pow2Values();
  }

  lemma ExpandsOne(acc: seq<nat>, s: RunSymbol)
    requires ValidSymbol(s) && (s.code == REP_3_6 ==> acc != [])
    ensures Expands(acc, [s], Meaning(acc, s))
  {
    assert [s][1..] == [];
  }

  // The codes counted by the run r and the codes from n on.
  lemma {:induction false} SymbolsExpand(acc: seq<nat>, dl: seq<nat>, n: nat, maxCode: nat, r: Run)
    requires maxCode + 1 < |dl| && n <= maxCode + 1 && r.count <= n && dl[maxCode + 1] > MAX_BITS
    requires forall i :: 0 <= i <= maxCode ==> dl[i] <= MAX_BITS
    requires forall i :: n - r.count <= i < n && n <= maxCode ==> dl[i] == dl[n]
    requires if n <= maxCode then Fits(r, dl[n]) else r.count == 0
    requires EndsIn(acc, r.prevlen)
    ensures Expands(acc, Symbols(dl, n, maxCode, r), acc + dl[n - r.count..maxCode + 1])
    decreases maxCode + 1 - n
  {
    hide Expands, RunSymbols, Repeat;
    if n > maxCode {
      ExpandsNone(acc);
      assert acc + dl[n..maxCode + 1] == acc;
    } else {
      var len, next := dl[n], dl[n + 1];
      if r.count + 1 < r.maxCount && len == next {
        SymbolsExpand(acc, dl, n + 1, maxCode, r.(count := r.count + 1));
      } else {
        var run := dl[n - r.count..n + 1];
        RepeatAll(run, len);
        RunExpands(acc, len, r);
        var mid, rest := acc + run, Symbols(dl, n + 1, maxCode, NewRun(len, next));
        SymbolsExpand(mid, dl, n + 1, maxCode, NewRun(len, next));
        Spliced(acc, dl, n - r.count, n + 1, maxCode + 1);
        ExpandsConcat(acc, RunSymbols(len, r.count + 1, r.prevlen, r.minCount), mid, rest,
                      acc + dl[n - r.count..maxCode + 1]);
      }
    }
  }

  lemma Spliced(acc: seq<nat>, dl: seq<nat>, a: nat, b: nat, c: nat)
    requires a <= b <= c <= |dl|
    ensures acc + dl[a..b] + dl[b..c] == acc + dl[a..c]
  {
  }

  lemma ExpandsNone(acc: seq<nat>)
    ensures Expands(acc, [], acc)
  {
  }

  // The run-length coding loses nothing: expanding the symbols of a table gives the table back,
  // whatever table was sent before it.
  lemma TableExpands(acc: seq<nat>, dl: seq<nat>, maxCode: nat)
    requires maxCode + 1 < |dl| && dl[maxCode + 1] > MAX_BITS
    requires forall i :: 0 <= i <= maxCode ==> dl[i] <= MAX_BITS
    ensures Expands(acc, TableSymbols(dl, maxCode), acc + dl[..maxCode + 1])
  {
    SymbolsExpand(acc, dl, 0, maxCode, NewRun(-1, dl[0]));
  }
}
