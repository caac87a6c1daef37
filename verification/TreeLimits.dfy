/** Length limiting, the final accounts and the optimality of unclamped trees. */
module TreeLimits {
  import opened Prelude
  import opened Bits
  import opened Inflate
  import opened Canonical
  import opened Heaps
  import opened Huffman
  import opened TreeShape
  import opened LengthCounts
  import opened TreeCosts
  import opened NodeList
  import opened LeafHeap
  import opened MergeLoop
  import opened TreeOrder
  import opened CodeGen

  lemma ExcessShape(bl: seq<nat>, max: nat, excess: int, n: nat)
    requires Excess(bl, max, excess, n)
    ensures 1 <= max <= MAX_BITS && |bl| == MAX_BITS + 1 && excess >= 0 && excess % 2 == 0
    ensures Total(bl, max) == n && bl[0] == 0 && forall b :: max < b <= MAX_BITS ==> bl[b] == 0
  {
  }

  // Handing out lengths: cnt counts those given so far, n more leaves get bits, the rest get less.
  ghost predicate Handing(leaves: set<nat>, left: set<nat>, dl: seq<nat>, cnt: seq<nat>, bl: seq<nat>, max: nat,
                          bits: nat, n: nat) {
    && |bl| == |cnt| == MAX_BITS + 1 && 1 <= bits <= max <= MAX_BITS && bl[0] == 0
    && left <= leaves && Within(leaves, dl) && Counts(leaves - left, dl, cnt)
    && cnt[bits] + n == bl[bits] && |left| == n + Total(bl, bits - 1)
    && (forall b :: 0 <= b < bits ==> cnt[b] == 0)
    && (forall b :: bits < b <= MAX_BITS ==> cnt[b] == bl[b])
    && (forall x :: x in leaves - left ==> 1 <= dl[x] <= max)
  }

  lemma HandStart(leaves: set<nat>, dl: seq<nat>, bl: seq<nat>, max: nat)
    requires Excess(bl, max, 0, |leaves|) && Within(leaves, dl)
    ensures 1 <= max <= MAX_BITS && |bl| == MAX_BITS + 1
    ensures Handing(leaves, leaves, dl, seq(MAX_BITS + 1, _ => 0), bl, max, max, bl[max])
  {
    assert leaves - leaves == {};
    CountsEmpty(dl, seq(MAX_BITS + 1, _ => 0));
  }

  lemma HandOne(leaves: set<nat>, left: set<nat>, dl: seq<nat>, cnt: seq<nat>, bl: seq<nat>, max: nat, bits: nat,
                n: nat,
                m: nat, freq: seq<nat>, desc: StaticTree)
    requires Handing(leaves, left, dl, cnt, bl, max, bits, n) && n > 0 && m in left && Within(leaves, freq)
    ensures Handing(leaves, left - {m}, dl[m := bits], cnt[bits := cnt[bits] + 1], bl, max, bits, n - 1)
    ensures BitCost(leaves, freq, dl[m := bits], desc) == BitCost(leaves, freq, dl, desc) + (bits - dl[m]) * freq[m]
    ensures dl[m] == bits ==> dl[m := bits] == dl
  {
    hide BitCost, Counts, Total;
    var dl' := dl[m := bits];
    assert leaves - (left - {m}) == (leaves - left) + {m};
    CountsSame(leaves - left, dl, dl', cnt);
    CountsInsert(leaves - left, dl', cnt, m);
    BitCostUpdate(leaves, freq, dl, desc, m, bits);
  }

  lemma SomeLeft(leaves: set<nat>, left: set<nat>, dl: seq<nat>, cnt: seq<nat>, bl: seq<nat>, max: nat, bits: nat,
                 n: nat)
    requires Handing(leaves, left, dl, cnt, bl, max, bits, n) && n > 0
    ensures left != {} && |cnt| == MAX_BITS + 1 && bits <= MAX_BITS
  {
  }

  lemma HandNext(leaves: set<nat>, left: set<nat>, dl: seq<nat>, cnt: seq<nat>, bl: seq<nat>, max: nat, bits: nat)
    requires Handing(leaves, left, dl, cnt, bl, max, bits, 0)
    ensures bits > 1 ==> Handing(leaves, left, dl, cnt, bl, max, bits - 1, bl[bits - 1])
    ensures bits == 1 ==> Counts(leaves, dl, bl) && left == {} && forall x :: x in leaves ==> 1 <= dl[x] <= max
  {
    if bits == 1 {
      assert left == {};
      assert leaves - left == leaves;
      assert cnt == bl;
    }
  }

  // ---- what the finished tree promises ----

  // No prefix code for these frequencies costs less than the lengths of the tree.
  ghost predicate Optimal(nodes: set<nat>, freq: seq<nat>, dl: seq<nat>)
    requires Within(nodes, freq) && Within(nodes, dl)
  {
    forall code: Code :: PrefixCode(nodes, code) ==>
      Cost(nodes, freq, AsLengths(nodes, dl)) <= Cost(nodes, freq, CodeLengths(nodes, code))
  }

  lemma CostSameWeights(nodes: set<nat>, w: seq<nat>, w': seq<nat>, l: Lengths)
    requires Weighed(nodes, w) && Weighed(nodes, w') && nodes <= l.Keys
    requires forall x :: x in nodes ==> w[x] == w'[x]
    ensures Cost(nodes, w, l) == Cost(nodes, w', l)
  {
    assert CostMap(nodes, w, l) == CostMap(nodes, w', l);
  }

  // Huffman's construction is optimal as long as no length is clamped.
  lemma UnclampedOptimal(fc: seq<nat>, freq: seq<nat>, leaves: set<nat>, elems: nat, script: seq<Merge>, max: nat,
                         dl: seq<nat>)
    requires Scripted(fc, leaves, elems, script) && |leaves| == |script| + 1 && script != [] && max >= 1
    requires Clamped(LengthsFrom(elems, script, max, 0), elems, |script|, 0, max) == 0
    requires Within(leaves, dl) && Within(leaves, freq) && forall x :: x in leaves ==> x < elems && freq[x] == fc[x]
    requires forall x :: x in leaves ==>
             x in LengthsFrom(elems, script, max, 0)
             && dl[x] == LengthsFrom(elems, script, max, 0)[x]
    ensures Optimal(leaves, freq, dl)
  {
    hide Active, ValidScript, Additive, Greedy, Cost, LengthsFrom, TreeLengths, Clamped, Feasible, PrefixCode;
    var l := LengthsFrom(elems, script, max, 0);
    LengthsAreTreeLengths(leaves, elems, script, max);
    StartActive(leaves, elems);
    assert script[..0] == [];
    TreeCost(leaves, fc, elems, script, l, max, 0);
    assert FatherWeights(fc, elems, []) == 0;
    CostSame(leaves, fc, l, AsLengths(leaves, dl));
    CostSameWeights(leaves, fc, freq, AsLengths(leaves, dl));
    forall code: Code | PrefixCode(leaves, code)
      ensures leaves <= code.Keys && Cost(leaves, freq, AsLengths(leaves, dl)) <= Cost(leaves, freq,
              CodeLengths(leaves, code))
    {
      CodeIsBounded(leaves, code);
      var q := Longest(leaves, CodeLengths(leaves, code));
      var b := |code[q]|;
      KraftInequality(leaves, code, b);
      HuffmanBound(leaves, fc, elems, script, CodeLengths(leaves, code), b);
      CostSameWeights(leaves, fc, freq, CodeLengths(leaves, code));
    }
  }

  lemma CodeIsBounded(nodes: set<nat>, code: Code)
    requires PrefixCode(nodes, code)
    ensures nodes <= code.Keys
  {
  }

  lemma {:induction false} CostUnion(a: set<nat>, b: set<nat>, freq: seq<nat>, len: seq<nat>, desc: StaticTree)
    requires a !! b && Within(a + b, freq) && Within(a + b, len)
    ensures BitCost(a + b, freq, len, desc) == BitCost(a, freq, len, desc) + BitCost(b, freq, len, desc)
    ensures StaticCost(a + b, freq, desc) == StaticCost(a, freq, desc) + StaticCost(b, freq, desc)
    decreases b
  {
    hide BitCost, StaticCost;
    if b == {} {
      CostEmptySet(freq, len, desc);
      assert a + b == a;
    } else {
      var x :| x in b;
      var rest := b - {x};
      CostUnion(a, rest, freq, len, desc);
      assert a + rest + {x} == a + b && rest + {x} == b;
      BitCostInsert(a + rest, freq, len, desc, x);
      BitCostInsert(rest, freq, len, desc, x);
      StaticCostInsert(a + rest, freq, desc, x);
      StaticCostInsert(rest, freq, desc, x);
    }
  }

  // A code of two leaves gives each of them one bit.
  lemma TwoLeaves(leaves: set<nat>, dl: seq<nat>, bl: seq<nat>, max: nat)
    requires Within(leaves, dl) && Counts(leaves, dl, bl) && |leaves| == 2 && Excess(bl, max, 0, 2)
    requires forall x :: x in leaves ==> 1 <= dl[x] <= max
    ensures forall x :: x in leaves ==> dl[x] == 1
  {
    hide Share, Counts, Space, Total;
    CountsShare(leaves, dl, bl, max);
    forall x | x in leaves
      ensures dl[x] == 1
    {
      var rest := leaves - {x};
      assert |rest| == 1;
      var y :| y in rest;
      Singleton(rest, y);
      var l := AsLengths(leaves, dl);
      ShareRemove(leaves, l, max, x);
      ShareRemove(rest, l, max, y);
      assert rest - {y} == {};
      ShareEmpty(l, max);
      Pow2Mono(max - dl[y], max - 1);
      if dl[x] > 1 {
        Pow2Mono(max - dl[x], max - 2);
      }
    }
  }

  // Each forced code costs its one bit.
  lemma {:induction false} ForcedCost(added: set<nat>, freq: seq<nat>, dl: seq<nat>, desc: StaticTree)
    requires Within(added, freq) && Within(added, dl) && desc.Valid()
    requires forall x :: x in added ==> x <= 2 && freq[x] == 1 && dl[x] == 1
    ensures BitCost(added, freq, dl, desc) == |added|
    decreases added
  {
    hide BitCost;
    if added == {} {
      CostEmptySet(freq, dl, desc);
    } else {
      var x :| x in added;
      ForcedCost(added - {x}, freq, dl, desc);
      assert added - {x} + {x} == added;
      BitCostInsert(added - {x}, freq, dl, desc, x);
      assert desc.Extra(x) == 0;
    }
  }

  // The forced codes leave the accounts as the real codes alone would.
  lemma Accounts(was: seq<nat>, freq: seq<nat>, dl: seq<nat>, bl: seq<nat>, desc: StaticTree, opt: int, stat: int)
    requires Forced(was, freq, desc.elems) && Forcing(was, freq, desc, opt, stat) && |dl| == |freq|
    requires var leaves := Used(freq, desc.elems);
             && Counts(leaves, dl, bl) && Excess(bl, desc.max_length, 0, |leaves|)
             && forall x :: x in leaves ==> 1 <= dl[x] <= desc.max_length
    ensures var leaves, used := Used(freq, desc.elems), Used(was, desc.elems);
            && opt + BitCost(leaves, freq, dl, desc) == BitCost(used, was, dl, desc)
            && (desc.static_tree.Some? ==> stat + StaticCost(leaves, freq, desc) == StaticCost(used, was, desc))
  {
    hide BitCost, StaticCost, Counts, Excess;
    var leaves, used, added := Used(freq, desc.elems), Used(was, desc.elems), Added(was, freq, desc.elems);
    assert used + added == leaves;
    CostUnion(used, added, freq, dl, desc);
    BitCostSame(used, freq, was, dl, dl, desc);
    StaticCostSame(used, freq, was, desc);
    if added != {} {
      TwoLeaves(leaves, dl, bl, desc.max_length);
    }
    ForcedCost(added, freq, dl, desc);
  }

  // A code that does not occur is not in the list.
  lemma Unlisted(list: seq<nat>, leaves: set<nat>, elems: nat, script: seq<Merge>, maxCode: int)
    requires Ready(list, leaves, elems, script, maxCode)
    ensures forall x :: 0 <= x < elems && x !in leaves ==> x !in list
  {
    hide Active, ValidScript, Listed;
    ListedRoot(list, elems, script);
    forall p | 0 <= p < |list|
      ensures list[p] in leaves || list[p] >= elems
    {
      if p > 0 {
        ListedKind(leaves, elems, script, list, p);
      }
    }
  }

  // What bits the codes of these frequencies take, and what they would take with the static tree.
  ghost function TotalCost(freq: seq<nat>, dl: seq<nat>, desc: StaticTree): int
    requires desc.Valid() && |freq| == |dl| == HEAP_SIZE
  {
    BitCost(Used(freq, desc.elems), freq, dl, desc)
  }

  ghost function TotalStatic(freq: seq<nat>, desc: StaticTree): int
    requires desc.Valid() && |freq| == HEAP_SIZE
  {
    StaticCost(Used(freq, desc.elems), freq, desc)
  }

  // The lengths dl come from the greedy merges of script over the frequencies freq, which are was with at least
  // two codes forced; overflow counts the nodes clamped, and without any the lengths are optimal.
  ghost predicate HuffmanLengths(was: seq<nat>, freq: seq<nat>, dl: seq<nat>, desc: StaticTree, script: seq<Merge>,
                                 overflow: nat)
    requires desc.Valid() && |was| == |freq| == |dl| == HEAP_SIZE
  {
    var leaves := Used(freq, desc.elems);
    && Forced(was, freq, desc.elems)
    && (forall x :: 0 <= x < desc.elems ==> (dl[x] > 0 <==> x in leaves))
    && script != [] && ValidScript(leaves, desc.elems, script)
    && overflow == 2 * Clamped(LengthsFrom(desc.elems, script, desc.max_length, 0), desc.elems, |script|, 0,
         desc.max_length)
    && (overflow == 0 ==> Optimal(leaves, freq, dl)) && Ordered(leaves, freq, dl)
  }

  // Every leaf was given the length the walk computed.
  lemma LeafLengths(dl: seq<nat>, list: seq<nat>, l: Lengths, leaves: set<nat>, elems: nat, script: seq<Merge>,
                    max: nat, maxCode: int)
    requires Ready(list, leaves, elems, script, maxCode) && TreeLengths(l, elems, script, max) && max >= 1
    requires |list| >= 1 && Walked(dl, list, l, elems, |list|)
    ensures |dl| == HEAP_SIZE && Within(leaves, dl) && forall x :: x in leaves ==>
            x in l && l[x] == dl[x]
            && 1 <= dl[x] <= max
  {
    hide Active, ValidScript, Listed;
    forall x | x in leaves
      ensures x < |dl| && x in l && l[x] == dl[x] && 1 <= dl[x] <= max
    {
      var p := LeafListed(leaves, elems, script, list, x);
      ListedAt(list, elems, script, p);
      assert SonsOf(l, elems, script, max, MergeAt(list, p));
    }
  }

  lemma ScriptedShape(fc: seq<nat>, leaves: set<nat>, elems: nat, script: seq<Merge>)
    requires Scripted(fc, leaves, elems, script)
    ensures |fc| == HEAP_SIZE && |leaves| <= elems
  {
  }

  // The lengths are complete, limited and counted by bl: gen_codes can number them.
  lemma Numbered(leaves: set<nat>, elems: nat, dl: seq<nat>, bl: seq<nat>, max: nat, maxCode: int)
    requires Within(leaves, dl) && Counts(leaves, dl, bl) && Excess(bl, max, 0, |leaves|) && |leaves| >= 2
    requires forall x :: x in leaves ==> 1 <= dl[x] <= max && x < elems
    requires elems <= |dl| && forall x :: 0 <= x < elems && x !in leaves ==> dl[x] == 0
    requires Largest(leaves, maxCode) && maxCode < elems
    ensures 0 <= maxCode && dl[maxCode] > 0 && |bl| == MAX_BITS + 1 && bl[0] == 0
    ensures Complete(dl[..maxCode + 1])
    ensures forall n :: 0 <= n <= maxCode ==> dl[n] <= max <= MAX_BITS
    ensures forall n :: maxCode < n < elems ==> dl[n] == 0
    ensures forall b :: 1 <= b <= MAX_BITS ==> bl[b] == Count(dl[..maxCode + 1], b)
  {
    hide Complete, Counts;
    ExcessShape(bl, max, 0, |leaves|);
    var lens := dl[..maxCode + 1];
    forall b | 1 <= b <= MAX_BITS
      ensures bl[b] == Count(lens, b)
    {
      LeafCounts(leaves, dl, maxCode + 1, bl, b);
    }
    NoExcessComplete(lens, bl, max, |leaves|);
  }

  // What gen_bitlen leaves, in terms of the frequencies the caller gave.
  lemma Finished(was: seq<nat>, freq: seq<nat>, fc: seq<nat>, dl: seq<nat>, bl: seq<nat>, desc: StaticTree,
                 leaves: set<nat>, script: seq<Merge>, overflow: nat, opt: int, stat: int)
    requires desc.Valid() && |was| == |freq| == |fc| == |dl| == HEAP_SIZE && script != []
    requires Forced(was, freq, desc.elems) && leaves == Used(freq, desc.elems) && Forcing(was, freq, desc, opt, stat)
    requires Scripted(fc, leaves, desc.elems, script) && |leaves| == |script| + 1
    requires forall x :: 0 <= x < desc.elems ==> fc[x] == freq[x]
    requires Counts(leaves, dl, bl) && Excess(bl, desc.max_length, 0, |leaves|)
    requires forall x :: x in leaves ==> 1 <= dl[x] <= desc.max_length
    requires forall x :: 0 <= x < desc.elems && x !in leaves ==> dl[x] == 0
    requires var l := LengthsFrom(desc.elems, script, desc.max_length, 0);
             && overflow == 2 * Clamped(l, desc.elems, |script|, 0, desc.max_length)
             && (overflow == 0 ==> forall x :: x in leaves ==> x in l && dl[x] == l[x])
    requires Within(leaves, fc) && Within(leaves, dl) && Ordered(leaves, fc, dl)
    ensures HuffmanLengths(was, freq, dl, desc, script, overflow)
    ensures opt + BitCost(leaves, fc, dl, desc) == TotalCost(was, dl, desc)
    ensures desc.static_tree.Some? ==> stat + StaticCost(leaves, fc, desc) == TotalStatic(was, desc)
  {
    hide BitCost, StaticCost, Counts, Excess, ValidScript, Clamped, LengthsFrom, Optimal, Ordered;
    OrderedSame(leaves, fc, freq, dl);
    assert ValidScript(leaves, desc.elems, script) by { ScriptedValid(fc, leaves, desc.elems, script); }
    Accounts(was, freq, dl, bl, desc, opt, stat);
    BitCostSame(leaves, freq, fc, dl, dl, desc);
    StaticCostSame(leaves, freq, fc, desc);
    if overflow == 0 {
      UnclampedOptimal(fc, freq, leaves, desc.elems, script, desc.max_length, dl);
    }
  }

  lemma ScriptedValid(fc: seq<nat>, leaves: set<nat>, elems: nat, script: seq<Merge>)
    requires Scripted(fc, leaves, elems, script)
    ensures ValidScript(leaves, elems, script)
  {
  }
}
