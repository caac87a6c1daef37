/** The order of the code lengths: a more frequent code is never longer, whether lengths were clamped or not. */
module TreeOrder {
  import opened Prelude
  import opened Bits
  import opened Inflate
  import opened Heaps
  import opened Huffman
  import opened TreeShape
  import opened LengthCounts
  import opened TreeCosts
  import opened NodeList
  import opened LeafHeap
  import opened MergeLoop

  ghost predicate Ordered(nodes: set<nat>, freq: seq<nat>, dl: seq<nat>)
    requires Within(nodes, freq) && Within(nodes, dl)
  {
    forall a, b :: a in nodes && b in nodes && freq[a] > freq[b] ==> dl[a] <= dl[b]
  }

  lemma OrderedSame(nodes: set<nat>, freq: seq<nat>, freq': seq<nat>, dl: seq<nat>)
    requires Within(nodes, freq) && Within(nodes, freq') && Within(nodes, dl) && Ordered(nodes, freq, dl)
    requires forall x :: x in nodes ==> freq[x] == freq'[x]
    ensures Ordered(nodes, freq', dl)
  {
  }

  // ---- lengths as the tree has them ----

  // Exchanging a longer code of a more frequent leaf with a shorter one would cost less than is possible.
  lemma UnclampedOrdered(w: seq<nat>, leaves: set<nat>, elems: nat, script: seq<Merge>, max: nat, dl: seq<nat>)
    requires Scripted(w, leaves, elems, script) && |leaves| == |script| + 1 && script != [] && max >= 1
    requires Clamped(LengthsFrom(elems, script, max, 0), elems, |script|, 0, max) == 0
    requires Within(leaves, dl) && Within(leaves, w)
    requires forall x :: x in leaves ==>
               x in LengthsFrom(elems, script, max, 0) && dl[x] == LengthsFrom(elems, script, max, 0)[x]
    ensures Ordered(leaves, w, dl)
  {
    hide Active, ValidScript, Additive, Greedy, Cost, Share, LengthsFrom, TreeLengths, Clamped, Pow2;
    var l := LengthsFrom(elems, script, max, 0);
    LengthsAreTreeLengths(leaves, elems, script, max);
    StartActive(leaves, elems);
    assert script[..0] == [];
    TreeCost(leaves, w, elems, script, l, max, 0);
    TreeShare(leaves, elems, script, l, max, 0);
    assert FatherWeights(w, elems, []) == 0;
    forall a, b | a in leaves && b in leaves && w[a] > w[b]
      ensures dl[a] <= dl[b]
    {
      if dl[a] > dl[b] {
        var l' := Exchange(leaves, w, l, max, b, a);
        HuffmanBound(leaves, w, elems, script, l', max);
      }
    }
  }

  // ---- lengths that were handed out again ----

  lemma {:induction false} GreedyAt(leaves: set<nat>, w: seq<nat>, elems: nat, script: seq<Merge>, i: nat)
    requires elems + |script| <= |w| && Greedy(leaves, w, elems, script) && i < |script|
    ensures var before := Active(leaves, elems, script[..i]);
            Weighed(before, w) && LeastPair(before, w, script[i].first, script[i].second)
  {
    hide Active;
    var t := |script| - 1;
    if i < t {
      GreedyAt(leaves, w, elems, script[..t], i);
      assert script[..t][..i] == script[..i];
    }
  }

  // The nodes are merged in the order of their weights.
  lemma PairOrder(leaves: set<nat>, w: seq<nat>, elems: nat, script: seq<Merge>, i: nat)
    requires Scripted(w, leaves, elems, script) && i < |script|
    ensures script[i].first < |w| && script[i].second < |w| && w[script[i].first] <= w[script[i].second]
    ensures i + 1 < |script| ==>
              script[i + 1].first < |w| && w[script[i].second] <= w[script[i + 1].first]
  {
    hide Active;
    GreedyAt(leaves, w, elems, script, i);
    if i + 1 < |script| {
      GreedyAt(leaves, w, elems, script, i + 1);
      NextActive(leaves, elems, script, i);
    }
  }

  lemma NextActive(leaves: set<nat>, elems: nat, script: seq<Merge>, i: nat)
    requires i + 1 < |script|
    ensures Active(leaves, elems, script[..i + 1]) ==
            Active(leaves, elems, script[..i]) - {script[i].first, script[i].second} + {elems + i}
  {
    assert script[..i + 1][..i] == script[..i];
  }

  // So the list, from the root on, is in the order of falling weights.
  lemma {:induction false} ListOrder(leaves: set<nat>, w: seq<nat>, elems: nat, script: seq<Merge>, list: seq<nat>,
                                     p: nat, q: nat)
    requires Scripted(w, leaves, elems, script) && Listed(list, elems, script) && 1 <= p <= q < |list|
    ensures list[p] < |w| && list[q] < |w| && w[list[q]] <= w[list[p]]
    decreases q - p
  {
    hide Scripted;
    var i := MergeAt(list, p);
    ListedAt(list, elems, script, p);
    PairOrder(leaves, w, elems, script, i);
    if p < q {
      ListOrder(leaves, w, elems, script, list, p + 1, q);
      ListedAt(list, elems, script, p + 1);
      if p == |list| - 1 - 2 * i {
        assert p + 1 == |list| - 2 - 2 * (i - 1);
        PairOrder(leaves, w, elems, script, i - 1);
      }
    }
  }

  // Handing out falling lengths: those that have one are no heavier than those left, and have at least this length.
  ghost predicate HandedOrder(leaves: set<nat>, left: set<nat>, freq: seq<nat>, dl: seq<nat>, bits: nat) {
    && left <= leaves && Within(leaves, freq) && Within(leaves, dl)
    && (forall x, y :: x in leaves - left && y in left ==> freq[x] <= freq[y])
    && (forall x :: x in leaves - left ==> dl[x] >= bits) && Ordered(leaves - left, freq, dl)
  }

  lemma HandedFirst(leaves: set<nat>, freq: seq<nat>, dl: seq<nat>, bits: nat)
    requires Within(leaves, freq) && Within(leaves, dl)
    ensures HandedOrder(leaves, leaves, freq, dl, bits)
  {
  }

  lemma HandedLess(leaves: set<nat>, left: set<nat>, freq: seq<nat>, dl: seq<nat>, bits: nat)
    requires HandedOrder(leaves, left, freq, dl, bits) && bits > 0
    ensures HandedOrder(leaves, left, freq, dl, bits - 1)
  {
  }

  lemma HandedNext(leaves: set<nat>, left: set<nat>, freq: seq<nat>, dl: seq<nat>, bits: nat, m: nat)
    requires HandedOrder(leaves, left, freq, dl, bits) && m in left
    requires forall y :: y in left ==> freq[m] <= freq[y]
    ensures HandedOrder(leaves, left - {m}, freq, dl[m := bits], bits)
  {
    var dl' := dl[m := bits];
    assert leaves - (left - {m}) == leaves - left + {m};
  }

  // The leaf to be served next is the lightest left.
  lemma Lightest(leaves: set<nat>, w: seq<nat>, elems: nat, script: seq<Merge>, list: seq<nat>, p: nat, y: nat)
    requires Scripted(w, leaves, elems, script) && Listed(list, elems, script) && 1 <= p < |list|
    requires list[0] !in leaves && y in LeavesIn(list, leaves, p + 1)
    ensures list[p] < |w| && y < |w| && w[list[p]] <= w[y]
  {
    hide Scripted, Listed;
    var q :| 0 <= q < p + 1 && list[q] == y;
    ListOrder(leaves, w, elems, script, list, q, p);
  }

  // It is given this length.
  lemma HandLightest(leaves: set<nat>, left: set<nat>, w: seq<nat>, dl: seq<nat>, elems: nat, script: seq<Merge>,
                     list: seq<nat>, p: nat, bits: nat)
    requires Scripted(w, leaves, elems, script) && Listed(list, elems, script) && 1 <= p < |list|
    requires list[0] !in leaves && left == LeavesIn(list, leaves, p + 1) && list[p] in left
    requires HandedOrder(leaves, left, w, dl, bits)
    ensures HandedOrder(leaves, left - {list[p]}, w, dl[list[p] := bits], bits)
  {
    hide Scripted, Listed, HandedOrder, LeavesIn;
    forall y | y in left
      ensures y < |w| && list[p] < |w| && w[list[p]] <= w[y]
    {
      Lightest(leaves, w, elems, script, list, p, y);
    }
    Lightest(leaves, w, elems, script, list, p, list[p]);
    HandedNext(leaves, left, w, dl, bits, list[p]);
  }

  lemma HandedAll(leaves: set<nat>, freq: seq<nat>, dl: seq<nat>)
    requires HandedOrder(leaves, {}, freq, dl, 0)
    ensures Within(leaves, freq) && Within(leaves, dl) && Ordered(leaves, freq, dl)
  {
    assert leaves - {} == leaves;
  }

  lemma RootNoLeaf(list: seq<nat>, leaves: set<nat>, elems: nat, script: seq<Merge>, maxCode: int)
    requires Ready(list, leaves, elems, script, maxCode)
    ensures Listed(list, elems, script) && list[0] !in leaves
  {
    hide ValidScript;
  }
}
