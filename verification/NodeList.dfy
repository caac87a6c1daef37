/** The list of tree nodes, fathers first, that gen_bitlen walks. */
module NodeList {
  import opened Prelude
  import opened Inflate
  import opened Heaps
  import opened Huffman
  import opened TreeShape
  import opened LengthCounts
  import opened TreeCosts

  // ---- leaves of the node list ----

  // The leaves among the first p listed nodes.
  ghost function LeavesIn(list: seq<nat>, leaves: set<nat>, p: nat): (s: set<nat>)
    requires p <= |list|
    ensures s <= leaves
  {
    set x | x in leaves && x in list[..p]
  }

  // A constructed tree, before any length is assigned.
  ghost predicate Ready(list: seq<nat>, leaves: set<nat>, elems: nat, script: seq<Merge>, maxCode: int) {
    && ValidScript(leaves, elems, script) && |leaves| == |script| + 1
    && Listed(list, elems, script)
    && elems + |script| <= HEAP_SIZE
    && maxCode < elems && (forall x :: x in leaves ==> x <= maxCode)
  }

  lemma LeafStep(list: seq<nat>, leaves: set<nat>, elems: nat, script: seq<Merge>, maxCode: int, p: nat)
    requires Ready(list, leaves, elems, script, maxCode) && 1 <= p < |list|
    ensures list[p] < HEAP_SIZE
    ensures list[p] <= maxCode <==> list[p] in leaves
    ensures list[p] in leaves ==>
            list[p] !in LeavesIn(list, leaves, p)
            && LeavesIn(list, leaves, p + 1) == LeavesIn(list, leaves, p) + {list[p]}
    ensures list[p] !in leaves ==> LeavesIn(list, leaves, p + 1) == LeavesIn(list, leaves, p)
  {
    hide Active, ValidScript, Listed;
    ListedKind(leaves, elems, script, list, p);
    forall q | 0 <= q < p
      ensures list[q] != list[p]
    {
      ListedOnce(leaves, elems, script, list, q, p);
    }
    assert list[..p + 1] == list[..p] + [list[p]];
  }

  lemma AllLeaves(list: seq<nat>, leaves: set<nat>, elems: nat, script: seq<Merge>, maxCode: int)
    requires Ready(list, leaves, elems, script, maxCode)
    ensures LeavesIn(list, leaves, |list|) == leaves
    ensures LeavesIn(list, leaves, 1) == {}
  {
    hide Active, ValidScript, Listed;
    assert list[..|list|] == list;
    forall x | x in leaves
      ensures x in list
    {
      var p := LeafListed(leaves, elems, script, list, x);
    }
    ListedRoot(list, elems, script);
    assert list[..1] == [list[0]];
  }

  lemma ListedRoot(list: seq<nat>, elems: nat, script: seq<Merge>)
    requires Listed(list, elems, script)
    ensures |list| >= 3 && script != [] && list[0] == elems + |script| - 1
  {
  }

  // The nodes before position p have their lengths, the others still name their fathers.
  ghost predicate Walked(dl: seq<nat>, list: seq<nat>, l: Lengths, elems: nat, p: nat)
    requires 1 <= p <= |list|
  {
    && |dl| == HEAP_SIZE
    && (forall q :: 0 <= q < |list| ==> list[q] < HEAP_SIZE && list[q] in l)
    && (forall q :: 0 <= q < p ==> dl[list[q]] == l[list[q]])
    && (forall q :: p <= q < |list| ==> dl[list[q]] == elems + MergeAt(list, q))
  }

  lemma WalkStep(dl: seq<nat>, list: seq<nat>, l: Lengths, leaves: set<nat>, elems: nat, script: seq<Merge>, max: nat,
                 p: nat)
    requires ValidScript(leaves, elems, script) && |leaves| == |script| + 1 && Listed(list, elems, script)
    requires TreeLengths(l, elems, script, max) && 1 <= p < |list| && Walked(dl, list, l, elems, p)
    ensures dl[list[p]] < HEAP_SIZE && dl[list[p]] == elems + MergeAt(list, p)
    ensures elems + MergeAt(list, p) in l && dl[dl[list[p]]] == l[elems + MergeAt(list, p)] <= max
    ensures l[list[p]] == Min(dl[dl[list[p]]] + 1, max)
    ensures Walked(dl[list[p] := l[list[p]]], list, l, elems, p + 1)
  {
    hide Active, ValidScript, Listed;
    var q := FatherBefore(leaves, elems, script, list, p);
    ListedAt(list, elems, script, p);
    assert SonsOf(l, elems, script, max, MergeAt(list, p));
    forall r | 0 <= r < |list| && r != p
      ensures list[r] != list[p]
    {
      if r < p {
        ListedOnce(leaves, elems, script, list, r, p);
      } else {
        ListedOnce(leaves, elems, script, list, p, r);
      }
    }
  }

  // How many of the nodes before position p have a father of the greatest length.
  ghost function Overflowing(list: seq<nat>, l: Lengths, elems: nat, max: nat, p: nat): nat
    requires p <= |list|
  {
    if p <= 1 then 0 else
      var father := elems + MergeAt(list, p - 1);
      Overflowing(list, l, elems, max, p - 1) + (if father in l && l[father] == max then 1 else 0)
  }

  lemma {:induction false} OverflowingPairs(list: seq<nat>, l: Lengths, elems: nat, script: seq<Merge>, max: nat,
                                            i: nat)
    requires Listed(list, elems, script) && i <= |script|
    ensures Overflowing(list, l, elems, max, |list| - 2 * i) == 2 * Clamped(l, elems, |script|, i, max)
    decreases |script| - i
  {
    if i < |script| {
      OverflowingPairs(list, l, elems, script, max, i + 1);
      var p := |list| - 2 * i;
      assert MergeAt(list, p - 1) == i && MergeAt(list, p - 2) == i;
    }
  }

  lemma OverflowStep(list: seq<nat>, l: Lengths, elems: nat, max: nat, p: nat)
    requires 1 <= p < |list| && elems + MergeAt(list, p) in l
    ensures Overflowing(list, l, elems, max, p + 1) == Overflowing(list, l, elems, max, p)
            + (if l[elems + MergeAt(list, p)] == max then 1 else 0)
  {
  }

  lemma StartWalk(dl: seq<nat>, list: seq<nat>, leaves: set<nat>, elems: nat, script: seq<Merge>, max: nat,
                  maxCode: int, heap: seq<nat>, top: nat)
    requires Ready(list, leaves, elems, script, maxCode) && max >= 1 && |dl| == HEAP_SIZE
    requires |heap| == HEAP_SIZE == top + |list| && heap[top..] == list
    requires forall p :: 1 <= p < |list| ==> list[p] < HEAP_SIZE && dl[list[p]] == elems + MergeAt(list, p)
    ensures var l := LengthsFrom(elems, script, max, 0);
            && TreeLengths(l, elems, script, max)
            && heap[top] < HEAP_SIZE && heap[top] in list
            && Walked(dl[heap[top] := 0], list, l, elems, 1)
            && Overflowing(list, l, elems, max, 1) == 0
    ensures |list| >= 3 && LeavesIn(list, leaves, 1) == {} && maxCode < elems
    ensures ValidScript(leaves, elems, script) && |leaves| == |script| + 1 && Listed(list, elems, script)
  {
    hide Active, ValidScript, Listed, LengthsFrom, LeavesIn;
    ListedRoot(list, elems, script);
    LengthsAreTreeLengths(leaves, elems, script, max);
    AllLeaves(list, leaves, elems, script, maxCode);
    assert heap[top] == list[0];
    var l := LengthsFrom(elems, script, max, 0);
    forall q | 0 <= q < |list|
      ensures list[q] < HEAP_SIZE && list[q] in l
      ensures q > 0 ==> list[q] != list[0]
    {
      if q > 0 {
        ListedOnce(leaves, elems, script, list, 0, q);
        ListedAt(list, elems, script, q);
        assert SonsOf(l, elems, script, max, MergeAt(list, q));
      }
    }
  }

  // Giving leaf n its length adds it to the counts and the cost.
  lemma LeafCounted(done: set<nat>, was: seq<nat>, dl: seq<nat>, freq: seq<nat>, bl: seq<nat>, desc: StaticTree, n: nat,
                    f: nat, bits: nat, xbits: nat)
    requires n !in done && Within(done, was) && Within(done, freq) && n < |was| == |dl| && n < |freq|
    requires dl == was[n := bits] && bits <= MAX_BITS && Counts(done, was, bl)
    requires f == freq[n] && xbits == desc.Extra(n)
    ensures Within(done + {n}, dl) && Within(done + {n}, freq)
    ensures Counts(done + {n}, dl, bl[bits := bl[bits] + 1])
    ensures BitCost(done + {n}, freq, dl, desc) == BitCost(done, freq, was, desc) + f * (bits + xbits)
    ensures StaticCost(done + {n}, freq, desc) == StaticCost(done, freq, desc) + f * (desc.StaticLength(n) + xbits)
  {
    CountsSame(done, was, dl, bl);
    CountsInsert(done, dl, bl, n);
    BitCostSame(done, freq, freq, was, dl, desc);
    BitCostInsert(done, freq, dl, desc, n);
    StaticCostInsert(done, freq, desc, n);
  }

  lemma NoneWithin(dl: seq<nat>)
    ensures Within({}, dl)
  {
  }

  lemma OthersCounted(done: set<nat>, was: seq<nat>, dl: seq<nat>, freq: seq<nat>, bl: seq<nat>, desc: StaticTree,
                      n: nat, bits: nat)
    requires n !in done && Within(done, was) && Within(done, freq) && Counts(done, was, bl)
    requires n < |was| && dl == was[n := bits]
    ensures Within(done, dl) && Counts(done, dl, bl) && BitCost(done, freq, dl, desc) == BitCost(done, freq, was, desc)
  {
    CountsSame(done, was, dl, bl);
    BitCostSame(done, freq, freq, was, dl, desc);
  }

  lemma ReadyShape(list: seq<nat>, leaves: set<nat>, elems: nat, script: seq<Merge>, maxCode: int)
    requires Ready(list, leaves, elems, script, maxCode)
    ensures ValidScript(leaves, elems, script) && |leaves| == |script| + 1 && Listed(list, elems, script) && |list| >= 1
    ensures maxCode < elems && forall x :: x in leaves ==> x <= maxCode
  {
  }

  lemma ListLong(list: seq<nat>, leaves: set<nat>, elems: nat, script: seq<Merge>, maxCode: int)
    requires Ready(list, leaves, elems, script, maxCode)
    ensures |list| >= 3
  {
  }
}
