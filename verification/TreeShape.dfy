/** Where the merges leave each node, and the code lengths a walk from the root finds. */
module TreeShape {
  import opened Prelude
  import opened Huffman

  // x is taken out of the active nodes by the j-th merge.
  predicate TakenBy(script: seq<Merge>, j: nat, x: nat)
    requires j < |script|
  {
    script[j].first == x || script[j].second == x
  }

  // A node leaves the active ones only through a merge.
  lemma {:induction false} Taken(leaves: set<nat>, elems: nat, script: seq<Merge>, a: nat, b: nat, x: nat)
    returns (j: nat)
    requires ValidScript(leaves, elems, script) && a <= b <= |script|
    requires x in Active(leaves, elems, script[..a]) && x !in Active(leaves, elems, script[..b])
    ensures a <= j < b && TakenBy(script, j, x)
    decreases b
  {
    hide Active, ValidScript;
    assert a < b;
    ActiveStep(leaves, elems, script, b - 1);
    if x in Active(leaves, elems, script[..b - 1]) {
      j := b - 1;
    } else {
      j := Taken(leaves, elems, script, a, b - 1, x);
    }
  }

  // It never becomes active again.
  lemma {:induction false} Gone(leaves: set<nat>, elems: nat, script: seq<Merge>, j: nat, i: nat, x: nat)
    requires ValidScript(leaves, elems, script) && j < i <= |script| && TakenBy(script, j, x)
    ensures x < elems + j && x !in Active(leaves, elems, script[..i])
    decreases i
  {
    hide Active, ValidScript;
    ActiveStep(leaves, elems, script, i - 1);
    ValidPrefix(leaves, elems, script, j);
    ActiveBounds(leaves, elems, script[..j]);
    ActiveStep(leaves, elems, script, j);
    if j < i - 1 {
      Gone(leaves, elems, script, j, i - 1, x);
    }
  }

  // Every node is taken at most once.
  lemma TakenOnce(leaves: set<nat>, elems: nat, script: seq<Merge>, i: nat, j: nat, x: nat)
    requires ValidScript(leaves, elems, script) && i < |script| && j < |script|
    requires TakenBy(script, i, x) && TakenBy(script, j, x)
    ensures i == j
  {
    hide Active, ValidScript;
    ActiveStep(leaves, elems, script, i);
    ActiveStep(leaves, elems, script, j);
    if i < j {
      Gone(leaves, elems, script, i, j, x);
    } else if j < i {
      Gone(leaves, elems, script, j, i, x);
    }
  }

  // A father is the root or is taken by a later merge.
  lemma FatherTaken(leaves: set<nat>, elems: nat, script: seq<Merge>, i: nat) returns (j: nat)
    requires ValidScript(leaves, elems, script) && |leaves| == |script| + 1 && i < |script| - 1
    ensures i < j < |script| && TakenBy(script, j, elems + i)
  {
    hide Active, ValidScript;
    ActiveStep(leaves, elems, script, i);
    assert script[..|script|] == script;
    OneLeft(leaves, elems, script);
    j := Taken(leaves, elems, script, i + 1, |script|, elems + i);
  }

  lemma LeafTaken(leaves: set<nat>, elems: nat, script: seq<Merge>, x: nat) returns (j: nat)
    requires ValidScript(leaves, elems, script) && |leaves| == |script| + 1 && script != []
    requires x in leaves && x < elems
    ensures j < |script| && TakenBy(script, j, x)
  {
    assert script[..|script|] == script && script[..0] == [];
    OneLeft(leaves, elems, script);
    j := Taken(leaves, elems, script, 0, |script|, x);
  }

  // ---- lengths, from the root down ----

  ghost function LengthsFrom(elems: nat, script: seq<Merge>, max: nat, i: nat): Lengths
    requires script != []
    decreases |script| - i
  {
    if i >= |script| then map[elems + |script| - 1 := 0] else
      var m := LengthsFrom(elems, script, max, i + 1);
      var d := Min((if elems + i in m then m[elems + i] else 0) + 1, max);
      m[script[i].first := d][script[i].second := d]
  }

  // The merges from i on have given their nodes lengths.
  ghost predicate LengthsBelow(l: Lengths, elems: nat, script: seq<Merge>, max: nat, i: nat) {
    && script != []
    && elems + |script| - 1 in l && l[elems + |script| - 1] == 0
    && (forall j :: i <= j < |script| ==> SonsOf(l, elems, script, max, j))
  }

  // Only the root and the nodes taken by those merges have lengths.
  ghost predicate OnlyBelow(l: Lengths, elems: nat, script: seq<Merge>, i: nat) {
    forall x :: x in l && x != elems + |script| - 1 ==> TakenFrom(script, i, x)
  }

  ghost predicate TakenFrom(script: seq<Merge>, i: nat, x: nat) {
    exists j :: i <= j < |script| && TakenBy(script, j, x)
  }

  lemma InsertPair(m: Lengths, elems: nat, script: seq<Merge>, max: nat, i: nat, d: nat)
    requires LengthsBelow(m, elems, script, max, i + 1) && OnlyBelow(m, elems, script, i + 1)
    requires i < |script| && elems + i in m && m[elems + i] <= max && d == Min(m[elems + i] + 1, max)
    requires script[i].first !in m && script[i].second !in m
    ensures var l := m[script[i].first := d][script[i].second := d];
            LengthsBelow(l, elems, script, max, i) && OnlyBelow(l, elems, script, i)
  {
    hide TakenBy;
    var n, k := script[i].first, script[i].second;
    var l := m[n := d][k := d];
    assert SonsOf(l, elems, script, max, i);
    forall j | i + 1 <= j < |script|
      ensures SonsOf(l, elems, script, max, j)
    {
      assert SonsOf(m, elems, script, max, j);
    }
    forall x | x in l && x != elems + |script| - 1
      ensures TakenFrom(script, i, x)
    {
      if x == n || x == k {
        assert TakenBy(script, i, x) by { ByMerge(script, i); }
      } else {
        assert TakenFrom(script, i + 1, x);
      }
    }
  }

  lemma ByMerge(script: seq<Merge>, i: nat)
    requires i < |script|
    ensures TakenBy(script, i, script[i].first) && TakenBy(script, i, script[i].second)
  {
  }

  // What the i-th merge took has no length before.
  lemma Unassigned(leaves: set<nat>, elems: nat, script: seq<Merge>, m: Lengths, i: nat, n: nat)
    requires ValidScript(leaves, elems, script) && OnlyBelow(m, elems, script, i + 1)
    requires i < |script| && TakenBy(script, i, n)
    ensures n !in m
  {
    Gone(leaves, elems, script, i, i + 1, n);
    if n in m {
      assert TakenFrom(script, i + 1, n);
      var j :| i + 1 <= j < |script| && TakenBy(script, j, n);
      TakenOnce(leaves, elems, script, i, j, n);
    }
  }

  lemma {:induction false} LengthsHold(leaves: set<nat>, elems: nat, script: seq<Merge>, max: nat, i: nat)
    requires ValidScript(leaves, elems, script) && |leaves| == |script| + 1 && script != []
    requires max >= 1 && i <= |script|
    ensures LengthsBelow(LengthsFrom(elems, script, max, i), elems, script, max, i)
    ensures OnlyBelow(LengthsFrom(elems, script, max, i), elems, script, i)
    decreases |script| - i
  {
    hide Active, ValidScript;
    if i < |script| {
      LengthsHold(leaves, elems, script, max, i + 1);
      var m := LengthsFrom(elems, script, max, i + 1);
      ByMerge(script, i);
      Unassigned(leaves, elems, script, m, i, script[i].first);
      Unassigned(leaves, elems, script, m, i, script[i].second);
      if i < |script| - 1 {
        var j := FatherTaken(leaves, elems, script, i);
        assert SonsOf(m, elems, script, max, j);
      }
      InsertPair(m, elems, script, max, i, Min(m[elems + i] + 1, max));
    }
  }

  lemma LengthsAreTreeLengths(leaves: set<nat>, elems: nat, script: seq<Merge>, max: nat)
    requires ValidScript(leaves, elems, script) && |leaves| == |script| + 1 && script != [] && max >= 1
    ensures TreeLengths(LengthsFrom(elems, script, max, 0), elems, script, max)
  {
    LengthsHold(leaves, elems, script, max, 0);
  }

  // ---- the node list ----

  // nodes[end - 1 - 2 i] and nodes[end - 2 - 2 i] are the nodes the i-th merge took; the root stands first.
  ghost predicate Listed(list: seq<nat>, elems: nat, script: seq<Merge>) {
    && |list| == 2 * |script| + 1
    && script != []
    && list[0] == elems + |script| - 1
    && (forall i :: 0 <= i < |script| ==>
          list[|list| - 1 - 2 * i] == script[i].first
          && list[|list| - 2 - 2 * i] == script[i].second)
  }

  // The merge that took the node at position p of the list.
  function MergeAt(list: seq<nat>, p: nat): nat
    requires 1 <= p < |list|
  {
    (|list| - 1 - p) / 2
  }

  lemma ListedAt(list: seq<nat>, elems: nat, script: seq<Merge>, p: nat)
    requires Listed(list, elems, script) && 1 <= p < |list|
    ensures MergeAt(list, p) < |script| && TakenBy(script, MergeAt(list, p), list[p])
  {
    var i := MergeAt(list, p);
    assert p == |list| - 1 - 2 * i || p == |list| - 2 - 2 * i;
  }

  // No node is listed twice.
  lemma ListedOnce(leaves: set<nat>, elems: nat, script: seq<Merge>, list: seq<nat>, p: nat, q: nat)
    requires ValidScript(leaves, elems, script) && Listed(list, elems, script)
    requires p < q < |list|
    ensures list[p] != list[q]
  {
    hide Active, ValidScript;
    ListedAt(list, elems, script, q);
    var j := MergeAt(list, q);
    Gone(leaves, elems, script, j, j + 1, list[q]);
    if p > 0 {
      ListedAt(list, elems, script, p);
      var i := MergeAt(list, p);
      ActiveStep(leaves, elems, script, i);
      if list[p] == list[q] {
        TakenOnce(leaves, elems, script, i, j, list[p]);
      }
    }
  }

  // Every father stands before its sons.
  lemma FatherBefore(leaves: set<nat>, elems: nat, script: seq<Merge>, list: seq<nat>, p: nat) returns (q: nat)
    requires ValidScript(leaves, elems, script) && |leaves| == |script| + 1 && Listed(list, elems, script)
    requires 1 <= p < |list|
    ensures q < p && list[q] == elems + MergeAt(list, p)
  {
    hide Active, ValidScript;
    var i := MergeAt(list, p);
    ListedAt(list, elems, script, p);
    if i == |script| - 1 {
      q := 0;
    } else {
      var j := FatherTaken(leaves, elems, script, i);
      q := if script[j].first == elems + i then |list| - 1 - 2 * j else |list| - 2 - 2 * j;
    }
  }

  lemma LeafListed(leaves: set<nat>, elems: nat, script: seq<Merge>, list: seq<nat>, x: nat) returns (p: nat)
    requires ValidScript(leaves, elems, script) && |leaves| == |script| + 1 && Listed(list, elems, script)
    requires x in leaves && x < elems
    ensures 1 <= p < |list| && list[p] == x
  {
    var j := LeafTaken(leaves, elems, script, x);
    p := if script[j].first == x then |list| - 1 - 2 * j else |list| - 2 - 2 * j;
  }

  // A listed node is a leaf or a father.
  lemma {:induction false} NodeKind(leaves: set<nat>, elems: nat, script: seq<Merge>, x: nat)
    requires ValidScript(leaves, elems, script)
    requires x in Active(leaves, elems, script)
    ensures x in leaves || elems <= x < elems + |script|
  {
    if script != [] {
      var t := |script| - 1;
      if x != elems + t {
        NodeKind(leaves, elems, script[..t], x);
      }
    }
  }

  lemma ListedKind(leaves: set<nat>, elems: nat, script: seq<Merge>, list: seq<nat>, p: nat)
    requires ValidScript(leaves, elems, script) && Listed(list, elems, script)
    requires 1 <= p < |list|
    ensures list[p] in leaves || elems <= list[p] < elems + |script|
  {
    ListedAt(list, elems, script, p);
    var i := MergeAt(list, p);
    ActiveStep(leaves, elems, script, i);
    ValidPrefix(leaves, elems, script, i);
    NodeKind(leaves, elems, script[..i], list[p]);
  }
}
