/** How many leaves have each code length, and how length limiting spends the excess code space. */
module LengthCounts {
  import opened Prelude
  import opened Bits
  import opened Inflate
  import opened Canonical
  import opened Huffman

  // ---- leaves by length ----

  ghost predicate Within(nodes: set<nat>, dl: seq<nat>) {
    forall x :: x in nodes ==> x < |dl|
  }

  ghost function OfLength(nodes: set<nat>, dl: seq<nat>, b: nat): set<nat>
    requires Within(nodes, dl)
  {
    set x | x in nodes && dl[x] == b
  }

  // bl counts the nodes of each length.
  ghost predicate Counts(nodes: set<nat>, dl: seq<nat>, bl: seq<nat>)
    requires Within(nodes, dl)
  {
    |bl| == MAX_BITS + 1 && forall b :: 0 <= b <= MAX_BITS ==> bl[b] == |OfLength(nodes, dl, b)|
  }

  ghost function AsLengths(nodes: set<nat>, dl: seq<nat>): (l: Lengths)
    requires Within(nodes, dl)
    ensures l.Keys == nodes
  {
    map x | x in nodes :: dl[x]
  }

  lemma OfLengthInsert(nodes: set<nat>, dl: seq<nat>, x: nat, b: nat)
    requires Within(nodes + {x}, dl) && x !in nodes
    ensures |OfLength(nodes + {x}, dl, b)| == |OfLength(nodes, dl, b)| + (if dl[x] == b then 1 else 0)
  {
    if dl[x] == b {
      assert OfLength(nodes + {x}, dl, b) == OfLength(nodes, dl, b) + {x};
    } else {
      assert OfLength(nodes + {x}, dl, b) == OfLength(nodes, dl, b);
    }
  }

  lemma CountsInsert(nodes: set<nat>, dl: seq<nat>, bl: seq<nat>, x: nat)
    requires Within(nodes + {x}, dl) && x !in nodes && Counts(nodes, dl, bl) && dl[x] <= MAX_BITS
    ensures Counts(nodes + {x}, dl, bl[dl[x] := bl[dl[x]] + 1])
  {
    forall b | 0 <= b <= MAX_BITS
      ensures bl[dl[x] := bl[dl[x]] + 1][b] == |OfLength(nodes + {x}, dl, b)|
    {
      OfLengthInsert(nodes, dl, x, b);
    }
  }

  // Lengths of other nodes do not matter.
  lemma CountsSame(nodes: set<nat>, dl: seq<nat>, dl': seq<nat>, bl: seq<nat>)
    requires Within(nodes, dl) && Within(nodes, dl') && Counts(nodes, dl, bl)
    requires forall x :: x in nodes ==> dl[x] == dl'[x]
    ensures Counts(nodes, dl', bl)
  {
    forall b | 0 <= b <= MAX_BITS
      ensures bl[b] == |OfLength(nodes, dl', b)|
    {
      assert OfLength(nodes, dl', b) == OfLength(nodes, dl, b);
    }
  }

  lemma CountsEmpty(dl: seq<nat>, bl: seq<nat>)
    requires |bl| == MAX_BITS + 1 && forall b :: 0 <= b <= MAX_BITS ==> bl[b] == 0
    ensures Counts({}, dl, bl)
  {
    forall b | 0 <= b <= MAX_BITS
      ensures bl[b] == |OfLength({}, dl, b)|
    {
      assert OfLength({}, dl, b) == {};
    }
  }

  // ---- code space by counts ----

  function Space(bl: seq<nat>, max: nat, b: nat): nat
    requires b <= max < |bl|
  {
    if b == 0 then 0 else Space(bl, max, b - 1) + Shl(bl[b], max - b)
  }

  function Total(bl: seq<nat>, b: nat): nat
    requires b < |bl|
  {
    if b == 0 then 0 else Total(bl, b - 1) + bl[b]
  }

  lemma {:induction false} SpaceAdd(bl: seq<nat>, max: nat, b: nat, k: nat, n: nat)
    requires b <= max < |bl| && 1 <= k < |bl|
    ensures Space(bl[k := bl[k] + n], max, b) == Space(bl, max, b) + (if k <= b then Shl(n, max - k) else 0)
    ensures Total(bl[k := bl[k] + n], b) == Total(bl, b) + (if k <= b then n else 0)
  {
    if b > 0 {
      SpaceAdd(bl, max, b - 1, k, n);
      if k == b {
        ShlAdd(bl[k], n, max - k);
      }
    }
  }

  lemma {:induction false} SpaceOfNone(bl: seq<nat>, max: nat, b: nat)
    requires b <= max < |bl| && forall k :: 1 <= k <= b ==> bl[k] == 0
    ensures Space(bl, max, b) == 0 && Total(bl, b) == 0
  {
    if b > 0 {
      SpaceOfNone(bl, max, b - 1);
      ShlZero(max - b);
    }
  }

  lemma {:induction false} CountsShare(nodes: set<nat>, dl: seq<nat>, bl: seq<nat>, max: nat)
    requires Within(nodes, dl) && Counts(nodes, dl, bl) && max <= MAX_BITS
    requires forall x :: x in nodes ==> 1 <= dl[x] <= max
    ensures Bounded(nodes, AsLengths(nodes, dl), max)
    ensures Share(nodes, AsLengths(nodes, dl), max) == Space(bl, max, max)
    ensures Total(bl, max) == |nodes|
    decreases nodes
  {
    hide Share, Shl, Pow2;
    if nodes == {} {
      ShareEmpty(AsLengths(nodes, dl), max);
      forall k | 1 <= k <= max
        ensures bl[k] == 0
      {
        assert OfLength(nodes, dl, k) == {};
      }
      SpaceOfNone(bl, max, max);
    } else {
      var x :| x in nodes;
      var rest, d := nodes - {x}, dl[x];
      assert rest + {x} == nodes;
      OfLengthInsert(rest, dl, x, d);
      var bl' := bl[d := bl[d] - 1];
      forall b | 0 <= b <= MAX_BITS
        ensures bl'[b] == |OfLength(rest, dl, b)|
      {
        OfLengthInsert(rest, dl, x, b);
      }
      CountsShare(rest, dl, bl', max);
      assert bl == bl'[d := bl'[d] + 1];
      SpaceAdd(bl', max, max, d, 1);
      ShlOne(max - d);
      ShareRemove(nodes, AsLengths(nodes, dl), max, x);
      ShareSame(rest, AsLengths(nodes, dl), AsLengths(rest, dl), max);
    }
  }

  // ---- length limiting ----

  // n leaves of at most max bits that take half of excess units too much code space.
  ghost predicate Excess(bl: seq<nat>, max: nat, excess: int, n: nat) {
    && 1 <= max <= MAX_BITS && |bl| == MAX_BITS + 1
    && excess >= 0 && excess % 2 == 0
    && 2 * Space(bl, max, max) == 2 * Pow2(max) + excess
    && Space(bl, max, max - 1) <= Pow2(max)
    && Total(bl, max) == n <= Pow2(max)
    && bl[0] == 0
    && (forall b :: max < b <= MAX_BITS ==> bl[b] == 0)
  }

  // While there is excess, some leaf has a code shorter than max.
  lemma SomeShorter(bl: seq<nat>, max: nat, excess: int, n: nat) returns (k: nat)
    requires Excess(bl, max, excess, n) && excess > 0
    ensures 1 <= k < max && bl[k] != 0
  {
    assert Shl(bl[max], 0) == bl[max];
    if forall i :: 1 <= i < max ==> bl[i] == 0 {
      SpaceOfNone(bl, max, max - 1);
      assert false;
    }
    k :| 1 <= k < max && bl[k] != 0;
  }

  function MovedDown(bl: seq<nat>, max: nat, bits: nat): seq<nat>
    requires bits + 1 < |bl| && max < |bl| && bl[bits] > 0
    requires bl[bits := bl[bits] - 1][bits + 1 := bl[bits + 1] + 2][max] > 0
  {
    var b1 := bl[bits := bl[bits] - 1];
    var b2 := b1[bits + 1 := b1[bits + 1] + 2];
    b2[max := b2[max] - 1]
  }

  lemma LongestLeft(bl: seq<nat>, max: nat, excess: int, n: nat)
    requires Excess(bl, max, excess, n) && excess > 0
    ensures bl[max] > 0
  {
    assert Shl(bl[max], 0) == bl[max];
  }

  // Moving one leaf down and one of the longest beside it removes one unit of excess.
  lemma MoveDown(bl: seq<nat>, max: nat, excess: int, n: nat, bits: nat)
    requires Excess(bl, max, excess, n) && excess > 0
    requires 1 <= bits < max && bl[bits] > 0
    requires bl[bits := bl[bits] - 1][bits + 1 := bl[bits + 1] + 2][max] > 0
    ensures Excess(MovedDown(bl, max, bits), max, excess - 2, n)
  {
    hide Shl, Pow2, Space, Total;
    var b1 := bl[bits := bl[bits] - 1];
    var b2 := b1[bits + 1 := b1[bits + 1] + 2];
    var b3 := b2[max := b2[max] - 1];
    assert b1[bits := b1[bits] + 1] == bl && b3[max := b3[max] + 1] == b2;
    SpaceAdd(b1, max, max, bits, 1);
    SpaceAdd(b1, max, max, bits + 1, 2);
    SpaceAdd(b3, max, max, max, 1);
    SpaceAdd(b1, max, max - 1, bits, 1);
    SpaceAdd(b1, max, max - 1, bits + 1, 2);
    SpaceAdd(b3, max, max - 1, max, 1);
    ShlDouble(1, max - (bits + 1));
    ShlOne(0);
    PowersAtLeast(0);
  }

  // ---- the excess a clamped tree leaves ----

  ghost function AtMax(nodes: set<nat>, l: Lengths, max: nat): set<nat> {
    set x | x in nodes && x in l && l[x] == max
  }

  lemma TwoMore(rest: set<nat>, n: nat, k: nat)
    requires n !in rest && k !in rest && n != k
    ensures |rest + {n} + {k}| == |rest| + 2
  {
  }

  lemma OneMoreAt(rest: set<nat>, n: nat)
    requires n !in rest
    ensures |rest + {n}| == |rest| + 1
  {
  }

  lemma AtMaxStep(nodes: set<nat>, l: Lengths, max: nat, n: nat, k: nat, father: nat)
    requires n in nodes && k in nodes && n != k && father !in nodes
    requires father in l && l[father] <= max && n in l && k in l && l[n] == l[k] == Min(l[father] + 1, max)
    ensures |AtMax(nodes, l, max)| >= |AtMax(nodes - {n, k} + {father}, l, max)| + (if l[father] == max then 1 else 0)
  {
    var after := nodes - {n, k} + {father};
    var rest := AtMax(nodes - {n, k}, l, max);
    TwoMore(rest, n, k);
    OneMoreAt(rest, father);
    if l[father] == max {
      assert AtMax(after, l, max) == rest + {father};
      assert AtMax(nodes, l, max) == rest + {n} + {k};
    } else if l[father] + 1 == max {
      assert AtMax(after, l, max) == rest;
      assert AtMax(nodes, l, max) == rest + {n} + {k};
    } else {
      assert AtMax(after, l, max) == rest == AtMax(nodes, l, max);
    }
  }

  // There are at least as many leaves of the greatest length as clamped fathers.
  lemma {:induction false} ClampedBound(leaves: set<nat>, elems: nat, script: seq<Merge>, l: Lengths, max: nat, i: nat)
    requires ValidScript(leaves, elems, script) && TreeLengths(l, elems, script, max) && i <= |script|
    ensures Clamped(l, elems, |script|, i, max) <= |AtMax(Active(leaves, elems, script[..i]), l, max)|
    decreases |script| - i
  {
    hide Active, ValidScript, AtMax;
    if i < |script| {
      ClampedBound(leaves, elems, script, l, max, i + 1);
      assert SonsOf(l, elems, script, max, i);
      ActiveStep(leaves, elems, script, i);
      AtMaxStep(Active(leaves, elems, script[..i]), l, max, script[i].first, script[i].second, elems + i);
    }
  }

  // The lengths of a tree whose fathers were clamped c times are in excess by c units.
  lemma InitialExcess(leaves: set<nat>, elems: nat, script: seq<Merge>, l: Lengths, max: nat, dl: seq<nat>,
                      bl: seq<nat>)
    requires ValidScript(leaves, elems, script) && TreeLengths(l, elems, script, max)
    requires |leaves| == |script| + 1 <= Pow2(max) && 1 <= max <= MAX_BITS
    requires Within(leaves, dl) && Counts(leaves, dl, bl)
    requires forall x :: x in leaves ==> x in l && l[x] == dl[x] && 1 <= dl[x] <= max
    ensures Excess(bl, max, 2 * Clamped(l, elems, |script|, 0, max), |leaves|)
  {
    hide Share, Pow2, Active, ValidScript;
    assert script[..0] == [] && Active(leaves, elems, []) == leaves by { StartActive(leaves, elems); }
    TreeShare(leaves, elems, script, l, max, 0);
    ClampedBound(leaves, elems, script, l, max, 0);
    CountsShare(leaves, dl, bl, max);
    ShareSame(leaves, l, AsLengths(leaves, dl), max);
    assert AtMax(leaves, l, max) == OfLength(leaves, dl, max);
    assert Shl(bl[max], 0) == bl[max];
    assert OfLength(leaves, dl, 0) == {};
    forall b | max < b <= MAX_BITS
      ensures bl[b] == 0
    {
      assert OfLength(leaves, dl, b) == {};
    }
  }

  lemma StartActive(leaves: set<nat>, elems: nat)
    ensures Active(leaves, elems, []) == leaves
  {
  }
}
