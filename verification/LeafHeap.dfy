/** The codes that occur, and the codes forced so that there are always two. */
module LeafHeap {
  import opened Prelude
  import opened Heaps
  import opened LengthCounts
  import opened TreeCosts

  // ---- the leaves ----

  // The codes below k that occur.
  ghost function Used(freq: seq<nat>, k: nat): set<nat>
    requires k <= |freq|
  {
    set x: nat | x < k && freq[x] != 0
  }

  lemma UsedNext(freq: seq<nat>, k: nat)
    requires k < |freq|
    ensures Used(freq, k + 1) == if freq[k] != 0 then Used(freq, k) + {k} else Used(freq, k)
  {
  }

  lemma {:induction false} UsedSize(freq: seq<nat>, k: nat)
    requires k <= |freq|
    ensures |Used(freq, k)| <= k
  {
    if k > 0 {
      UsedSize(freq, k - 1);
      UsedNext(freq, k - 1);
    } else {
      assert Used(freq, k) == {};
    }
  }

  lemma UsedMore(freq: seq<nat>, k: nat, x: nat)
    requires x < k <= |freq|
    ensures Used(freq[x := 1], k) == Used(freq, k) + {x}
  {
  }

  // freq is was, with at most two of the codes 0, 1 and 2 added once when fewer than two codes occur.
  ghost predicate Forced(was: seq<nat>, freq: seq<nat>, elems: nat) {
    && |was| == |freq| && 3 <= elems <= |was|
    && Used(was, elems) <= Used(freq, elems) && |Used(freq, elems)| >= 2
    && (forall x :: 0 <= x < |was| && x !in Added(was, freq, elems) ==> freq[x] == was[x])
    && (forall x :: x in Added(was, freq, elems) ==> x <= 2 && freq[x] == 1)
    && (Used(freq, elems) != Used(was, elems) ==> |Used(freq, elems)| == 2)
  }

  lemma TwoForced(was: seq<nat>, freq: seq<nat>, elems: nat)
    requires Forced(was, freq, elems)
    ensures |freq| == |was| && |Used(freq, elems)| >= 2 && forall x :: x in Used(freq, elems) ==> x < elems
  {
  }

  // maxCode is the largest code that occurs, or -1.
  ghost predicate Largest(nodes: set<nat>, maxCode: int) {
    && -1 <= maxCode && (maxCode >= 0 ==> maxCode in nodes)
    && (forall x :: x in nodes ==> x <= maxCode)
  }

  // The state while the heap is filled.
  ghost predicate Filling(heap: seq<nat>, len: nat, freq: seq<nat>, depth: seq<nat>, nodes: set<nat>) {
    && |heap| == |freq| == |depth| == HEAP_SIZE && len + 1 < HEAP_SIZE && len == |nodes|
    && Contents(heap, len) == multiset(nodes) && (forall x :: x in nodes ==> x < HEAP_SIZE)
  }

  lemma FillOne(heap: seq<nat>, len: nat, freq: seq<nat>, depth: seq<nat>, nodes: set<nat>, x: nat)
    requires Filling(heap, len, freq, depth, nodes) && x !in nodes && x < HEAP_SIZE && len + 2 < HEAP_SIZE
    ensures Filling(heap[len + 1 := x], len + 1, freq, depth[x := 0], nodes + {x})
  {
    PushNode(heap, len, nodes, x);
  }

  lemma FilledNodes(heap: seq<nat>, len: nat, freq: seq<nat>, depth: seq<nat>, nodes: set<nat>)
    requires Filling(heap, len, freq, depth, nodes)
    ensures Nodes(heap, len, freq, depth) && OrderedFrom(heap, len, freq, depth, len / 2 + 1)
  {
    forall i | 1 <= i <= len
      ensures heap[i] < HEAP_SIZE
    {
      assert heap[i] in Contents(heap, len);
    }
  }

  // The code a tree with too few codes is given.
  lemma FreshCode(freq: seq<nat>, elems: nat, maxCode: int)
    requires 3 <= elems <= |freq| && Largest(Used(freq, elems), maxCode) && |Used(freq, elems)| < 2
    ensures var node := if maxCode < 2 then maxCode + 1 else 0;
            0 <= node < 3 && freq[node] == 0
            && node !in Used(freq, elems)
  {
    var used := Used(freq, elems);
    if maxCode >= 2 {
      var one: set<nat> := {maxCode};
      assert one <= used && |one| == 1;
      SameSize(one, used);
      assert 0 !in used;
    } else {
      assert maxCode + 1 !in used;
    }
  }

  lemma SameSize(a: set<nat>, b: set<nat>)
    requires a <= b && |b| <= |a|
    ensures a == b
  {
    assert |b - a| == |b| - |a|;
    assert b == a + (b - a);
  }

  lemma FilledHeap(heap: seq<nat>, len: nat, freq: seq<nat>, depth: seq<nat>, nodes: set<nat>)
    requires Filling(heap, len, freq, depth, nodes)
    ensures HeapOf(heap, len, freq, depth, len / 2 + 1, nodes)
  {
    FilledNodes(heap, len, freq, depth, nodes);
  }

  lemma UnusedZero(was: seq<nat>, freq: seq<nat>, elems: nat, dl: seq<nat>)
    requires Forced(was, freq, elems) && |dl| == |was|
    requires forall x :: 0 <= x < elems && was[x] == 0 ==> dl[x] == 0
    ensures forall x :: 0 <= x < elems && x !in Used(freq, elems) ==> dl[x] == 0
  {
  }

  lemma NoneUsed(heap: seq<nat>, freq: seq<nat>, depth: seq<nat>)
    requires |heap| == |freq| == |depth| == HEAP_SIZE
    ensures Used(freq, 0) == {} && Filling(heap, 0, freq, depth, {})
  {
    assert heap[1..1] == [];
  }

  lemma UsedBelow(freq: seq<nat>, k: nat)
    requires k <= |freq|
    ensures forall x :: x in Used(freq, k) ==> x < k
  {
  }

  lemma FillingShape(heap: seq<nat>, len: nat, freq: seq<nat>, depth: seq<nat>, nodes: set<nat>)
    requires Filling(heap, len, freq, depth, nodes)
    ensures |heap| == |freq| == |depth| == HEAP_SIZE && len == |nodes| && len + 1 < HEAP_SIZE
  {
  }

  lemma LargestShape(nodes: set<nat>, maxCode: int)
    requires Largest(nodes, maxCode)
    ensures maxCode >= -1
  {
  }

  lemma LargestNext(nodes: set<nat>, maxCode: int, x: nat)
    requires Largest(nodes, maxCode) && x == if maxCode < 2 then maxCode + 1 else 0
    ensures Largest(nodes + {x}, if maxCode < 2 then maxCode + 1 else maxCode)
  {
  }

  // The accounting of the forced codes so far.
  ghost predicate Forcing(was: seq<nat>, freq: seq<nat>, desc: StaticTree, opt: int, stat: int) {
    && |was| == |freq| == HEAP_SIZE && desc.Valid()
    && Used(was, desc.elems) <= Used(freq, desc.elems)
    && (forall x :: 0 <= x < |was| && x !in Added(was, freq, desc.elems) ==> freq[x] == was[x])
    && (forall x :: x in Added(was, freq, desc.elems) ==> x <= 2 && freq[x] == 1)
    && opt == -|Added(was, freq, desc.elems)|
    && (desc.static_tree.Some? ==> stat == -StaticCost(Added(was, freq, desc.elems), freq, desc))
  }

  ghost function Added(was: seq<nat>, freq: seq<nat>, elems: nat): set<nat>
    requires elems <= |was| && elems <= |freq|
  {
    Used(freq, elems) - Used(was, elems)
  }

  lemma ForceOne(was: seq<nat>, freq: seq<nat>, desc: StaticTree, opt: int, stat: int, x: nat)
    requires Forcing(was, freq, desc, opt, stat) && x <= 2 && x !in Used(freq, desc.elems)
    ensures Forcing(was, freq[x := 1], desc, opt - 1, stat - desc.StaticLength(x))
    ensures Used(freq[x := 1], desc.elems) == Used(freq, desc.elems) + {x}
  {
    hide Used, StaticCost;
    var added := Added(was, freq, desc.elems);
    UsedMore(freq, desc.elems, x);
    assert x !in added;
    assert Added(was, freq[x := 1], desc.elems) == added + {x};
    StaticCostSame(added, freq, freq[x := 1], desc);
    StaticCostInsert(added, freq[x := 1], desc, x);
  }

  lemma ForceNone(freq: seq<nat>, desc: StaticTree)
    requires |freq| == HEAP_SIZE && desc.Valid()
    ensures Forcing(freq, freq, desc, 0, 0)
  {
    var used := Used(freq, desc.elems);
    assert used - used == {};
    CostEmptySet(freq, freq, desc);
  }

  // One round of the forcing loop.
  lemma ForceStep(was: seq<nat>, heap: seq<nat>, len: nat, freq: seq<nat>, depth: seq<nat>, desc: StaticTree,
                  maxCode: int, node: nat, opt: int, stat: int)
    requires desc.Valid() && |freq| == HEAP_SIZE && len < 2
    requires Filling(heap, len, freq, depth, Used(freq, desc.elems)) && Largest(Used(freq, desc.elems), maxCode)
    requires Forcing(was, freq, desc, opt, stat) && node == if maxCode < 2 then maxCode + 1 else 0
    ensures node < 3 && |heap| == HEAP_SIZE == |depth|
    ensures var used := Used(freq[node := 1], desc.elems);
            && Filling(heap[len + 1 := node], len + 1, freq[node := 1], depth[node := 0], used)
            && Largest(used, if maxCode < 2 then maxCode + 1 else maxCode)
    ensures Forcing(was, freq[node := 1], desc, opt - 1,
                    if desc.static_tree.Some? then stat - desc.static_tree.value.len[node] else stat)
  {
    hide Used, Contents;
    var used := Used(freq, desc.elems);
    FreshCode(freq, desc.elems, maxCode);
    FillOne(heap, len, freq, depth, used, node);
    ForceOne(was, freq, desc, opt, stat, node);
    LargestNext(used, maxCode, node);
  }

  lemma ForcingForced(was: seq<nat>, freq: seq<nat>, desc: StaticTree, opt: int, stat: int)
    requires Forcing(was, freq, desc, opt, stat) && |Used(freq, desc.elems)| >= 2
    requires |Used(freq, desc.elems)| > 2 ==> freq == was
    requires |Used(freq, desc.elems)| == |Used(was, desc.elems)| || |Used(freq, desc.elems)| <= 2
    ensures Forced(was, freq, desc.elems)
  {
  }
}
