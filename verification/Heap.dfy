/** The binary heap that orders tree nodes by frequency, then by depth. */
module Heaps {
  import opened Prelude

  const HEAP_SIZE: nat := 573

  // Node n is no heavier than m; equal weights are decided by depth.
  predicate Smaller(freq: seq<nat>, n: nat, m: nat, depth: seq<nat>)
    requires n < |freq| && m < |freq| && n < |depth| && m < |depth|
  {
    freq[n] < freq[m] || (freq[n] == freq[m] && depth[n] <= depth[m])
  }

  // heap[1..=len] are nodes of the tree.
  predicate Nodes(heap: seq<nat>, len: nat, freq: seq<nat>, depth: seq<nat>) {
    && len < |heap|
    && (forall i :: 1 <= i <= len ==> heap[i] < |freq| && heap[i] < |depth|)
  }

  // No node at k or below is heavier than its sons.
  predicate OrderedFrom(heap: seq<nat>, len: nat, freq: seq<nat>, depth: seq<nat>, k: nat)
    requires Nodes(heap, len, freq, depth)
  {
    forall i :: 2 <= i <= len && i / 2 >= k ==> Smaller(freq, heap[i / 2], heap[i], depth)
  }

  ghost function Contents(heap: seq<nat>, len: nat): multiset<nat>
    requires len < |heap|
  {
    multiset(heap[1..len + 1])
  }

  // The heap with the hole at k filled by v is ordered, except that v may be heavier than its sons.
  predicate HoleAt(heap: seq<nat>, len: nat, freq: seq<nat>, depth: seq<nat>, top: nat, k: nat, v: nat)
    requires Nodes(heap, len, freq, depth) && v < |freq| && v < |depth|
  {
    && top <= k <= len
    && (forall i :: 2 <= i <= len && i / 2 >= top && i / 2 != k && i != k ==>
          Smaller(freq, heap[i / 2], heap[i], depth))
    && (k / 2 >= top && k >= 2 ==> Smaller(freq, heap[k / 2], v, depth))
    && (forall i :: 2 <= i <= len && i / 2 == k && k >= 2 && k / 2 >= top ==>
          Smaller(freq, heap[k / 2], heap[i], depth))
  }

  // j is the son of k that is no heavier than the other one.
  predicate LeastSon(heap: seq<nat>, len: nat, freq: seq<nat>, depth: seq<nat>, k: nat, j: nat)
    requires Nodes(heap, len, freq, depth)
  {
    && 2 <= j <= len && j / 2 == k
    && (forall i :: 2 <= i <= len && i / 2 == k ==> Smaller(freq, heap[j], heap[i], depth))
  }

  lemma FindLeastSon(heap: seq<nat>, len: nat, freq: seq<nat>, depth: seq<nat>, k: nat, j: nat)
    requires Nodes(heap, len, freq, depth) && 1 <= k && 2 * k <= len
    requires j == if 2 * k < len && Smaller(freq, heap[2 * k + 1], heap[2 * k], depth) then 2 * k + 1 else 2 * k
    ensures LeastSon(heap, len, freq, depth, k, j)
  {
  }

  lemma BelowSons(heap: seq<nat>, len: nat, freq: seq<nat>, depth: seq<nat>, k: nat, j: nat, v: nat)
    requires Nodes(heap, len, freq, depth) && v < |freq| && v < |depth|
    requires LeastSon(heap, len, freq, depth, k, j) && Smaller(freq, v, heap[j], depth)
    ensures forall i :: 2 <= i <= len && i / 2 == k ==> Smaller(freq, v, heap[i], depth)
  {
  }

  lemma MoveHole(heap: seq<nat>, len: nat, freq: seq<nat>, depth: seq<nat>, top: nat, k: nat, v: nat, j: nat)
    requires Nodes(heap, len, freq, depth) && v < |freq| && v < |depth|
    requires HoleAt(heap, len, freq, depth, top, k, v) && top >= 1
    requires LeastSon(heap, len, freq, depth, k, j) && Smaller(freq, heap[j], v, depth)
    ensures Nodes(heap[k := heap[j]], len, freq, depth)
    ensures HoleAt(heap[k := heap[j]], len, freq, depth, top, j, v)
  {
  }

  lemma FillHole(heap: seq<nat>, len: nat, freq: seq<nat>, depth: seq<nat>, top: nat, k: nat, v: nat)
    requires Nodes(heap, len, freq, depth) && v < |freq| && v < |depth|
    requires HoleAt(heap, len, freq, depth, top, k, v) && top >= 1
    requires forall i :: 2 <= i <= len && i / 2 == k ==> Smaller(freq, v, heap[i], depth)
    ensures Nodes(heap[k := v], len, freq, depth)
    ensures OrderedFrom(heap[k := v], len, freq, depth, top)
  {
  }

  lemma OpenHole(heap: seq<nat>, len: nat, freq: seq<nat>, depth: seq<nat>, k: nat)
    requires Nodes(heap, len, freq, depth) && 1 <= k <= len
    requires OrderedFrom(heap, len, freq, depth, k + 1)
    ensures HoleAt(heap, len, freq, depth, k, k, heap[k])
  {
  }

  lemma SwapContents(heap: seq<nat>, len: nat, k: nat, j: nat, v: nat)
    requires len < |heap| && 1 <= k <= len && 1 <= j <= len && k != j
    ensures Contents(heap[k := heap[j]][j := v], len) == Contents(heap[k := v], len)
  {
    var a := heap[k := v][1..len + 1];
    var b := heap[k := heap[j]][j := v][1..len + 1];
    assert b == a[k - 1 := a[j - 1]][j - 1 := a[k - 1]];
  }

  lemma {:induction false} RootIsLeast(heap: seq<nat>, len: nat, freq: seq<nat>, depth: seq<nat>, i: nat)
    requires Nodes(heap, len, freq, depth) && OrderedFrom(heap, len, freq, depth, 1)
    requires 1 <= i <= len
    ensures Smaller(freq, heap[1], heap[i], depth)
  {
    if i > 1 {
      RootIsLeast(heap, len, freq, depth, i / 2);
    }
  }

  // The least weight in the heap is the weight of its root.
  lemma LeastWeight(heap: seq<nat>, len: nat, freq: seq<nat>, depth: seq<nat>, x: nat)
    requires Nodes(heap, len, freq, depth) && OrderedFrom(heap, len, freq, depth, 1)
    requires x in Contents(heap, len)
    ensures len >= 1 && x < |freq| && freq[heap[1]] <= freq[x]
  {
    var i :| 1 <= i <= len && heap[i] == x;
    RootIsLeast(heap, len, freq, depth, i);
  }

  // The heap holds exactly the nodes of the set, in heap order from k on.
  ghost predicate HeapOf(heap: seq<nat>, len: nat, freq: seq<nat>, depth: seq<nat>, k: nat, nodes: set<nat>) {
    && Nodes(heap, len, freq, depth) && OrderedFrom(heap, len, freq, depth, k)
    && Contents(heap, len) == multiset(nodes)
  }

  lemma PushNode(heap: seq<nat>, len: nat, nodes: set<nat>, x: nat)
    requires len + 1 < |heap| && Contents(heap, len) == multiset(nodes) && x !in nodes
    ensures Contents(heap[len + 1 := x], len + 1) == multiset(nodes + {x})
  {
    assert heap[len + 1 := x][1..len + 2] == heap[1..len + 1] + [x];
    assert multiset(nodes + {x}) == multiset(nodes) + multiset{x};
  }

  lemma Cancel(a: multiset<nat>, b: multiset<nat>, n: nat)
    requires a + multiset{n} == b + multiset{n}
    ensures a == b
  {
    forall x: nat
      ensures a[x] == b[x]
    {
      assert (a + multiset{n})[x] == (b + multiset{n})[x];
    }
  }

  // Taking the root out: the last node stands in its place.
  lemma PopRoot(heap: seq<nat>, len: nat, freq: seq<nat>, depth: seq<nat>, nodes: set<nat>)
    requires HeapOf(heap, len, freq, depth, 1, nodes) && len >= 2
    ensures heap[1] in nodes && HeapOf(heap[1 := heap[len]], len - 1, freq, depth, 2, nodes - {heap[1]})
    ensures forall x :: x in nodes ==> x < |freq| && freq[heap[1]] <= freq[x]
  {
    var rest := heap[1 := heap[len]];
    var n := heap[1];
    assert heap[1..len + 1] == [n] + heap[2..len] + [heap[len]];
    assert rest[1..len] == [heap[len]] + heap[2..len];
    assert Contents(rest, len - 1) == multiset{heap[len]} + multiset(heap[2..len]);
    assert Contents(heap, len) == Contents(rest, len - 1) + multiset{n};
    assert n in Contents(heap, len);
    assert multiset(nodes) == multiset(nodes - {n}) + multiset{n};
    Cancel(Contents(rest, len - 1), multiset(nodes - {n}), n);
    forall x | x in nodes
      ensures x < |freq| && freq[n] <= freq[x]
    {
      LeastWeight(heap, len, freq, depth, x);
    }
  }

  lemma RootInHeap(heap: seq<nat>, len: nat, freq: seq<nat>, depth: seq<nat>, nodes: set<nat>)
    requires HeapOf(heap, len, freq, depth, 1, nodes) && len >= 1
    ensures heap[1] in nodes && forall x :: x in nodes ==> x < |freq| && freq[heap[1]] <= freq[x]
  {
    assert heap[1] in Contents(heap, len);
    forall x | x in nodes
      ensures x < |freq| && freq[heap[1]] <= freq[x]
    {
      LeastWeight(heap, len, freq, depth, x);
    }
  }

  // Cells beyond the heap do not matter.
  lemma BeyondHeap(heap: seq<nat>, heap': seq<nat>, len: nat, freq: seq<nat>, depth: seq<nat>, k: nat, nodes: set<nat>)
    requires HeapOf(heap, len, freq, depth, k, nodes) && |heap'| == |heap|
    requires forall i :: 0 <= i <= len ==> heap'[i] == heap[i]
    ensures HeapOf(heap', len, freq, depth, k, nodes)
  {
    assert heap'[1..len + 1] == heap[1..len + 1];
  }

  lemma InContents(heap: seq<nat>, len: nat, i: nat)
    requires len < |heap| && 1 <= i <= len
    ensures heap[i] in Contents(heap, len)
  {
    assert heap[1..len + 1][i - 1] in heap[1..len + 1];
  }

  lemma OneApart(nodes: set<nat>, x: nat)
    requires x !in nodes
    ensures multiset(nodes + {x}) == multiset(nodes) + multiset{x}
  {
  }

  // A new node in place of the root.
  lemma ReplaceRoot(heap: seq<nat>, len: nat, freq: seq<nat>, depth: seq<nat>, nodes: set<nat>, x: nat, w: nat, d: nat)
    requires HeapOf(heap, len, freq, depth, 1, nodes) && len >= 1 && x !in nodes && x < |freq| && x < |depth|
    ensures heap[1] in nodes
    ensures HeapOf(heap[1 := x], len, freq[x := w], depth[x := d], 2, nodes - {heap[1]} + {x})
  {
    var h := heap[1 := x];
    assert heap[1..len + 1] == [heap[1]] + heap[2..len + 1];
    assert h[1..len + 1] == [x] + heap[2..len + 1];
    InContents(heap, len, 1);
    OneApart(nodes - {heap[1]}, heap[1]);
    assert nodes - {heap[1]} + {heap[1]} == nodes;
    OneApart(nodes - {heap[1]}, x);
    forall i | 1 <= i <= len
      ensures heap[i] != x
    {
      InContents(heap, len, i);
    }
  }

  // Restoring the order keeps the nodes.
  lemma Reordered(was: seq<nat>, heap: seq<nat>, len: nat, freq: seq<nat>, depth: seq<nat>, k: nat, nodes: set<nat>)
    requires HeapOf(was, len, freq, depth, k + 1, nodes)
    requires Nodes(heap, len, freq, depth) && OrderedFrom(heap, len, freq, depth, k)
             && Contents(heap, len) == Contents(was, len)
    ensures HeapOf(heap, len, freq, depth, k, nodes)
  {
  }

  class Work {
    var heap: seq<nat>
    var heap_len: nat
    var heap_max: nat
    var depth: seq<nat>
    var bl_count: seq<nat>
    var opt_len: int
    var static_len: int

    constructor ()
      ensures |heap| == HEAP_SIZE && |depth| == HEAP_SIZE && |bl_count| == 16
      ensures opt_len == static_len == 0
    {
      heap, depth, bl_count := seq(HEAP_SIZE, _ => 0), seq(HEAP_SIZE, _ => 0), seq(16, _ => 0);
      heap_len, heap_max, opt_len, static_len := 0, HEAP_SIZE, 0, 0;
    }

    // Moves heap[k] down until the order holds from k on.
    method PqDownHeap(freq: seq<nat>, k: nat)
      requires Nodes(heap, heap_len, freq, depth) && 1 <= k <= heap_len
      requires OrderedFrom(heap, heap_len, freq, depth, k + 1)
      modifies this`heap
      ensures |heap| == old(|heap|) && Nodes(heap, heap_len, freq, depth)
      ensures OrderedFrom(heap, heap_len, freq, depth, k)
      ensures Contents(heap, heap_len) == old(Contents(heap, heap_len))
      ensures forall i :: heap_len < i < |heap| ==> heap[i] == old(heap[i])
    {
      hide HoleAt, LeastSon, OrderedFrom, Contents;
      var was, dep, len := heap, depth, heap_len;
      var h, v := was, was[k];
      var kk, j := k, 2 * k;
      OpenHole(h, len, freq, dep, k);
      assert h[kk := v] == was;
      while j <= len
        invariant 1 <= kk <= len && j == 2 * kk && |h| == |was|
        invariant Nodes(h, len, freq, dep) && HoleAt(h, len, freq, dep, k, kk, v)
        invariant Contents(h[kk := v], len) == Contents(was, len)
        invariant forall i :: len < i < |h| ==> h[i] == was[i]
        invariant heap == was && depth == dep && heap_len == len
        decreases len - kk
      {
        if j < len && Smaller(freq, h[j + 1], h[j], dep) {
          j := j + 1;
        }
        FindLeastSon(h, len, freq, dep, kk, j);
        if Smaller(freq, v, h[j], dep) {
          BelowSons(h, len, freq, dep, kk, j, v);
          break;
        }
        MoveHole(h, len, freq, dep, k, kk, v, j);
        SwapContents(h, len, kk, j, v);
        h := h[kk := h[j]];
        kk := j;
        j := 2 * j;
      }
      FillHole(h, len, freq, dep, k, kk, v);
      heap := h[kk := v];
    }
  }
}
