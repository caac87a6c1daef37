/** The merge loop: what its heap, its records and its script keep. */
module MergeLoop {
  import opened Prelude
  import opened Heaps
  import opened Huffman
  import opened TreeShape
  import opened TreeCosts
  import opened NodeList
  import opened LeafHeap

  // ---- merging ----

  // heap[HEAP_SIZE - 1 - 2 i] and heap[HEAP_SIZE - 2 - 2 i] hold the nodes of the i-th merge, which name their father.
  ghost predicate Recorded(heap: seq<nat>, dl: seq<nat>, elems: nat, script: seq<Merge>) {
    && |heap| == HEAP_SIZE == |dl| && 2 * |script| < HEAP_SIZE
    && (forall i :: 0 <= i < |script| ==>
          && heap[HEAP_SIZE - 1 - 2 * i] == script[i].first && heap[HEAP_SIZE - 2 - 2 * i] == script[i].second
          && script[i].first < HEAP_SIZE && script[i].second < HEAP_SIZE
          && dl[script[i].first] == elems + i && dl[script[i].second] == elems + i)
  }

  ghost predicate Scripted(fc: seq<nat>, leaves: set<nat>, elems: nat, script: seq<Merge>) {
    && |leaves| <= elems <= L_CODES && |script| < |leaves| && |fc| == HEAP_SIZE
    && ValidScript(leaves, elems, script) && Additive(fc, elems, script) && Greedy(leaves, fc, elems, script)
  }

  // The state of the construction after the merges of the script.
  ghost predicate Merging(fc: seq<nat>, dl: seq<nat>, heap: seq<nat>, len: nat, max: nat, depth: seq<nat>,
                          leaves: set<nat>, elems: nat, script: seq<Merge>) {
    && Scripted(fc, leaves, elems, script) && Recorded(heap, dl, elems, script)
    && |depth| == HEAP_SIZE
    && len + |script| == |leaves| && max + 2 * |script| == HEAP_SIZE
    && HeapOf(heap, len, fc, depth, 1, Active(leaves, elems, script))
  }

  lemma {:induction false} GreedySame(leaves: set<nat>, w: seq<nat>, w': seq<nat>, elems: nat, script: seq<Merge>)
    requires ValidScript(leaves, elems, script) && elems + |script| <= |w| && |w'| == |w|
    requires forall x :: 0 <= x < elems + |script| ==> w[x] == w'[x]
    requires Greedy(leaves, w, elems, script)
    ensures Greedy(leaves, w', elems, script)
  {
    if script != [] {
      var t := |script| - 1;
      ActiveBounds(leaves, elems, script[..t]);
      GreedySame(leaves, w, w', elems, script[..t]);
    }
  }

  lemma ExtendAdditive(fc: seq<nat>, elems: nat, script: seq<Merge>, n: nat, m: nat)
    requires Additive(fc, elems, script) && elems + |script| < |fc| && n < elems + |script| && m < elems + |script|
    ensures Additive(fc[elems + |script| := fc[n] + fc[m]], elems, script + [Merge(n, m)])
  {
    var node, more := elems + |script|, script + [Merge(n, m)];
    var fc' := fc[node := fc[n] + fc[m]];
    forall i | 0 <= i < |more|
      ensures more[i].first < elems + i && more[i].second < elems + i
              && fc'[elems + i] == fc'[more[i].first] + fc'[more[i].second]
    {
      if i < |script| {
        assert more[i] == script[i];
        assert fc[elems + i] == fc[script[i].first] + fc[script[i].second];
      }
    }
  }

  lemma ExtendGreedy(fc: seq<nat>, leaves: set<nat>, elems: nat, script: seq<Merge>, n: nat, m: nat, w: nat)
    requires ValidScript(leaves, elems, script) && elems + |script| < |fc| && Greedy(leaves, fc, elems, script)
    requires Weighed(Active(leaves, elems, script), fc) && LeastPair(Active(leaves, elems, script), fc, n, m)
    ensures Greedy(leaves, fc[elems + |script| := w], elems, script + [Merge(n, m)])
  {
    var more := script + [Merge(n, m)];
    assert more[..|script|] == script;
    ActiveBounds(leaves, elems, script);
    GreedySame(leaves, fc, fc[elems + |script| := w], elems, script);
  }

  lemma ExtendScript(fc: seq<nat>, leaves: set<nat>, elems: nat, script: seq<Merge>, n: nat, m: nat)
    requires Scripted(fc, leaves, elems, script) && |script| + 1 < |leaves|
    requires Weighed(Active(leaves, elems, script), fc) && LeastPair(Active(leaves, elems, script), fc, n, m)
    ensures elems + |script| < HEAP_SIZE && n < elems + |script| && m < elems + |script|
    ensures elems + |script| !in Active(leaves, elems, script)
    ensures var node, more := elems + |script|, script + [Merge(n, m)];
            && Scripted(fc[node := fc[n] + fc[m]], leaves, elems, more)
            && Active(leaves, elems, more) == Active(leaves, elems, script) - {n, m} + {node}
  {
    hide Additive, Greedy;
    var more := script + [Merge(n, m)];
    ActiveBounds(leaves, elems, script);
    assert more[..|script|] == script;
    ExtendAdditive(fc, elems, script, n, m);
    ExtendGreedy(fc, leaves, elems, script, n, m, fc[n] + fc[m]);
  }

  lemma ExtendRecord(heap: seq<nat>, heap': seq<nat>, dl: seq<nat>, leaves: set<nat>, elems: nat, script: seq<Merge>,
                     n: nat, m: nat)
    requires ValidScript(leaves, elems, script) && n in Active(leaves, elems, script)
             && m in Active(leaves, elems, script)
    requires Recorded(heap, dl, elems, script) && 2 * |script| + 2 < HEAP_SIZE && n < HEAP_SIZE && m < HEAP_SIZE
    requires |heap'| == HEAP_SIZE && forall i :: HEAP_SIZE - 2 * |script| <= i < HEAP_SIZE ==> heap'[i] == heap[i]
    requires heap'[HEAP_SIZE - 1 - 2 * |script|] == n && heap'[HEAP_SIZE - 2 - 2 * |script|] == m
    ensures Recorded(heap', dl[n := elems + |script|][m := elems + |script|], elems, script + [Merge(n, m)])
  {
    hide Active, ValidScript;
    assert script[..|script|] == script;
    forall i | 0 <= i < |script|
      ensures script[i].first != n && script[i].second != n && script[i].first != m && script[i].second != m
    {
      Gone(leaves, elems, script, i, |script|, script[i].first);
      Gone(leaves, elems, script, i, |script|, script[i].second);
    }
  }

  lemma MergingShape(fc: seq<nat>, dl: seq<nat>, heap: seq<nat>, len: nat, max: nat, depth: seq<nat>,
                     leaves: set<nat>, elems: nat, script: seq<Merge>)
    requires Merging(fc, dl, heap, len, max, depth, leaves, elems, script)
    ensures |heap| == HEAP_SIZE && ValidScript(leaves, elems, script)
    ensures len >= 2 ==> len + 2 <= max && |script| + 1 < |leaves| && 2 * |script| + 2 < HEAP_SIZE
  {
  }

  lemma HeapShape(heap: seq<nat>, len: nat, freq: seq<nat>, depth: seq<nat>, k: nat, nodes: set<nat>)
    requires HeapOf(heap, len, freq, depth, k, nodes)
    ensures Nodes(heap, len, freq, depth) && OrderedFrom(heap, len, freq, depth, k)
  {
  }

  lemma LeavesOrFathers(leaves: set<nat>, elems: nat, script: seq<Merge>, x: nat)
    requires ValidScript(leaves, elems, script) && x in Active(leaves, elems, script)
    ensures x in leaves || x >= elems
  {
    NodeKind(leaves, elems, script, x);
  }

  // Only cells of the heap itself have changed.
  lemma SameRecord(heap: seq<nat>, heap': seq<nat>, x: nat, len: nat, dl: seq<nat>, elems: nat, script: seq<Merge>)
    requires Recorded(heap, dl, elems, script) && |heap'| == HEAP_SIZE
    requires 1 <= len < HEAP_SIZE - 2 * |script|
    requires forall i :: len < i < |heap'| ==> heap'[i] == heap[1 := x][i]
    ensures Recorded(heap', dl, elems, script)
  {
  }

  lemma StartMerging(fc: seq<nat>, dl: seq<nat>, heap: seq<nat>, len: nat, depth: seq<nat>, elems: nat)
    requires |fc| == |dl| == |heap| == |depth| == HEAP_SIZE && 3 <= elems <= L_CODES
    requires HeapOf(heap, len, fc, depth, 1, Used(fc, elems)) && len == |Used(fc, elems)| >= 2
    ensures Merging(fc, dl, heap, len, HEAP_SIZE, depth, Used(fc, elems), elems, [])
  {
    UsedSize(fc, elems);
  }

  // One node is left: it becomes the head of the list.
  lemma FinishMerging(fc: seq<nat>, dl: seq<nat>, heap: seq<nat>, len: nat, max: nat, depth: seq<nat>,
                      leaves: set<nat>, elems: nat, script: seq<Merge>, maxCode: int)
    requires Merging(fc, dl, heap, len, max, depth, leaves, elems, script) && len < 2 && |leaves| >= 2
    requires Largest(leaves, maxCode) && maxCode < elems
    ensures max >= 1 && script != []
    ensures var list := heap[max - 1 := heap[1]][max - 1..];
            && Ready(list, leaves, elems, script, maxCode)
            && (forall p :: 1 <= p < |list| ==> list[p] < HEAP_SIZE && dl[list[p]] == elems + MergeAt(list, p))
  {
    hide Active, ValidScript, Additive, Greedy, OrderedFrom;
    var list := heap[max - 1 := heap[1]][max - 1..];
    OneLeft(leaves, elems, script);
    RootInHeap(heap, len, fc, depth, Active(leaves, elems, script));
    forall i | 0 <= i < |script|
      ensures list[|list| - 1 - 2 * i] == script[i].first && list[|list| - 2 - 2 * i] == script[i].second
    {
      assert heap[HEAP_SIZE - 1 - 2 * i] == script[i].first;
    }
    forall p | 1 <= p < |list|
      ensures list[p] < HEAP_SIZE && dl[list[p]] == elems + MergeAt(list, p)
    {
      ListedAt(list, elems, script, p);
      assert heap[HEAP_SIZE - 1 - 2 * MergeAt(list, p)] == script[MergeAt(list, p)].first;
    }
  }

  lemma MergingScript(fc: seq<nat>, dl: seq<nat>, heap: seq<nat>, len: nat, max: nat, depth: seq<nat>,
                      leaves: set<nat>, elems: nat, script: seq<Merge>)
    requires Merging(fc, dl, heap, len, max, depth, leaves, elems, script)
    ensures Scripted(fc, leaves, elems, script) && |heap| == |depth| == HEAP_SIZE && 1 < max <= HEAP_SIZE && len >= 1
            && len + |script| == |leaves|
  {
  }
}
