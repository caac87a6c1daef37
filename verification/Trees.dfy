/** Tree: one Huffman tree of the compressor, its construction and its code lengths. */
module Trees {
  import opened Prelude
  import opened Bits
  import opened Inflate
  import opened Canonical
  import opened Heaps
  import opened Huffman
  import opened TreeShape
  import opened LengthCounts
  import opened TreeCosts
  import opened NodeList
  import opened LeafHeap
  import opened MergeLoop
  import opened TreeLimits
  import opened TreeOrder
  import opened CodeGen

  class Tree {
    var fc: seq<nat>       // slot 2n of the node array: frequency, later code
    var dl: seq<nat>       // slot 2n+1: father, later code length
    var max_code: int      // largest code with non-zero frequency
    const stat_desc: StaticTree

    constructor (desc: StaticTree)
      requires desc.Valid()
      ensures stat_desc == desc && Sized() && max_code == -1
      ensures fc == seq(HEAP_SIZE, _ => 0)
    {
      fc, dl, max_code, stat_desc := seq(HEAP_SIZE, _ => 0), seq(HEAP_SIZE, _ => 0), -1, desc;
    }

    // The code lengths the tree is sent with.
    function Lens(): seq<nat>
      requires Sized() && 0 <= max_code < stat_desc.elems
      reads this`dl, this`max_code, this`fc
    {
      dl[..max_code + 1]
    }

    // The tree carries a complete code of limited lengths, ready to be sent bit-reversed.
    ghost predicate Coded()
      requires Sized()
      reads this`dl, this`max_code, this`fc
    {
      && 0 <= max_code < stat_desc.elems && dl[max_code] > 0
      && Complete(Lens()) && (forall n :: 0 <= n < |Lens()| ==> Lens()[n] <= stat_desc.max_length)
      && (forall n :: 0 <= n < |Lens()| && Lens()[n] > 0 ==> fc[n] == Reversed(CodeOf(Lens(), n), Lens()[n]))
      && (forall n :: max_code < n < stat_desc.elems ==> dl[n] == 0)
    }

    lemma NowCoded()
      requires Sized() && 0 <= max_code < stat_desc.elems && dl[max_code] > 0 && Complete(dl[..max_code + 1])
      requires forall n :: 0 <= n <= max_code ==> dl[n] <= stat_desc.max_length
      requires forall n :: max_code < n < stat_desc.elems ==> dl[n] == 0
      requires forall n :: 0 <= n <= max_code && dl[n] > 0 ==> fc[n] == Reversed(CodeOf(dl[..max_code + 1], n), dl[n])
      ensures Coded()
    {
      hide Complete, Reversed, CodeOf;
    }

    predicate Sized()
      reads this`fc, this`dl
    {
      |fc| == HEAP_SIZE && |dl| == HEAP_SIZE && stat_desc.Valid()
    }

    // Fills the heap with the codes that occur.
    method CollectLeaves(s: Work) returns (maxCode: int)
      requires Sized() && |s.heap| == |s.depth| == HEAP_SIZE
      modifies this`dl, s`heap, s`heap_len, s`heap_max, s`depth
      ensures Sized() && s.heap_max == HEAP_SIZE
      ensures Filling(s.heap, s.heap_len, fc, s.depth, Used(fc, stat_desc.elems))
      ensures Largest(Used(fc, stat_desc.elems), maxCode) && maxCode < stat_desc.elems
      ensures forall x :: 0 <= x < stat_desc.elems && fc[x] == 0 ==> dl[x] == 0
      ensures forall x :: 0 <= x < stat_desc.elems && fc[x] != 0 ==> s.depth[x] == 0
    {
      hide Contents, Used;
      maxCode := -1;
      var heap: seq<nat>, depth: seq<nat>, lens: seq<nat>, freq, elems := s.heap, s.depth, dl, fc, stat_desc.elems;
      var len := 0;
      NoneUsed(heap, freq, depth);
      for n := 0 to elems
        invariant |lens| == HEAP_SIZE
        invariant Filling(heap, len, freq, depth, Used(freq, n)) && len <= n
        invariant Largest(Used(freq, n), maxCode) && maxCode < n
        invariant forall x :: 0 <= x < n && freq[x] == 0 ==> lens[x] == 0
        invariant forall x :: 0 <= x < n && freq[x] != 0 ==> depth[x] == 0
      {
        UsedNext(freq, n);
        UsedBelow(freq, n);
        if freq[n] != 0 {
          FillOne(heap, len, freq, depth, Used(freq, n), n);
          len := len + 1;
          heap := heap[len := n];
          maxCode := n;
          depth := depth[n := 0];
        } else {
          lens := lens[n := 0];
        }
      }
      dl, s.heap, s.depth, s.heap_len, s.heap_max := lens, heap, depth, len, HEAP_SIZE;
    }

    // Makes sure that at least two codes occur.
    method ForceTwo(s: Work, maxCode: int) returns (maxCode': int)
      requires Sized() && Filling(s.heap, s.heap_len, fc, s.depth, Used(fc, stat_desc.elems))
      requires Largest(Used(fc, stat_desc.elems), maxCode) && maxCode < stat_desc.elems
      modifies this`fc, s`heap, s`heap_len, s`depth, s`opt_len, s`static_len
      ensures Sized() && Forced(old(fc), fc, stat_desc.elems)
      ensures Filling(s.heap, s.heap_len, fc, s.depth, Used(fc, stat_desc.elems))
      ensures Largest(Used(fc, stat_desc.elems), maxCode') && maxCode' < stat_desc.elems
      ensures Forcing(old(fc), fc, stat_desc, s.opt_len - old(s.opt_len), s.static_len - old(s.static_len))
      ensures stat_desc.static_tree.None? ==> s.static_len == old(s.static_len)
    {
      hide Contents, Used, Pow2, StaticCost, Forcing, Largest, Filling;
      maxCode' := maxCode;
      var heap: seq<nat>, depth: seq<nat>, freq: seq<nat>, len, optLen, staticLen, desc := s.heap, s.depth, fc,
        s.heap_len, s.opt_len, s.static_len, stat_desc;
      ghost var was, opt0, static0 := freq, optLen, staticLen;
      ForceNone(freq, desc);
      FillingShape(heap, len, freq, depth, Used(freq, desc.elems));
      while len < 2
        invariant |heap| == |depth| == |freq| == HEAP_SIZE && desc.Valid() && len == |Used(freq, desc.elems)|
        invariant Filling(heap, len, freq, depth, Used(freq, desc.elems))
        invariant Largest(Used(freq, desc.elems), maxCode') && maxCode' < desc.elems
        invariant Forcing(was, freq, desc, optLen - opt0, staticLen - static0)
        invariant desc.static_tree.None? ==> staticLen == static0
        invariant len > 2 ==> freq == was
        invariant len == |Used(was, desc.elems)| || len <= 2
        decreases 2 - len
      {
        LargestShape(Used(freq, desc.elems), maxCode');
        var node: nat := if maxCode' < 2 then maxCode' + 1 else 0;
        ForceStep(was, heap, len, freq, depth, desc, maxCode', node, optLen - opt0, staticLen - static0);
        maxCode' := if maxCode' < 2 then maxCode' + 1 else maxCode';
        len := len + 1;
        heap := heap[len := node];
        freq := freq[node := 1];
        depth := depth[node := 0];
        optLen := optLen - 1;
        if desc.static_tree.Some? {
          staticLen := staticLen - desc.static_tree.value.len[node];
        }
        FillingShape(heap, len, freq, depth, Used(freq, desc.elems));
      }
      ForcingForced(was, freq, desc, optLen - opt0, staticLen - static0);
      fc, s.heap, s.depth, s.heap_len, s.opt_len, s.static_len := freq, heap, depth, len, optLen, staticLen;
    }

    // The first half of a round of the merge loop of build_tree: takes the two least frequent nodes out.
    method TakeTwo(s: Work, ghost nodes: set<nat>) returns (n: nat, m: nat)
      requires Sized() && s.heap_len >= 2 && s.heap_len + 2 <= s.heap_max <= |s.heap|
      requires HeapOf(s.heap, s.heap_len, fc, s.depth, 1, nodes)
      modifies s`heap, s`heap_len, s`heap_max
      ensures n in nodes && m in nodes && n != m
      ensures Weighed(nodes, fc) && LeastPair(nodes, fc, n, m)
      ensures s.heap_len == old(s.heap_len) - 1 && s.heap_max == old(s.heap_max) - 2 && |s.heap| == old(|s.heap|)
      ensures HeapOf(s.heap, s.heap_len, fc, s.depth, 1, nodes - {n}) && s.heap[1] == m
      ensures forall i :: old(s.heap_max) <= i < |s.heap| ==> s.heap[i] == old(s.heap[i])
      ensures s.heap[old(s.heap_max) - 1] == n && s.heap[old(s.heap_max) - 2] == m
    {
      hide Contents, OrderedFrom;
      PopRoot(s.heap, s.heap_len, fc, s.depth, nodes);
      n := s.heap[1];
      s.heap := s.heap[1 := s.heap[s.heap_len]];
      s.heap_len := s.heap_len - 1;
      ghost var rest := nodes - {n};
      ghost var was := s.heap;
      s.PqDownHeap(fc, 1);
      Reordered(was, s.heap, s.heap_len, fc, s.depth, 1, rest);
      RootInHeap(s.heap, s.heap_len, fc, s.depth, rest);
      m := s.heap[1];
      was := s.heap;
      s.heap_max := s.heap_max - 1;
      s.heap := s.heap[s.heap_max := n];
      s.heap_max := s.heap_max - 1;
      s.heap := s.heap[s.heap_max := m];
      BeyondHeap(was, s.heap, s.heap_len, fc, s.depth, 1, rest);
    }

    // The second half: the father of n and m goes into the heap in the place of m.
    method InsertFather(s: Work, node: nat, n: nat, m: nat, ghost nodes: set<nat>)
      requires Sized() && |s.depth| == HEAP_SIZE && node < HEAP_SIZE && n < HEAP_SIZE && s.heap_len >= 1
      requires HeapOf(s.heap, s.heap_len, fc, s.depth, 1, nodes) && s.heap[1] == m && node !in nodes
      modifies this`fc, this`dl, s`heap, s`depth
      ensures m < HEAP_SIZE && fc == old(fc[node := fc[n] + fc[m]]) && dl == old(dl)[n := node][m := node]
      ensures |s.depth| == HEAP_SIZE && |s.heap| == old(|s.heap|)
      ensures s.depth == old(s.depth[node := (if s.depth[n] >= s.depth[m] then s.depth[n] else s.depth[m]) + 1])
      ensures HeapOf(s.heap, s.heap_len, fc, s.depth, 1, nodes - {m} + {node})
      ensures forall i :: s.heap_len < i < |s.heap| ==> s.heap[i] == old(s.heap)[1 := node][i]
    {
      hide OrderedFrom, Contents;
      var weight, deep := fc[n] + fc[m], (if s.depth[n] >= s.depth[m] then s.depth[n] else s.depth[m]) + 1;
      ReplaceRoot(s.heap, s.heap_len, fc, s.depth, nodes, node, weight, deep);
      fc := fc[node := weight];
      dl := dl[n := node][m := node];
      s.depth := s.depth[node := deep];
      s.heap := s.heap[1 := node];
      ghost var was := s.heap;
      s.PqDownHeap(fc, 1);
      Reordered(was, s.heap, s.heap_len, fc, s.depth, 1, nodes - {m} + {node});
    }

    // One round of the merge loop of build_tree: combines the two least frequent nodes.
    method CombineLeast(s: Work, node: nat, ghost leaves: set<nat>, ghost script: seq<Merge>)
      returns (ghost more: seq<Merge>)
      requires Sized() && s.heap_len >= 2 && node == stat_desc.elems + |script|
      requires Merging(fc, dl, s.heap, s.heap_len, s.heap_max, s.depth, leaves, stat_desc.elems, script)
      modifies this`fc, this`dl, s`heap, s`heap_len, s`heap_max, s`depth
      ensures Sized() && |more| == |script| + 1 && s.heap_len == old(s.heap_len) - 1
      ensures Merging(fc, dl, s.heap, s.heap_len, s.heap_max, s.depth, leaves, stat_desc.elems, more)
      ensures forall x :: 0 <= x < stat_desc.elems ==> fc[x] == old(fc[x])
      ensures forall x :: 0 <= x < stat_desc.elems && x !in leaves ==> dl[x] == old(dl[x])
    {
      hide Active, ValidScript, Additive, Greedy, HeapOf, LeastPair, Scripted, Recorded, OrderedFrom, Contents;
      ghost var elems, nodes, was := stat_desc.elems, Active(leaves, stat_desc.elems, script), s.heap;
      MergingShape(fc, dl, s.heap, s.heap_len, s.heap_max, s.depth, leaves, elems, script);
      var n, m := TakeTwo(s, nodes);
      ExtendScript(fc, leaves, elems, script, n, m);
      ExtendRecord(was, s.heap, dl, leaves, elems, script, n, m);
      more := script + [Merge(n, m)];
      LeavesOrFathers(leaves, elems, script, n);
      LeavesOrFathers(leaves, elems, script, m);
      ghost var recorded := s.heap;
      InsertFather(s, node, n, m, nodes - {n});
      assert nodes - {n} - {m} + {node} == nodes - {n, m} + {node};
      SameRecord(recorded, s.heap, node, s.heap_len, dl, elems, more);
    }

    // build_tree up to gen_bitlen: the tree of the codes that occur, listed in heap[heap_max..] with fathers first.
    method Construct(s: Work) returns (ghost leaves: set<nat>, ghost script: seq<Merge>, ghost freq: seq<nat>)
      requires Sized() && |s.heap| == |s.depth| == HEAP_SIZE
      modifies this`fc, this`dl, this`max_code, s`heap, s`heap_len, s`heap_max, s`depth, s`opt_len, s`static_len
      ensures Sized() && |s.heap| == |s.depth| == HEAP_SIZE && 1 <= s.heap_max <= HEAP_SIZE
      ensures Forced(old(fc), freq, stat_desc.elems) && leaves == Used(freq, stat_desc.elems)
      ensures Forcing(old(fc), freq, stat_desc, s.opt_len - old(s.opt_len), s.static_len - old(s.static_len))
      ensures stat_desc.static_tree.None? ==> s.static_len == old(s.static_len)
      ensures forall x :: 0 <= x < stat_desc.elems ==> fc[x] == freq[x]
      ensures forall x :: 0 <= x < stat_desc.elems && x !in leaves ==> dl[x] == 0
      ensures Scripted(fc, leaves, stat_desc.elems, script) && Largest(leaves, max_code) && script != []
      ensures var list := s.heap[s.heap_max..];
              && Ready(list, leaves, stat_desc.elems, script, max_code)
              && (forall p :: 1 <= p < |list| ==>
                    list[p] < HEAP_SIZE
                    && dl[list[p]] == stat_desc.elems + MergeAt(list, p))
    {
      hide Used, Contents, OrderedFrom, Filling, Forcing, Largest, Scripted, Merging, Ready, HeapOf, Pow2;
      var maxCode := CollectLeaves(s);
      maxCode := ForceTwo(s, maxCode);
      max_code := maxCode;
      freq := fc;
      ghost var elems := stat_desc.elems;
      leaves := Used(freq, elems);
      FillingShape(s.heap, s.heap_len, fc, s.depth, leaves);
      FilledHeap(s.heap, s.heap_len, fc, s.depth, leaves);
      UnusedZero(old(fc), freq, elems, dl);
      ghost var lens, opt, stat := dl, s.opt_len, s.static_len;
      var n: nat := s.heap_len / 2;
      while n >= 1
        invariant n <= s.heap_len && |s.heap| == |s.depth| == HEAP_SIZE && fc == freq && dl == lens
                  && s.heap_len == |leaves|
        invariant max_code == maxCode && s.heap_max == HEAP_SIZE && s.opt_len == opt && s.static_len == stat
        invariant HeapOf(s.heap, s.heap_len, fc, s.depth, n + 1, leaves)
      {
        HeapShape(s.heap, s.heap_len, fc, s.depth, n + 1, leaves);
        ghost var was := s.heap;
        s.PqDownHeap(fc, n);
        Reordered(was, s.heap, s.heap_len, fc, s.depth, n, leaves);
        n := n - 1;
      }
      script := [];
      StartMerging(fc, dl, s.heap, s.heap_len, s.depth, elems);
      var node := stat_desc.elems;
      while s.heap_len >= 2
        invariant Sized() && node == elems + |script| && max_code == maxCode && s.opt_len == opt && s.static_len == stat
        invariant Merging(fc, dl, s.heap, s.heap_len, s.heap_max, s.depth, leaves, elems, script)
        invariant forall x :: 0 <= x < elems ==> fc[x] == freq[x]
        invariant forall x :: 0 <= x < elems && x !in leaves ==> dl[x] == 0
        decreases s.heap_len
      {
        MergingScript(fc, dl, s.heap, s.heap_len, s.heap_max, s.depth, leaves, elems, script);
        script := CombineLeast(s, node, leaves, script);
        node := node + 1;
      }
      MergingScript(fc, dl, s.heap, s.heap_len, s.heap_max, s.depth, leaves, elems, script);
      FinishMerging(fc, dl, s.heap, s.heap_len, s.heap_max, s.depth, leaves, elems, script, max_code);
      s.heap_max := s.heap_max - 1;
      s.heap := s.heap[s.heap_max := s.heap[1]];
    }

    // The loop of gen_bitlen that clears the counts.
    method Cleared(counts: seq<nat>) returns (bl: seq<nat>)
      requires |counts| == MAX_BITS + 1
      ensures |bl| == MAX_BITS + 1 && forall k :: 0 <= k < |bl| ==> bl[k] == 0
    {
      bl := counts;
      for b := 0 to MAX_BITS + 1
        invariant |bl| == MAX_BITS + 1 && forall k :: 0 <= k < b ==> bl[k] == 0
      {
        bl := bl[b := 0];
      }
    }

    // First pass of gen_bitlen: lengths from the root down, clamped to max_length.
    method AssignLengths(s: Work, ghost list: seq<nat>, ghost leaves: set<nat>, ghost script: seq<Merge>)
      returns (overflow: nat)
      requires Sized() && Ready(list, leaves, stat_desc.elems, script, max_code)
      requires |s.heap| == HEAP_SIZE == s.heap_max + |list| && s.heap[s.heap_max..] == list
               && |s.bl_count| == MAX_BITS + 1
      requires script != []
      requires forall p :: 1 <= p < |list| ==> list[p] < HEAP_SIZE && dl[list[p]] == stat_desc.elems + MergeAt(list, p)
      modifies this`dl, s`bl_count, s`opt_len, s`static_len
      ensures var l := LengthsFrom(stat_desc.elems, script, stat_desc.max_length, 0);
              && Walked(dl, list, l, stat_desc.elems, |list|)
              && overflow == 2 * Clamped(l, stat_desc.elems, |script|, 0, stat_desc.max_length)
      ensures forall x :: 0 <= x < HEAP_SIZE && x !in list ==> dl[x] == old(dl[x])
      ensures Within(leaves, dl) && Counts(leaves, dl, s.bl_count)
      ensures s.opt_len == old(s.opt_len) + BitCost(leaves, fc, dl, stat_desc)
      ensures stat_desc.static_tree.Some? ==> s.static_len == old(s.static_len) + StaticCost(leaves, fc, stat_desc)
      ensures stat_desc.static_tree.None? ==> s.static_len == old(s.static_len)
    {
      hide Active, ValidScript, Listed, Pow2, BitCost, StaticCost, Counts, LeavesIn, Walked, Overflowing, LengthsFrom,
        TreeLengths, Clamped, Ready, Within;
      var tree: seq<nat>, bl: seq<nat> := dl, s.bl_count;
      var optLen, staticLen, heap, top := s.opt_len, s.static_len, s.heap, s.heap_max;
      var freq, maxCode, desc := fc, max_code, stat_desc;
      ghost var before, opt0, static0 := tree, optLen, staticLen;
      ghost var elems, max := desc.elems, desc.max_length;
      ghost var l := LengthsFrom(elems, script, max, 0);
      bl := Cleared(bl);
      StartWalk(tree, list, leaves, elems, script, max, maxCode, heap, top);
      tree := tree[heap[top] := 0];
      CountsEmpty(tree, bl);
      NoneWithin(tree);
      NoneWithin(freq);
      CostEmptySet(freq, tree, desc);
      overflow := 0;
      var h := top + 1;
      ghost var done := LeavesIn(list, leaves, 1);
      while h < HEAP_SIZE
        invariant top + 1 <= h <= HEAP_SIZE
        invariant Walked(tree, list, l, elems, h - top)
        invariant overflow == Overflowing(list, l, elems, max, h - top)
        invariant |tree| == HEAP_SIZE && |bl| == MAX_BITS + 1
        invariant done == LeavesIn(list, leaves, h - top) && Within(done, tree) && Within(done, freq)
                  && Counts(done, tree, bl)
        invariant optLen == opt0 + BitCost(done, freq, tree, desc)
        invariant staticLen == static0 + if desc.static_tree.Some? then StaticCost(done, freq, desc) else 0
        invariant forall x :: 0 <= x < HEAP_SIZE && x !in list ==> tree[x] == before[x]
      {
        ghost var p, was := h - top, tree;
        var n := heap[h];
        assert n == list[p];
        WalkStep(tree, list, l, leaves, elems, script, max, p);
        LeafStep(list, leaves, elems, script, maxCode, p);
        OverflowStep(list, l, elems, max, p);
        var bits := tree[tree[n]] + 1;
        if bits > desc.max_length {
          bits := desc.max_length;
          overflow := overflow + 1;
        }
        tree := tree[n := bits];
        if n <= maxCode {
          var xbits := 0;
          if n >= desc.extra_base {
            xbits := desc.extra_bits[n - desc.extra_base];
          }
          var f := freq[n];
          LeafCounted(done, was, tree, freq, bl, desc, n, f, bits, xbits);
          bl := bl[bits := bl[bits] + 1];
          optLen := optLen + f * (bits + xbits);
          if desc.static_tree.Some? {
            var sbits := desc.static_tree.value.len[n];
            assert sbits == desc.StaticLength(n);
            staticLen := staticLen + f * (sbits + xbits);
          }
          done := done + {n};
        } else {
          OthersCounted(done, was, tree, freq, bl, desc, n, bits);
        }
        h := h + 1;
      }
      AllLeaves(list, leaves, elems, script, maxCode);
      OverflowingPairs(list, l, elems, script, max, 0);
      dl, s.bl_count, s.opt_len, s.static_len := tree, bl, optLen, staticLen;
    }

    // The overflow loop of gen_bitlen: turns the counts into those of a complete code.
    method LimitLengths(s: Work, overflow: nat, ghost leafCount: nat)
      requires overflow > 0 && Excess(s.bl_count, stat_desc.max_length, overflow, leafCount)
      modifies s`bl_count
      ensures Excess(s.bl_count, stat_desc.max_length, 0, leafCount)
    {
      hide Excess, Space, Total;
      var bl, max, excess: int := s.bl_count, stat_desc.max_length, overflow;
      ExcessShape(bl, max, excess, leafCount);
      while excess > 0
        invariant |bl| == MAX_BITS + 1 && 1 <= max <= MAX_BITS && excess >= 0
        invariant Excess(bl, max, excess, leafCount)
        decreases excess
      {
        ghost var least := SomeShorter(bl, max, excess, leafCount);
        var bits := max - 1;
        while bl[bits] == 0
          invariant least <= bits < max
          decreases bits
        {
          bits := bits - 1;
        }
        LongestLeft(bl, max, excess, leafCount);
        MoveDown(bl, max, excess, leafCount, bits);
        bl := bl[bits := bl[bits] - 1];
        bl := bl[bits + 1 := bl[bits + 1] + 2];
        bl := bl[max := bl[max] - 1];
        excess := excess - 2;
        ExcessShape(bl, max, excess, leafCount);
      }
      s.bl_count := bl;
    }

    // The last loop of gen_bitlen: hands out the lengths of bl_count, the longest to the lightest leaves.
    method Redistribute(s: Work, ghost list: seq<nat>, ghost leaves: set<nat>, ghost script: seq<Merge>)
      requires Sized() && Ready(list, leaves, stat_desc.elems, script, max_code)
      requires |s.heap| == HEAP_SIZE == s.heap_max + |list| && s.heap[s.heap_max..] == list
      requires Excess(s.bl_count, stat_desc.max_length, 0, |leaves|)
      requires Within(leaves, dl) && Within(leaves, fc) && Scripted(fc, leaves, stat_desc.elems, script)
      modifies this`dl, s`opt_len
      ensures |dl| == HEAP_SIZE && (forall x :: 0 <= x < HEAP_SIZE && x !in leaves ==> dl[x] == old(dl[x]))
      ensures Counts(leaves, dl, s.bl_count) && Within(leaves, dl) && Ordered(leaves, fc, dl)
      ensures forall x :: x in leaves ==> 1 <= dl[x] <= stat_desc.max_length
      ensures s.opt_len - BitCost(leaves, fc, dl, stat_desc) == old(s.opt_len - BitCost(leaves, fc, dl, stat_desc))
    {
      hide Active, ValidScript, Listed, Pow2, BitCost, Counts, LeavesIn, Ready, Excess, Space, Handing, Total, Ordered,
        HandedOrder, Scripted;
      var tree: seq<nat>, bl: seq<nat> := dl, s.bl_count;
      var optLen, heap, top := s.opt_len, s.heap, s.heap_max;
      var freq, maxCode, desc := fc, max_code, stat_desc;
      ghost var before, opt0 := tree, optLen - BitCost(leaves, freq, tree, desc);
      ghost var left, cnt := leaves, seq(MAX_BITS + 1, _ => 0);
      AllLeaves(list, leaves, desc.elems, script, maxCode);
      HandStart(leaves, tree, bl, desc.max_length);
      HandedFirst(leaves, freq, tree, desc.max_length);
      RootNoLeaf(list, leaves, desc.elems, script, maxCode);
      ListLong(list, leaves, desc.elems, script, maxCode);
      var h := HEAP_SIZE;
      var bits := desc.max_length;
      while bits != 0
        invariant 0 <= bits <= desc.max_length && top + 1 <= h <= HEAP_SIZE && |tree| == HEAP_SIZE
        invariant left == LeavesIn(list, leaves, h - top) && Within(leaves, tree)
        invariant bits > 0 ==> Handing(leaves, left, tree, cnt, bl, desc.max_length, bits, bl[bits])
        invariant bits == 0 ==> Counts(leaves, tree, bl) && forall x :: x in leaves ==> 1 <= tree[x] <= desc.max_length
        invariant HandedOrder(leaves, left, freq, tree, bits) && (bits == 0 ==> left == {})
        invariant forall x :: 0 <= x < HEAP_SIZE && x !in leaves ==> tree[x] == before[x]
        invariant optLen == opt0 + BitCost(leaves, freq, tree, desc)
      {
        var n := bl[bits];
        while n != 0
          invariant top + 1 <= h <= HEAP_SIZE && |tree| == HEAP_SIZE
          invariant left == LeavesIn(list, leaves, h - top) && Within(leaves, tree)
          invariant Handing(leaves, left, tree, cnt, bl, desc.max_length, bits, n)
          invariant HandedOrder(leaves, left, freq, tree, bits)
          invariant forall x :: 0 <= x < HEAP_SIZE && x !in leaves ==> tree[x] == before[x]
          invariant optLen == opt0 + BitCost(leaves, freq, tree, desc)
          decreases h
        {
          SomeLeft(leaves, left, tree, cnt, bl, desc.max_length, bits, n);
          h := h - 1;
          var m := heap[h];
          assert m == list[h - top];
          LeafStep(list, leaves, desc.elems, script, maxCode, h - top);
          if m <= maxCode {
            HandOne(leaves, left, tree, cnt, bl, desc.max_length, bits, n, m, freq, desc);
            HandLightest(leaves, left, freq, tree, desc.elems, script, list, h - top, bits);
            if tree[m] != bits {
              optLen := optLen + (bits - tree[m]) * freq[m];
              tree := tree[m := bits];
            }
            n := n - 1;
            cnt := cnt[bits := cnt[bits] + 1];
            assert left - {m} == LeavesIn(list, leaves, h - top);
            left := left - {m};
          }
        }
        HandNext(leaves, left, tree, cnt, bl, desc.max_length, bits);
        HandedLess(leaves, left, freq, tree, bits);
        bits := bits - 1;
      }
      HandedAll(leaves, freq, tree);
      dl, s.opt_len := tree, optLen;
    }

    // gen_bitlen: the code lengths of the listed tree, their counts and what they cost.
    method GenBitlen(s: Work, ghost list: seq<nat>, ghost leaves: set<nat>, ghost script: seq<Merge>)
      returns (overflow: nat)
      requires Sized() && Ready(list, leaves, stat_desc.elems, script, max_code) && script != []
      requires |leaves| <= stat_desc.elems && Scripted(fc, leaves, stat_desc.elems, script) && Within(leaves, fc)
      requires |s.heap| == HEAP_SIZE == s.heap_max + |list| && s.heap[s.heap_max..] == list
               && |s.bl_count| == MAX_BITS + 1
      requires forall p :: 1 <= p < |list| ==> list[p] < HEAP_SIZE && dl[list[p]] == stat_desc.elems + MergeAt(list, p)
      modifies this`dl, s`bl_count, s`opt_len, s`static_len
      ensures Sized() && Within(leaves, dl) && Counts(leaves, dl, s.bl_count) && Ordered(leaves, fc, dl)
      ensures Excess(s.bl_count, stat_desc.max_length, 0, |leaves|)
      ensures forall x :: x in leaves ==> 1 <= dl[x] <= stat_desc.max_length
      ensures forall x :: 0 <= x < stat_desc.elems && x !in leaves ==> dl[x] == old(dl[x])
      ensures s.opt_len == old(s.opt_len) + BitCost(leaves, fc, dl, stat_desc)
      ensures stat_desc.static_tree.Some? ==> s.static_len == old(s.static_len) + StaticCost(leaves, fc, stat_desc)
      ensures stat_desc.static_tree.None? ==> s.static_len == old(s.static_len)
      ensures var l := LengthsFrom(stat_desc.elems, script, stat_desc.max_length, 0);
              && overflow == 2 * Clamped(l, stat_desc.elems, |script|, 0, stat_desc.max_length)
              && (overflow == 0 ==> forall x :: x in leaves ==> x in l && dl[x] == l[x])
    {
      hide Active, ValidScript, Listed, Pow2, BitCost, StaticCost, Counts, Walked, Excess, LengthsFrom, TreeLengths,
        Clamped, Ready, MergeAt, Scripted, Ordered;
      ghost var elems, max := stat_desc.elems, stat_desc.max_length;
      ghost var l := LengthsFrom(elems, script, max, 0);
      ReadyShape(list, leaves, elems, script, max_code);
      LengthsAreTreeLengths(leaves, elems, script, max);
      overflow := AssignLengths(s, list, leaves, script);
      LeafLengths(dl, list, l, leaves, elems, script, max, max_code);
      Unlisted(list, leaves, elems, script, max_code);
      InitialExcess(leaves, elems, script, l, max, dl, s.bl_count);
      if overflow == 0 {
        UnclampedOrdered(fc, leaves, elems, script, max, dl);
        return;
      }
      Relax(s, overflow, list, leaves, script);
    }

    // gen_bitlen once a length was clamped: the counts are made those of a complete code and handed out.
    method Relax(s: Work, overflow: nat, ghost list: seq<nat>, ghost leaves: set<nat>, ghost script: seq<Merge>)
      requires Sized() && Ready(list, leaves, stat_desc.elems, script, max_code)
      requires |s.heap| == HEAP_SIZE == s.heap_max + |list| && s.heap[s.heap_max..] == list
      requires overflow > 0 && Excess(s.bl_count, stat_desc.max_length, overflow, |leaves|)
      requires Within(leaves, dl) && Within(leaves, fc) && Scripted(fc, leaves, stat_desc.elems, script)
      modifies this`dl, s`bl_count, s`opt_len
      ensures |dl| == HEAP_SIZE && (forall x :: 0 <= x < HEAP_SIZE && x !in leaves ==> dl[x] == old(dl[x]))
      ensures Within(leaves, dl) && Ordered(leaves, fc, dl)
      ensures Counts(leaves, dl, s.bl_count) && Excess(s.bl_count, stat_desc.max_length, 0, |leaves|)
      ensures forall x :: x in leaves ==> 1 <= dl[x] <= stat_desc.max_length
      ensures s.opt_len - BitCost(leaves, fc, dl, stat_desc) == old(s.opt_len - BitCost(leaves, fc, dl, stat_desc))
    {
      hide Active, ValidScript, Listed, Pow2, BitCost, Counts, Excess, Ready, Scripted, Ordered;
      LimitLengths(s, overflow, |leaves|);
      Redistribute(s, list, leaves, script);
    }

    // build_tree: code lengths and codes for the frequencies in fc, and their cost.
    // freq is the frequencies after at least two codes were forced, script the merges that built the tree.
    method BuildTree(s: Work) returns (overflow: nat, ghost freq: seq<nat>, ghost script: seq<Merge>)
      requires Sized() && |s.heap| == |s.depth| == HEAP_SIZE && |s.bl_count| == MAX_BITS + 1
      modifies this`fc, this`dl, this`max_code, s
      ensures |s.heap| == |s.depth| == HEAP_SIZE && |s.bl_count| == MAX_BITS + 1
      ensures Sized() && Coded() && |freq| == HEAP_SIZE
      ensures HuffmanLengths(old(fc), freq, dl, stat_desc, script, overflow)
      ensures s.opt_len == old(s.opt_len) + TotalCost(old(fc), dl, stat_desc)
      ensures stat_desc.static_tree.Some? ==> s.static_len == old(s.static_len) + TotalStatic(old(fc), stat_desc)
      ensures stat_desc.static_tree.None? ==> s.static_len == old(s.static_len)
    {
      hide Used, Ready, Scripted, Counts, Excess, Largest, Forcing, Forced, Pow2, BitCost, StaticCost, Optimal,
        LengthsFrom, Clamped, Complete, MergeAt, ValidScript, HuffmanLengths, TotalCost, TotalStatic, Count, CodeOf,
        Reversed, Listed, Coded, Ordered;
      ghost var elems, max := stat_desc.elems, stat_desc.max_length;
      ghost var leaves;
      leaves, script, freq := Construct(s);
      ghost var opt, stat, list, before := s.opt_len, s.static_len, s.heap[s.heap_max..], fc;
      TwoForced(old(fc), freq, elems);
      ScriptedShape(fc, leaves, elems, script);
      ReadyShape(list, leaves, elems, script, max_code);
      overflow := GenBitlen(s, list, leaves, script);
      Finished(old(fc), freq, before, dl, s.bl_count, stat_desc, leaves, script, overflow,
               opt - old(s.opt_len), stat - old(s.static_len));
      Numbered(leaves, elems, dl, s.bl_count, max, max_code);
      GenCodes(s.bl_count);
      NowCoded();
    }

    // Decorates every code of non-zero length with its reversed canonical code.
    method GenCodes(blCount: seq<nat>)
      requires Sized() && 0 <= max_code < HEAP_SIZE && |blCount| == MAX_BITS + 1 && blCount[0] == 0
      requires forall n :: 0 <= n <= max_code ==> dl[n] <= MAX_BITS
      requires forall b :: 1 <= b <= MAX_BITS ==> blCount[b] == Count(dl[..max_code + 1], b)
      modifies this`fc
      ensures |fc| == HEAP_SIZE
      ensures forall n :: 0 <= n <= max_code && dl[n] > 0 ==> fc[n] == Reversed(CodeOf(dl[..max_code + 1], n), dl[n])
      ensures forall n :: 0 <= n < HEAP_SIZE && (n > max_code || dl[n] == 0) ==> fc[n] == old(fc[n])
    {
      hide Count, FirstCode, Reversed, Rev;
      var tree: seq<nat>, len, maxCode := fc, dl, max_code;
      ghost var before, lens: seq<nat> := tree, len[..maxCode + 1];
      var nextCode: seq<nat> := seq(MAX_BITS + 1, _ => 0);
      var code := 0;
      FirstCodes(lens);
      for bits := 1 to MAX_BITS + 1
        invariant |nextCode| == MAX_BITS + 1 && code == FirstCode(lens, bits - 1)
        invariant forall b :: 1 <= b < bits ==> nextCode[b] == FirstCode(lens, b)
      {
        NextFirst(lens, bits);
        code := 2 * (code + blCount[bits - 1]);
        nextCode := nextCode[bits := code];
      }
      NoneCounted(lens);
      for n := 0 to maxCode + 1
        invariant |tree| == HEAP_SIZE && |nextCode| == MAX_BITS + 1
        invariant forall b :: 1 <= b <= MAX_BITS ==> nextCode[b] == FirstCode(lens, b) + Count(lens[..n], b)
        invariant forall k :: 0 <= k < n && len[k] > 0 ==> tree[k] == Reversed(CodeOf(lens, k), len[k])
        invariant forall k :: 0 <= k < HEAP_SIZE && (k >= n || len[k] == 0) ==> tree[k] == before[k]
      {
        var b := len[n];
        CountNext(lens, n);
        if b != 0 {
          assert nextCode[b] == CodeOf(lens, n);
          var reversed := BiReverse(nextCode[b], b);
          nextCode := nextCode[b := nextCode[b] + 1];
          tree := tree[n := reversed];
        }
      }
      fc := tree;
    }
  }
}
