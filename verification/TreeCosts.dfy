/** The fixed descriptions of the three kinds of tree, and what sending codes costs in bits. */
module TreeCosts {
  import opened Prelude
  import opened Bits
  import opened Inflate
  import opened LengthCounts

  const L_CODES: nat := 286

  datatype CodeTable = CodeTable(code: seq<nat>, len: seq<nat>)

  // The fixed description of one kind of tree.
  datatype StaticTree = StaticTree(static_tree: Option<CodeTable>, extra_bits: seq<nat>, extra_base: nat, elems: nat,
    max_length: nat) {
    predicate Valid() {
      && 3 <= elems <= L_CODES
      && 1 <= max_length <= MAX_BITS && elems <= Pow2(max_length)
      && extra_base + |extra_bits| >= elems
      && Extra(0) == Extra(1) == Extra(2) == 0
      && (static_tree.Some? ==> |static_tree.value.len| >= elems && |static_tree.value.code| >= elems)
    }

    function Extra(n: nat): nat {
      if extra_base <= n < extra_base + |extra_bits| then extra_bits[n - extra_base] else 0
    }

    function StaticLength(n: nat): nat {
      if static_tree.Some? && n < |static_tree.value.len| then static_tree.value.len[n] else 0
    }
  }

  // ---- bits spent on a set of codes ----

  ghost function BitCost(nodes: set<nat>, freq: seq<nat>, len: seq<nat>, desc: StaticTree): int
    requires Within(nodes, freq) && Within(nodes, len)
  {
    Sum(BitCostMap(nodes, freq, len, desc))
  }

  ghost function BitCostMap(nodes: set<nat>, freq: seq<nat>, len: seq<nat>, desc: StaticTree): map<nat, int>
    requires Within(nodes, freq) && Within(nodes, len)
  {
    map x | x in nodes :: freq[x] * (len[x] + desc.Extra(x))
  }

  // The same with the code lengths of the static tree.
  ghost function StaticCost(nodes: set<nat>, freq: seq<nat>, desc: StaticTree): int
    requires Within(nodes, freq)
  {
    Sum(StaticCostMap(nodes, freq, desc))
  }

  ghost function StaticCostMap(nodes: set<nat>, freq: seq<nat>, desc: StaticTree): map<nat, int>
    requires Within(nodes, freq)
  {
    map x | x in nodes :: freq[x] * (desc.StaticLength(x) + desc.Extra(x))
  }

  lemma BitCostInsert(nodes: set<nat>, freq: seq<nat>, len: seq<nat>, desc: StaticTree, x: nat)
    requires x !in nodes && Within(nodes + {x}, freq) && Within(nodes + {x}, len)
    ensures BitCost(nodes + {x}, freq, len, desc) == BitCost(nodes, freq, len, desc)
            + freq[x] * (len[x] + desc.Extra(x))
  {
    var m, v := BitCostMap(nodes, freq, len, desc), freq[x] * (len[x] + desc.Extra(x));
    assert BitCostMap(nodes + {x}, freq, len, desc) == m[x := v];
    SumInsert(m, x, v);
  }

  lemma StaticCostInsert(nodes: set<nat>, freq: seq<nat>, desc: StaticTree, x: nat)
    requires x !in nodes && Within(nodes + {x}, freq)
    ensures StaticCost(nodes + {x}, freq, desc) == StaticCost(nodes, freq, desc)
            + freq[x] * (desc.StaticLength(x) + desc.Extra(x))
  {
    var m, v := StaticCostMap(nodes, freq, desc), freq[x] * (desc.StaticLength(x) + desc.Extra(x));
    assert StaticCostMap(nodes + {x}, freq, desc) == m[x := v];
    SumInsert(m, x, v);
  }

  lemma BitCostSame(nodes: set<nat>, freq: seq<nat>, freq': seq<nat>, len: seq<nat>, len': seq<nat>, desc: StaticTree)
    requires Within(nodes, freq) && Within(nodes, len) && Within(nodes, freq') && Within(nodes, len')
    requires forall x :: x in nodes ==> freq[x] == freq'[x] && len[x] == len'[x]
    ensures BitCost(nodes, freq, len, desc) == BitCost(nodes, freq', len', desc)
  {
    assert BitCostMap(nodes, freq, len, desc) == BitCostMap(nodes, freq', len', desc);
  }

  lemma StaticCostSame(nodes: set<nat>, freq: seq<nat>, freq': seq<nat>, desc: StaticTree)
    requires Within(nodes, freq) && Within(nodes, freq')
    requires forall x :: x in nodes ==> freq[x] == freq'[x]
    ensures StaticCost(nodes, freq, desc) == StaticCost(nodes, freq', desc)
  {
    assert StaticCostMap(nodes, freq, desc) == StaticCostMap(nodes, freq', desc);
  }

  lemma BitCostUpdate(nodes: set<nat>, freq: seq<nat>, len: seq<nat>, desc: StaticTree, x: nat, v: nat)
    requires x in nodes && Within(nodes, freq) && Within(nodes, len)
    ensures BitCost(nodes, freq, len[x := v], desc) == BitCost(nodes, freq, len, desc) + (v - len[x]) * freq[x]
  {
    hide BitCost;
    var rest := nodes - {x};
    assert rest + {x} == nodes;
    BitCostInsert(rest, freq, len, desc, x);
    BitCostInsert(rest, freq, len[x := v], desc, x);
    BitCostSame(rest, freq, freq, len, len[x := v], desc);
    var e := desc.Extra(x);
    Reweigh(freq[x], v, len[x], e);
  }

  lemma {:induction false} Reweigh(f: nat, v: nat, l: nat, e: nat)
    ensures f * (v + e) == f * (l + e) + (v - l) * f
  {
  }

  lemma CostEmptySet(freq: seq<nat>, len: seq<nat>, desc: StaticTree)
    ensures BitCost({}, freq, len, desc) == 0 && StaticCost({}, freq, desc) == 0
  {
    assert BitCostMap({}, freq, len, desc) == map[] && StaticCostMap({}, freq, desc) == map[];
  }
}
