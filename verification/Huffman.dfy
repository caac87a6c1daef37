/** The mathematics of Huffman's construction: a script of merges, the lengths it gives to
    the leaves, the code space they take, and why no prefix code costs less. */
module Huffman {
  import opened Prelude
  import opened Bits
  import opened Canonical

  // The i-th merge replaces two active nodes by their father, node elems + i.
  datatype Merge = Merge(first: nat, second: nat)

  type Lengths = map<nat, nat>

  ghost function Active(leaves: set<nat>, elems: nat, script: seq<Merge>): set<nat> {
    if script == [] then leaves else
      var t := |script| - 1;
      Active(leaves, elems, script[..t]) - {script[t].first, script[t].second} + {elems + t}
  }

  ghost predicate ValidScript(leaves: set<nat>, elems: nat, script: seq<Merge>) {
    if script == [] then forall x :: x in leaves ==> x < elems
    else
      var t := |script| - 1;
      var before := Active(leaves, elems, script[..t]);
      && ValidScript(leaves, elems, script[..t])
      && script[t].first != script[t].second
      && script[t].first in before && script[t].second in before
  }

  lemma {:induction false} ActiveBounds(leaves: set<nat>, elems: nat, script: seq<Merge>)
    requires ValidScript(leaves, elems, script)
    ensures forall x :: x in Active(leaves, elems, script) ==> x < elems + |script|
    ensures |Active(leaves, elems, script)| + |script| == |leaves|
  {
    if script != [] {
      var t := |script| - 1;
      var before := Active(leaves, elems, script[..t]);
      ActiveBounds(leaves, elems, script[..t]);
      var rest := before - {script[t].first, script[t].second};
      assert rest == before - {script[t].first} - {script[t].second};
      assert |rest| == |before| - 2;
      assert elems + t !in rest;
    }
  }

  // ---- code space ----

  ghost predicate Bounded(nodes: set<nat>, l: Lengths, b: nat) {
    forall x :: x in nodes ==> x in l && l[x] <= b
  }

  // The code space the nodes take, in units of codes of b bits.
  ghost function Share(nodes: set<nat>, l: Lengths, b: nat): int
    requires Bounded(nodes, l, b)
  {
    Sum(ShareMap(nodes, l, b))
  }

  ghost function ShareMap(nodes: set<nat>, l: Lengths, b: nat): map<nat, int>
    requires Bounded(nodes, l, b)
  {
    map x | x in nodes :: Pow2(b - l[x])
  }

  lemma ShareInsert(nodes: set<nat>, l: Lengths, b: nat, x: nat)
    requires x !in nodes && Bounded(nodes + {x}, l, b)
    ensures Share(nodes + {x}, l, b) == Share(nodes, l, b) + Pow2(b - l[x])
  {
    var m := ShareMap(nodes, l, b);
    assert ShareMap(nodes + {x}, l, b) == m[x := Pow2(b - l[x])];
    SumInsert(m, x, Pow2(b - l[x]));
  }

  lemma ShareRemove(nodes: set<nat>, l: Lengths, b: nat, x: nat)
    requires x in nodes && Bounded(nodes, l, b)
    ensures Share(nodes, l, b) == Share(nodes - {x}, l, b) + Pow2(b - l[x])
  {
    assert nodes - {x} + {x} == nodes;
    ShareInsert(nodes - {x}, l, b, x);
  }

  // Only the lengths of the nodes themselves matter.
  lemma ShareSame(nodes: set<nat>, l: Lengths, l': Lengths, b: nat)
    requires Bounded(nodes, l, b) && Bounded(nodes, l', b)
    requires forall x :: x in nodes ==> l[x] == l'[x]
    ensures Share(nodes, l, b) == Share(nodes, l', b)
  {
    assert ShareMap(nodes, l, b) == ShareMap(nodes, l', b);
  }

  // ---- cost ----

  ghost predicate Weighed(nodes: set<nat>, w: seq<nat>) {
    forall x :: x in nodes ==> x < |w|
  }

  ghost function Cost(nodes: set<nat>, w: seq<nat>, l: Lengths): int
    requires Weighed(nodes, w) && nodes <= l.Keys
  {
    Sum(CostMap(nodes, w, l))
  }

  ghost function CostMap(nodes: set<nat>, w: seq<nat>, l: Lengths): map<nat, int>
    requires Weighed(nodes, w) && nodes <= l.Keys
  {
    map x | x in nodes :: w[x] * l[x]
  }

  lemma CostInsert(nodes: set<nat>, w: seq<nat>, l: Lengths, x: nat)
    requires x !in nodes && Weighed(nodes + {x}, w) && nodes + {x} <= l.Keys
    ensures Cost(nodes + {x}, w, l) == Cost(nodes, w, l) + w[x] * l[x]
  {
    var m := CostMap(nodes, w, l);
    assert CostMap(nodes + {x}, w, l) == m[x := w[x] * l[x]];
    SumInsert(m, x, w[x] * l[x]);
  }

  lemma CostRemove(nodes: set<nat>, w: seq<nat>, l: Lengths, x: nat)
    requires x in nodes && Weighed(nodes, w) && nodes <= l.Keys
    ensures Cost(nodes, w, l) == Cost(nodes - {x}, w, l) + w[x] * l[x]
  {
    assert nodes - {x} + {x} == nodes;
    CostInsert(nodes - {x}, w, l, x);
  }

  lemma CostSame(nodes: set<nat>, w: seq<nat>, l: Lengths, l': Lengths)
    requires Weighed(nodes, w) && nodes <= l.Keys && nodes <= l'.Keys
    requires forall x :: x in nodes ==> l[x] == l'[x]
    ensures Cost(nodes, w, l) == Cost(nodes, w, l')
  {
    assert CostMap(nodes, w, l) == CostMap(nodes, w, l');
  }

  // ---- lower bounds over all feasible lengths ----

  ghost predicate Feasible(nodes: set<nat>, l: Lengths, b: nat) {
    Bounded(nodes, l, b) && Share(nodes, l, b) <= Pow2(b)
  }

  ghost predicate AtLeast(nodes: set<nat>, w: seq<nat>, c: int)
    requires Weighed(nodes, w)
  {
    forall l: Lengths, b: nat :: Feasible(nodes, l, b) ==> Cost(nodes, w, l) >= c
  }

  // Exchanging the lengths of two nodes keeps the code space they take.
  lemma Exchange(nodes: set<nat>, w: seq<nat>, l: Lengths, b: nat, n: nat, p: nat) returns (l': Lengths)
    requires Weighed(nodes, w) && Feasible(nodes, l, b) && n in nodes && p in nodes
    requires w[n] <= w[p] && l[n] <= l[p]
    ensures Feasible(nodes, l', b) && Cost(nodes, w, l') <= Cost(nodes, w, l)
    ensures l' == l[n := l[p]][p := l[n]]
    ensures w[n] < w[p] && l[n] < l[p] ==> Cost(nodes, w, l') < Cost(nodes, w, l)
  {
    hide Share, Cost, Pow2, Shl, Sum;
    l' := l[n := l[p]][p := l[n]];
    if n != p {
      var rest := nodes - {n} - {p};
      ShareRemove(nodes, l, b, n);
      ShareRemove(nodes - {n}, l, b, p);
      ShareRemove(nodes, l', b, n);
      ShareRemove(nodes - {n}, l', b, p);
      ShareSame(rest, l, l', b);
      CostRemove(nodes, w, l, n);
      CostRemove(nodes - {n}, w, l, p);
      CostRemove(nodes, w, l', n);
      CostRemove(nodes - {n}, w, l', p);
      CostSame(rest, w, l, l');
      Rearrange(w[n], w[p], l[n], l[p]);
    } else {
      assert l' == l;
    }
  }

  lemma Rearrange(a: nat, b: nat, x: nat, y: nat)
    requires a <= b && x <= y
    ensures a * y + b * x <= a * x + b * y
    ensures a < b && x < y ==> a * y + b * x < a * x + b * y
  {
    var d, e := b - a, y - x;
    assert d * e >= 0;
    assert a * x + b * y - a * y - b * x == d * e;
  }

  lemma {:induction false} Longest(nodes: set<nat>, l: Lengths) returns (p: nat)
    requires nodes != {} && nodes <= l.Keys
    ensures p in nodes && forall x :: x in nodes ==> l[x] <= l[p]
    decreases nodes
  {
    p :| p in nodes;
    if nodes != {p} {
      var q := Longest(nodes - {p}, l);
      if l[q] >= l[p] {
        p := q;
      }
    }
  }

  lemma {:induction false} ShareScale(nodes: set<nat>, l: Lengths, m: nat, k: nat)
    requires Bounded(nodes, l, m) && Bounded(nodes, l, m + k)
    ensures Share(nodes, l, m) >= 0
    ensures Share(nodes, l, m + k) == Shl(Share(nodes, l, m), k)
    decreases nodes
  {
    hide Share, Shl, Pow2;
    if nodes == {} {
      ShareEmpty(l, m);
      ShareEmpty(l, m + k);
      ShlZero(k);
    } else {
      var x :| x in nodes;
      ShareRemove(nodes, l, m, x);
      ShareRemove(nodes, l, m + k, x);
      ShareScale(nodes - {x}, l, m, k);
      ShlAdd(Share(nodes - {x}, l, m), Pow2(m - l[x]), k);
      ShlOne(m - l[x]);
      ShlShl(1, m - l[x], k);
      ShlOne(m - l[x] + k);
    }
  }

  // When n alone has the longest code, it can be shortened to the length m of the next longest.
  lemma Shorten(nodes: set<nat>, w: seq<nat>, l: Lengths, b: nat, n: nat, m: nat) returns (l': Lengths)
    requires Weighed(nodes, w) && Feasible(nodes, l, b) && n in nodes
    requires forall x :: x in nodes && x != n ==> l[x] <= m
    requires m <= l[n]
    ensures l' == l[n := m] && Feasible(nodes, l', m) && Cost(nodes, w, l') <= Cost(nodes, w, l)
  {
    hide Share, Cost, Pow2, Shl, Sum;
    l' := l[n := m];
    var rest := nodes - {n};
    ShareRemove(nodes, l, b, n);
    ShareSame(rest, l, l', b);
    ShareScale(rest, l', m, b - m);
    ShareRemove(nodes, l', m, n);
    PowersAtLeast(m);
    ShlOne(m);
    ShlShl(1, m, b - m);
    ShlOne(b);
    ShlOrder(Pow2(m), Share(rest, l', m), b - m);
    CostRemove(nodes, w, l, n);
    CostRemove(nodes, w, l', n);
    CostSame(rest, w, l, l');
    Rearrange(0, w[n], m, l[n]);
  }

  // Two siblings of length m become their father of length m - 1.
  lemma Join(nodes: set<nat>, w: seq<nat>, l: Lengths, m: nat, n: nat, k: nat, father: nat) returns (l': Lengths)
    requires Weighed(nodes, w) && Feasible(nodes, l, m) && n in nodes && k in nodes && n != k
    requires l[n] == l[k] == m && father !in nodes
    requires father < |w| && w[father] == w[n] + w[k]
    ensures m >= 1 && Feasible(nodes - {n, k} + {father}, l', m)
    ensures Cost(nodes - {n, k} + {father}, w, l') + w[father] == Cost(nodes, w, l)
  {
    hide Share, Cost, Pow2, Shl, Sum;
    var rest := nodes - {n} - {k};
    assert rest == nodes - {n, k};
    ShareRemove(nodes, l, m, n);
    ShareRemove(nodes - {n}, l, m, k);
    ShareScale(rest, l, m, 0);
    PowersAtLeast(m);
    l' := l[father := m - 1];
    ShareSame(rest, l, l', m);
    ShareInsert(rest, l', m, father);
    CostRemove(nodes, w, l, n);
    CostRemove(nodes - {n}, w, l, k);
    CostSame(rest, w, l, l');
    CostInsert(rest, w, l', father);
    JoinedCost(w[n], w[k], m);
  }

  lemma PowersAtLeast(m: nat)
    ensures Pow2(0) == 1
    ensures m == 0 ==> Pow2(m) == 1
    ensures m > 0 ==> Pow2(m - (m - 1)) == 2
  {
  }

  lemma JoinedCost(a: nat, b: nat, m: nat)
    ensures (a + b) * (m - 1) + (a + b) == a * m + b * m
  {
  }

  // The greedy choice: n and k are two nodes of least weight.
  ghost predicate LeastPair(nodes: set<nat>, w: seq<nat>, n: nat, k: nat)
    requires Weighed(nodes, w)
  {
    && n in nodes && k in nodes && n != k
    && (forall x :: x in nodes ==> w[n] <= w[x])
    && (forall x :: x in nodes && x != n ==> w[k] <= w[x])
  }

  // Any feasible lengths can be turned into lengths for the merged nodes that save the father's weight.
  lemma MergeLengths(nodes: set<nat>, w: seq<nat>, l: Lengths, b: nat, n: nat, k: nat, father: nat)
    returns (l': Lengths, b': nat)
    requires Weighed(nodes, w) && Feasible(nodes, l, b) && LeastPair(nodes, w, n, k)
    requires father !in nodes && father < |w| && w[father] == w[n] + w[k]
    ensures Feasible(nodes - {n, k} + {father}, l', b')
    ensures Cost(nodes - {n, k} + {father}, w, l') + w[father] <= Cost(nodes, w, l)
  {
    hide Cost, Share, Pow2;
    var p := Longest(nodes, l);
    var l1 := Exchange(nodes, w, l, b, n, p);
    assert k in nodes - {n};
    var q := Longest(nodes - {n}, l1);
    var l2 := Exchange(nodes, w, l1, b, k, q);
    b' := l2[k];
    var l3 := Shorten(nodes, w, l2, b, n, b');
    l' := Join(nodes, w, l3, b', n, k, father);
  }

  lemma MergeBound(nodes: set<nat>, w: seq<nat>, c: int, n: nat, k: nat, father: nat)
    requires Weighed(nodes, w) && LeastPair(nodes, w, n, k)
    requires father !in nodes && father < |w| && w[father] == w[n] + w[k]
    requires AtLeast(nodes - {n, k} + {father}, w, c)
    ensures AtLeast(nodes, w, c + w[father])
  {
    forall l: Lengths, b: nat | Feasible(nodes, l, b)
      ensures Cost(nodes, w, l) >= c + w[father]
    {
      var l', b' := MergeLengths(nodes, w, l, b, n, k, father);
    }
  }

  // ---- the whole construction ----

  // Every father weighs what its sons weigh together.
  ghost predicate Additive(w: seq<nat>, elems: nat, script: seq<Merge>) {
    && elems + |script| <= |w|
    && (forall i :: 0 <= i < |script| ==>
          script[i].first < elems + i && script[i].second < elems + i
          && w[elems + i] == w[script[i].first] + w[script[i].second])
  }

  // Every merge joined two nodes of least weight.
  ghost predicate Greedy(leaves: set<nat>, w: seq<nat>, elems: nat, script: seq<Merge>)
    requires elems + |script| <= |w|
  {
    if script == [] then true else
      var t := |script| - 1;
      var before := Active(leaves, elems, script[..t]);
      && Greedy(leaves, w, elems, script[..t])
      && Weighed(before, w) && LeastPair(before, w, script[t].first, script[t].second)
  }

  // The weights of the fathers of the merges from i on.
  ghost function FatherWeights(w: seq<nat>, elems: nat, script: seq<Merge>): nat
    requires elems + |script| <= |w|
  {
    if script == [] then 0 else
      var t := |script| - 1;
      FatherWeights(w, elems, script[..t]) + w[elems + t]
  }

  // A lower bound for the nodes left after the merges gives one for the leaves.
  lemma {:induction false} MergedBound(leaves: set<nat>, w: seq<nat>, elems: nat, script: seq<Merge>, c: int)
    requires ValidScript(leaves, elems, script) && Additive(w, elems, script) && Greedy(leaves, w, elems, script)
    requires Weighed(leaves, w) && Weighed(Active(leaves, elems, script), w)
    requires AtLeast(Active(leaves, elems, script), w, c)
    ensures AtLeast(leaves, w, c + FatherWeights(w, elems, script))
  {
    hide AtLeast, LeastPair, Weighed;
    if script != [] {
      var t := |script| - 1;
      var before := Active(leaves, elems, script[..t]);
      ActiveBounds(leaves, elems, script[..t]);
      MergeBound(before, w, c, script[t].first, script[t].second, elems + t);
      MergedBound(leaves, w, elems, script[..t], c + w[elems + t]);
    }
  }

  // Huffman's theorem: no feasible lengths cost less than the fathers' weights.
  lemma HuffmanBound(leaves: set<nat>, w: seq<nat>, elems: nat, script: seq<Merge>, l: Lengths, b: nat)
    requires ValidScript(leaves, elems, script) && Additive(w, elems, script) && Greedy(leaves, w, elems, script)
    requires Weighed(leaves, w) && Feasible(leaves, l, b)
    ensures FatherWeights(w, elems, script) <= Cost(leaves, w, l)
  {
    var end := Active(leaves, elems, script);
    ActiveBounds(leaves, elems, script);
    ActiveWeighed(leaves, w, elems, script);
    forall l': Lengths, b': nat | Feasible(end, l', b')
      ensures Cost(end, w, l') >= 0
    {
      CostNonNegative(end, w, l');
    }
    MergedBound(leaves, w, elems, script, 0);
  }

  lemma {:induction false} ActiveWeighed(leaves: set<nat>, w: seq<nat>, elems: nat, script: seq<Merge>)
    requires Weighed(leaves, w) && elems + |script| <= |w|
    ensures Weighed(Active(leaves, elems, script), w)
  {
    if script != [] {
      ActiveWeighed(leaves, w, elems, script[..|script| - 1]);
    }
  }

  lemma {:induction false} CostNonNegative(nodes: set<nat>, w: seq<nat>, l: Lengths)
    requires Weighed(nodes, w) && nodes <= l.Keys
    ensures Cost(nodes, w, l) >= 0
    decreases nodes
  {
    if nodes == {} {
      assert CostMap(nodes, w, l) == map[];
    } else {
      var x :| x in nodes;
      CostRemove(nodes, w, l, x);
      CostNonNegative(nodes - {x}, w, l);
    }
  }

  // ---- the lengths the tree gives ----

  // The sons taken by the j-th merge are one longer than their father, but never longer than max.
  ghost predicate SonsOf(l: Lengths, elems: nat, script: seq<Merge>, max: nat, j: nat)
    requires j < |script|
  {
    && elems + j in l && script[j].first in l && script[j].second in l
    && l[elems + j] <= max
    && l[script[j].first] == l[script[j].second] == Min(l[elems + j] + 1, max)
  }

  // l gives the root 0 and every son what its father's length asks for.
  ghost predicate TreeLengths(l: Lengths, elems: nat, script: seq<Merge>, max: nat) {
    && script != []
    && elems + |script| - 1 in l && l[elems + |script| - 1] == 0
    && (forall i :: 0 <= i < |script| ==> SonsOf(l, elems, script, max, i))
  }

  // How many of the fathers from the i-th on have the greatest length.
  ghost function Clamped(l: Lengths, elems: nat, n: nat, i: nat, max: nat): nat
    decreases n - i
  {
    if i >= n then 0 else
      Clamped(l, elems, n, i + 1, max) + (if elems + i in l && l[elems + i] == max then 1 else 0)
  }

  // What the i-th merge does to the active nodes.
  lemma ActiveStep(leaves: set<nat>, elems: nat, script: seq<Merge>, i: nat)
    requires ValidScript(leaves, elems, script) && i < |script|
    ensures var nodes, n, k := Active(leaves, elems, script[..i]), script[i].first, script[i].second;
            && n in nodes && k in nodes && n != k && elems + i !in nodes
            && Active(leaves, elems, script[..i + 1]) == nodes - {n, k} + {elems + i}
  {
    var upto := script[..i + 1];
    ValidPrefix(leaves, elems, script, i + 1);
    assert upto[..i] == script[..i] && upto[i] == script[i] && |upto| == i + 1;
    ActiveBounds(leaves, elems, script[..i]);
  }

  lemma LastIsActive(leaves: set<nat>, elems: nat, script: seq<Merge>)
    requires script != []
    ensures elems + |script| - 1 in Active(leaves, elems, script)
  {
  }

  lemma Singleton(nodes: set<nat>, x: nat)
    requires x in nodes && |nodes| == 1
    ensures nodes == {x}
  {
    assert |nodes - {x}| == 0;
    assert nodes == (nodes - {x}) + {x};
  }

  lemma OneLeft(leaves: set<nat>, elems: nat, script: seq<Merge>)
    requires ValidScript(leaves, elems, script) && |leaves| == |script| + 1 && script != []
    ensures Active(leaves, elems, script) == {elems + |script| - 1}
  {
    hide Active, ValidScript;
    ActiveBounds(leaves, elems, script);
    var root := elems + |script| - 1;
    LastIsActive(leaves, elems, script);
    Singleton(Active(leaves, elems, script), root);
  }

  lemma ShareStep(nodes: set<nat>, l: Lengths, max: nat, n: nat, k: nat, father: nat)
    requires n in nodes && k in nodes && n != k && father !in nodes
    requires Bounded(nodes - {n, k} + {father}, l, max)
    requires n in l && k in l && l[n] == l[k] == Min(l[father] + 1, max)
    ensures Bounded(nodes, l, max)
    ensures Share(nodes, l, max) == Share(nodes - {n, k} + {father}, l, max) + (if l[father] == max then 1 else 0)
  {
    hide Share;
    var after := nodes - {n, k} + {father};
    assert Bounded(nodes, l, max) by {
      forall x | x in nodes
        ensures x in l && l[x] <= max
      {
        assert x != n && x != k ==> x in after;
      }
    }
    assert after - {father} == nodes - {n} - {k};
    ShareRemove(after, l, max, father);
    ShareRemove(nodes, l, max, n);
    ShareRemove(nodes - {n}, l, max, k);
  }

  // The code space taken by the nodes active after i merges: clamping costs one unit per clamped father.
  lemma {:induction false} TreeShare(leaves: set<nat>, elems: nat, script: seq<Merge>, l: Lengths, max: nat, i: nat)
    requires ValidScript(leaves, elems, script) && |leaves| == |script| + 1
    requires TreeLengths(l, elems, script, max) && i <= |script|
    ensures Bounded(Active(leaves, elems, script[..i]), l, max)
    ensures Share(Active(leaves, elems, script[..i]), l, max) == Pow2(max) + Clamped(l, elems, |script|, i, max)
    decreases |script| - i
  {
    hide Share, Active, ValidScript;
    if i == |script| {
      assert script[..i] == script;
      OneLeft(leaves, elems, script);
      var root := elems + |script| - 1;
      ShareEmpty(l, max);
      ShareInsert({}, l, max, root);
      assert {} + {root} == {root};
    } else {
      TreeShare(leaves, elems, script, l, max, i + 1);
      assert SonsOf(l, elems, script, max, i);
      ActiveStep(leaves, elems, script, i);
      ShareStep(Active(leaves, elems, script[..i]), l, max, script[i].first, script[i].second, elems + i);
    }
  }

  lemma ShareEmpty(l: Lengths, b: nat)
    ensures Share({}, l, b) == 0
  {
    assert ShareMap({}, l, b) == map[];
  }

  lemma {:induction false} ValidPrefix(leaves: set<nat>, elems: nat, script: seq<Merge>, i: nat)
    requires ValidScript(leaves, elems, script) && i <= |script|
    ensures ValidScript(leaves, elems, script[..i])
    decreases |script|
  {
    if i < |script| {
      var t := |script| - 1;
      ValidPrefix(leaves, elems, script[..t], i);
      assert script[..t][..i] == script[..i];
    } else {
      assert script[..i] == script;
    }
  }

  lemma CostStep(nodes: set<nat>, w: seq<nat>, l: Lengths, n: nat, k: nat, father: nat)
    requires n in nodes && k in nodes && n != k && father !in nodes
    requires Weighed(nodes + {father}, w) && nodes + {father} <= l.Keys
    requires l[n] == l[k] == l[father] + 1 && w[father] == w[n] + w[k]
    ensures Cost(nodes, w, l) == Cost(nodes - {n, k} + {father}, w, l) + w[father]
  {
    hide Cost;
    var after := nodes - {n, k} + {father};
    assert after - {father} == nodes - {n} - {k};
    CostRemove(after, w, l, father);
    CostRemove(nodes, w, l, n);
    CostRemove(nodes - {n}, w, l, k);
    SonsCost(w[n], w[k], l[father]);
  }

  // Without clamping, the leaves cost exactly the fathers' weights.
  lemma {:induction false} TreeCost(leaves: set<nat>, w: seq<nat>, elems: nat, script: seq<Merge>, l: Lengths,
                                    max: nat, i: nat)
    requires ValidScript(leaves, elems, script) && |leaves| == |script| + 1 && Additive(w, elems, script)
    requires TreeLengths(l, elems, script, max) && Clamped(l, elems, |script|, i, max) == 0
    requires Weighed(leaves, w) && i <= |script|
    ensures Active(leaves, elems, script[..i]) <= l.Keys && Weighed(Active(leaves, elems, script[..i]), w)
    ensures Cost(Active(leaves, elems, script[..i]), w, l) + FatherWeights(w, elems, script[..i]) ==
            FatherWeights(w, elems, script)
    decreases |script| - i
  {
    hide Cost, Active, ValidScript;
    ActiveWeighed(leaves, w, elems, script[..i]);
    if i == |script| {
      assert script[..i] == script;
      OneLeft(leaves, elems, script);
      var root := elems + |script| - 1;
      CostEmpty(w, l);
      CostInsert({}, w, l, root);
      assert {} + {root} == {root};
    } else {
      TreeCost(leaves, w, elems, script, l, max, i + 1);
      assert SonsOf(l, elems, script, max, i);
      ActiveStep(leaves, elems, script, i);
      assert script[..i + 1][..i] == script[..i];
      var nodes, n, k := Active(leaves, elems, script[..i]), script[i].first, script[i].second;
      forall x | x in nodes
        ensures x in l
      {
        assert x != n && x != k ==> x in nodes - {n, k} + {elems + i};
      }
      CostStep(nodes, w, l, n, k, elems + i);
    }
  }

  lemma SonsCost(a: nat, b: nat, d: nat)
    ensures a * (d + 1) + b * (d + 1) == (a + b) * d + (a + b)
  {
  }

  lemma CostEmpty(w: seq<nat>, l: Lengths)
    ensures Cost({}, w, l) == 0
  {
    assert CostMap({}, w, l) == map[];
  }

  // ---- prefix codes ----

  type Code = map<nat, seq<bool>>

  ghost predicate PrefixCode(nodes: set<nat>, code: Code) {
    && nodes <= code.Keys
    && (forall x, y :: x in nodes && y in nodes && x != y ==> !(code[x] <= code[y]))
  }

  ghost function CodeLengths(nodes: set<nat>, code: Code): (l: Lengths)
    requires nodes <= code.Keys
    ensures l.Keys == nodes
  {
    map x | x in nodes :: |code[x]|
  }

  // The code words of the nodes without their first bit.
  ghost function Tails(nodes: set<nat>, code: Code): Code
    requires nodes <= code.Keys && forall x :: x in nodes ==> code[x] != []
  {
    map x | x in nodes :: code[x][1..]
  }

  // Kraft's inequality: code words of at most b bits fit into the code space.
  lemma {:induction false} KraftInequality(nodes: set<nat>, code: Code, b: nat)
    requires PrefixCode(nodes, code) && forall x :: x in nodes ==> |code[x]| <= b
    ensures Feasible(nodes, CodeLengths(nodes, code), b)
    decreases b
  {
    hide Share, Sum, Pow2;
    var l := CodeLengths(nodes, code);
    if x :| x in nodes && code[x] == [] {
      assert forall y :: y in nodes ==> code[x] <= code[y];
      assert nodes == {} + {x};
      ShareEmpty(l, b);
      ShareInsert({}, l, b, x);
    } else if b == 0 {
      assert nodes == {};
      ShareEmpty(l, b);
    } else {
      var zeros := set x | x in nodes && !code[x][0];
      var ones := set x | x in nodes && code[x][0];
      KraftHalf(zeros, code, b, false);
      KraftHalf(ones, code, b, true);
      assert zeros + ones == nodes;
      ShareUnion(zeros, ones, l, b);
      ShareSame(zeros, l, CodeLengths(zeros, code), b);
      ShareSame(ones, l, CodeLengths(ones, code), b);
    }
  }

  // The code words that start with one given bit take at most half of the code space.
  lemma {:induction false} KraftHalf(nodes: set<nat>, code: Code, b: nat, first: bool)
    requires b > 0 && PrefixCode(nodes, code)
    requires forall x :: x in nodes ==> 1 <= |code[x]| <= b && code[x][0] == first
    ensures Bounded(nodes, CodeLengths(nodes, code), b)
    ensures 2 * Share(nodes, CodeLengths(nodes, code), b) <= Pow2(b)
    decreases b, 0
  {
    hide Share, Sum;
    var tails := Tails(nodes, code);
    forall x, y | x in nodes && y in nodes && x != y
      ensures !(tails[x] <= tails[y])
    {
      TailPrefix(code[x], code[y]);
    }
    KraftInequality(nodes, tails, b - 1);
    ShareTails(nodes, CodeLengths(nodes, code), CodeLengths(nodes, tails), b);
  }

  lemma TailPrefix(x: seq<bool>, y: seq<bool>)
    requires x != [] && y != [] && x[0] == y[0]
    ensures x[1..] <= y[1..] ==> x <= y
  {
    assert x == [x[0]] + x[1..] && y == [y[0]] + y[1..];
  }

  lemma ShareTails(nodes: set<nat>, l: Lengths, l': Lengths, b: nat)
    requires b > 0 && Bounded(nodes, l', b - 1) && nodes <= l.Keys
    requires forall x :: x in nodes ==> l[x] == l'[x] + 1
    ensures Bounded(nodes, l, b) && Share(nodes, l, b) == Share(nodes, l', b - 1)
  {
    assert ShareMap(nodes, l, b) == ShareMap(nodes, l', b - 1);
  }

  lemma {:induction false} ShareUnion(a: set<nat>, c: set<nat>, l: Lengths, b: nat)
    requires a !! c && Bounded(a + c, l, b)
    ensures Share(a + c, l, b) == Share(a, l, b) + Share(c, l, b)
    decreases a
  {
    if a == {} {
      ShareEmpty(l, b);
      assert a + c == c;
    } else {
      var x :| x in a;
      ShareRemove(a, l, b, x);
      ShareRemove(a + c, l, b, x);
      assert a + c - {x} == (a - {x}) + c;
      ShareUnion(a - {x}, c, l, b);
    }
  }
}
