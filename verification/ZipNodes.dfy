/** The entries of a zip file system by their ids: links between parents and children, ancestry and paths. */
module ZipNodes {
  import opened Prelude
  import opened ZipTrees

  datatype Node = Node(name: string, parent: Option<nat>, children: seq<nat>, directory: bool, data: nat)

  // Entry 0 is the root, which has no name. Parents and children name each other, except that a removed entry, one of
  // loose,
  // keeps its parent; rank grows downwards; siblings have different names; only directories have children.
  ghost predicate Linked(s: seq<Node>, rank: seq<nat>, loose: set<nat>) {
    && |s| >= 1 && |rank| == |s| && s[0].parent.None? && s[0].directory && s[0].name == ""
    && (forall i :: 1 <= i < |s| ==> LinkedUp(s, rank, loose, i))
    && (forall i :: 0 <= i < |s| ==> LinkedDown(s, loose, i))
  }

  ghost predicate LinkedUp(s: seq<Node>, rank: seq<nat>, loose: set<nat>, i: nat)
    requires i < |s| == |rank|
  {
    && s[i].parent.Some? && s[i].parent.value < |s|
    && rank[s[i].parent.value] < rank[i] && s[s[i].parent.value].directory
    && (i !in loose ==> i in s[s[i].parent.value].children)
  }

  ghost predicate LinkedDown(s: seq<Node>, loose: set<nat>, i: nat)
    requires i < |s|
  {
    && (forall k :: 0 <= k < |s[i].children| ==> Child(s, loose, i, s[i].children[k]))
    && (forall j, k :: 0 <= j < k < |s[i].children| ==> Apart(s, s[i].children[j], s[i].children[k]))
  }

  ghost predicate Child(s: seq<Node>, loose: set<nat>, i: nat, c: nat) {
    c < |s| && s[c].parent == Some(i) && c !in loose
  }

  predicate Apart(s: seq<Node>, a: nat, b: nat) {
    a < |s| && b < |s| && a != b && s[a].name != s[b].name
  }

  lemma {:induction false} ParentOf(s: seq<Node>, rank: seq<nat>, loose: set<nat>, i: nat)
    requires Linked(s, rank, loose) && i < |s|
    ensures |rank| == |s| && (i > 0 <==> s[i].parent.Some?)
    ensures i > 0 ==> s[i].parent.value < |s| && rank[s[i].parent.value] < rank[i] && s[s[i].parent.value].directory
    ensures i > 0 && i !in loose ==> i in s[s[i].parent.value].children
  {
    if i > 0 {
      assert LinkedUp(s, rank, loose, i);
    }
  }

  // ---- ancestry ----

  // The n-th ancestor.
  function Up(s: seq<Node>, i: nat, n: nat): Option<nat>
    decreases n
  {
    if i >= |s| then None else if n == 0 then Some(i) else
      match s[i].parent
      case None => None
      case Some(p) => Up(s, p, n - 1)
  }

  // a is a proper ancestor of i.
  ghost predicate Below(s: seq<Node>, i: nat, a: nat) {
    exists n: nat :: n > 0 && Up(s, i, n) == Some(a)
  }

  lemma {:induction false} BelowStep(s: seq<Node>, rank: seq<nat>, loose: set<nat>, i: nat, a: nat)
    requires Linked(s, rank, loose) && i < |s|
    ensures i == 0 ==> !Below(s, i, a)
    ensures i > 0 ==>
            s[i].parent.Some?
            && (Below(s, i, a) <==> s[i].parent.value == a || Below(s, s[i].parent.value, a))
  {
    hide LinkedUp, LinkedDown;
    ParentOf(s, rank, loose, i);
    if i > 0 {
      var p := s[i].parent.value;
      if p == a {
        assert Up(s, p, 0) == Some(a);
        assert Up(s, i, 1) == Some(a);
      }
      if Below(s, p, a) {
        var n: nat :| n > 0 && Up(s, p, n) == Some(a);
        assert Up(s, i, n + 1) == Some(a);
      }
      if Below(s, i, a) {
        var n: nat :| n > 0 && Up(s, i, n) == Some(a);
        assert Up(s, p, n - 1) == Some(a);
      }
    }
  }

  // An ancestor ranks lower, so nothing is its own ancestor.
  lemma {:induction false} BelowRanks(s: seq<Node>, rank: seq<nat>, loose: set<nat>, i: nat, a: nat)
    requires Linked(s, rank, loose) && i < |s| && Below(s, i, a)
    ensures a < |s| && rank[a] < rank[i]
    decreases if i < |rank| then rank[i] else 0
  {
    hide Linked, Below;
    ParentOf(s, rank, loose, i);
    BelowStep(s, rank, loose, i, a);
    if s[i].parent.value != a {
      BelowRanks(s, rank, loose, s[i].parent.value, a);
    }
  }

  // ---- the three changes ----

  function Without(children: seq<nat>, i: nat): seq<nat> {
    if children == [] then [] else (if children[0] == i then [] else [children[0]]) + Without(children[1..], i)
  }

  lemma {:induction false} WithoutIs(children: seq<nat>, i: nat)
    ensures forall c :: c in Without(children, i) <==> c in children && c != i
    ensures i !in children ==> Without(children, i) == children
  {
    if children != [] {
      WithoutIs(children[1..], i);
    }
  }

  lemma {:induction false} WithoutAt(children: seq<nat>, i: nat, at: nat)
    requires at < |children| && children[at] == i && forall j :: 0 <= j < |children| && j != at ==> children[j] != i
    ensures Without(children, i) == children[..at] + children[at + 1..]
  {
    if at == 0 {
      WithoutIs(children[1..], i);
      assert i !in children[1..];
      assert children[..0] + children[1..] == children[1..];
    } else {
      WithoutAt(children[1..], i, at - 1);
      assert children[..at] + children[at + 1..] == [children[0]] + (children[1..][..at - 1] + children[1..][at..]);
    }
  }

  // The children that stay keep their order.
  lemma {:induction false} WithoutOrder(s: seq<Node>, children: seq<nat>, i: nat)
    requires forall j, k :: 0 <= j < k < |children| ==> Apart(s, children[j], children[k])
    ensures forall j, k :: 0 <= j < k < |Without(children, i)| ==>
            Apart(s, Without(children, i)[j], Without(children, i)[k])
  {
    hide Apart;
    if children != [] {
      var rest := children[1..];
      assert forall j, k :: 0 <= j < k < |rest| ==> Apart(s, rest[j], rest[k]);
      WithoutOrder(s, rest, i);
      if children[0] != i {
        var w := Without(children, i);
        assert w == [children[0]] + Without(rest, i);
        WithoutIs(rest, i);
        forall j, k | 0 <= j < k < |w|
          ensures Apart(s, w[j], w[k])
        {
          if j == 0 {
            assert w[k] in Without(rest, i);
            var m :| 0 <= m < |rest| && rest[m] == w[k];
            assert children[m + 1] == w[k];
          }
        }
      }
    }
  }

  // Whether a directory has a child of this name.
  ghost predicate HasChild(s: seq<Node>, p: nat, name: string)
    requires p < |s|
  {
    exists k :: 0 <= k < |s[p].children| && s[p].children[k] < |s| && s[s[p].children[k]].name == name
  }

  // A new entry, last among the children of p.
  function Added(s: seq<Node>, name: string, p: nat, directory: bool, data: nat): seq<Node>
    requires p < |s|
  {
    s[p := s[p].(children := s[p].children + [|s|])] + [Node(name, Some(p), [], directory, data)]
  }

  // An entry taken out of the children of its parent.
  function Detached(s: seq<Node>, i: nat): seq<Node>
    requires i < |s| && s[i].parent.Some? && s[i].parent.value < |s|
  {
    var p := s[i].parent.value;
    s[p := s[p].(children := Without(s[p].children, i))]
  }

  // An entry moved to the end of the children of another directory.
  function Moved(s: seq<Node>, i: nat, target: nat): seq<Node>
    requires i < |s| && s[i].parent.Some? && s[i].parent.value < |s| && target < |s|
  {
    var d := Detached(s, i);
    var e := d[i := d[i].(parent := Some(target))];
    e[target := e[target].(children := e[target].children + [i])]
  }

  lemma {:induction false} AddedLinked(s: seq<Node>, rank: seq<nat>, loose: set<nat>, name: string, p: nat,
                                       directory: bool, data: nat)
    requires Linked(s, rank, loose) && p < |s| && s[p].directory && !HasChild(s, p, name) && forall i :: i in loose ==>
             i < |s|
    ensures Linked(Added(s, name, p, directory, data), rank + [rank[p] + 1], loose)
  {
    var t, r, n := Added(s, name, p, directory, data), rank + [rank[p] + 1], |s|;
    forall i | 1 <= i < |t|
      ensures LinkedUp(t, r, loose, i)
    {
      if i < n {
        assert LinkedUp(s, rank, loose, i);
      }
    }
    forall i | 0 <= i < |t|
      ensures LinkedDown(t, loose, i)
    {
      if i < n {
        assert LinkedDown(s, loose, i);
        forall k | 0 <= k < |t[i].children|
          ensures Child(t, loose, i, t[i].children[k])
        {
          if k < |s[i].children| {
            assert Child(s, loose, i, s[i].children[k]);
          }
        }
        forall j, k | 0 <= j < k < |t[i].children|
          ensures Apart(t, t[i].children[j], t[i].children[k])
        {
          if k < |s[i].children| {
            assert Apart(s, s[i].children[j], s[i].children[k]);
          } else {
            assert Child(s, loose, i, s[i].children[j]);
          }
        }
      }
    }
  }

  lemma {:induction false} DetachedLinked(s: seq<Node>, rank: seq<nat>, loose: set<nat>, i: nat)
    requires Linked(s, rank, loose) && 0 < i < |s|
    ensures s[i].parent.Some? && s[i].parent.value < |s|
    ensures Linked(Detached(s, i), rank, loose + {i})
  {
    ParentOf(s, rank, loose, i);
    var t, p := Detached(s, i), s[i].parent.value;
    WithoutIs(s[p].children, i);
    assert LinkedDown(s, loose, p);
    WithoutOrder(s, s[p].children, i);
    forall j | 1 <= j < |t|
      ensures LinkedUp(t, rank, loose + {i}, j)
    {
      assert LinkedUp(s, rank, loose, j);
    }
    forall j | 0 <= j < |t|
      ensures LinkedDown(t, loose + {i}, j)
    {
      assert LinkedDown(s, loose, j);
      forall k | 0 <= k < |t[j].children|
        ensures Child(t, loose + {i}, j, t[j].children[k])
      {
        assert t[j].children[k] in s[j].children;
        var m :| 0 <= m < |s[j].children| && s[j].children[m] == t[j].children[k];
        assert Child(s, loose, j, s[j].children[m]);
      }
      forall a, b | 0 <= a < b < |t[j].children|
        ensures Apart(t, t[j].children[a], t[j].children[b])
      {
        assert Apart(s, t[j].children[a], t[j].children[b]);
      }
    }
  }

  // Ranks after a move: the moved subtree goes above k.
  ghost function Lifted(s: seq<Node>, rank: seq<nat>, i: nat, k: nat): (r: seq<nat>)
    ensures |r| == |rank|
  {
    seq(|rank|, j requires 0 <= j < |rank| => if j == i || Below(s, j, i) then rank[j] + k else rank[j])
  }

  lemma {:induction false} MovedUp(s: seq<Node>, rank: seq<nat>, loose: set<nat>, i: nat, target: nat, k: nat, j: nat)
    requires Linked(s, rank, loose) && 0 < i < |s| && target < |s| && s[target].directory
    requires target != i && !Below(s, target, i) && 1 <= j < |s|
    requires forall j :: 0 <= j < |rank| ==> rank[j] < k
    ensures s[i].parent.Some? && s[i].parent.value < |s|
    ensures LinkedUp(Moved(s, i, target), Lifted(s, rank, i, k), loose - {i}, j)
  {
    hide Below;
    ParentOf(s, rank, loose, i);
    ParentOf(s, rank, loose, j);
    var t, p, q := Moved(s, i, target), s[i].parent.value, s[j].parent.value;
    WithoutIs(s[p].children, i);
    if j != i {
      BelowStep(s, rank, loose, j, i);
      assert t[j].parent == s[j].parent;
      if j !in loose {
        assert j in s[q].children;
        assert j in t[q].children;
      }
    } else {
      assert t[i].parent == Some(target) && i in t[target].children;
    }
  }

  lemma {:induction false} ChildParent(s: seq<Node>, rank: seq<nat>, loose: set<nat>, i: nat, c: nat)
    requires Linked(s, rank, loose) && i < |s| && c in s[i].children
    ensures c < |s| && s[c].parent == Some(i) && c !in loose
  {
    assert LinkedDown(s, loose, i);
    var m :| 0 <= m < |s[i].children| && s[i].children[m] == c;
    assert Child(s, loose, i, s[i].children[m]);
  }

  // The children that stay, and the one that is added.
  lemma {:induction false} MovedDown(s: seq<Node>, rank: seq<nat>, loose: set<nat>, i: nat, target: nat, j: nat)
    requires Linked(s, rank, loose) && 0 < i < |s| && target < |s|
    requires target != i && j < |s|
    requires !HasChild(s, target, s[i].name)
    ensures s[i].parent.Some? && s[i].parent.value < |s|
    ensures LinkedDown(Moved(s, i, target), loose - {i}, j)
  {
    hide Linked, Child, HasChild, LinkedUp;
    ParentOf(s, rank, loose, i);
    var t, p := Moved(s, i, target), s[i].parent.value;
    var stay := if j == p then Without(s[j].children, i) else s[j].children;
    assert t[j].children == if j == target then stay + [i] else stay;
    Staying(s, rank, loose, i, j, stay);
    forall k | 0 <= k < |t[j].children|
      ensures Child(t, loose - {i}, j, t[j].children[k])
    {
      if k < |stay| {
        assert stay[k] in stay;
        ChildMoves(s, loose, i, target, j, stay[k]);
      } else {
        ChildNow(s, loose, i, target);
      }
    }
    forall a, b | 0 <= a < b < |t[j].children|
      ensures Apart(t, t[j].children[a], t[j].children[b])
    {
      if b < |stay| {
        assert Apart(s, stay[a], stay[b]);
      } else {
        assert stay[a] in stay;
        NameFree(s, rank, loose, target, stay[a], s[i].name);
      }
    }
  }

  lemma {:induction false} Staying(s: seq<Node>, rank: seq<nat>, loose: set<nat>, i: nat, j: nat, stay: seq<nat>)
    requires Linked(s, rank, loose) && 0 < i < |s| && j < |s| && s[i].parent.Some?
    requires stay == if j == s[i].parent.value then Without(s[j].children, i) else s[j].children
    ensures forall c :: c in stay ==> c in s[j].children && c < |s| && c != i && s[c].parent == Some(j) && c !in loose
    ensures forall a, b :: 0 <= a < b < |stay| ==> Apart(s, stay[a], stay[b])
  {
    assert LinkedDown(s, loose, j);
    hide Linked, LinkedDown, Child, Apart;
    WithoutIs(s[j].children, i);
    OrderKept(s, loose, i, j);
    forall c | c in stay
      ensures c in s[j].children && c < |s| && c != i && s[c].parent == Some(j) && c !in loose
    {
      ChildParent(s, rank, loose, j, c);
    }
  }

  lemma {:induction false} OrderKept(s: seq<Node>, loose: set<nat>, i: nat, j: nat)
    requires j < |s| && LinkedDown(s, loose, j)
    ensures forall a, b :: 0 <= a < b < |s[j].children| ==> Apart(s, s[j].children[a], s[j].children[b])
    ensures var w := Without(s[j].children, i); forall a, b :: 0 <= a < b < |w| ==> Apart(s, w[a], w[b])
  {
    WithoutOrder(s, s[j].children, i);
  }

  lemma {:induction false} ChildMoves(s: seq<Node>, loose: set<nat>, i: nat, target: nat, j: nat, c: nat)
    requires i < |s| && s[i].parent.Some? && s[i].parent.value < |s| && target < |s|
    requires c < |s| && c != i && s[c].parent == Some(j) && c !in loose
    ensures Child(Moved(s, i, target), loose - {i}, j, c)
  {
  }

  lemma {:induction false} ChildNow(s: seq<Node>, loose: set<nat>, i: nat, target: nat)
    requires i < |s| && s[i].parent.Some? && s[i].parent.value < |s| && target < |s|
    ensures Child(Moved(s, i, target), loose - {i}, target, i)
  {
  }

  lemma {:induction false} NameFree(s: seq<Node>, rank: seq<nat>, loose: set<nat>, p: nat, c: nat, name: string)
    requires p < |s| && c < |s| && c in s[p].children && !HasChild(s, p, name)
    ensures s[c].name != name
  {
    var m :| 0 <= m < |s[p].children| && s[p].children[m] == c;
    assert s[p].children[m] < |s|;
  }

  lemma {:induction false} MovedLinked(s: seq<Node>, rank: seq<nat>, loose: set<nat>, i: nat, target: nat, k: nat)
    requires Linked(s, rank, loose) && 0 < i < |s| && target < |s| && s[target].directory
    requires target != i && !Below(s, target, i) && !HasChild(s, target, s[i].name)
    requires forall j :: 0 <= j < |rank| ==> rank[j] < k
    ensures s[i].parent.Some? && s[i].parent.value < |s|
    ensures Linked(Moved(s, i, target), Lifted(s, rank, i, k), loose - {i})
  {
    hide Below, LinkedUp, LinkedDown, HasChild, Lifted;
    ParentOf(s, rank, loose, i);
    var t := Moved(s, i, target);
    forall j | 1 <= j < |t|
      ensures LinkedUp(t, Lifted(s, rank, i, k), loose - {i}, j)
    {
      MovedUp(s, rank, loose, i, target, k, j);
    }
    forall j | 0 <= j < |t|
      ensures LinkedDown(t, loose - {i}, j)
    {
      MovedDown(s, rank, loose, i, target, j);
    }
  }
}
