/** The tree that hangs from an entry, and what adding entries does to it. */
module ZipSubtrees {
  import opened Prelude
  import opened ZipTrees
  import opened ZipNodes
  import opened ZipPaths

  function Top(rank: seq<nat>): (k: nat)
    ensures forall i :: 0 <= i < |rank| ==> rank[i] < k
  {
    if rank == [] then 0 else
      var k := Top(rank[..|rank| - 1]);
      if rank[|rank| - 1] < k then k else rank[|rank| - 1] + 1
  }

  ghost function Subtree(s: seq<Node>, rank: seq<nat>, loose: set<nat>, i: nat): (t: Tree)
    requires Linked(s, rank, loose) && i < |s|
    ensures t.name == s[i].name && (t.Dir? <==> s[i].directory)
    decreases Top(rank) - Rank(rank, i), |s[i].children| + 1
  {
    if s[i].directory then Dir(s[i].name, Subtrees(s, rank, loose, i, |s[i].children|)) else File(s[i].name, s[i].data)
  }

  function Rank(rank: seq<nat>, i: nat): (r: nat)
    ensures i < |rank| ==> r == rank[i] < Top(rank)
  {
    if i < |rank| then rank[i] else 0
  }

  // The trees of the first n children.
  ghost function Subtrees(s: seq<Node>, rank: seq<nat>, loose: set<nat>, i: nat, n: nat): (t: seq<Tree>)
    requires Linked(s, rank, loose) && i < |s| && n <= |s[i].children|
    ensures |t| == n
    decreases Top(rank) - Rank(rank, i), n
  {
    if n == 0 then [] else
      ChildRanks(s, rank, loose, i, n - 1);
      Subtrees(s, rank, loose, i, n - 1) + [Subtree(s, rank, loose, s[i].children[n - 1])]
  }

  lemma {:induction false} ChildRanks(s: seq<Node>, rank: seq<nat>, loose: set<nat>, i: nat, n: nat)
    requires Linked(s, rank, loose) && i < |s| && n < |s[i].children|
    ensures s[i].children[n] < |s| == |rank| && rank[i] < rank[s[i].children[n]]
            && s[s[i].children[n]].parent == Some(i)
    ensures s[i].children[n] !in loose && s[i].children[n] > 0
  {
    ChildParent(s, rank, loose, i, s[i].children[n]);
    ParentOf(s, rank, loose, s[i].children[n]);
  }

  // What a directory contains.
  ghost function Kids(s: seq<Node>, rank: seq<nat>, loose: set<nat>, i: nat): (t: seq<Tree>)
    requires Linked(s, rank, loose) && i < |s|
    ensures |t| == |s[i].children|
  {
    Subtrees(s, rank, loose, i, |s[i].children|)
  }

  lemma {:induction false} SubtreesAt(s: seq<Node>, rank: seq<nat>, loose: set<nat>, i: nat, n: nat, k: nat)
    requires Linked(s, rank, loose) && i < |s| && k < n <= |s[i].children|
    ensures s[i].children[k] < |s| && Subtrees(s, rank, loose, i, n)[k] == Subtree(s, rank, loose, s[i].children[k])
    decreases n
  {
    ChildRanks(s, rank, loose, i, n - 1);
    if k < n - 1 {
      SubtreesAt(s, rank, loose, i, n - 1, k);
    }
  }

  // ---- what stays the same ----

  // i is a or below it.
  ghost predicate Within(s: seq<Node>, i: nat, a: nat) {
    i == a || Below(s, i, a)
  }

  lemma {:induction false} WithinChild(s: seq<Node>, rank: seq<nat>, loose: set<nat>, i: nat, n: nat, x: nat)
    requires Linked(s, rank, loose) && i < |s| && n < |s[i].children| && x < |s| && Within(s, x, s[i].children[n])
    ensures Within(s, x, i)
    decreases if x < |rank| then rank[x] else 0
  {
    hide Linked, Below;
    var c := s[i].children[n];
    ChildRanks(s, rank, loose, i, n);
    BelowStep(s, rank, loose, x, i);
    BelowStep(s, rank, loose, x, c);
    ParentOf(s, rank, loose, x);
    if x != c {
      WithinChild(s, rank, loose, i, n, s[x].parent.value);
    }
  }

  // The same but for the parent.
  predicate Alike(a: Node, b: Node) {
    a.name == b.name && a.children == b.children && a.directory == b.directory && a.data == b.data
  }

  // Every node of the subtree at i is as it was.
  ghost predicate Untouched(s: seq<Node>, s': seq<Node>, i: nat) {
    |s| <= |s'| && forall x :: 0 <= x < |s| && Within(s, x, i) ==> Alike(s'[x], s[x])
  }

  lemma {:induction false} SubtreeSame(s: seq<Node>, rank: seq<nat>, loose: set<nat>, s': seq<Node>, rank': seq<nat>,
                                       loose': set<nat>, i: nat)
    requires Linked(s, rank, loose) && Linked(s', rank', loose') && i < |s| && Untouched(s, s', i)
    ensures Subtree(s', rank', loose', i) == Subtree(s, rank, loose, i)
    decreases Top(rank) - Rank(rank, i), |s[i].children| + 1
  {
    hide Linked, Below;
    assert Within(s, i, i);
    assert Alike(s'[i], s[i]);
    SubtreesSame(s, rank, loose, s', rank', loose', i, |s[i].children|);
  }

  lemma {:induction false} SubtreesSame(s: seq<Node>, rank: seq<nat>, loose: set<nat>, s': seq<Node>, rank': seq<nat>,
                                        loose': set<nat>, i: nat, n: nat)
    requires Linked(s, rank, loose) && Linked(s', rank', loose') && i < |s| && Untouched(s, s', i)
    requires n <= |s[i].children| && Alike(s'[i], s[i])
    ensures Subtrees(s', rank', loose', i, n) == Subtrees(s, rank, loose, i, n)
    decreases Top(rank) - Rank(rank, i), n
  {
    hide Linked, Below;
    if n > 0 {
      SubtreesSame(s, rank, loose, s', rank', loose', i, n - 1);
      ChildRanks(s, rank, loose, i, n - 1);
      var c := s[i].children[n - 1];
      forall x | 0 <= x < |s| && Within(s, x, c)
        ensures Alike(s'[x], s[x])
      {
        WithinChild(s, rank, loose, i, n - 1, x);
      }
      SubtreeSame(s, rank, loose, s', rank', loose', c);
    }
  }

  // Nothing is below two children of one directory.
  lemma {:induction false} SiblingsDisjoint(s: seq<Node>, rank: seq<nat>, loose: set<nat>, i: nat, b: nat, c: nat,
                                            x: nat)
    requires Linked(s, rank, loose) && i < |s| && x < |s| && b < |s| && c < |s|
    requires s[b].parent == Some(i) && s[c].parent == Some(i) && Within(s, x, b) && Within(s, x, c)
    ensures b == c
    decreases if x < |rank| then rank[x] else 0
  {
    hide Linked, Below;
    ParentOf(s, rank, loose, b);
    ParentOf(s, rank, loose, c);
    ParentOf(s, rank, loose, x);
    BelowStep(s, rank, loose, x, b);
    BelowStep(s, rank, loose, x, c);
    if x != b && x != c {
      SiblingsDisjoint(s, rank, loose, i, b, c, s[x].parent.value);
    } else if x == b && x != c {
      if s[x].parent.value != c {
        BelowRanks(s, rank, loose, s[x].parent.value, c);
      }
    } else if x == c && x != b {
      if s[x].parent.value != b {
        BelowRanks(s, rank, loose, s[x].parent.value, b);
      }
    }
  }

  // ---- adding ----

  // s' is s with more entries at or below d.
  ghost predicate Extends(s: seq<Node>, s': seq<Node>, d: nat) {
    && |s| <= |s'|
    && (forall x :: 0 <= x < |s| ==> s'[x].(children := s[x].children) == s[x])
    && (forall x :: 0 <= x < |s| && !Within(s, x, d) ==> s'[x] == s[x])
  }

  lemma {:induction false} ExtendsNothing(s: seq<Node>, d: nat)
    ensures Extends(s, s, d)
  {
  }

  lemma {:induction false} AddedExtends(s: seq<Node>, name: string, p: nat, directory: bool, data: nat)
    requires p < |s|
    ensures Extends(s, Added(s, name, p, directory, data), p)
  {
    hide Below;
  }

  // A new entry changes nothing below the other children.
  lemma {:induction false} AddedUntouched(s: seq<Node>, rank: seq<nat>, loose: set<nat>, name: string, p: nat,
                                          directory: bool, data: nat, k: nat)
    requires Linked(s, rank, loose) && p < |s| && k < |s[p].children|
    ensures s[p].children[k] < |s| && Untouched(s, Added(s, name, p, directory, data), s[p].children[k])
  {
    hide Linked, Below;
    ChildRanks(s, rank, loose, p, k);
    var c := s[p].children[k];
    if Within(s, p, c) {
      BelowRanks(s, rank, loose, p, c);
    }
  }

  lemma {:induction false} AddedKids(s: seq<Node>, rank: seq<nat>, loose: set<nat>, name: string, p: nat,
                                     directory: bool, data: nat)
    requires Linked(s, rank, loose) && p < |s| && s[p].directory && !HasChild(s, p, name) && forall i :: i in loose ==>
             i < |s|
    ensures var t, r := Added(s, name, p, directory, data), rank + [rank[p] + 1];
            && Linked(t, r, loose) && Kids(t, r, loose, |s|) == []
            && Kids(t, r, loose, p) == Kids(s, rank, loose, p) + [if directory then Dir(name, []) else File(name, data)]
  {
    AddedLinked(s, rank, loose, name, p, directory, data);
    hide Linked, Below;
    var t, r, n := Added(s, name, p, directory, data), rank + [rank[p] + 1], |s[p].children|;
    var leaf := if directory then Dir(name, []) else File(name, data);
    forall k | 0 <= k < n
      ensures Kids(t, r, loose, p)[k] == Kids(s, rank, loose, p)[k]
    {
      SubtreesAt(s, rank, loose, p, n, k);
      SubtreesAt(t, r, loose, p, n + 1, k);
      AddedUntouched(s, rank, loose, name, p, directory, data, k);
      SubtreeSame(s, rank, loose, t, r, loose, s[p].children[k]);
    }
    SubtreesAt(t, r, loose, p, n + 1, n);
    assert Subtree(t, r, loose, |s|) == leaf;
    assert Kids(t, r, loose, p) == Kids(s, rank, loose, p) + [leaf];
  }

  // Growth below a child is growth of that child.
  lemma {:induction false} GrowUp(s: seq<Node>, rank: seq<nat>, s': seq<Node>, rank': seq<nat>, loose: set<nat>,
                                  d: nat, k: nat)
    requires Linked(s, rank, loose) && Linked(s', rank', loose) && d < |s| && k < |s[d].children|
             && s[d].children[k] < |s|
    requires Extends(s, s', s[d].children[k]) && s[s[d].children[k]].directory
    ensures Extends(s, s', d)
    ensures var c := s[d].children[k];
            c < |s'| && Kids(s', rank', loose, d) ==
              Kids(s, rank, loose, d)[k := Dir(s[c].name, Kids(s', rank', loose, c))]
  {
    hide Linked, Below;
    var c, n := s[d].children[k], |s[d].children|;
    ChildRanks(s, rank, loose, d, k);
    if Within(s, d, c) {
      BelowRanks(s, rank, loose, d, c);
    }
    forall x | 0 <= x < |s| && !Within(s, x, d)
      ensures s'[x] == s[x]
    {
      if Within(s, x, c) {
        WithinChild(s, rank, loose, d, k, x);
      }
    }
    var was, now := Kids(s, rank, loose, d), Kids(s', rank', loose, d);
    forall j | 0 <= j < n
      ensures now[j] == if j == k then Dir(s[c].name, Kids(s', rank', loose, c)) else was[j]
    {
      SubtreesAt(s, rank, loose, d, n, j);
      SubtreesAt(s', rank', loose, d, n, j);
      if j != k {
        OtherUntouched(s, rank, s', loose, d, j, k);
        SubtreeSame(s, rank, loose, s', rank', loose, s[d].children[j]);
      }
    }
    assert now == was[k := Dir(s[c].name, Kids(s', rank', loose, c))];
  }

  lemma {:induction false} OtherUntouched(s: seq<Node>, rank: seq<nat>, s': seq<Node>, loose: set<nat>, d: nat, j: nat,
                                          k: nat)
    requires Linked(s, rank, loose) && d < |s| && j < |s[d].children| && k < |s[d].children| && j != k
    requires s[d].children[j] < |s| && s[d].children[k] < |s| && Extends(s, s', s[d].children[k])
    ensures Untouched(s, s', s[d].children[j])
  {
    SiblingsApart(s, rank, loose, d);
    hide Linked, Below;
    var b, c := s[d].children[j], s[d].children[k];
    assert b != c by {
      if j < k {
        assert Apart(s, b, c);
      } else {
        assert Apart(s, c, b);
      }
    }
    ChildRanks(s, rank, loose, d, j);
    ChildRanks(s, rank, loose, d, k);
    forall x | 0 <= x < |s| && Within(s, x, b)
      ensures s'[x] == s[x]
    {
      if Within(s, x, c) {
        SiblingsDisjoint(s, rank, loose, d, b, c, x);
      }
    }
  }

  // An old entry is not below a new one.
  lemma {:induction false} OldAbove(s: seq<Node>, rank: seq<nat>, loose: set<nat>, name: string, p: nat,
                                    directory: bool, data: nat, x: nat)
    requires Linked(s, rank, loose) && p < |s| && x < |s|
    requires Linked(Added(s, name, p, directory, data), rank + [rank[p] + 1], loose)
    ensures !Within(Added(s, name, p, directory, data), x, |s|)
    decreases if x < |rank| then rank[x] else 0
  {
    hide Linked, Below;
    ParentOf(s, rank, loose, x);
    var t, r := Added(s, name, p, directory, data), rank + [rank[p] + 1];
    BelowStep(t, r, loose, x, |s|);
    if x > 0 {
      OldAbove(s, rank, loose, name, p, directory, data, s[x].parent.value);
    }
  }

  // The index of a child among the trees is its place among the children.
  lemma {:induction false} IndexOfChild(s: seq<Node>, rank: seq<nat>, loose: set<nat>, d: nat, name: string)
    returns (k: nat)
    requires Linked(s, rank, loose) && d < |s|
    ensures k == IndexOf(Kids(s, rank, loose, d), name) <= |s[d].children|
    ensures k < |s[d].children| ==> FirstNamed(s, s[d].children, name) == Some(s[d].children[k])
    ensures k == |s[d].children| ==> FirstNamed(s, s[d].children, name) == None && !HasChild(s, d, name)
  {
    SiblingsApart(s, rank, loose, d);
    hide Linked, IndexOf;
    var kids, children := Kids(s, rank, loose, d), s[d].children;
    k := IndexOf(kids, name);
    forall j | 0 <= j < |children|
      ensures children[j] < |s| && kids[j].name == s[children[j]].name
    {
      SubtreesAt(s, rank, loose, d, |children|, j);
    }
    if k < |children| {
      FirstIs(s, children, children[k]);
    } else if FirstNamed(s, children, name).Some? {
      FirstFound(s, children, name);
    }
  }

  // ---- importing one record ----

  // importZip on the entries: the directories of the path, made where they are missing, then the file if there is one.
  function ImportAt(s: seq<Node>, d: nat, path: seq<string>, file: Option<(string, nat)>): Option<seq<Node>>
    requires d < |s|
    decreases |path|
  {
    if path == [] then
      match file
      case None => Some(s)
      case Some((name, data)) =>
        if !s[d].directory || FirstNamed(s, s[d].children, name).Some? then None
          else Some(Added(s, name, d, false, data))
    else if !s[d].directory then None
    else match FirstNamed(s, s[d].children, path[0])
      case Some(c) => if c < |s| then ImportAt(s, c, path[1..], file) else None
      case None => ImportAt(Added(s, path[0], d, true, 0), |s|, path[1..], file)
  }

  lemma {:induction false} ImportAtNext(s: seq<Node>, d: nat, path: seq<string>, index: nat,
                                        file: Option<(string, nat)>)
    requires d < |s| && index < |path|
    ensures ImportAt(s, d, path[index..], file) ==
              if !s[d].directory then None
              else match FirstNamed(s, s[d].children, path[index])
                case Some(c) => (if c < |s| then ImportAt(s, c, path[index + 1..], file) else None)
                case None => ImportAt(Added(s, path[index], d, true, 0), |s|, path[index + 1..], file)
  {
    hide Added, FirstNamed;
    assert path[index..][0] == path[index] && path[index..][1..] == path[index + 1..];
  }

  lemma {:induction false} ImportAtEnd(s: seq<Node>, d: nat, file: Option<(string, nat)>)
    requires d < |s|
    ensures ImportAt(s, d, [], file) ==
              if file.None? then Some(s)
              else if !s[d].directory || FirstNamed(s, s[d].children, file.value.0).Some? then None
              else Some(Added(s, file.value.0, d, false, file.value.1))
  {
    hide FirstNamed, Added;
  }

  function LeafOf(file: Option<(string, nat)>): Option<Tree> {
    match file
    case None => None
    case Some((name, data)) => Some(File(name, data))
  }

  // On the tree that hangs from d, importing is inserting.
  lemma {:induction false} ImportInserts(s: seq<Node>, rank: seq<nat>, loose: set<nat>, d: nat, path: seq<string>,
                                         file: Option<(string, nat)>)
      returns (rank': seq<nat>)
    requires Linked(s, rank, loose) && d < |s| && s[d].directory && forall i :: i in loose ==> i < |s|
    ensures ImportAt(s, d, path, file).Some? <==> Insert(Kids(s, rank, loose, d), path, LeafOf(file)).Some?
    ensures ImportAt(s, d, path, file).Some? ==>
              var s' := ImportAt(s, d, path, file).value;
              && Linked(s', rank', loose) && Extends(s, s', d)
              && Kids(s', rank', loose, d) == Insert(Kids(s, rank, loose, d), path, LeafOf(file)).value
    decreases |path|
  {
    hide Linked, Below, Within, IndexOf, Kids, HasChild;
    if path == [] {
      rank' := ImportLeaf(s, rank, loose, d, file);
    } else {
      var k := IndexOfChild(s, rank, loose, d, path[0]);
      if k < |s[d].children| {
        rank' := ImportInside(s, rank, loose, d, path, file, k);
      } else {
        rank' := ImportNew(s, rank, loose, d, path, file);
      }
    }
  }

  lemma {:induction false} ImportLeaf(s: seq<Node>, rank: seq<nat>, loose: set<nat>, d: nat,
                                      file: Option<(string, nat)>)
      returns (rank': seq<nat>)
    requires Linked(s, rank, loose) && d < |s| && s[d].directory && forall i :: i in loose ==> i < |s|
    ensures ImportAt(s, d, [], file).Some? <==> Insert(Kids(s, rank, loose, d), [], LeafOf(file)).Some?
    ensures ImportAt(s, d, [], file).Some? ==>
              var s' := ImportAt(s, d, [], file).value;
              && Linked(s', rank', loose) && Extends(s, s', d)
              && Kids(s', rank', loose, d) == Insert(Kids(s, rank, loose, d), [], LeafOf(file)).value
  {
    hide Linked, Below, Within, IndexOf, Kids, HasChild, Extends;
    rank' := rank;
    ExtendsNothing(s, d);
    if file.Some? {
      var (name, data) := file.value;
      var k := IndexOfChild(s, rank, loose, d, name);
      KidsLength(s, rank, loose, d);
      if k == |s[d].children| {
        AddedKids(s, rank, loose, name, d, false, data);
        AddedExtends(s, name, d, false, data);
        rank' := rank + [RankOf(s, rank, loose, d) + 1];
      }
    }
  }

  ghost function RankOf(s: seq<Node>, rank: seq<nat>, loose: set<nat>, d: nat): (r: nat)
    requires Linked(s, rank, loose) && d < |s|
    ensures d < |rank| && r == rank[d]
  {
    rank[d]
  }

  lemma {:induction false} KidsLength(s: seq<Node>, rank: seq<nat>, loose: set<nat>, d: nat)
    requires Linked(s, rank, loose) && d < |s|
    ensures |Kids(s, rank, loose, d)| == |s[d].children|
  {
  }

  lemma {:induction false} ImportInside(s: seq<Node>, rank: seq<nat>, loose: set<nat>, d: nat, path: seq<string>,
                                        file: Option<(string, nat)>, k: nat)
      returns (rank': seq<nat>)
    requires Linked(s, rank, loose) && d < |s| && s[d].directory && (forall i :: i in loose ==> i < |s|) && path != []
    requires k < |s[d].children| && k == IndexOf(Kids(s, rank, loose, d), path[0])
    requires FirstNamed(s, s[d].children, path[0]) == Some(s[d].children[k])
    ensures ImportAt(s, d, path, file).Some? <==> Insert(Kids(s, rank, loose, d), path, LeafOf(file)).Some?
    ensures ImportAt(s, d, path, file).Some? ==>
              var s' := ImportAt(s, d, path, file).value;
              && Linked(s', rank', loose) && Extends(s, s', d)
              && Kids(s', rank', loose, d) == Insert(Kids(s, rank, loose, d), path, LeafOf(file)).value
    decreases |path|, 0
  {
    hide Linked, Below, Within, IndexOf, Extends;
    var c := s[d].children[k];
    ChildRanks(s, rank, loose, d, k);
    SubtreesAt(s, rank, loose, d, |s[d].children|, k);
    FirstFound(s, s[d].children, path[0]);
    rank' := rank;
    if s[c].directory {
      rank' := ImportInserts(s, rank, loose, c, path[1..], file);
      if ImportAt(s, c, path[1..], file).Some? {
        GrowUp(s, rank, ImportAt(s, c, path[1..], file).value, rank', loose, d, k);
      }
    } else {
      ExtendsNothing(s, d);
    }
  }

  lemma {:induction false} ImportNew(s: seq<Node>, rank: seq<nat>, loose: set<nat>, d: nat, path: seq<string>,
                                     file: Option<(string, nat)>)
      returns (rank': seq<nat>)
    requires Linked(s, rank, loose) && d < |s| && s[d].directory && (forall i :: i in loose ==> i < |s|) && path != []
    requires |s[d].children| == IndexOf(Kids(s, rank, loose, d), path[0])
    requires FirstNamed(s, s[d].children, path[0]) == None && !HasChild(s, d, path[0])
    ensures ImportAt(s, d, path, file).Some? <==> Insert(Kids(s, rank, loose, d), path, LeafOf(file)).Some?
    ensures ImportAt(s, d, path, file).Some? ==>
              var s' := ImportAt(s, d, path, file).value;
              && Linked(s', rank', loose) && Extends(s, s', d)
              && Kids(s', rank', loose, d) == Insert(Kids(s, rank, loose, d), path, LeafOf(file)).value
    decreases |path|, 0
  {
    hide Linked, Below, Within, IndexOf, Extends, HasChild;
    var t, r, n := Added(s, path[0], d, true, 0), rank + [RankOf(s, rank, loose, d) + 1], |s|;
    KidsLength(s, rank, loose, d);
    AddedKids(s, rank, loose, path[0], d, true, 0);
    AddedExtends(s, path[0], d, true, 0);
    rank' := ImportInserts(t, r, loose, n, path[1..], file);
    if ImportAt(t, n, path[1..], file).Some? {
      var s' := ImportAt(t, n, path[1..], file).value;
      var k := |s[d].children|;
      assert t[d].children[k] == n;
      GrowUp(t, r, s', rank', loose, d, k);
      var inside := Kids(s', rank', loose, n);
      assert Kids(t, r, loose, d)[k := Dir(path[0], inside)] == Kids(s, rank, loose, d) + [Dir(path[0], inside)];
      ExtendsBoth(s, rank, loose, path[0], d, s');
    }
  }

  lemma {:induction false} ExtendsBoth(s: seq<Node>, rank: seq<nat>, loose: set<nat>, name: string, d: nat,
                                       s': seq<Node>)
    requires Linked(s, rank, loose) && d < |s| && Linked(Added(s, name, d, true, 0), rank + [rank[d] + 1], loose)
    requires Extends(Added(s, name, d, true, 0), s', |s|)
    ensures Extends(s, s', d)
  {
    hide Linked, Below, Within;
    var t := Added(s, name, d, true, 0);
    forall x | 0 <= x < |s|
      ensures s'[x] == t[x]
    {
      OldAbove(s, rank, loose, name, d, true, 0, x);
    }
    AddedExtends(s, name, d, true, 0);
  }

  // ---- moving ----

  // What does not contain the old parent or the target keeps its tree.
  lemma {:induction false} MovedElsewhere(s: seq<Node>, rank: seq<nat>, loose: set<nat>, i: nat, target: nat, k: nat,
                                          j: nat)
    requires Linked(s, rank, loose) && 0 < i < |s| && target < |s| && s[target].directory && j < |s|
    requires target != i && !Below(s, target, i) && !HasChild(s, target, s[i].name)
    requires forall x :: 0 <= x < |rank| ==> rank[x] < k
    requires s[i].parent.Some? && s[i].parent.value < |s|
    requires !Within(s, s[i].parent.value, j) && !Within(s, target, j)
    ensures var s', rank' := Moved(s, i, target), Lifted(s, rank, i, k);
            && Linked(s', rank', loose - {i})
            && Subtree(s', rank', loose - {i}, j) == Subtree(s, rank, loose, j)
  {
    MovedLinked(s, rank, loose, i, target, k);
    hide Linked, Within, Lifted, Without, Below, HasChild;
    var s' := Moved(s, i, target);
    forall x | 0 <= x < |s| && Within(s, x, j)
      ensures Alike(s'[x], s[x])
    {
    }
    SubtreeSame(s, rank, loose, s', Lifted(s, rank, i, k), loose - {i}, j);
  }

  // So does every other child of the old parent or the target, if neither contains the other.
  lemma {:induction false} ChildStays(s: seq<Node>, rank: seq<nat>, loose: set<nat>, i: nat, target: nat, k: nat,
                                      d: nat, y: nat)
    requires Linked(s, rank, loose) && 0 < i < |s| && target < |s| && s[target].directory && d < |s|
    requires target != i && !Below(s, target, i) && !HasChild(s, target, s[i].name)
    requires forall x :: 0 <= x < |rank| ==> rank[x] < k
    requires s[i].parent.Some? && s[i].parent.value < |s|
    requires s[i].parent.value == d || !Within(s, s[i].parent.value, d)
    requires target == d || !Within(s, target, d)
    requires y < |s[d].children|
    ensures var s', rank', c := Moved(s, i, target), Lifted(s, rank, i, k), s[d].children[y];
            && Linked(s', rank', loose - {i}) && c < |s|
            && Subtree(s', rank', loose - {i}, c) == Subtree(s, rank, loose, c)
  {
    hide Linked, Below, Moved, Lifted, HasChild;
    var c := s[d].children[y];
    ChildRanks(s, rank, loose, d, y);
    if Within(s, d, c) {
      BelowRanks(s, rank, loose, d, c);
    }
    if Within(s, s[i].parent.value, c) {
      WithinChild(s, rank, loose, d, y, s[i].parent.value);
    }
    if Within(s, target, c) {
      WithinChild(s, rank, loose, d, y, target);
    }
    MovedElsewhere(s, rank, loose, i, target, k, c);
  }

  lemma {:induction false} OnlyAt(s: seq<Node>, rank: seq<nat>, loose: set<nat>, p: nat, i: nat, at: nat)
    requires Linked(s, rank, loose) && p < |s| && at < |s[p].children| && s[p].children[at] == i
    ensures forall j :: 0 <= j < |s[p].children| && j != at ==> s[p].children[j] != i
  {
    SiblingsApart(s, rank, loose, p);
    forall j | 0 <= j < |s[p].children| && j != at
      ensures s[p].children[j] != i
    {
      if j < at {
        assert Apart(s, s[p].children[j], s[p].children[at]);
      } else {
        assert Apart(s, s[p].children[at], s[p].children[j]);
      }
    }
  }

  // The moved tree itself, and where it is now: last in the target, and gone from where it was.
  lemma {:induction false} MovedTree(s: seq<Node>, rank: seq<nat>, loose: set<nat>, i: nat, target: nat, k: nat)
    requires Linked(s, rank, loose) && 0 < i < |s| && target < |s| && s[target].directory
    requires target != i && !Below(s, target, i) && !HasChild(s, target, s[i].name)
    requires forall x :: 0 <= x < |rank| ==> rank[x] < k
    ensures s[i].parent.Some? && s[i].parent.value < |s|
    ensures var s', rank', kept := Moved(s, i, target), Lifted(s, rank, i, k), loose - {i};
            && Linked(s', rank', kept)
            && Subtree(s', rank', kept, i) == Subtree(s, rank, loose, i)
            && s'[target].children != [] && s'[target].children[|s'[target].children| - 1] == i
            && Kids(s', rank', kept, target)[|s'[target].children| - 1] == Subtree(s, rank, loose, i)
  {
    MovedLinked(s, rank, loose, i, target, k);
    hide Linked, Below, Lifted, Without, HasChild;
    ParentOf(s, rank, loose, i);
    var p := s[i].parent.value;
    if Below(s, p, i) {
      BelowRanks(s, rank, loose, p, i);
    }
    MovedElsewhere(s, rank, loose, i, target, k, i);
    var s', rank' := Moved(s, i, target), Lifted(s, rank, i, k);
    var n := |s'[target].children|;
    SubtreesAt(s', rank', loose - {i}, target, n, n - 1);
  }

  // A directory the moved tree leaves, unless the target is below it: just that tree is gone.
  lemma {:induction false} MovedFrom(s: seq<Node>, rank: seq<nat>, loose: set<nat>, i: nat, target: nat, k: nat,
                                     at: nat)
    requires Linked(s, rank, loose) && 0 < i < |s| && target < |s| && s[target].directory
    requires target != i && !Below(s, target, i) && !HasChild(s, target, s[i].name)
    requires forall x :: 0 <= x < |rank| ==> rank[x] < k
    requires s[i].parent.Some? && s[i].parent.value < |s| && !Within(s, target, s[i].parent.value)
    requires at < |s[s[i].parent.value].children| && s[s[i].parent.value].children[at] == i
    ensures var s', rank', kept, p := Moved(s, i, target), Lifted(s, rank, i, k), loose - {i}, s[i].parent.value;
            && Linked(s', rank', kept)
            && Kids(s', rank', kept, p) == Kids(s, rank, loose, p)[..at] + Kids(s, rank, loose, p)[at + 1..]
  {
    var s', rank', kept, p := Moved(s, i, target), Lifted(s, rank, i, k), loose - {i}, s[i].parent.value;
    MovedLinked(s, rank, loose, i, target, k);
    OnlyAt(s, rank, loose, p, i, at);
    WithoutAt(s[p].children, i, at);
    hide Linked, Below, Lifted, Without, HasChild;
    var c := s[p].children[..at] + s[p].children[at + 1..];
    assert s'[p].children == c;
    var was, now := Kids(s, rank, loose, p), Kids(s', rank', kept, p);
    forall x | 0 <= x < |c|
      ensures now[x] == was[if x < at then x else x + 1]
    {
      var y := if x < at then x else x + 1;
      ChildStays(s, rank, loose, i, target, k, p, y);
      SubtreesAt(s, rank, loose, p, |was|, y);
      SubtreesAt(s', rank', kept, p, |now|, x);
    }
    assert now == was[..at] + was[at + 1..];
  }

  // A directory it enters, unless it comes from below it: just that tree is added, at the end.
  lemma {:induction false} MovedInto(s: seq<Node>, rank: seq<nat>, loose: set<nat>, i: nat, target: nat, k: nat)
    requires Linked(s, rank, loose) && 0 < i < |s| && target < |s| && s[target].directory
    requires target != i && !Below(s, target, i) && !HasChild(s, target, s[i].name)
    requires forall x :: 0 <= x < |rank| ==> rank[x] < k
    requires s[i].parent.Some? && s[i].parent.value < |s| && !Within(s, s[i].parent.value, target)
    ensures var s', rank', kept := Moved(s, i, target), Lifted(s, rank, i, k), loose - {i};
            && Linked(s', rank', kept)
            && Kids(s', rank', kept, target) == Kids(s, rank, loose, target) + [Subtree(s, rank, loose, i)]
  {
    var s', rank', kept := Moved(s, i, target), Lifted(s, rank, i, k), loose - {i};
    MovedTree(s, rank, loose, i, target, k);
    hide Linked, Below, Lifted, Without, HasChild;
    var c := s[target].children;
    assert s'[target].children == c + [i];
    var was, now := Kids(s, rank, loose, target), Kids(s', rank', kept, target);
    forall x | 0 <= x < |c|
      ensures now[x] == was[x]
    {
      ChildStays(s, rank, loose, i, target, k, target, x);
      SubtreesAt(s, rank, loose, target, |was|, x);
      SubtreesAt(s', rank', kept, target, |now|, x);
    }
    assert now == was + [Subtree(s, rank, loose, i)];
  }

  // An entry that is where it belongs is in the way of itself: it cannot be moved into its own directory.
  lemma {:induction false} AlreadyThere(s: seq<Node>, rank: seq<nat>, loose: set<nat>, i: nat)
    requires Linked(s, rank, loose) && 0 < i < |s| && i !in loose
    ensures s[i].parent.Some? && s[i].parent.value < |s| && HasChild(s, s[i].parent.value, s[i].name)
  {
    ParentOf(s, rank, loose, i);
    var p := s[i].parent.value;
    var k :| 0 <= k < |s[p].children| && s[p].children[k] == i;
    assert s[s[p].children[k]].name == s[i].name;
  }
}
