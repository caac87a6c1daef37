/** Full names and the walk that finds an entry again. */
module ZipPaths {
  import opened Prelude
  import opened ZipTrees
  import opened ZipNodes

  // The names on the way down to an entry.
  ghost function PathOf(s: seq<Node>, rank: seq<nat>, loose: set<nat>, i: nat): seq<string>
    requires Linked(s, rank, loose) && i < |s|
    decreases if i < |rank| then rank[i] else 0
  {
    ParentOf(s, rank, loose, i);
    if i == 0 then [] else PathOf(s, rank, loose, s[i].parent.value) + [s[i].name]
  }

  // What getFullname puts before the name of a child of i.
  ghost function Prefix(s: seq<Node>, rank: seq<nat>, loose: set<nat>, i: nat): string
    requires Linked(s, rank, loose) && i < |s|
    decreases if i < |rank| then rank[i] else 0
  {
    ParentOf(s, rank, loose, i);
    if i == 0 then "" else
      Prefix(s, rank, loose, s[i].parent.value) + (if s[i].name != "" then s[i].name + "/" else "")
  }

  ghost function FullName(s: seq<Node>, rank: seq<nat>, loose: set<nat>, i: nat): string
    requires Linked(s, rank, loose) && i < |s|
  {
    ParentOf(s, rank, loose, i);
    if i == 0 then "" else Prefix(s, rank, loose, s[i].parent.value) + s[i].name
  }

  lemma {:induction false} JoinSnoc(path: seq<string>, name: string)
    ensures Join(path + [name]) == if path == [] then name else Join(path) + "/" + name
  {
    if path == [] {
      assert path + [name] == [name];
    } else {
      assert (path + [name])[1..] == path[1..] + [name];
      JoinSnoc(path[1..], name);
      if |path| > 1 {
        Associate(path[0] + "/", Join(path[1..]), "/" + name);
        assert Join(path[1..]) + "/" + name == Join(path[1..]) + ("/" + name);
        assert Join(path) + "/" + name == Join(path) + ("/" + name);
      } else {
        assert Join(path[1..] + [name]) == name;
      }
    }
  }

  lemma {:induction false} Associate(a: string, b: string, c: string)
    ensures a + b + c == a + (b + c)
  {
  }

  // With usable names a full name is the path joined by slashes.
  lemma {:induction false} FullNameJoins(s: seq<Node>, rank: seq<nat>, loose: set<nat>, i: nat)
    requires Linked(s, rank, loose) && 0 < i < |s|
    requires forall k :: 0 <= k < |PathOf(s, rank, loose, i)| ==> GoodName(PathOf(s, rank, loose, i)[k])
    ensures FullName(s, rank, loose, i) == Join(PathOf(s, rank, loose, i)) && PathOf(s, rank, loose, i) != []
  {
    hide Linked;
    ParentOf(s, rank, loose, i);
    var p := s[i].parent.value;
    var front := PathOf(s, rank, loose, p);
    assert PathOf(s, rank, loose, i) == front + [s[i].name];
    forall k | 0 <= k < |front|
      ensures GoodName(front[k])
    {
      assert PathOf(s, rank, loose, i)[k] == front[k];
    }
    PrefixJoins(s, rank, loose, p);
    JoinSnoc(front, s[i].name);
  }

  lemma {:induction false} PrefixJoins(s: seq<Node>, rank: seq<nat>, loose: set<nat>, i: nat)
    requires Linked(s, rank, loose) && i < |s|
    requires forall k :: 0 <= k < |PathOf(s, rank, loose, i)| ==> GoodName(PathOf(s, rank, loose, i)[k])
    ensures var path := PathOf(s, rank, loose, i); Prefix(s, rank, loose, i) == if path == [] then ""
            else Join(path) + "/"
    decreases if i < |rank| then rank[i] else 0
  {
    hide Linked;
    ParentOf(s, rank, loose, i);
    if i > 0 {
      var p := s[i].parent.value;
      var path, front := PathOf(s, rank, loose, i), PathOf(s, rank, loose, p);
      assert path == front + [s[i].name];
      forall k | 0 <= k < |front|
        ensures GoodName(front[k])
      {
        assert path[k] == front[k];
      }
      assert path[|front|] == s[i].name && GoodName(s[i].name);
      PrefixJoins(s, rank, loose, p);
      JoinSnoc(front, s[i].name);
      if front != [] {
        Associate(Join(front) + "/", s[i].name, "/");
      }
    }
  }

  // ---- finding ----

  datatype Found = Missing | NotDirectory | At(id: nat)

  function FirstNamed(s: seq<Node>, children: seq<nat>, name: string): Option<nat> {
    if children == [] then None
    else if children[0] < |s| && s[children[0]].name == name then Some(children[0])
    else FirstNamed(s, children[1..], name)
  }

  // getChildByName, name after name. Only directories have it.
  function Walk(s: seq<Node>, i: nat, path: seq<string>): Found
    decreases |path|
  {
    if path == [] then At(i)
    else if i >= |s| || !s[i].directory then NotDirectory
    else match FirstNamed(s, s[i].children, path[0])
      case None => Missing
      case Some(c) => Walk(s, c, path[1..])
  }

  lemma {:induction false} WalkNext(s: seq<Node>, i: nat, path: seq<string>, index: nat)
    requires index < |path|
    ensures Walk(s, i, path[index..]) ==
              if i >= |s| || !s[i].directory then NotDirectory
              else match FirstNamed(s, s[i].children, path[index])
                case None => Missing
                case Some(c) => Walk(s, c, path[index + 1..])
  {
    hide FirstNamed;
    assert path[index..][0] == path[index] && path[index..][1..] == path[index + 1..];
  }

  lemma {:induction false} WalkDone(s: seq<Node>, i: nat)
    ensures Walk(s, i, []) == At(i)
  {
  }

  lemma {:induction false} FirstNone(s: seq<Node>, name: string)
    ensures FirstNamed(s, [], name) == None
  {
  }

  lemma {:induction false} WalkSnoc(s: seq<Node>, i: nat, path: seq<string>, name: string)
    requires Walk(s, i, path).At?
    ensures Walk(s, i, path + [name]) == Walk(s, Walk(s, i, path).id, [name])
    decreases |path|
  {
    if path == [] {
      assert path + [name] == [name];
    } else {
      assert (path + [name])[0] == path[0] && (path + [name])[1..] == path[1..] + [name];
      WalkSnoc(s, FirstNamed(s, s[i].children, path[0]).value, path[1..], name);
    }
  }

  // Where a walk stops: at a file with names to go, or in a directory without the next name.
  lemma {:induction false} WalkStops(s: seq<Node>, i: nat, path: seq<string>)
    ensures Walk(s, i, path) == NotDirectory <==> exists n: nat :: StopsAtFile(s, i, path, n)
    ensures Walk(s, i, path) == Missing <==> exists n: nat :: StopsWithout(s, i, path, n)
    decreases |path|
  {
    if path == [] {
    } else if i >= |s| || !s[i].directory {
      assert StopsAtFile(s, i, path, 0) && forall n: nat :: 0 < n <= |path| ==> path[..n][0] == path[0];
    } else {
      NameFound(s, i, path[0]);
      var first := FirstNamed(s, s[i].children, path[0]);
      forall n | 1 <= n <= |path|
        ensures Walk(s, i, path[..n]) == if first.None? then Missing else Walk(s, first.value, path[1..][..n - 1])
      {
        assert path[..n][0] == path[0] && path[..n][1..] == path[1..][..n - 1];
      }
      if first.None? {
        assert StopsWithout(s, i, path, 0);
      } else {
        var c, rest := first.value, path[1..];
        WalkStops(s, c, rest);
        StopLater(s, i, path, c);
      }
    }
  }

  predicate StopsAtFile(s: seq<Node>, i: nat, path: seq<string>, n: nat) {
    && n < |path| && Walk(s, i, path[..n]).At?
    && (Walk(s, i, path[..n]).id >= |s| || !s[Walk(s, i, path[..n]).id].directory)
  }

  ghost predicate StopsWithout(s: seq<Node>, i: nat, path: seq<string>, n: nat) {
    && n < |path| && Walk(s, i, path[..n]).At? && Walk(s, i, path[..n]).id < |s|
    && s[Walk(s, i, path[..n]).id].directory && !HasChild(s, Walk(s, i, path[..n]).id, path[n])
  }

  lemma {:induction false} StopLater(s: seq<Node>, i: nat, path: seq<string>, c: nat)
    requires path != [] && i < |s| && s[i].directory && FirstNamed(s, s[i].children, path[0]) == Some(c)
    requires forall n :: 1 <= n <= |path| ==> Walk(s, i, path[..n]) == Walk(s, c, path[1..][..n - 1])
    ensures (exists n: nat :: StopsAtFile(s, i, path, n)) <==> exists n: nat :: StopsAtFile(s, c, path[1..], n)
    ensures (exists n: nat :: StopsWithout(s, i, path, n)) <==> exists n: nat :: StopsWithout(s, c, path[1..], n)
  {
    NameFound(s, i, path[0]);
    hide HasChild;
    assert Walk(s, i, path[..0]) == At(i);
    forall n: nat
      ensures n > 0 ==> (StopsAtFile(s, i, path, n) <==> StopsAtFile(s, c, path[1..], n - 1))
      ensures n > 0 ==> (StopsWithout(s, i, path, n) <==> StopsWithout(s, c, path[1..], n - 1))
      ensures n == 0 ==> !StopsAtFile(s, i, path, n) && !StopsWithout(s, i, path, n)
    {
    }
    if exists n: nat :: StopsAtFile(s, c, path[1..], n) {
      var n: nat :| StopsAtFile(s, c, path[1..], n);
      assert StopsAtFile(s, i, path, n + 1);
    }
    if exists n: nat :: StopsWithout(s, c, path[1..], n) {
      var n: nat :| StopsWithout(s, c, path[1..], n);
      assert StopsWithout(s, i, path, n + 1);
    }
  }

  lemma {:induction false} FirstIs(s: seq<Node>, children: seq<nat>, c: nat)
    requires c in children && c < |s|
    requires forall j, k :: 0 <= j < k < |children| ==> Apart(s, children[j], children[k])
    ensures FirstNamed(s, children, s[c].name) == Some(c)
  {
    if children[0] != c {
      var k :| 0 <= k < |children| && children[k] == c;
      assert Apart(s, children[0], children[k]);
      assert forall a, b :: 0 <= a < b < |children[1..]| ==> Apart(s, children[1..][a], children[1..][b]);
      FirstIs(s, children[1..], c);
    }
  }

  lemma {:induction false} FirstFound(s: seq<Node>, children: seq<nat>, name: string)
    requires FirstNamed(s, children, name).Some?
    ensures var c := FirstNamed(s, children, name).value; c in children && c < |s| && s[c].name == name
  {
    if !(children[0] < |s| && s[children[0]].name == name) {
      FirstFound(s, children[1..], name);
    }
  }

  lemma {:induction false} FirstMissing(s: seq<Node>, children: seq<nat>, name: string)
    requires FirstNamed(s, children, name).None?
    ensures forall k :: 0 <= k < |children| && children[k] < |s| ==> s[children[k]].name != name
  {
    if children != [] {
      FirstMissing(s, children[1..], name);
      forall k | 0 <= k < |children| && children[k] < |s|
        ensures s[children[k]].name != name
      {
        if k > 0 {
          assert children[k] == children[1..][k - 1];
        }
      }
    }
  }

  // Reachable from the root by parent links that the parents return.
  ghost predicate Attached(s: seq<Node>, rank: seq<nat>, loose: set<nat>, i: nat)
    requires Linked(s, rank, loose) && i < |s|
    decreases if i < |rank| then rank[i] else 0
  {
    ParentOf(s, rank, loose, i);
    i == 0 || (i !in loose && Attached(s, rank, loose, s[i].parent.value))
  }

  // Walking down the path of an attached entry arrives at it.
  lemma {:induction false} WalkPath(s: seq<Node>, rank: seq<nat>, loose: set<nat>, i: nat)
    requires Linked(s, rank, loose) && i < |s| && Attached(s, rank, loose, i)
    ensures Walk(s, 0, PathOf(s, rank, loose, i)) == At(i)
    decreases if i < |rank| then rank[i] else 0
  {
    hide Linked;
    ParentOf(s, rank, loose, i);
    if i > 0 {
      var p := s[i].parent.value;
      WalkPath(s, rank, loose, p);
      WalkSnoc(s, 0, PathOf(s, rank, loose, p), s[i].name);
      SiblingsApart(s, rank, loose, p);
      FirstIs(s, s[p].children, i);
      assert [s[i].name][1..] == [];
    }
  }

  lemma {:induction false} SiblingsApart(s: seq<Node>, rank: seq<nat>, loose: set<nat>, p: nat)
    requires Linked(s, rank, loose) && p < |s|
    ensures forall j, k :: 0 <= j < k < |s[p].children| ==> Apart(s, s[p].children[j], s[p].children[k])
  {
    assert LinkedDown(s, loose, p);
  }

  // Nothing else is found there: the walk from the root finds attached entries only, each by its own path.
  lemma {:induction false} WalkFinds(s: seq<Node>, rank: seq<nat>, loose: set<nat>, i: nat, path: seq<string>, j: nat)
    requires Linked(s, rank, loose) && i < |s| && Attached(s, rank, loose, i) && Walk(s, i, path) == At(j)
    ensures j < |s| && Attached(s, rank, loose, j) && PathOf(s, rank, loose, j) == PathOf(s, rank, loose, i) + path
    decreases |path|
  {
    hide Linked;
    if path == [] {
      assert PathOf(s, rank, loose, i) + [] == PathOf(s, rank, loose, i);
    } else {
      FirstFound(s, s[i].children, path[0]);
      var c := FirstNamed(s, s[i].children, path[0]).value;
      ChildParent(s, rank, loose, i, c);
      ParentOf(s, rank, loose, c);
      WalkFinds(s, rank, loose, c, path[1..], j);
      assert PathOf(s, rank, loose, c) == PathOf(s, rank, loose, i) + [path[0]];
      assert PathOf(s, rank, loose, i) + [path[0]] + path[1..] == PathOf(s, rank, loose, i) + path;
    }
  }

  // find(getFullname(e)) = e for every attached entry below the root whose path has usable names only.
  lemma {:induction false} FindFullName(s: seq<Node>, rank: seq<nat>, loose: set<nat>, i: nat)
    requires Linked(s, rank, loose) && 0 < i < |s| && Attached(s, rank, loose, i)
    requires forall k :: 0 <= k < |PathOf(s, rank, loose, i)| ==> GoodName(PathOf(s, rank, loose, i)[k])
    ensures Walk(s, 0, Split(FullName(s, rank, loose, i))) == At(i)
  {
    FullNameJoins(s, rank, loose, i);
    SplitJoin(PathOf(s, rank, loose, i));
    WalkPath(s, rank, loose, i);
  }

  lemma {:induction false} NameFound(s: seq<Node>, p: nat, name: string)
    requires p < |s|
    ensures FirstNamed(s, s[p].children, name).Some? <==> HasChild(s, p, name)
  {
    if FirstNamed(s, s[p].children, name).Some? {
      FirstFound(s, s[p].children, name);
      var k :| 0 <= k < |s[p].children| && s[p].children[k] == FirstNamed(s, s[p].children, name).value;
      assert s[s[p].children[k]].name == name;
    } else {
      FirstMissing(s, s[p].children, name);
    }
  }

  lemma {:induction false} RootName(s: seq<Node>, rank: seq<nat>, loose: set<nat>)
    requires Linked(s, rank, loose)
    ensures |s| == |rank| >= 1 && s[0].name == "" && s[0].directory
  {
  }
}
