/** Ordered trees of named files and directories, their flat listings, and why a listing rebuilds its tree. */
module ZipTrees {
  import opened Prelude

  datatype Tree = Dir(name: string, kids: seq<Tree>) | File(name: string, data: nat)

  // One line of a listing: the names on the way to an entry, and what the entry is.
  datatype Record = Record(path: seq<string>, directory: bool, data: nat)

  predicate GoodName(s: string) {
    s != "" && '/' !in s
  }

  predicate Distinct(kids: seq<Tree>) {
    forall i, j :: 0 <= i < j < |kids| ==> kids[i].name != kids[j].name
  }

  // Names are usable in paths, and no two entries of a directory share one.
  predicate WellNamed(kids: seq<Tree>)
    decreases kids
  {
    Distinct(kids) && forall i :: 0 <= i < |kids| ==>
             GoodName(kids[i].name)
             && (kids[i].Dir? ==> WellNamed(kids[i].kids))
  }

  // ---- listings ----

  function Under(name: string, records: seq<Record>): (r: seq<Record>)
    ensures |r| == |records|
  {
    seq(|records|, i requires 0 <= i < |records| => records[i].(path := [name] + records[i].path))
  }

  // Every entry once, before what it contains, siblings in order.
  function Listing(kids: seq<Tree>): seq<Record>
    decreases kids
  {
    if kids == [] then [] else
      Entry(kids[0]) + Listing(kids[1..])
  }

  function Entry(t: Tree): seq<Record>
    decreases t
  {
    match t
    case File(name, data) => [Record([name], false, data)]
    case Dir(name, kids) => [Record([name], true, 0)] + Under(name, Listing(kids))
  }

  // ---- rebuilding ----

  // The index of the entry called name, or the number of entries.
  function IndexOf(kids: seq<Tree>, name: string): (i: nat)
    ensures i <= |kids| && (i < |kids| ==> kids[i].name == name)
    ensures forall j :: 0 <= j < i ==> kids[j].name != name
  {
    if kids == [] || kids[0].name == name then 0 else 1 + IndexOf(kids[1..], name)
  }

  // A directory for every name of the path, made where there is none, and in the last one the leaf.
  // A file cannot be entered, but a directory record may name it.
  function Insert(kids: seq<Tree>, path: seq<string>, leaf: Option<Tree>): Option<seq<Tree>>
    decreases |path|
  {
    if path == [] then
      match leaf
      case None => Some(kids)
      case Some(t) => if IndexOf(kids, t.name) < |kids| then None else Some(kids + [t])
    else
      var i := IndexOf(kids, path[0]);
      if i == |kids| then
        match Insert([], path[1..], leaf)
        case None => None
        case Some(inside) => Some(kids + [Dir(path[0], inside)])
      else if kids[i].File? then (if |path| == 1 && leaf.None? then Some(kids) else None)
      else
        match Insert(kids[i].kids, path[1..], leaf)
        case None => None
        case Some(inside) => Some(kids[i := Dir(path[0], inside)])
  }

  // The entry a path leads to.
  function Lookup(kids: seq<Tree>, path: seq<string>): Option<Tree>
    requires path != []
    decreases |path|
  {
    var i := IndexOf(kids, path[0]);
    if i == |kids| then None
    else if |path| == 1 then Some(kids[i])
    else if kids[i].Dir? then Lookup(kids[i].kids, path[1..])
    else None
  }

  // A file is in the way: before the end of the path, or at its end when a leaf is to go below.
  predicate FileOnTheWay(kids: seq<Tree>, path: seq<string>, leaf: Option<Tree>, n: nat) {
    && 1 <= n <= |path| && Lookup(kids, path[..n]).Some? && Lookup(kids, path[..n]).value.File?
    && (n < |path| || leaf.Some?)
  }

  // Exactly when Insert fails: for a file in the way, or an entry of the leaf's name.
  lemma {:induction false} InsertFails(kids: seq<Tree>, path: seq<string>, leaf: Option<Tree>)
    ensures Insert(kids, path, leaf) == None <==>
              || (exists n: nat :: FileOnTheWay(kids, path, leaf, n))
              || (leaf.Some? && Lookup(kids, path + [leaf.value.name]).Some?)
    decreases |path|
  {
    hide IndexOf;
    if path == [] {
      assert leaf.Some? ==> path + [leaf.value.name] == [leaf.value.name];
    } else {
      var i, rest := IndexOf(kids, path[0]), path[1..];
      forall n | 1 <= n <= |path|
        ensures path[..n][0] == path[0] && path[..n][1..] == rest[..n - 1]
      {
      }
      assert leaf.Some? ==> (path + [leaf.value.name])[1..] == rest + [leaf.value.name];
      if i == |kids| {
        InsertFails([], rest, leaf);
        NothingThere(rest, leaf);
      } else if kids[i].Dir? {
        InsertFails(kids[i].kids, rest, leaf);
        if exists n: nat :: FileOnTheWay(kids[i].kids, rest, leaf, n) {
          var n: nat :| FileOnTheWay(kids[i].kids, rest, leaf, n);
          assert FileOnTheWay(kids, path, leaf, n + 1);
        }
        if exists n: nat :: FileOnTheWay(kids, path, leaf, n) {
          var n: nat :| FileOnTheWay(kids, path, leaf, n);
          assert path[..1] == [path[0]];
          assert n > 1;
          assert FileOnTheWay(kids[i].kids, rest, leaf, n - 1);
        }
      } else if !(|path| == 1 && leaf.None?) {
        assert FileOnTheWay(kids, path, leaf, 1);
      }
    }
  }

  lemma {:induction false} NothingThere(path: seq<string>, leaf: Option<Tree>)
    ensures forall n: nat :: !FileOnTheWay([], path, leaf, n)
    ensures leaf.Some? ==> Lookup([], path + [leaf.value.name]) == None
  {
  }

  function InsertRecord(kids: seq<Tree>, r: Record): Option<seq<Tree>>
    requires r.path != []
  {
    if r.directory then Insert(kids, r.path, None)
    else Insert(kids, r.path[..|r.path| - 1], Some(File(r.path[|r.path| - 1], r.data)))
  }

  predicate Named(records: seq<Record>) {
    forall i :: 0 <= i < |records| ==> records[i].path != []
  }

  function Rebuild(kids: seq<Tree>, records: seq<Record>): Option<seq<Tree>>
    requires Named(records)
    decreases |records|
  {
    if records == [] then Some(kids) else
      match InsertRecord(kids, records[0])
      case None => None
      case Some(more) => Rebuild(more, records[1..])
  }

  lemma {:induction false} RebuildConcat(kids: seq<Tree>, a: seq<Record>, b: seq<Record>)
    requires Named(a) && Named(b) && Rebuild(kids, a).Some?
    ensures Named(a + b) && Rebuild(kids, a + b) == Rebuild(Rebuild(kids, a).value, b)
    decreases |a|
  {
    hide InsertRecord;
    if a == [] {
      assert a + b == b;
    } else {
      assert (a + b)[0] == a[0] && (a + b)[1..] == a[1..] + b;
      RebuildConcat(InsertRecord(kids, a[0]).value, a[1..], b);
    }
  }

  lemma {:induction false} IndexIs(kids: seq<Tree>, name: string, i: nat)
    requires i <= |kids| && (i < |kids| ==> kids[i].name == name) && forall j :: 0 <= j < i ==> kids[j].name != name
    ensures IndexOf(kids, name) == i
  {
    var k := IndexOf(kids, name);
  }

  lemma {:induction false} IndexAtEnd(kids: seq<Tree>, name: string, inside: seq<Tree>)
    requires forall i :: 0 <= i < |kids| ==> kids[i].name != name
    ensures IndexOf(kids + [Dir(name, inside)], name) == |kids| && IndexOf(kids, name) == |kids|
  {
    hide IndexOf;
    var all := kids + [Dir(name, inside)];
    forall j | 0 <= j < |kids|
      ensures all[j].name != name
    {
      assert all[j] == kids[j];
    }
    IndexIs(all, name, |kids|);
    IndexIs(kids, name, |kids|);
  }

  // Records under a name concern only the directory of that name.
  lemma {:induction false} InsertUnder(kids: seq<Tree>, name: string, inside: seq<Tree>, r: Record)
    requires r.path != [] && forall i :: 0 <= i < |kids| ==> kids[i].name != name
    ensures var under := r.(path := [name] + r.path);
            InsertRecord(kids + [Dir(name, inside)], under) ==
              match InsertRecord(inside, r)
              case None => None
              case Some(more) => Some(kids + [Dir(name, more)])
  {
    hide IndexOf;
    var all, under := kids + [Dir(name, inside)], [name] + r.path;
    IndexAtEnd(kids, name, inside);
    assert under[0] == name && under[1..] == r.path;
    if !r.directory {
      assert under[..|under| - 1][1..] == r.path[..|r.path| - 1];
    }
    forall more: seq<Tree>
      ensures all[|kids| := Dir(name, more)] == kids + [Dir(name, more)]
    {
    }
  }

  lemma {:induction false} RebuildUnder(kids: seq<Tree>, name: string, inside: seq<Tree>, records: seq<Record>)
    requires Named(records) && forall i :: 0 <= i < |kids| ==> kids[i].name != name
    ensures Named(Under(name, records))
    ensures Rebuild(kids + [Dir(name, inside)], Under(name, records)) ==
              match Rebuild(inside, records)
              case None => None
              case Some(more) => Some(kids + [Dir(name, more)])
    decreases |records|
  {
    hide InsertRecord;
    if records != [] {
      InsertUnder(kids, name, inside, records[0]);
      assert Under(name, records)[1..] == Under(name, records[1..]);
      if InsertRecord(inside, records[0]).Some? {
        RebuildUnder(kids, name, InsertRecord(inside, records[0]).value, records[1..]);
      }
    }
  }

  lemma {:induction false} ListingNamed(kids: seq<Tree>)
    ensures Named(Listing(kids))
    decreases kids, 0
  {
    if kids != [] {
      EntryNamed(kids[0]);
      ListingNamed(kids[1..]);
    }
  }

  lemma {:induction false} EntryNamed(t: Tree)
    ensures Named(Entry(t))
    decreases t, 1
  {
    if t.Dir? {
      ListingNamed(t.kids);
    }
  }

  // Rebuilding from the listing of more siblings appends exactly those siblings.
  lemma {:induction false} RebuildListing(kids: seq<Tree>, more: seq<Tree>)
    requires WellNamed(more) && forall i, j :: 0 <= i < |kids| && 0 <= j < |more| ==> kids[i].name != more[j].name
    ensures Named(Listing(more)) && Rebuild(kids, Listing(more)) == Some(kids + more)
    decreases more, 0
  {
    hide Rebuild, Entry;
    ListingNamed(more);
    if more == [] {
      RebuildNothing(kids);
      assert kids + [] == kids;
    } else {
      var t, rest := more[0], more[1..];
      EntryNamed(t);
      RebuildEntry(kids, t);
      ListingNamed(rest);
      assert WellNamed(rest) by { TailWellNamed(more); }
      RebuildListing(kids + [t], rest);
      RebuildConcat(kids, Entry(t), Listing(rest));
      assert kids + [t] + rest == kids + more;
    }
  }

  lemma {:induction false} TailWellNamed(kids: seq<Tree>)
    requires WellNamed(kids) && kids != []
    ensures WellNamed(kids[1..])
  {
  }

  lemma {:induction false} RebuildNothing(kids: seq<Tree>)
    ensures Rebuild(kids, []) == Some(kids)
  {
  }

  lemma {:induction false} RebuildEntry(kids: seq<Tree>, t: Tree)
    requires GoodName(t.name) && (t.Dir? ==> WellNamed(t.kids)) && forall i :: 0 <= i < |kids| ==>
             kids[i].name != t.name
    ensures Named(Entry(t)) && Rebuild(kids, Entry(t)) == Some(kids + [t])
    decreases t, 1
  {
    EntryNamed(t);
    match t {
      case File(name, data) => RebuildFile(kids, name, data);
      case Dir(name, inside) =>
        RebuildDirectory(kids, name);
        RebuildListing([], inside);
        assert [] + inside == inside;
        ListingNamed(inside);
        RebuildUnder(kids, name, [], Listing(inside));
        RebuildConcat(kids, [Record([name], true, 0)], Under(name, Listing(inside)));
    }
  }

  lemma {:induction false} RebuildFile(kids: seq<Tree>, name: string, data: nat)
    requires forall i :: 0 <= i < |kids| ==> kids[i].name != name
    ensures Rebuild(kids, [Record([name], false, data)]) == Some(kids + [File(name, data)])
  {
    IndexAtEnd(kids, name, []);
    var r := Record([name], false, data);
    assert r.path[..0] == [] && [r][1..] == [];
  }

  lemma {:induction false} RebuildDirectory(kids: seq<Tree>, name: string)
    requires forall i :: 0 <= i < |kids| ==> kids[i].name != name
    ensures Rebuild(kids, [Record([name], true, 0)]) == Some(kids + [Dir(name, [])])
  {
    IndexAtEnd(kids, name, []);
    var r := Record([name], true, 0);
    assert Insert([], [], None) == Some([]);
    assert r.path[1..] == [] && Insert([], r.path[1..], None) == Some([]);
    assert InsertRecord(kids, r) == Some(kids + [Dir(name, [])]);
    assert [r][1..] == [];
  }

  // The round trip: a listing, imported into an empty directory, rebuilds the tree it was made from.
  lemma {:induction false} RoundTrip(kids: seq<Tree>)
    requires WellNamed(kids)
    ensures Named(Listing(kids)) && Rebuild([], Listing(kids)) == Some(kids)
  {
    RebuildListing([], kids);
    assert [] + kids == kids;
  }

  // ---- paths as strings ----

  function Join(path: seq<string>): string {
    if path == [] then "" else if |path| == 1 then path[0] else path[0] + "/" + Join(path[1..])
  }

  // s.split("/")
  function Split(s: string): (r: seq<string>)
    ensures r != []
  {
    if s == "" then [""]
    else if s[0] == '/' then [""] + Split(s[1..])
    else var rest := Split(s[1..]); [[s[0]] + rest[0]] + rest[1..]
  }

  lemma {:induction false} SplitName(name: string)
    requires '/' !in name
    ensures Split(name) == [name]
  {
    if name != "" {
      SplitName(name[1..]);
      assert [name[0]] + name[1..] == name;
    }
  }

  lemma {:induction false} SplitFirst(name: string, rest: string)
    requires '/' !in name
    ensures Split(name + "/" + rest) == [name] + Split(rest)
  {
    if name == "" {
      assert (name + "/" + rest)[1..] == rest;
    } else {
      SplitFirst(name[1..], rest);
      assert (name + "/" + rest)[1..] == name[1..] + "/" + rest;
      assert [name[0]] + name[1..] == name;
      assert ([name[1..]] + Split(rest))[1..] == Split(rest);
    }
  }

  lemma {:induction false} SplitJoin(path: seq<string>)
    requires path != [] && forall i :: 0 <= i < |path| ==> '/' !in path[i]
    ensures Split(Join(path)) == path
  {
    if |path| == 1 {
      SplitName(path[0]);
    } else {
      SplitJoin(path[1..]);
      SplitFirst(path[0], Join(path[1..]));
    }
  }

  // A directory's name in a listing ends in a slash.
  lemma {:induction false} SplitDirectory(path: seq<string>)
    requires path != [] && forall i :: 0 <= i < |path| ==> '/' !in path[i]
    ensures Split(Join(path) + "/") == path + [""]
  {
    if |path| == 1 {
      SplitFirst(path[0], "");
      assert path[0] + "/" + "" == path[0] + "/";
    } else {
      SplitDirectory(path[1..]);
      SplitFirst(path[0], Join(path[1..]) + "/");
      assert Join(path) + "/" == path[0] + "/" + (Join(path[1..]) + "/");
      assert path + [""] == [path[0]] + (path[1..] + [""]);
    }
  }
}
