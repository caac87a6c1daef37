/** What exportZip hands to the writer, line by line, and the round trip through importZip. */
module ZipListings {
  import opened Prelude
  import opened ZipTrees
  import opened ZipNodes
  import opened ZipPaths
  import opened ZipSubtrees

  // An entry of an archive: directories end in a slash.
  datatype Line = Line(filename: string, directory: bool, data: nat)

  function LineOf(fullname: string, directory: bool, data: nat): Line {
    Line(if directory then fullname + "/" else fullname, directory, if directory then 0 else data)
  }

  // The lines for the first n children of an entry and everything below them.
  ghost function Lines(s: seq<Node>, rank: seq<nat>, loose: set<nat>, i: nat, n: nat): seq<Line>
    requires Linked(s, rank, loose) && i < |s| && n <= |s[i].children|
    decreases Top(rank) - Rank(rank, i), n
  {
    if n == 0 then [] else
      ChildRanks(s, rank, loose, i, n - 1);
      var c := s[i].children[n - 1];
      Lines(s, rank, loose, i, n - 1)
      + ([LineOf(FullName(s, rank, loose, c), s[c].directory, s[c].data)] + Lines(s, rank, loose, c, |s[c].children|))
  }

  // The listing of a tree as lines, the tree hanging from path.
  function Spelled(path: seq<string>, records: seq<Record>): (l: seq<Line>)
    ensures |l| == |records|
  {
    seq(|records|, k requires 0 <= k < |records| => LineOf(Join(path + records[k].path), records[k].directory,
        records[k].data))
  }

  lemma {:induction false} ListingSnoc(kids: seq<Tree>, t: Tree)
    ensures Listing(kids + [t]) == Listing(kids) + Entry(t)
    decreases |kids|
  {
    hide Entry;
    if kids == [] {
      assert kids + [t] == [t] && [t][1..] == [];
    } else {
      assert (kids + [t])[0] == kids[0] && (kids + [t])[1..] == kids[1..] + [t];
      ListingSnoc(kids[1..], t);
    }
  }

  lemma {:induction false} SpelledConcat(path: seq<string>, a: seq<Record>, b: seq<Record>)
    ensures Spelled(path, a + b) == Spelled(path, a) + Spelled(path, b)
  {
  }

  lemma {:induction false} SpelledUnder(path: seq<string>, name: string, records: seq<Record>)
    ensures Spelled(path, Under(name, records)) == Spelled(path + [name], records)
  {
    forall k | 0 <= k < |records|
      ensures path + Under(name, records)[k].path == path + [name] + records[k].path
    {
    }
  }

  // Usable names everywhere below an entry and on the way to it.
  ghost predicate Nameable(s: seq<Node>, rank: seq<nat>, loose: set<nat>, i: nat)
    requires Linked(s, rank, loose) && i < |s|
  {
    && (forall k :: 0 <= k < |PathOf(s, rank, loose, i)| ==> GoodName(PathOf(s, rank, loose, i)[k]))
    && (s[i].directory ==> WellNamed(Kids(s, rank, loose, i)))
  }

  lemma {:induction false} ChildNameable(s: seq<Node>, rank: seq<nat>, loose: set<nat>, i: nat, n: nat)
    requires Linked(s, rank, loose) && i < |s| && n < |s[i].children| && Nameable(s, rank, loose, i) && s[i].directory
    ensures var c := s[i].children[n];
            && 0 < c < |s| && Nameable(s, rank, loose, c)
            && PathOf(s, rank, loose, c) == PathOf(s, rank, loose, i) + [s[c].name]
            && FullName(s, rank, loose, c) == Join(PathOf(s, rank, loose, c))
            && (!s[c].directory ==> s[c].children == [])
  {
    hide Linked;
    ChildRanks(s, rank, loose, i, n);
    SubtreesAt(s, rank, loose, i, |s[i].children|, n);
    var c := s[i].children[n];
    var path, more := PathOf(s, rank, loose, i), PathOf(s, rank, loose, c);
    assert GoodName(Kids(s, rank, loose, i)[n].name);
    forall k | 0 <= k < |more|
      ensures GoodName(more[k])
    {
      if k < |path| {
        assert more[k] == path[k];
      }
    }
    FullNameJoins(s, rank, loose, c);
    if !s[c].directory && s[c].children != [] {
      ChildRanks(s, rank, loose, c, 0);
      ParentOf(s, rank, loose, s[c].children[0]);
    }
  }

  // exportZip lists every entry below i once, in order, parents first.
  lemma {:induction false} LinesAreListing(s: seq<Node>, rank: seq<nat>, loose: set<nat>, i: nat, n: nat)
    requires Linked(s, rank, loose) && i < |s| && n <= |s[i].children| && Nameable(s, rank, loose, i) && s[i].directory
    ensures Lines(s, rank, loose, i, n) == Spelled(PathOf(s, rank, loose, i), Listing(Subtrees(s, rank, loose, i, n)))
    decreases Top(rank) - Rank(rank, i), n
  {
    hide Linked, Nameable, LineOf;
    if n > 0 {
      var c, path := s[i].children[n - 1], PathOf(s, rank, loose, i);
      ChildRanks(s, rank, loose, i, n - 1);
      ChildNameable(s, rank, loose, i, n - 1);
      LinesAreListing(s, rank, loose, i, n - 1);
      var before, t := Subtrees(s, rank, loose, i, n - 1), Subtree(s, rank, loose, c);
      ListingSnoc(before, t);
      SpelledConcat(path, Listing(before), Entry(t));
      LinesOfEntry(s, rank, loose, i, c);
    }
  }

  lemma {:induction false} LinesOfEntry(s: seq<Node>, rank: seq<nat>, loose: set<nat>, i: nat, c: nat)
    requires Linked(s, rank, loose) && i < |s| && c < |s| && Nameable(s, rank, loose, c)
             && Rank(rank, i) < Rank(rank, c)
    requires PathOf(s, rank, loose, c) == PathOf(s, rank, loose, i) + [s[c].name]
    requires FullName(s, rank, loose, c) == Join(PathOf(s, rank, loose, c))
    requires !s[c].directory ==> s[c].children == []
    ensures [LineOf(FullName(s, rank, loose, c), s[c].directory, s[c].data)] + Lines(s, rank, loose, c, |s[c].children|)
         == Spelled(PathOf(s, rank, loose, i), Entry(Subtree(s, rank, loose, c)))
    decreases Top(rank) - Rank(rank, c), |s[c].children| + 1
  {
    hide Linked, Nameable;
    var path, name := PathOf(s, rank, loose, i), s[c].name;
    var first := Record([name], s[c].directory, if s[c].directory then 0 else s[c].data);
    SpelledOne(path, first);
    if s[c].directory {
      LinesAreListing(s, rank, loose, c, |s[c].children|);
      var below := Listing(Kids(s, rank, loose, c));
      SpelledUnder(path, name, below);
      SpelledConcat(path, [first], Under(name, below));
    }
  }

  lemma {:induction false} SpelledOne(path: seq<string>, r: Record)
    ensures Spelled(path, [r]) == [LineOf(Join(path + r.path), r.directory, r.data)]
  {
  }

  // ---- importing lines ----

  function ImportLine(s: seq<Node>, d: nat, line: Line): Option<seq<Node>>
    requires d < |s|
  {
    var path := Split(line.filename);
    ImportAt(s, d, path[..|path| - 1], if line.directory then None else Some((path[|path| - 1], line.data)))
  }

  function ImportLines(s: seq<Node>, d: nat, lines: seq<Line>): Option<seq<Node>>
    decreases |lines|
  {
    if lines == [] then Some(s)
    else if d >= |s| then None
    else match ImportLine(s, d, lines[0])
      case None => None
      case Some(t) => ImportLines(t, d, lines[1..])
  }

  lemma ImportLinesNone(s: seq<Node>, d: nat)
    ensures ImportLines(s, d, []) == Some(s)
  {
  }

  lemma ImportLinesNext(s: seq<Node>, d: nat, lines: seq<Line>, i: nat)
    requires i < |lines| && d < |s|
    ensures ImportLines(s, d, lines[i..]) ==
              if ImportLine(s, d, lines[i]).None? then None
              else ImportLines(ImportLine(s, d, lines[i]).value, d, lines[i + 1..])
  {
    hide ImportLine;
    assert lines[i..][1..] == lines[i + 1..] && lines[i..][0] == lines[i];
  }

  // One more line.
  lemma {:induction false} ImportLinesSnoc(s: seq<Node>, d: nat, lines: seq<Line>, line: Line)
    requires ImportLines(s, d, lines).Some?
    ensures d < |ImportLines(s, d, lines).value| ==>
              ImportLines(s, d, lines + [line]) == ImportLine(ImportLines(s, d, lines).value, d, line)
    decreases |lines|
  {
    hide ImportLine;
    if lines == [] {
      assert [] + [line] == [line] && [line][1..] == [];
    } else {
      assert (lines + [line])[0] == lines[0] && (lines + [line])[1..] == lines[1..] + [line];
      ImportLinesSnoc(ImportLine(s, d, lines[0]).value, d, lines[1..], line);
    }
  }

  predicate GoodRecord(r: Record) {
    r.path != [] && forall k :: 0 <= k < |r.path| ==> GoodName(r.path[k])
  }

  lemma {:induction false} ListingGood(kids: seq<Tree>)
    requires WellNamed(kids)
    ensures forall k :: 0 <= k < |Listing(kids)| ==> GoodRecord(Listing(kids)[k])
    decreases kids, 0
  {
    if kids != [] {
      TailWellNamed(kids);
      EntryGood(kids[0]);
      ListingGood(kids[1..]);
    }
  }

  lemma {:induction false} EntryGood(t: Tree)
    requires GoodName(t.name) && (t.Dir? ==> WellNamed(t.kids))
    ensures forall k :: 0 <= k < |Entry(t)| ==> GoodRecord(Entry(t)[k])
    decreases t, 1
  {
    if t.Dir? {
      ListingGood(t.kids);
      var below := Listing(t.kids);
      forall k | 0 <= k < |below|
        ensures GoodRecord(Under(t.name, below)[k])
      {
        assert GoodRecord(below[k]);
      }
    }
  }

  // A line spelled from a record is read as that record.
  lemma {:induction false} LineReads(r: Record)
    requires GoodRecord(r)
    ensures var path := Split(LineOf(Join(r.path), r.directory, r.data).filename);
            if r.directory then path[..|path| - 1] == r.path else path == r.path
  {
    if r.directory {
      SplitDirectory(r.path);
      assert (r.path + [""])[..|r.path|] == r.path;
    } else {
      SplitJoin(r.path);
    }
  }

  // Importing the lines of a listing into a directory does to its tree what rebuilding does.
  lemma {:induction false} ImportRebuilds(s: seq<Node>, rank: seq<nat>, loose: set<nat>, d: nat, records: seq<Record>)
      returns (rank': seq<nat>)
    requires Linked(s, rank, loose) && d < |s| && s[d].directory && forall i :: i in loose ==> i < |s|
    requires (forall k :: 0 <= k < |records| ==> GoodRecord(records[k])) && Named(records)
    requires Rebuild(Kids(s, rank, loose, d), records).Some?
    ensures ImportLines(s, d, Spelled([], records)).Some?
    ensures var s' := ImportLines(s, d, Spelled([], records)).value;
            && Linked(s', rank', loose) && d < |s'| && s'[d].directory
            && Kids(s', rank', loose, d) == Rebuild(Kids(s, rank, loose, d), records).value
    decreases |records|
  {
    hide Linked, Kids, Below, Spelled, ImportLine, InsertRecord, GoodRecord;
    rank' := rank;
    if records != [] {
      SpelledFirst(records);
      rank' := ImportOne(s, rank, loose, d, records[0]);
      var t := ImportLine(s, d, Spelled([], records)[0]).value;
      rank' := ImportRebuilds(t, rank', loose, d, records[1..]);
    }
  }

  lemma SpelledFirst(records: seq<Record>)
    requires records != []
    ensures var r := records[0]; Spelled([], records)[0] == LineOf(Join(r.path), r.directory, r.data)
    ensures Spelled([], records)[1..] == Spelled([], records[1..])
  {
    hide LineOf, Join;
    assert [] + records[0].path == records[0].path;
  }

  lemma {:induction false} ImportOne(s: seq<Node>, rank: seq<nat>, loose: set<nat>, d: nat, r: Record)
    returns (rank': seq<nat>)
    requires Linked(s, rank, loose) && d < |s| && s[d].directory && (forall i :: i in loose ==> i < |s|)
             && GoodRecord(r)
    requires InsertRecord(Kids(s, rank, loose, d), r).Some?
    ensures var line := LineOf(Join(r.path), r.directory, r.data);
            && ImportLine(s, d, line).Some?
            && var t := ImportLine(s, d, line).value;
               && Linked(t, rank', loose) && |s| <= |t| && t[d].directory
               && Kids(t, rank', loose, d) == InsertRecord(Kids(s, rank, loose, d), r).value
  {
    hide Linked, Kids, Below, Insert, Within;
    LineReads(r);
    var line := LineOf(Join(r.path), r.directory, r.data);
    var path := Split(line.filename);
    rank' := ImportInserts(s, rank, loose, d, path[..|path| - 1], if line.directory then None
      else Some((path[|path| - 1], line.data)));
  }

  // The round trip: the listing of a file system, imported into an empty one, rebuilds the same ordered tree.
  lemma {:induction false} ExportImport(s: seq<Node>, rank: seq<nat>, loose: set<nat>) returns (rank': seq<nat>)
    requires Linked(s, rank, loose) && |s| > 0 && WellNamed(Kids(s, rank, loose, 0))
    ensures var empty := [Node("", None, [], true, 0)];
            var lines := Lines(s, rank, loose, 0, |s[0].children|);
            && ImportLines(empty, 0, lines).Some?
            && var s' := ImportLines(empty, 0, lines).value;
               && Linked(s', rank', {}) && |s'| > 0
               && Kids(s', rank', {}, 0) == Kids(s, rank, loose, 0)
  {
    var empty := [Node("", None, [], true, 0)];
    var kids := Kids(s, rank, loose, 0);
    RootName(s, rank, loose);
    assert LinkedDown(empty, {}, 0);
    assert Linked(empty, [0], {}) && Kids(empty, [0], {}, 0) == [];
    hide Linked, Kids, Spelled, Rebuild, WellNamed;
    RootNameable(s, rank, loose);
    LinesAreListing(s, rank, loose, 0, |s[0].children|);
    KidsAre(s, rank, loose, 0);
    ListingGood(kids);
    RoundTrip(kids);
    rank' := ImportRebuilds(empty, [0], {}, 0, Listing(kids));
  }

  lemma {:induction false} KidsAre(s: seq<Node>, rank: seq<nat>, loose: set<nat>, i: nat)
    requires Linked(s, rank, loose) && i < |s|
    ensures Kids(s, rank, loose, i) == Subtrees(s, rank, loose, i, |s[i].children|)
  {
  }

  lemma {:induction false} RootNameable(s: seq<Node>, rank: seq<nat>, loose: set<nat>)
    requires Linked(s, rank, loose) && |s| > 0 && WellNamed(Kids(s, rank, loose, 0))
    ensures Nameable(s, rank, loose, 0) && PathOf(s, rank, loose, 0) == []
  {
  }

  lemma {:induction false} LinesNone(s: seq<Node>, rank: seq<nat>, loose: set<nat>, i: nat)
    requires Linked(s, rank, loose) && i < |s|
    ensures Lines(s, rank, loose, i, 0) == []
  {
  }

  lemma {:induction false} LinesNext(s: seq<Node>, rank: seq<nat>, loose: set<nat>, i: nat, n: nat)
    requires Linked(s, rank, loose) && i < |s| && n < |s[i].children|
    ensures var c := s[i].children[n];
            && c < |s|
            && Lines(s, rank, loose, i, n + 1) == Lines(s, rank, loose, i, n)
                 + ([LineOf(FullName(s, rank, loose, c), s[c].directory, s[c].data)]
                   + Lines(s, rank, loose, c, |s[c].children|))
  {
    ChildRanks(s, rank, loose, i, n);
  }

  lemma {:induction false} LinesGrouped(a: seq<Line>, b: seq<Line>, c: seq<Line>)
    ensures a + b + c == a + (b + c)
  {
  }

  // The tree does not depend on the ranks.
  lemma {:induction false} KidsSame(s: seq<Node>, rank: seq<nat>, rank': seq<nat>, loose: set<nat>)
    requires Linked(s, rank, loose) && Linked(s, rank', loose) && |s| > 0
    ensures Kids(s, rank, loose, 0) == Kids(s, rank', loose, 0)
  {
    SubtreesSame(s, rank, loose, s, rank', loose, 0, |s[0].children|);
  }
}
