/** The zip file system: entries linked to their parents and children, changed in place. */
module ZipFs {
  import opened Prelude
  import opened ZipTrees
  import opened ZipNodes
  import opened ZipPaths
  import opened ZipSubtrees
  import opened ZipListings

  // The exceptions the operations throw.
  datatype Error = Exists | NotADirectoryParent | IsAncestor | TargetNotADirectory | TypeError

  datatype Result<+T> = Ok(value: T) | Err(error: Error)

  class ZipEntry {
    const fs: FS
    const id: nat
    const name: string
    const directory: bool
    const data: nat
    var parent: ZipEntry?
    var children: seq<ZipEntry>

    constructor (fs: FS, id: nat, name: string, parent: ZipEntry?, directory: bool, data: nat)
      ensures this.fs == fs && this.id == id && this.name == name && this.parent == parent && children == []
      ensures this.directory == directory && this.data == data
    {
      this.fs, this.id, this.name, this.parent, this.directory, this.data := fs, id, name, parent, directory, data;
      children := [];
    }

    ghost function View(): Node
      reads this
    {
      Node(name, if parent == null then None else Some(parent.id), Ids(children), directory, data)
    }
  }

  ghost function Ids(children: seq<ZipEntry>): (s: seq<nat>)
    ensures |s| == |children| && forall k :: 0 <= k < |s| ==> s[k] == children[k].id
  {
    seq(|children|, k requires 0 <= k < |children| => children[k].id)
  }

  // The loop of detach before it looks at index: nothing was spliced out yet, or the child at index at was.
  ghost predicate SplicedSoFar(was: seq<ZipEntry>, children: seq<ZipEntry>, at: int, index: nat, id: nat) {
    && index <= |was| && -1 <= at < index + 1
    && (at < 0 ==> children == was && forall j :: 0 <= j < index ==> was[j].id != id)
    && (at >= 0 ==> at < index && was[at].id == id && children == was[..at] + was[at + 1..])
  }

  lemma {:induction false} SpliceStart(was: seq<ZipEntry>, id: nat)
    ensures SplicedSoFar(was, was, -1, 0, id)
  {
  }

  // Ids are unique, so nothing is spliced out twice.
  lemma {:induction false} SpliceStep(was: seq<ZipEntry>, children: seq<ZipEntry>, at: int, index: nat, id: nat)
    requires forall j, k :: 0 <= j < k < |was| ==> was[j].id != was[k].id
    requires SplicedSoFar(was, children, at, index, id) && index < |children|
    ensures index < |was|
    ensures if children[index].id == id
            then SplicedSoFar(was, children[..index] + children[index + 1..], index, index + 1, id)
            else SplicedSoFar(was, children, at, index + 1, id)
  {
    if at >= 0 {
      assert children[index] == was[index + 1];
    }
  }

  lemma {:induction false} SpliceEnd(was: seq<ZipEntry>, children: seq<ZipEntry>, at: int, index: nat, id: nat)
    requires forall j, k :: 0 <= j < k < |was| ==> was[j].id != was[k].id
    requires SplicedSoFar(was, children, at, index, id) && index >= |children|
    ensures Ids(children) == Without(Ids(was), id)
    ensures forall c :: c in children ==> c in was
    ensures (forall j :: 0 <= j < |was| ==> was[j].id != id) ==> children == was
    ensures forall j :: 0 <= j < |was| && was[j].id == id ==> children == was[..j] + was[j + 1..]
  {
    hide Without;
    if at >= 0 {
      WithoutAt(Ids(was), id, at);
      assert Ids(children) == Ids(was)[..at] + Ids(was)[at + 1..];
    } else {
      WithoutIs(Ids(was), id);
    }
  }

  // The children of an entry have different ids.
  ghost predicate IdsDiffer(p: ZipEntry)
    reads p`children
  {
    forall j, k :: 0 <= j < k < |p.children| ==> p.children[j].id != p.children[k].id
  }

  // Why a line cannot be imported: its directories lead through a file, to a file, or to one that has the entry.
  function LineError(s: seq<Node>, d: nat, line: Line): Error {
    var path := Split(line.filename);
    match Walk(s, d, path[..|path| - 1])
    case At(i) => if i < |s| && s[i].directory then Exists else NotADirectoryParent
    case _ => TypeError
  }

  // The first k lines were imported to s', and the next one cannot be.
  predicate StoppedAt(s: seq<Node>, s': seq<Node>, d: nat, lines: seq<Line>, k: nat, error: Error) {
    && k < |lines| && d < |s'| && ImportLines(s, d, lines[..k]) == Some(s')
    && ImportLine(s', d, lines[k]) == None && error == LineError(s', d, lines[k])
  }

  class FS {
    var entries: seq<ZipEntry?>
    var root: ZipEntry?
    ghost var all: seq<ZipEntry>    // every entry created since the last reset, by id
    ghost var rank: seq<nat>
    ghost var loose: set<nat>       // the entries that were removed

    ghost function View(): (s: seq<Node>)
      reads this`all, all
      ensures |s| == |all| && forall i :: 0 <= i < |s| ==> s[i] == all[i].View()
    {
      var a := all;
      seq(|a|, i requires 0 <= i < |a| reads a => a[i].View())
    }

    ghost predicate Has(e: ZipEntry)
      reads this`all
    {
      e.id < |all| && all[e.id] == e
    }

    // The entries are numbered in order of creation and know only each other.
    ghost predicate Closed()
      reads this`entries, this`root, this`all, this`loose, all
    {
      && |entries| == |all| >= 1 && root == all[0]
      && (forall i :: 0 <= i < |all| ==>
            all[i].id == i && all[i].fs == this
            && (entries[i] == null || entries[i] == all[i]))
      && (forall i :: 0 <= i < |all| && all[i].parent != null ==> Has(all[i].parent))
      && (forall i, k :: 0 <= i < |all| && 0 <= k < |all[i].children| ==> Has(all[i].children[k]))
      && (forall l :: l in loose ==> l < |all|)
    }

    ghost predicate Valid()
      reads this, all
    {
      Closed() && Linked(View(), rank, loose)
    }

    // resetFS: a file system with nothing but a root.
    constructor ()
      ensures Valid() && |all| == 1 && loose == {}
      ensures View() == [Node("", None, [], true, 0)]
    {
      new;
      Reset();
    }

    method Reset()
      modifies this
      ensures Valid() && |all| == 1 && fresh(all[0]) && loose == {} && root == all[0]
      ensures View() == [Node("", None, [], true, 0)]
    {
      var e := new ZipEntry(this, 0, "", null, true, 0);
      entries := [e];
      root := e;
      all, rank, loose := [e], [0], {};
      assert LinkedDown(View(), {}, 0);
    }

    // getChildByName: the first child of that name.
    method GetChildByName(e: ZipEntry, name: string) returns (c: ZipEntry?)
      requires Closed() && Has(e)
      ensures c == null <==> FirstNamed(View(), View()[e.id].children, name) == None
      ensures c != null ==> Has(c) && FirstNamed(View(), View()[e.id].children, name) == Some(c.id)
    {
      var childIndex := 0;
      ghost var ids := Ids(e.children);
      while childIndex < |e.children|
        invariant childIndex <= |e.children| == |ids|
        invariant FirstNamed(View(), ids, name) == FirstNamed(View(), ids[childIndex..], name)
      {
        c := e.children[childIndex];
        assert Has(all[e.id].children[childIndex]);
        assert ids[childIndex..][1..] == ids[childIndex + 1..];
        if c.name == name {
          return;
        }
        childIndex := childIndex + 1;
      }
      c := null;
    }

    // isDescendantOf: whether ancestor is a proper ancestor.
    method IsDescendantOf(e: ZipEntry, ancestor: ZipEntry) returns (r: bool)
      requires Valid() && Has(e) && Has(ancestor)
      ensures r <==> Below(View(), e.id, ancestor.id)
    {
      hide Linked, Below;
      var entry := e.parent;
      BelowStep(View(), rank, loose, e.id, ancestor.id);
      ParentOf(View(), rank, loose, e.id);
      while entry != null && entry.id != ancestor.id
        invariant entry != null ==> Has(entry)
        invariant Below(View(), e.id, ancestor.id) <==>
                  entry != null
                  && (entry.id == ancestor.id || Below(View(), entry.id, ancestor.id))
        decreases if entry == null then 0 else Rank(rank, entry.id) + 1
      {
        BelowStep(View(), rank, loose, entry.id, ancestor.id);
        ParentOf(View(), rank, loose, entry.id);
        entry := entry.parent;
      }
      r := entry != null;
    }

    // getFullname
    method GetFullname(e: ZipEntry) returns (fullname: string)
      requires Valid() && Has(e)
      ensures fullname == FullName(View(), rank, loose, e.id)
    {
      hide Linked;
      fullname := e.name;
      var entry := e.parent;
      ParentOf(View(), rank, loose, e.id);
      RootName(View(), rank, loose);
      while entry != null
        invariant entry != null ==> Has(entry)
        invariant FullName(View(), rank, loose, e.id) ==
                  (if entry == null then "" else Prefix(View(), rank, loose, entry.id)) + fullname
        decreases if entry == null then 0 else Rank(rank, entry.id) + 1
      {
        ParentOf(View(), rank, loose, entry.id);
        ghost var rest := if entry.id == 0 then "" else Prefix(View(), rank, loose, entry.parent.id);
        Associate(rest, if entry.name != "" then entry.name + "/" else "", fullname);
        fullname := (if entry.name != "" then entry.name + "/" else "") + fullname;
        entry := entry.parent;
      }
    }

    // find: undefined when nothing is there; a TypeError when the path goes on beyond a file.
    method Find(fullname: string) returns (r: Result<ZipEntry?>)
      requires Valid()
      ensures match Walk(View(), 0, Split(fullname))
              case Missing => r == Ok(null)
              case NotDirectory => r == Err(TypeError)
              case At(i) => r.Ok? && r.value != null && Has(r.value) && r.value.id == i
    {
      hide Linked;
      var path := Split(fullname);
      var node := root;
      var index := 0;
      assert path[0..] == path;
      while node != null && index < |path|
        invariant index <= |path| && (node != null ==> Has(node))
        invariant Walk(View(), 0, path) == if node == null then Missing else Walk(View(), node.id, path[index..])
      {
        if !node.directory {
          return Err(TypeError);
        }
        assert path[index..][1..] == path[index + 1..];
        node := GetChildByName(node, path[index]);
        index := index + 1;
      }
      r := Ok(node);
    }

    // init, for an entry with a parent: fails when the name is taken.
    method Init(parent: ZipEntry, name: string, directory: bool, data: nat) returns (r: Result<ZipEntry>)
      requires Valid() && Has(parent) && parent.directory
      modifies this, all
      ensures Valid() && loose == old(loose)
      ensures r.Err? <==> old(HasChild(View(), parent.id, name))
      ensures r.Err? ==> r.error == Exists && all == old(all) && View() == old(View()) && rank == old(rank)
      ensures r.Ok? ==>
                && fresh(r.value) && all == old(all) + [r.value] && Has(r.value) && r.value.id == old(|all|)
                && r.value.directory == directory && entries == old(entries) + [r.value]
                && r.value.parent == parent && parent.children == old(parent.children) + [r.value]
                && r.value.children == []
                && View() == Added(old(View()), name, parent.id, directory, data)
                     && rank == old(rank) + [old(rank[parent.id]) + 1]
    {
      hide Linked, HasChild, Added;
      var c := GetChildByName(parent, name);
      NameFound(View(), parent.id, name);
      if c != null {
        return Err(Exists);
      }
      var e := Create(parent, name, directory, data);
      r := Ok(e);
    }

    method Create(parent: ZipEntry, name: string, directory: bool, data: nat) returns (e: ZipEntry)
      requires Valid() && Has(parent) && parent.directory && !HasChild(View(), parent.id, name)
      modifies this`entries, this`all, this`rank, parent`children
      ensures Valid() && fresh(e) && all == old(all) + [e] && e.id == old(|all|) && e.directory == directory
      ensures entries == old(entries) + [e] && e.parent == parent && parent.children == old(parent.children) + [e]
      ensures e.children == []
      ensures View() == Added(old(View()), name, parent.id, directory, data)
              && rank == old(rank) + [old(rank[parent.id]) + 1]
    {
      ghost var s := View();
      AddedLinked(s, rank, loose, name, parent.id, directory, data);
      hide Linked, HasChild;
      RankLength(s, rank, loose);
      e := new ZipEntry(this, |entries|, name, parent, directory, data);
      Append(parent, e);
      rank := rank + [rank[parent.id] + 1];
    }

    lemma RankLength(s: seq<Node>, rank: seq<nat>, loose: set<nat>)
      requires Linked(s, rank, loose)
      ensures |rank| == |s|
    {
    }

    // fs.entries.push(e) and parent.children.push(e)
    method Append(parent: ZipEntry, e: ZipEntry)
      requires Closed() && Has(parent) && e.fs == this && e.id == |all| && e.parent == parent && e.children == []
      modifies this`entries, this`all, parent`children
      ensures Closed() && all == old(all) + [e] && entries == old(entries) + [e]
      ensures parent.children == old(parent.children) + [e]
      ensures View() == Added(old(View()), e.name, parent.id, e.directory, e.data)
    {
      ghost var s, ids := View(), Ids(parent.children);
      entries := entries + [e];
      parent.children := parent.children + [e];
      all := all + [e];
      assert Ids(parent.children) == ids + [e.id];
      ghost var t := Added(s, e.name, parent.id, e.directory, e.data);
      forall i | 0 <= i < |t|
        ensures View()[i] == t[i]
      {
        if i != parent.id && i < |s| {
          assert all[i].View() == s[i];
        }
      }
    }

    // addChild: only directories take children.
    method AddChild(parent: ZipEntry, name: string, directory: bool, data: nat) returns (r: Result<ZipEntry>)
      requires Valid() && Has(parent)
      modifies this, all
      ensures Valid() && loose == old(loose)
      ensures r.Err? <==> !parent.directory || old(HasChild(View(), parent.id, name))
      ensures r.Err? ==> r.error == (if parent.directory then Exists else NotADirectoryParent)
      ensures r.Err? ==> all == old(all) && View() == old(View()) && rank == old(rank)
      ensures r.Ok? ==>
                && fresh(r.value) && all == old(all) + [r.value] && Has(r.value) && r.value.id == old(|all|)
                && entries == old(entries) + [r.value] && r.value.parent == parent
                && parent.children == old(parent.children) + [r.value]
                && View() == Added(old(View()), name, parent.id, directory, data)
                     && rank == old(rank) + [old(rank[parent.id]) + 1]
    {
      if parent.directory {
        r := Init(parent, name, directory, data);
      } else {
        r := Err(NotADirectoryParent);
      }
    }

    // The loop of detach over the children of p: forEach visits the indices in turn while splice moves the rest down.
    method Splice(p: ZipEntry, id: nat)
      requires IdsDiffer(p)
      modifies p`children
      ensures Ids(p.children) == Without(old(Ids(p.children)), id)
      ensures forall c :: c in p.children ==> c in old(p.children)
      ensures (forall j :: 0 <= j < |old(p.children)| ==> old(p.children)[j].id != id) ==> p.children == old(p.children)
      ensures forall j :: 0 <= j < |old(p.children)| && old(p.children)[j].id == id ==>
                p.children == old(p.children)[..j] + old(p.children)[j + 1..]
    {
      hide SplicedSoFar, Without;
      var children := p.children;
      ghost var was := children;
      ghost var at := -1;
      var index := 0;
      SpliceStart(was, id);
      while index < |children|
        invariant SplicedSoFar(was, children, at, index, id) && index <= |was|
        decreases |was| - index
      {
        SpliceStep(was, children, at, index, id);
        if children[index].id == id {
          children := children[..index] + children[index + 1..];
          at := index;
        }
        index := index + 1;
      }
      p.children := children;
      SpliceEnd(was, children, at, index, id);
    }

    // detach: takes the entry out of its parent's children.
    method Detach(e: ZipEntry)
      requires Closed() && Has(e) && e.parent != null
      requires IdsDiffer(e.parent)
      modifies e.parent`children
      ensures Closed()
      ensures old(View()[e.id].parent).Some? && View() == Detached(old(View()), e.id)
      ensures e !in old(e.parent.children) ==> e.parent.children == old(e.parent.children)
      ensures forall at :: 0 <= at < |old(e.parent.children)| && old(e.parent.children)[at] == e ==>
                e.parent.children == old(e.parent.children)[..at] + old(e.parent.children)[at + 1..]
    {
      hide Without;
      var p := e.parent;
      ghost var s := View();
      forall j | 0 <= j < |p.children|
        ensures p.children[j].id == e.id <==> p.children[j] == e
      {
        assert Has(all[p.id].children[j]);
      }
      Splice(p, e.id);
      forall i | 0 <= i < |s|
        ensures View()[i] == Detached(s, e.id)[i]
      {
        if i != p.id {
          assert all[i].View() == s[i];
        }
      }
      forall k | 0 <= k < |p.children|
        ensures Has(p.children[k])
      {
        assert p.children[k] in old(p.children);
      }
    }

    // remove: detaches the entry and forgets it. The root has no parent to be detached from.
    method Remove(e: ZipEntry) returns (r: Result<()>)
      requires Valid() && Has(e)
      modifies this`entries, this`loose, all
      ensures Valid() && all == old(all) && rank == old(rank)
      ensures r.Err? <==> e.id == 0
      ensures r.Err? ==> View() == old(View()) && loose == old(loose) && entries == old(entries)
      ensures r.Ok? ==>
                && old(View()[e.id].parent).Some? && old(View()[e.id].parent).value < |all|
                && View() == Detached(old(View()), e.id) && loose == old(loose) + {e.id}
                && entries == old(entries)[e.id := null]
      ensures r.Ok? ==>
                && e.parent != null && e.parent == old(e.parent)
                && (e !in old(e.parent.children) ==> e.parent.children == old(e.parent.children))
                && (forall at :: 0 <= at < |old(e.parent.children)| && old(e.parent.children)[at] == e ==>
                      e.parent.children == old(e.parent.children)[..at] + old(e.parent.children)[at + 1..])
                && (forall x :: x in all && x != e.parent ==> x.children == old(x.children))
    {
      hide Linked, Without;
      ghost var s := View();
      ParentOf(s, rank, loose, e.id);
      if e.parent == null {
        return Err(TypeError);
      }
      IdsApart(e.parent);
      DetachedLinked(s, rank, loose, e.id);
      Detach(e);
      loose := loose + {e.id};
      entries := entries[e.id := null];
      r := Ok(());
    }

    lemma IdsApart(p: ZipEntry)
      requires Valid() && Has(p)
      ensures IdsDiffer(p)
    {
      hide Linked;
      SiblingsApart(View(), rank, loose, p.id);
      forall j, k | 0 <= j < k < |p.children|
        ensures p.children[j].id != p.children[k].id
      {
        assert Apart(View(), View()[p.id].children[j], View()[p.id].children[k]);
      }
    }

    // The checks of moveTo, in its order; moving an entry into itself is no error.
    method MoveError(e: ZipEntry, target: ZipEntry) returns (error: Option<Error>)
      requires Valid() && Has(e) && Has(target)
      ensures error == (if !target.directory then Some(TargetNotADirectory)
                        else if Below(View(), target.id, e.id) then Some(IsAncestor)
                        else if e == target then None
                        else if HasChild(View(), target.id, e.name) then Some(Exists)
                        else if e.id == 0 then Some(TypeError)
                        else None)
    {
      hide Linked, Below, HasChild;
      if !target.directory {
        return Some(TargetNotADirectory);
      }
      var descends := IsDescendantOf(target, e);
      if descends {
        return Some(IsAncestor);
      }
      if e == target {
        return None;
      }
      var c := GetChildByName(target, e.name);
      NameFound(View(), target.id, e.name);
      if c != null {
        return Some(Exists);
      }
      ParentOf(View(), rank, loose, e.id);
      error := if e.parent == null then Some(TypeError) else None;
    }

    // moveTo: the subtree goes to the end of the children of the target, unless that would tie a knot or clash.
    method MoveTo(e: ZipEntry, target: ZipEntry) returns (r: Result<()>)
      requires Valid() && Has(e) && Has(target)
      modifies this`rank, this`loose, all
      ensures Valid() && all == old(all) && entries == old(entries)
      ensures r == (if !target.directory then Err(TargetNotADirectory)
                    else if old(Below(View(), target.id, e.id)) then Err(IsAncestor)
                    else if e == target then Ok(())
                    else if old(HasChild(View(), target.id, e.name)) then Err(Exists)
                    else if e.id == 0 then Err(TypeError)
                    else Ok(()))
      ensures r.Err? || e == target ==> View() == old(View()) && loose == old(loose)
      ensures r.Ok? && e != target ==>
                && old(View()[e.id].parent).Some? && old(View()[e.id].parent).value < |all|
                && View() == Moved(old(View()), e.id, target.id) && loose == old(loose) - {e.id}
      ensures r.Ok? && e != target ==>
                && old(e.parent) != null
                && e.parent == target
                && (var p, rest := old(e.parent), old(e.parent.children);
                    && (e !in rest ==> if p == target then target.children == rest + [e] else p.children == rest)
                    && (forall at :: 0 <= at < |rest| && rest[at] == e ==>
                          if p == target then target.children == rest[..at] + rest[at + 1..] + [e]
                          else p.children == rest[..at] + rest[at + 1..]))
                && (old(e.parent) != target ==> target.children == old(target.children) + [e])
                && (forall x :: x in all && x != target && x != old(e.parent) ==> x.children == old(x.children))
                && (forall x :: x in all && x != e ==> x.parent == old(x.parent))
    {
      hide Valid, Below, HasChild, Moved;
      var error := MoveError(e, target);
      if error.Some? {
        return Err(error.value);
      }
      if e != target {
        Transfer(e, target);
      }
      r := Ok(());
    }

    method Transfer(e: ZipEntry, target: ZipEntry)
      requires Valid() && Has(e) && Has(target) && target.directory && e != target && e.id != 0
      requires !Below(View(), target.id, e.id) && !HasChild(View(), target.id, e.name)
      modifies this`rank, this`loose, all
      ensures Valid()
      ensures old(View()[e.id].parent).Some? && old(View()[e.id].parent).value < |all|
      ensures View() == Moved(old(View()), e.id, target.id) && loose == old(loose) - {e.id}
      ensures all == old(all) && entries == old(entries) && old(e.parent) != null
      ensures e.parent == target
              && (var p, rest := old(e.parent), old(e.parent.children);
                  && (e !in rest ==> if p == target then target.children == rest + [e] else p.children == rest)
                  && (forall at :: 0 <= at < |rest| && rest[at] == e ==>
                        if p == target then target.children == rest[..at] + rest[at + 1..] + [e]
                        else p.children == rest[..at] + rest[at + 1..]))
              && (old(e.parent) != target ==> target.children == old(target.children) + [e])
              && (forall x :: x in all && x != target && x != old(e.parent) ==> x.children == old(x.children))
              && (forall x :: x in all && x != e ==> x.parent == old(x.parent))
    {
      hide Linked, Without, Below, HasChild, Lifted, Moved, Valid, Closed, IdsDiffer;
      ghost var lifted := MayMove(e, target);
      Relink(e, target);
      Settle(lifted, e.id);
    }

    ghost method Settle(lifted: seq<nat>, id: nat)
      requires Closed() && Linked(View(), lifted, loose - {id})
      modifies this`rank, this`loose
      ensures Valid() && rank == lifted && loose == old(loose) - {id}
    {
      hide Linked;
      rank := lifted;
      loose := loose - {id};
    }

    // What Relink needs, and what it will leave.
    lemma MayMove(e: ZipEntry, target: ZipEntry) returns (lifted: seq<nat>)
      requires Valid() && Has(e) && Has(target) && target.directory && e != target && e.id != 0
      requires !Below(View(), target.id, e.id) && !HasChild(View(), target.id, e.name)
      ensures Closed() && Has(e) && Has(target) && e.parent != null
      ensures IdsDiffer(e.parent)
      ensures View()[e.id].parent.Some? && View()[e.id].parent.value < |all|
      ensures Linked(Moved(View(), e.id, target.id), lifted, loose - {e.id})
    {
      hide Linked, Without, Below, HasChild, Lifted, Moved;
      ParentOf(View(), rank, loose, e.id);
      MovedLinked(View(), rank, loose, e.id, target.id, Top(rank));
      IdsApart(e.parent);
      lifted := Lifted(View(), rank, e.id, Top(rank));
    }

    // detach(that); that.parent = target; target.children.push(that)
    method Relink(e: ZipEntry, target: ZipEntry)
      requires Closed() && Has(e) && Has(target) && e.parent != null
      requires IdsDiffer(e.parent)
      modifies all
      ensures Closed() && old(View()[e.id].parent).Some? && old(View()[e.id].parent).value < |all|
      ensures View() == Moved(old(View()), e.id, target.id)
      ensures e.parent == target
              && (var p, rest := old(e.parent), old(e.parent.children);
                  && (e !in rest ==> if p == target then target.children == rest + [e] else p.children == rest)
                  && (forall at :: 0 <= at < |rest| && rest[at] == e ==>
                        if p == target then target.children == rest[..at] + rest[at + 1..] + [e]
                        else p.children == rest[..at] + rest[at + 1..]))
              && (old(e.parent) != target ==> target.children == old(target.children) + [e])
              && (forall x :: x in all && x != target && x != old(e.parent) ==> x.children == old(x.children))
              && (forall x :: x in all && x != e ==> x.parent == old(x.parent))
    {
      hide Without;
      Detach(e);
      Attach(e, target);
    }

    // parent = target; target.children.push(this)
    method Attach(e: ZipEntry, target: ZipEntry)
      requires Closed() && Has(e) && Has(target)
      modifies e`parent, target`children
      ensures Closed() && e.parent == target && target.children == old(target.children) + [e]
      ensures var d := old(View()); var f := d[e.id := d[e.id].(parent := Some(target.id))];
              View() == f[target.id := f[target.id].(children := f[target.id].children + [e.id])]
    {
      ghost var d, ids := View(), Ids(target.children);
      e.parent := target;
      target.children := target.children + [e];
      assert Ids(target.children) == ids + [e.id];
      ghost var f := d[e.id := d[e.id].(parent := Some(target.id))];
      ghost var t := f[target.id := f[target.id].(children := f[target.id].children + [e.id])];
      forall i | 0 <= i < |t|
        ensures View()[i] == t[i]
      {
        if i != e.id && i != target.id {
          assert all[i].View() == d[i];
        }
      }
    }

    // exportZip: the line of every child, followed by those of what is below it.
    method Export(e: ZipEntry) returns (lines: seq<Line>)
      requires Valid() && Has(e)
      ensures lines == Lines(View(), rank, loose, e.id, |View()[e.id].children|)
      decreases Top(rank) - Rank(rank, e.id)
    {
      hide Linked, FullName, Lines, LineOf;
      ghost var s := View();
      lines := [];
      LinesNone(s, rank, loose, e.id);
      var childIndex := 0;
      while childIndex < |e.children|
        invariant childIndex <= |e.children| == |s[e.id].children|
        invariant lines == Lines(s, rank, loose, e.id, childIndex)
      {
        var child := e.children[childIndex];
        assert Has(all[e.id].children[childIndex]);
        ChildRanks(s, rank, loose, e.id, childIndex);
        LinesNext(s, rank, loose, e.id, childIndex);
        var fullname := GetFullname(child);
        lines := lines + [LineOf(fullname, child.directory, child.data)];
        var below := Export(child);
        LinesGrouped(Lines(s, rank, loose, e.id, childIndex), [LineOf(fullname, child.directory, child.data)], below);
        lines := lines + below;
        childIndex := childIndex + 1;
      }
    }

    // importZip: entry after entry; fails where the source throws, with what was added before left in place.
    method Import(that: ZipEntry, lines: seq<Line>) returns (r: Result<()>)
      requires Valid() && Has(that)
      modifies this, all
      ensures Valid() && loose == old(loose) && old(all) <= all
      ensures forall i :: |old(all)| <= i < |all| ==> fresh(all[i])
      ensures r.Ok? <==> ImportLines(old(View()), that.id, lines).Some?
      ensures r.Ok? ==> View() == ImportLines(old(View()), that.id, lines).value
      ensures r.Err? ==> exists k: nat :: StoppedAt(old(View()), View(), that.id, lines, k, r.error)
    {
      hide Linked, ImportLine, ImportLines, LineError;
      var i := 0;
      ghost var s0 := View();
      assert lines[0..] == lines && lines[..0] == [];
      ImportLinesNone(s0, that.id);
      while i < |lines|
        invariant i <= |lines| && Valid() && Has(that) && loose == old(loose) && old(all) <= all
        invariant forall i :: |old(all)| <= i < |all| ==> fresh(all[i])
        invariant ImportLines(s0, that.id, lines) == ImportLines(View(), that.id, lines[i..])
        invariant ImportLines(s0, that.id, lines[..i]) == Some(View())
      {
        assert lines[..i + 1] == lines[..i] + [lines[i]];
        ghost var s := View();
        ImportLinesSnoc(s0, that.id, lines[..i], lines[i]);
        ImportLinesNext(s, that.id, lines, i);
        r := ImportOneLine(that, lines[i]);
        if r.Err? {
          assert StoppedAt(s0, View(), that.id, lines, i, r.error);
          return;
        }
        i := i + 1;
      }
      assert lines[i..] == [];
      ImportLinesNone(View(), that.id);
      r := Ok(());
    }

    // The loop of importZip over the directories of a path: the last one, made with its ancestors where missing.
    method EnsurePath(that: ZipEntry, path: seq<string>, ghost file: Option<(string, nat)>)
      returns (r: Result<ZipEntry>)
      requires Valid() && Has(that)
      modifies this, all
      ensures Valid() && loose == old(loose) && old(all) <= all
      ensures forall i :: |old(all)| <= i < |all| ==> fresh(all[i])
      ensures r.Ok? ==>
              Has(r.value)
              && ImportAt(old(View()), that.id, path, file) == ImportAt(View(), r.value.id, [], file)
      ensures r.Err? ==> ImportAt(old(View()), that.id, path, file) == None
      ensures r.Err? ==> r.error == TypeError && View() == old(View())
      ensures match Walk(old(View()), that.id, path)
              case NotDirectory => r.Err?
              case At(i) => r.Ok? && View() == old(View()) && r.value.id == i
              case Missing => r.Ok? && r.value.directory && r.value.children == []
    {
      hide Linked, HasChild, ImportAt, Added, FirstNamed, Walk;
      var parent: ZipEntry := that;
      ghost var s0, made := View(), false;
      var index := 0;
      assert path[0..] == path;
      while index < |path|
        invariant index <= |path| && Valid() && Has(parent) && loose == old(loose) && old(all) <= all
        invariant forall i :: |old(all)| <= i < |all| ==> fresh(all[i])
        invariant ImportAt(s0, that.id, path, file) == ImportAt(View(), parent.id, path[index..], file)
        invariant made ==> Walk(s0, that.id, path) == Missing && parent.directory && parent.children == []
        invariant !made ==> View() == s0 && Walk(s0, that.id, path) == Walk(s0, parent.id, path[index..])
      {
        if made {
          FirstNone(View(), path[index]);
        }
        WalkNext(s0, parent.id, path, index);
        ImportAtNext(View(), parent.id, path, index, file);
        if !parent.directory {
          return Err(TypeError);
        }
        made := made || FirstNamed(s0, s0[parent.id].children, path[index]).None?;
        parent := EnterOrMake(parent, path[index]);
        index := index + 1;
      }
      assert path[|path|..] == [];
      WalkDone(s0, parent.id);
      r := Ok(parent);
    }

    // parent.getChildByName(name) || new ZipDirectoryEntry(fs, name, null, parent)
    method EnterOrMake(parent: ZipEntry, name: string) returns (child: ZipEntry)
      requires Valid() && Has(parent) && parent.directory
      modifies this, all
      ensures Valid() && Has(child) && loose == old(loose) && old(all) <= all
      ensures forall i :: |old(all)| <= i < |all| ==> fresh(all[i])
      ensures match FirstNamed(old(View()), old(View())[parent.id].children, name)
              case Some(c) => View() == old(View()) && child.id == c
              case None => View() == Added(old(View()), name, parent.id, true, 0) && child.id == |old(View())|
                           && child.directory && child.children == []
    {
      hide Linked, HasChild, Added, FirstNamed;
      var found := GetChildByName(parent, name);
      NameFound(View(), parent.id, name);
      if found == null {
        var added := Init(parent, name, true, 0);
        child := added.value;
      } else {
        child := found;
      }
    }

    // One entry of the archive.
    method ImportOneLine(that: ZipEntry, line: Line) returns (r: Result<()>)
      requires Valid() && Has(that)
      modifies this, all
      ensures Valid() && loose == old(loose) && old(all) <= all
      ensures forall i :: |old(all)| <= i < |all| ==> fresh(all[i])
      ensures r.Ok? <==> ImportLine(old(View()), that.id, line).Some?
      ensures r.Ok? ==> View() == ImportLine(old(View()), that.id, line).value
      ensures r.Err? ==> View() == old(View()) && r.error == LineError(old(View()), that.id, line)
    {
      hide Linked, HasChild, FirstNamed, Added, Walk, ImportAt;
      var path := Split(line.filename);
      var name := path[|path| - 1];
      path := path[..|path| - 1];
      ghost var file := if line.directory then None else Some((name, line.data));
      var parent := EnsurePath(that, path, file);
      if parent.Err? {
        return Err(parent.error);
      }
      ImportAtEnd(View(), parent.value.id, file);
      if !line.directory {
        NameFound(View(), parent.value.id, name);
        EmptyHas(parent.value, name);
        var added := AddChild(parent.value, name, false, line.data);
        if added.Err? {
          return Err(added.error);
        }
      }
      r := Ok(());
    }

    lemma EmptyHas(e: ZipEntry, name: string)
      requires Closed() && Has(e)
      ensures e.children == [] ==> !HasChild(View(), e.id, name)
      ensures View()[e.id].directory == e.directory
    {
      assert all[e.id].View() == View()[e.id];
    }
  }

  // A file system exported and imported into an empty one: the same ordered tree.
  method Copy(fs: FS) returns (copy: FS, r: Result<()>)
    requires fs.Valid() && WellNamed(Kids(fs.View(), fs.rank, fs.loose, 0))
    ensures fresh(copy) && copy.Valid() && r.Ok?
    ensures Kids(copy.View(), copy.rank, copy.loose, 0) == Kids(fs.View(), fs.rank, fs.loose, 0)
  {
    hide Linked, Kids, ImportLines, Lines, WellNamed;
    RootName(fs.View(), fs.rank, fs.loose);
    var lines := fs.Export(fs.root);
    ghost var rank := ExportImport(fs.View(), fs.rank, fs.loose);
    copy := new FS();
    r := copy.Import(copy.root, lines);
    KidsSame(copy.View(), copy.rank, rank, {});
  }
}
