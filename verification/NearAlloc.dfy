/** The allocator of patch-area memory close to the code it patches: chunks are claimed by objects, mapped,
    and bumped out as buffers. */
module NearAlloc {
  import opened Prelude
  import opened Intervals

  // ---- the pool of one object ----

  datatype Pool = Pool(base: nat, buf_size: nat)

  // The bump of AllocateBuffer, on 64-bit sizes: one byte more than was asked for.
  function Bump(p: Pool, size: nat): Pool
    requires size <= p.buf_size < U64
  {
    Pool(p.base + size + 1, (p.buf_size - (size + 1)) % U64)
  }

  // The pool stays inside its chunk if and only if the request was not for exactly the space left.
  lemma {:induction false} BumpStays(p: Pool, size: nat, end: nat)
    requires size <= p.buf_size < U64 && p.base + p.buf_size <= end < p.base + U64
    ensures Bump(p, size).base + Bump(p, size).buf_size <= end <==> size != p.buf_size
    ensures size == p.buf_size ==> Bump(p, size).buf_size == U64 - 1
    ensures size != p.buf_size ==> Bump(p, size) == Pool(p.base + size + 1, p.buf_size - size - 1)
  {
    if size == p.buf_size {
      DivModUnique(U64 - 1, U64, 0, U64 - 1);
    }
  }

  // ---- what is kept about chunks, claims and buffers ----

  // A buffer handed out of a chunk.
  datatype Buffer = Buffer(obj: nat, chunk: nat, addr: nat, size: nat)

  // Which object took a chunk, and up to where the chunk has been handed out.
  datatype Claim = Claim(obj: nat, limit: nat)

  predicate Disjoint(a: Buffer, b: Buffer) {
    a.addr + a.size <= b.addr || b.addr + b.size <= a.addr
  }

  // The start of the mapping an object was loaded at: what an absent entry reads as is zero.
  function Target(mem_maps: map<nat, Mapping>, load_addr: nat): nat {
    if load_addr in mem_maps then mem_maps[load_addr].start else 0
  }

  predicate Near(f: FreeInterval, target: nat) {
    f.start <= target && target - f.start <= MAX_MAPPED_AREA_SIZE
  }

  // What is asked of the system for the addresses from start to end: as much of their end as it will map, whole pages
  // left out.
  predicate Asked(start: nat, end: nat, ps: nat, p: Pool)
    requires ps > 0
  {
    start <= p.base && p.base + p.buf_size == end && Aligned(p.base - start, ps)
  }

  // p is the largest of them the system grants.
  ghost predicate Largest(granted: (nat, nat) -> bool, start: nat, end: nat, ps: nat, p: Pool)
    requires ps > 0
  {
    && Asked(start, end, ps, p) && granted(p.base, p.buf_size)
    && forall q: Pool :: Asked(start, end, ps, q) && granted(q.base, q.buf_size) ==> p.base <= q.base
  }

  // The first page of memory is never asked for.
  function RegionStart(f: FreeInterval, ps: nat): nat {
    if f.start < ps then f.start + ps else f.start
  }

  // The first chunk near the target that nobody has claimed is at index at.
  ghost predicate Nearest(chunks: seq<FreeInterval>, claimed: set<nat>, target: nat, at: nat) {
    && at < |chunks| && at !in claimed && Near(chunks[at], target)
    && forall j :: 0 <= j < at ==> j in claimed || !Near(chunks[j], target)
  }

  // A new pool for an object, in place of p: what is granted of the nearest chunk, which is taken even when that is
  // nothing; and p again when nothing is granted or there is no chunk.
  ghost predicate Refilled(granted: (nat, nat) -> bool, chunks: seq<FreeInterval>, ps: nat, target: nat,
                           claimed: set<nat>, p: Pool, claimed': set<nat>, p': Pool)
    requires ps > 0
  {
    && ((forall at: nat :: !Nearest(chunks, claimed, target, at)) ==> claimed' == claimed && p' == p)
    && (forall at: nat :: Nearest(chunks, claimed, target, at) ==>
          && claimed' == claimed + {at}
          && (Largest(granted, RegionStart(chunks[at], ps), chunks[at].end, ps, p')
              || (p' == p && forall q: Pool :: !Largest(granted, RegionStart(chunks[at], ps), chunks[at].end, ps, q))))
  }

  // The chunks ascend, are small, and hold no mapped address.
  ghost predicate Layout(maps: seq<Mapping>, chunks: seq<FreeInterval>, ps: nat) {
    && PageSize(ps) && Ascending(chunks) && AllAligned(chunks, ps)
    && (forall i :: 0 <= i < |chunks| ==> chunks[i].Size() <= MAX_INTERVAL_SIZE && !chunks[i].used)
    && (forall a: nat :: Covered(chunks, a) ==> !Mapped(maps, a))
  }

  // The chunks are those of the gaps between the mappings.
  ghost predicate CutFrom(chunks: seq<FreeInterval>, maps: seq<Mapping>) {
    Ascending(Gaps(Parsed(maps))) && chunks == AllChunks(Gaps(Parsed(maps)))
  }

  // A free interval is marked as used exactly when it is claimed.
  ghost predicate Marked(fi: seq<FreeInterval>, chunks: seq<FreeInterval>, claims: map<nat, Claim>) {
    && |fi| == |chunks|
    && (forall i :: 0 <= i < |fi| ==> fi[i] == chunks[i].(used := i in claims))
  }

  // Every claimed chunk lies near the object that claimed it.
  ghost predicate ClaimsFit(claims: map<nat, Claim>, chunks: seq<FreeInterval>, targets: seq<nat>) {
    forall c :: c in claims ==>
      && c < |chunks| && claims[c].obj < |targets|
      && chunks[c].start <= claims[c].limit <= chunks[c].end
      && Near(chunks[c], targets[claims[c].obj])
  }

  ghost predicate Holds(b: Buffer, claims: map<nat, Claim>, chunks: seq<FreeInterval>) {
    && b.chunk in claims && b.chunk < |chunks| && claims[b.chunk].obj == b.obj
    && chunks[b.chunk].start <= b.addr && b.addr + b.size <= claims[b.chunk].limit
  }

  // Every buffer lies in a chunk its object claimed, and no two overlap.
  ghost predicate HandedFit(handed: seq<Buffer>, claims: map<nat, Claim>, chunks: seq<FreeInterval>) {
    && (forall i :: 0 <= i < |handed| ==> Holds(handed[i], claims, chunks))
    && (forall i, j :: 0 <= i < j < |handed| ==> Disjoint(handed[i], handed[j]))
  }

  // The pool of object k is what is left of the chunk it took last, or nothing.
  ghost predicate PoolFits(k: nat, p: Pool, chunk: Option<nat>, claims: map<nat, Claim>, chunks: seq<FreeInterval>) {
    match chunk
    case None => p == Pool(0, 0)
    case Some(c) =>
      && c in claims && c < |chunks| && claims[c].obj == k
      && claims[c].limit <= p.base && p.base + p.buf_size == chunks[c].end
  }

  // All buffers are within reach of a 32-bit displacement, off every mapping, and disjoint.
  lemma {:induction false} Reach(maps: seq<Mapping>, chunks: seq<FreeInterval>, ps: nat, claims: map<nat, Claim>,
                                 targets: seq<nat>, handed: seq<Buffer>, i: nat, a: nat)
    requires Layout(maps, chunks, ps) && ClaimsFit(claims, chunks, targets) && HandedFit(handed, claims, chunks)
    requires i < |handed| && handed[i].addr <= a <= handed[i].addr + handed[i].size
    ensures handed[i].obj < |targets| && IsDisp32(a - targets[handed[i].obj])
    ensures a < handed[i].addr + handed[i].size ==> !Mapped(maps, a)
    ensures forall j :: 0 <= j < |handed| && j != i ==> Disjoint(handed[i], handed[j])
  {
    hide Mapped;
    var b := handed[i];
    assert Holds(b, claims, chunks);
    var f := chunks[b.chunk];
    assert f.Size() <= MAX_INTERVAL_SIZE;
    if a < b.addr + b.size {
      assert Covered(chunks, a);
    }
  }

  // Claiming a free chunk near the object keeps everything.
  lemma {:induction false} ClaimKeeps(fi: seq<FreeInterval>, chunks: seq<FreeInterval>, claims: map<nat, Claim>,
                                      targets: seq<nat>, handed: seq<Buffer>, at: nat, k: nat)
    requires Marked(fi, chunks, claims) && ClaimsFit(claims, chunks, targets) && HandedFit(handed, claims, chunks)
    requires Ascending(chunks)
    requires at < |fi| && !fi[at].used && k < |targets| && Near(fi[at], targets[k])
    ensures at !in claims
    ensures var claims1 := claims[at := Claim(k, chunks[at].start)];
            && Marked(fi[at := fi[at].(used := true)], chunks, claims1)
            && ClaimsFit(claims1, chunks, targets) && HandedFit(handed, claims1, chunks)
  {
    var claims1 := claims[at := Claim(k, chunks[at].start)];
    forall i | 0 <= i < |handed|
      ensures Holds(handed[i], claims1, chunks)
    {
      assert Holds(handed[i], claims, chunks);
    }
  }

  lemma {:induction false} ClaimKeepsPool(j: nat, p: Pool, chunk: Option<nat>, claims: map<nat, Claim>,
                                          chunks: seq<FreeInterval>, at: nat, claim: Claim)
    requires PoolFits(j, p, chunk, claims, chunks)
    requires at in claims ==> claims[at].obj != j
    ensures PoolFits(j, p, chunk, claims[at := claim], chunks)
  {
  }

  // Handing out a buffer from the pool keeps everything.
  lemma {:induction false} HandKeeps(chunks: seq<FreeInterval>, claims: map<nat, Claim>, targets: seq<nat>,
                                     handed: seq<Buffer>, k: nat, p: Pool, c: nat, size: nat)
    requires Ascending(chunks) && ClaimsFit(claims, chunks, targets) && HandedFit(handed, claims, chunks)
    requires PoolFits(k, p, Some(c), claims, chunks) && size < p.buf_size
    ensures var claims1 := claims[c := Claim(k, p.base + size + 1)];
            && ClaimsFit(claims1, chunks, targets)
            && HandedFit(handed + [Buffer(k, c, p.base, size)], claims1, chunks)
            && PoolFits(k, Pool(p.base + size + 1, p.buf_size - size - 1), Some(c), claims1, chunks)
  {
    var claims1, b := claims[c := Claim(k, p.base + size + 1)], Buffer(k, c, p.base, size);
    var all := handed + [b];
    forall i | 0 <= i < |handed|
      ensures Holds(handed[i], claims1, chunks) && Disjoint(handed[i], b)
    {
      assert Holds(handed[i], claims, chunks);
      Apart(handed[i], claims, chunks, targets, p, k, c, size);
    }
  }

  lemma {:induction false} Apart(h: Buffer, claims: map<nat, Claim>, chunks: seq<FreeInterval>, targets: seq<nat>,
                                 p: Pool, k: nat, c: nat, size: nat)
    requires Ascending(chunks) && ClaimsFit(claims, chunks, targets) && Holds(h, claims, chunks)
    requires PoolFits(k, p, Some(c), claims, chunks) && size <= p.buf_size
    ensures Disjoint(h, Buffer(k, c, p.base, size))
  {
    if h.chunk < c {
      assert chunks[h.chunk].end <= chunks[c].start;
    } else if c < h.chunk {
      assert chunks[c].end <= chunks[h.chunk].start;
    }
  }

  lemma {:induction false} MarkedStays(fi: seq<FreeInterval>, chunks: seq<FreeInterval>, claims: map<nat, Claim>,
                                       at: nat, claim: Claim)
    requires Marked(fi, chunks, claims) && at in claims
    ensures Marked(fi, chunks, claims[at := claim])
  {
  }

  // What is left of a chunk is no larger than a chunk.
  lemma {:induction false} PoolSmall(k: nat, p: Pool, chunk: Option<nat>, claims: map<nat, Claim>, maps: seq<Mapping>,
                                     chunks: seq<FreeInterval>, ps: nat, targets: seq<nat>)
    requires Layout(maps, chunks, ps) && ClaimsFit(claims, chunks, targets) && PoolFits(k, p, chunk, claims, chunks)
    ensures p.buf_size <= MAX_INTERVAL_SIZE && (chunk.None? ==> p == Pool(0, 0))
    ensures Ascending(chunks)
  {
    if chunk.Some? {
      assert chunks[chunk.value].Size() <= MAX_INTERVAL_SIZE;
    }
  }

  // The chunks of the gaps between the mappings are laid out as the allocator needs them.
  lemma {:induction false} FreshLayout(maps: seq<Mapping>, ps: nat)
    requires PageSize(ps) && Listed(maps, ps)
    ensures Ascending(Gaps(Parsed(maps))) && Layout(maps, AllChunks(Gaps(Parsed(maps))), ps)
  {
    hide Ascending, Ordered, PageAligned, Listed, PageSize, AllAligned, AllGapsAligned, Gaps, AllChunks, Mapped,
      Covered, LastEnd;
    SomePage(ps);
    var parsed := Parsed(maps);
    var gaps := Gaps(parsed);
    ParsedFits(maps, ps);
    GapsAscend(parsed);
    GapsAligned(parsed, ps);
    AllChunksAscend(gaps);
    AllChunksAligned(gaps, ps);
    forall a: nat | Covered(AllChunks(gaps), a)
      ensures !Mapped(maps, a)
    {
      AllChunksCover(gaps, a);
      ClampedInside(gaps, a);
      GapsComplement(parsed, a);
      LastOf(parsed);
      ParsedMapped(maps, a);
    }
  }

  lemma {:induction false} LastOf(maps: seq<Mapping>)
    ensures LastEnd(maps) == if maps == [] then 0 else maps[|maps| - 1].end
  {
  }

  lemma {:induction false} ClampedInside(gaps: seq<FreeInterval>, a: nat)
    requires Ascending(gaps) && InClamped(gaps, a)
    ensures Covered(gaps, a)
  {
    var i :| 0 <= i < |gaps| && Clamped(gaps[i]).start <= a < gaps[i].end;
    assert gaps[i].start <= a < gaps[i].end;
  }

  lemma {:induction false} UnusedChunks(maps: seq<Mapping>, chunks: seq<FreeInterval>, ps: nat)
    requires Layout(maps, chunks, ps)
    ensures forall i :: 0 <= i < |chunks| ==> !chunks[i].used
  {
  }

  lemma {:induction false} Unclaimed(chunks: seq<FreeInterval>, targets: seq<nat>)
    requires forall i :: 0 <= i < |chunks| ==> !chunks[i].used
    ensures Marked(chunks, chunks, map[]) && ClaimsFit(map[], chunks, targets) && HandedFit([], map[], chunks)
  {
  }

  // What InitMemoryAlloc is given is the chunk, less its first page at address zero.
  lemma {:induction false} RegionInside(f: FreeInterval, ps: nat)
    requires PageSize(ps) && f.start < f.end && Aligned(f.start, ps) && Aligned(f.end, ps)
             && f.Size() <= MAX_INTERVAL_SIZE
    ensures RoundUp(f.Size(), ps) == f.Size() && Aligned(f.Size(), ps)
    ensures f.start < ps ==> f.start == 0 && f.Size() >= ps
  {
    hide Aligned, RoundUp;
    AlignedDifference(f.end, f.start, ps);
    RoundAligned(f.Size(), ps);
    if f.start < ps {
      BelowPage(f.start, ps);
      if f.Size() < ps {
        BelowPage(f.Size(), ps);
      }
    }
  }

  lemma {:induction false} OnePage(ps: nat)
    requires ps > 0
    ensures Aligned(ps, ps) && Aligned(0, ps)
  {
    DivModUnique(ps, ps, 1, 0);
    DivModUnique(0, ps, 0, 0);
  }

  lemma {:induction false} NextAligned(x: nat, y: nat, ps: nat)
    requires ps > 0 && Aligned(x, ps) && Aligned(y, ps) && y < x + ps
    ensures y <= x
  {
    hide Aligned;
    if y > x {
      AlignedDifference(y, x, ps);
      BelowPage(y - x, ps);
    }
  }

  lemma {:induction false} BelowPage(x: nat, ps: nat)
    requires ps > 0 && Aligned(x, ps) && x < ps
    ensures x == 0
  {
    DivModUnique(x, ps, 0, x);
  }

  class SpObject {
    const load_addr: nat
    var base: nat
    var buf_size: nat
    ghost var chunk: Option<nat>          // the chunk the pool is in

    constructor (load_addr: nat)
      ensures this.load_addr == load_addr && base == buf_size == 0 && chunk == None
    {
      this.load_addr, base, buf_size, chunk := load_addr, 0, 0, None;
    }

    ghost function ThePool(): Pool
      reads this`base, this`buf_size
    {
      Pool(base, buf_size)
    }

    // The bump of AllocateBuffer.
    method Take(size: nat)
      requires size <= buf_size < U64
      modifies this`base, this`buf_size
      ensures ThePool() == Bump(old(ThePool()), size)
    {
      base := base + (size + 1);
      buf_size := (buf_size - (size + 1)) % U64;
    }

    // InitMemoryAlloc: maps the region, giving up a page at its start as long as the system refuses.
    method InitMemoryAlloc(granted: (nat, nat) -> bool, start: nat, size: nat, ps: nat) returns (ok: bool)
      requires ps > 0 && Aligned(size, ps)
      modifies this`base, this`buf_size
      ensures ok <==> exists p: Pool :: Asked(start, start + size, ps, p) && granted(p.base, p.buf_size)
      ensures ok ==> Asked(start, start + size, ps, ThePool()) && granted(base, buf_size)
      ensures ok ==> forall p: Pool :: Asked(start, start + size, ps, p) && granted(p.base, p.buf_size) ==>
              base <= p.base
      ensures ok ==> Aligned(buf_size, ps)
      ensures !ok ==> base == old(base) && buf_size == old(buf_size)
    {
      hide Aligned;
      OnePage(ps);
      var b, left: int := start, size;
      ok := granted(b, left);
      while !ok
        invariant b + left == start + size && b >= start && left >= 0 && Aligned(left, ps) && Aligned(b - start, ps)
        invariant ok == granted(b, left)
        invariant forall p: Pool :: Asked(start, start + size, ps, p) && p.base < b ==> !granted(p.base, p.buf_size)
        invariant base == old(base) && buf_size == old(buf_size)
        decreases left, !ok
      {
        if left >= ps {
          AlignedDifference(left, ps, ps);
        }
        AlignedSum(b - start, ps, ps);
        forall p: Pool | Asked(start, start + size, ps, p) && p.base < b + ps
          ensures !granted(p.base, p.buf_size)
        {
          NextAligned(b - start, p.base - start, ps);
        }
        b := b + ps;
        left := left - ps;
        if left < 0 {
          break;
        }
        ok := granted(b, left);
      }
      if ok {
        assert Asked(start, start + size, ps, Pool(b, left)) && granted(Pool(b, left).base, Pool(b, left).buf_size);
      }
      assert !ok ==> forall p: Pool :: Asked(start, start + size, ps, p) ==> !granted(p.base, p.buf_size);
      if ok {
        base := b;
        buf_size := left;
      }
    }
  }

  // Each object's target is the start of the mapping at its load address, where there is one.
  ghost predicate Loaded(targets: seq<nat>, maps: seq<Mapping>, objects: seq<SpObject>) {
    && |targets| == |objects|
    && (forall k, j :: 0 <= k < |objects| && 0 <= j < |maps| && maps[j].start == objects[k].load_addr ==>
          targets[k] == maps[j].start)
  }

  // Some line starts at a, or does once it is parsed.
  predicate Starts(lines: seq<Mapping>, a: nat) {
    exists j :: 0 <= j < |lines| && (lines[j].start == a || Strtol(lines[j].start) == a)
  }

  // Some line starts at a once it is parsed.
  predicate Named(lines: seq<Mapping>, a: nat) {
    exists j :: 0 <= j < |lines| && Strtol(lines[j].start) == a
  }

  // What the allocator takes for the addresses of the objects: zero for one that is not where a mapping starts.
  function TargetsOf(lines: seq<Mapping>, objects: seq<SpObject>): (targets: seq<nat>)
    ensures |targets| == |objects|
  {
    seq(|objects|, k requires 0 <= k < |objects| =>
      if Named(lines, objects[k].load_addr) then objects[k].load_addr else 0)
  }

  // No object was loaded above LOW.
  predicate LoadedLow(objects: seq<SpObject>, lines: seq<Mapping>) {
    forall k :: 0 <= k < |objects| && Starts(lines, objects[k].load_addr) ==> objects[k].load_addr < LOW
  }

  // A mapping that starts where an earlier one does is that one again, empty, and leaves no gap.
  lemma {:induction false} SameAgain(maps: seq<Mapping>, k: nat)
    requires Ordered(maps) && k < |maps| && exists j :: 0 <= j < k && maps[j].start == maps[k].start
    ensures LastEnd(maps[..k]) == maps[k].start == maps[k].end
    ensures forall j :: 0 <= j < k && maps[j].start == maps[k].start ==> maps[j] == maps[k]
  {
    var j :| 0 <= j < k && maps[j].start == maps[k].start;
    assert maps[j].end <= maps[k].start && maps[k - 1].end <= maps[k].start;
    if j < k - 1 {
      assert maps[j].end <= maps[k - 1].start;
    }
  }

  ghost predicate Distinct(objects: seq<SpObject>) {
    forall i, j :: 0 <= i < j < |objects| ==> objects[i] != objects[j]
  }

  // ---- what the allocator does, step by step, as a state machine ----

  // The chunks that are claimed, and what every object has left.
  datatype State = State(claimed: set<nat>, pools: seq<Pool>)

  ghost function ThePools(objects: seq<SpObject>): (s: seq<Pool>)
    reads objects
    ensures |s| == |objects| && forall k :: 0 <= k < |s| ==> s[k] == objects[k].ThePool()
  {
    seq(|objects|, k requires 0 <= k < |objects| reads objects => objects[k].ThePool())
  }

  // Object k is given its first pool.
  ghost predicate Binds(granted: (nat, nat) -> bool, chunks: seq<FreeInterval>, ps: nat, targets: seq<nat>, s: State,
                        k: nat, s': State)
    requires ps > 0
  {
    && k < |targets| == |s.pools| == |s'.pools| && s'.pools == s.pools[k := s'.pools[k]]
    && Refilled(granted, chunks, ps, targets[k], s.claimed, s.pools[k], s'.claimed, s'.pools[k])
  }

  ghost predicate Binding(granted: (nat, nat) -> bool, chunks: seq<FreeInterval>, ps: nat, targets: seq<nat>,
                          bound: seq<State>, n: nat)
    requires ps > 0
  {
    && |bound| == n + 1 && bound[0] == State({}, seq(|targets|, k => Pool(0, 0)))
    && forall k :: 0 <= k < n ==> Binds(granted, chunks, ps, targets, bound[k], k, bound[k + 1])
  }

  // The objects are given their first pools, one after another.
  ghost predicate Bound(granted: (nat, nat) -> bool, chunks: seq<FreeInterval>, ps: nat, targets: seq<nat>,
                        bound: seq<State>)
    requires ps > 0
    ensures Bound(granted, chunks, ps, targets, bound) ==> |bound| == |targets| + 1
  {
    Binding(granted, chunks, ps, targets, bound, |targets|)
  }

  // One request: out of the pool, or else out of a new one, or from elsewhere when that is too small as well.
  ghost predicate Serves(granted: (nat, nat) -> bool, chunks: seq<FreeInterval>, ps: nat, targets: seq<nat>, s: State,
                         r: Reply, s': State)
    requires ps > 0
  {
    var k, size := r.request.obj, r.request.size;
    && k < |targets| == |s.pools| == |s'.pools|
    && var p := if r.near then Pool(r.addr, s'.pools[k].buf_size + size + 1) else s'.pools[k];
       && (size <= s.pools[k].buf_size ==> p == s.pools[k] && s'.claimed == s.claimed)
       && (size > s.pools[k].buf_size ==>
             Refilled(granted, chunks, ps, targets[k], s.claimed, s.pools[k], s'.claimed, p))
       && (r.near <==> size <= p.buf_size)
       && s'.pools == s.pools[k := if r.near then Pool(r.addr + size + 1, p.buf_size - (size + 1)) else p]
  }

  // A run of requests, state by state.
  ghost predicate Served(granted: (nat, nat) -> bool, chunks: seq<FreeInterval>, ps: nat, targets: seq<nat>,
                         states: seq<State>, replies: seq<Reply>)
    requires ps > 0
  {
    && |states| == |replies| + 1
    && forall i :: 0 <= i < |replies| ==> Serves(granted, chunks, ps, targets, states[i], replies[i], states[i + 1])
  }

  lemma {:induction false} BindsFirst(granted: (nat, nat) -> bool, chunks: seq<FreeInterval>, ps: nat,
                                      targets: seq<nat>,
                                      s: State)
    requires ps > 0 && s.claimed == {} && |s.pools| == |targets|
    requires forall k :: 0 <= k < |targets| ==> s.pools[k] == Pool(0, 0)
    ensures Binding(granted, chunks, ps, targets, [s], 0)
  {
    assert s.pools == seq(|targets|, k => Pool(0, 0));
  }

  lemma {:induction false} BindsNext(granted: (nat, nat) -> bool, chunks: seq<FreeInterval>, ps: nat, targets: seq<nat>,
                                     bound: seq<State>, n: nat, s: State)
    requires ps > 0 && Binding(granted, chunks, ps, targets, bound, n)
    requires Binds(granted, chunks, ps, targets, bound[n], n, s)
    ensures Binding(granted, chunks, ps, targets, bound + [s], n + 1) && |bound| == n + 1
  {
    hide Binds;
  }

  lemma {:induction false} ServesNext(granted: (nat, nat) -> bool, chunks: seq<FreeInterval>, ps: nat,
                                      targets: seq<nat>,
                                      states: seq<State>, replies: seq<Reply>, r: Reply, s: State)
    requires ps > 0 && Served(granted, chunks, ps, targets, states, replies)
    requires Serves(granted, chunks, ps, targets, states[|replies|], r, s)
    ensures Served(granted, chunks, ps, targets, states + [s], replies + [r])
  {
    hide Serves;
  }

  // A request for a buffer close to an object.
  datatype Request = Request(obj: nat, size: nat)

  class SpAddrSpace {
    const ps: nat
    const objects: seq<SpObject>
    const granted: (nat, nat) -> bool     // whether the system maps a region that starts here and is this long
    var mem_maps: map<nat, Mapping>
    var free_intervals: seq<FreeInterval>
    ghost var maps: seq<Mapping>          // the mappings the process had
    ghost var chunks: seq<FreeInterval>   // the free intervals when none was used
    ghost var targets: seq<nat>           // where each object was loaded
    ghost var claims: map<nat, Claim>     // which object took which chunk
    ghost var handed: seq<Buffer>         // every buffer handed out of a chunk

    constructor (ps: nat, objects: seq<SpObject>, granted: (nat, nat) -> bool)
      ensures this.ps == ps && this.objects == objects && this.granted == granted
      ensures mem_maps == map[] && free_intervals == [] && handed == [] && claims == map[]
    {
      this.ps, this.objects, this.granted, mem_maps, free_intervals := ps, objects, granted, map[], [];
      maps, chunks, targets, claims, handed := [], [], [], map[], [];
    }

    // Each object's target is where its mapping starts, whether the mapping was parsed or made up.
    ghost predicate Targeted()
      reads this`mem_maps, this`targets
    {
      && |targets| == |objects|
      && (forall k :: 0 <= k < |objects| ==> targets[k] == Target(mem_maps, objects[k].load_addr) && targets[k] < LOW)
    }

    ghost predicate Pools()
      reads this`claims, this`chunks, objects
    {
      forall k :: 0 <= k < |objects| ==> PoolFits(k, objects[k].ThePool(), objects[k].chunk, claims, chunks)
    }

    ghost predicate Inv()
      reads this, objects
    {
      && Distinct(objects) && Layout(maps, chunks, ps) && Marked(free_intervals, chunks, claims)
      && Targeted() && ClaimsFit(claims, chunks, targets) && HandedFit(handed, claims, chunks) && Pools()
    }

    // UpdateMemoryMappings: records the mappings, as far as their addresses can be parsed, and the gaps between them.
    method UpdateMemoryMappings(lines: seq<Mapping>)
      requires Ordered(Parsed(lines)) && mem_maps == map[] && free_intervals == []
      modifies this`mem_maps, this`free_intervals, this`maps
      ensures maps == lines && free_intervals == Gaps(Parsed(lines))
      ensures forall a :: a in mem_maps <==> Named(lines, a)
      ensures forall a :: a in mem_maps ==> mem_maps[a].start == a
    {
      hide Gaps, LastEnd;
      ghost var parsed := Parsed(lines);
      var previous_end := 0;
      var k := 0;
      maps := lines;
      GapsNone();
      assert parsed[..0] == [];
      while k < |lines|
        invariant k <= |lines| && previous_end == LastEnd(parsed[..k]) && free_intervals == Gaps(parsed[..k])
                  && maps == lines
        invariant forall a :: a in mem_maps ==>
                    mem_maps[a].start == a && exists j :: 0 <= j < k && parsed[j] == mem_maps[a]
        invariant forall j :: 0 <= j < k ==> parsed[j].start in mem_maps && mem_maps[parsed[j].start] == parsed[j]
      {
        var mapping := Parse(lines[k]);
        assert mapping == parsed[k];
        GapsSnoc(parsed, k);
        if mapping.start !in mem_maps {
          mem_maps := mem_maps[mapping.start := mapping];
          if previous_end != mapping.start {
            free_intervals := free_intervals + [FreeInterval(previous_end, mapping.start, false)];
          }
          previous_end := mapping.end;
        } else {
          SameAgain(parsed, k);
        }
        k := k + 1;
      }
      assert parsed[..|lines|] == parsed;
    }

    // UpdateFreeIntervals, first loop: every hole keeps its top 1.5 GB.
    method ClampHoles(gaps: seq<FreeInterval>) returns (tmp_list: seq<FreeInterval>)
      ensures |tmp_list| == |gaps| && forall j :: 0 <= j < |gaps| ==> tmp_list[j] == Clamped(gaps[j])
    {
      tmp_list := gaps;
      var i := 0;
      while i < |tmp_list|
        invariant i <= |tmp_list| == |gaps|
        invariant forall j :: 0 <= j < |gaps| ==> tmp_list[j] == if j < i then Clamped(gaps[j]) else gaps[j]
      {
        if tmp_list[i].Size() > MAX_MAPPED_AREA_SIZE {
          var start := tmp_list[i].end - MAX_MAPPED_AREA_SIZE;
          tmp_list := tmp_list[i := FreeInterval(start, tmp_list[i].end, tmp_list[i].used)];
        }
        i := i + 1;
      }
    }

    // UpdateFreeIntervals, second loop: one hole is cut into chunks.
    method CutHole(f: FreeInterval)
      requires f.start < f.end
      modifies this`free_intervals
      ensures free_intervals == old(free_intervals) + Chunks(f.start, f.end)
    {
      hide Chunks;
      ghost var before, all := free_intervals, Chunks(f.start, f.end);
      var new_start: nat, new_end: nat := f.start, f.start + MAX_INTERVAL_SIZE;
      ghost var rest := all;
      var more := true;
      while more
        invariant new_end == new_start + MAX_INTERVAL_SIZE && (more <==> new_start < f.end)
        invariant rest == (if more then Chunks(new_start, f.end) else []) && before + all == free_intervals + rest
        decreases f.end - new_start, more
      {
        var new_interval := FreeInterval(new_start, new_end, false);
        if new_start + MAX_INTERVAL_SIZE > f.end {
          new_interval := new_interval.(end := f.end);
        }
        ChunkStep(new_start, f.end);
        ghost var tail := if new_start + MAX_INTERVAL_SIZE < f.end then Chunks(new_start + MAX_INTERVAL_SIZE, f.end)
          else [];
        SplitFirst(free_intervals, new_interval, tail);
        rest := tail;
        free_intervals := free_intervals + [new_interval];
        new_start := new_start + MAX_INTERVAL_SIZE;
        new_end := new_end + MAX_INTERVAL_SIZE;
        more := new_start < f.end;
      }
    }

    // UpdateFreeIntervals before the binding of objects: the holes are clamped and cut.
    method CutIntervals()
      requires Ascending(free_intervals)
      modifies this`free_intervals
      ensures free_intervals == AllChunks(old(free_intervals))
    {
      hide Chunks, Clamped, Ascending, AllChunks;
      ghost var gaps := free_intervals;
      var tmp_list := ClampHoles(free_intervals);
      free_intervals := [];
      var i := 0;
      AllChunksNone();
      assert gaps[..0] == [];
      while i < |tmp_list|
        invariant i <= |tmp_list| == |gaps| && Ascending(gaps[..i]) && free_intervals == AllChunks(gaps[..i])
      {
        AllChunksSnoc(gaps, i);
        CutHole(tmp_list[i]);
        i := i + 1;
      }
      assert gaps[..|gaps|] == gaps;
    }

    // The first free interval that starts at most 1.5 GB below the address is marked as used.
    method GetClosestInterval(addr: nat) returns (found: bool, at: nat)
      modifies this`free_intervals
      ensures found ==>
              at < |old(free_intervals)| && !old(free_intervals)[at].used
              && Near(old(free_intervals)[at], addr)
      ensures found ==> free_intervals == old(free_intervals)[at := old(free_intervals)[at].(used := true)]
      ensures !found ==> free_intervals == old(free_intervals)
      ensures forall j :: 0 <= j < (if found then at else |old(free_intervals)|) ==>
                old(free_intervals)[j].used || !Near(old(free_intervals)[j], addr)
    {
      at := 0;
      while at < |free_intervals|
        invariant at <= |free_intervals| && free_intervals == old(free_intervals)
        invariant forall j :: 0 <= j < at ==> free_intervals[j].used || !Near(free_intervals[j], addr)
      {
        var f := free_intervals[at];
        if f.start <= addr && !f.used && addr - f.start <= MAX_MAPPED_AREA_SIZE {
          free_intervals := free_intervals[at := f.(used := true)];
          return true, at;
        }
        at := at + 1;
      }
      found := false;
    }

    // The mapping the object was loaded at; an absent one is made up, as the map's indexing operator does.
    method MappingOf(k: nat) returns (start: nat)
      requires k < |objects| && Targeted()
      modifies this`mem_maps
      ensures Targeted() && start == targets[k] < LOW
    {
      var load_addr := objects[k].load_addr;
      if load_addr !in mem_maps {
        mem_maps := mem_maps[load_addr := Mapping(0, 0)];
      }
      start := mem_maps[load_addr].start;
    }

    // The region asked for: the whole chunk, rounded to pages and counted from its end.
    method RegionOf(interval: FreeInterval) returns (base: nat, size: nat)
      requires PageSize(ps) && interval.start < interval.end && interval.Size() <= MAX_INTERVAL_SIZE
      requires RoundUp(interval.Size(), ps) == interval.Size() && Aligned(interval.Size(), ps)
      requires interval.start < ps ==> interval.start == 0 && interval.Size() >= ps
      ensures base == RegionStart(interval, ps) && base + size == interval.end && Aligned(size, ps)
    {
      hide RoundUp, Aligned;
      OnePage(ps);
      var asked := interval.Size();
      if asked > 2147483646 {
        asked := 2147483646;
      }
      size := RoundUp(asked, ps);
      base := interval.end - size;
      if base < ps {
        AlignedDifference(size, ps, ps);
        base := base + ps;
        size := size - ps;
      }
    }

    // allocateNewInterval: a free chunk near the object is claimed for it, and as much of its end as the
    // system grants becomes the pool.
    method AllocateNewInterval(k: nat) returns (ok: bool, ghost at: nat)
      requires Inv() && k < |objects|
      modifies this`mem_maps, this`free_intervals, this`claims
      modifies objects[k]
      ensures Inv()
      ensures ok ==>
              at < |chunks| && at !in old(claims) && claims == old(claims)[at := Claim(k, chunks[at].start)]
              && Near(chunks[at], targets[k])
      ensures (ok && objects[k].chunk == Some(at) && Aligned(objects[k].buf_size, ps))
              || (objects[k].chunk == old(objects[k].chunk) && objects[k].ThePool() == old(objects[k].ThePool()))
      ensures !ok ==> claims == old(claims)
      ensures !ok ==> forall j :: 0 <= j < |chunks| ==> j in claims || !Near(chunks[j], targets[k])
      ensures ps > 0 && Refilled(granted, chunks, ps, targets[k], old(claims.Keys), old(objects[k].ThePool()),
                                 claims.Keys, objects[k].ThePool())
    {
      hide Layout, HandedFit, ClaimsFit, Marked, Aligned, Refilled, Nearest, Asked, Pools;
      ghost var fi0, claims0, pool := free_intervals, claims, objects[k].ThePool();
      var start := MappingOf(k);
      var found: bool, place: nat := GetClosestInterval(start);
      if !found {
        NoneNear(maps, fi0, chunks, claims, ps, granted, targets[k], pool);
        return false, 0;
      }
      ok, at := true, place;
      var mapped := ClaimChunk(k, fi0, place);
      OnlyNearest(fi0, chunks, claims0, ps, granted, targets[k], place, pool, objects[k].ThePool(), mapped);
      KeysGrow(claims0, at, Claim(k, chunks[at].start));
    }

    // The chunk found is claimed, and what the system grants of it becomes the pool.
    method ClaimChunk(k: nat, ghost fi0: seq<FreeInterval>, place: nat) returns (mapped: bool)
      requires k < |objects| && Distinct(objects) && Layout(maps, chunks, ps) && Targeted() && Pools()
      requires ClaimsFit(claims, chunks, targets) && HandedFit(handed, claims, chunks) && Marked(fi0, chunks, claims)
      requires place < |fi0| && !fi0[place].used && Near(fi0[place], targets[k])
      requires free_intervals == fi0[place := fi0[place].(used := true)]
      modifies this`claims, objects[k]
      ensures Inv() && ps > 0 && place < |chunks| && place !in old(claims)
      ensures claims == old(claims)[place := Claim(k, chunks[place].start)] && Near(chunks[place], targets[k])
      ensures var start, end := RegionStart(chunks[place], ps), chunks[place].end;
              && (mapped <==> exists q: Pool :: Asked(start, end, ps, q) && granted(q.base, q.buf_size))
              && (mapped ==> Asked(start, end, ps, objects[k].ThePool())
                             && granted(objects[k].ThePool().base, objects[k].ThePool().buf_size))
              && (mapped ==> forall q: Pool :: Asked(start, end, ps, q) && granted(q.base, q.buf_size) ==>
                               objects[k].ThePool().base <= q.base)
      ensures mapped ==> objects[k].chunk == Some(place) && Aligned(objects[k].buf_size, ps)
      ensures !mapped ==> objects[k].chunk == old(objects[k].chunk) && objects[k].ThePool() == old(objects[k].ThePool())
    {
      hide Layout, HandedFit, ClaimsFit, PoolFits, RoundUp, Ascending, Mapped, Marked, Aligned;
      var obj := objects[k];
      ghost var claims0 := claims;
      ChunkRegion(maps, fi0, chunks, claims, ps, place);
      var base, size := RegionOf(free_intervals[place]);
      ClaimKeeps(fi0, chunks, claims0, targets, handed, place, k);
      claims := claims[place := Claim(k, chunks[place].start)];
      mapped := obj.InitMemoryAlloc(granted, base, size, ps);
      if mapped {
        obj.chunk := Some(place);
        FreshPool(k, obj.ThePool(), place, claims, chunks);
      }
      forall j | 0 <= j < |objects|
        ensures PoolFits(j, objects[j].ThePool(), objects[j].chunk, claims, chunks)
      {
        ClaimKeepsPool(j, old(objects[j].ThePool()), old(objects[j].chunk), claims0, chunks, place,
                       Claim(k, chunks[place].start));
      }
    }

    // UpdateFreeIntervals: cuts the holes, then binds a chunk to every object that has one near.
    method UpdateFreeIntervals() returns (ghost bound: seq<State>)
      requires PageSize(ps) && Listed(maps, ps) && free_intervals == Gaps(Parsed(maps))
      requires forall k :: 0 <= k < |objects| ==> Target(mem_maps, objects[k].load_addr) < LOW
      requires Distinct(objects) && claims == map[] && handed == []
      requires forall k :: 0 <= k < |objects| ==> objects[k].ThePool() == Pool(0, 0) && objects[k].chunk == None
      modifies this`mem_maps, this`free_intervals, this`chunks, this`targets, this`claims, objects
      ensures Inv() && handed == [] && maps == old(maps)
      ensures CutFrom(chunks, maps) && PageSize(ps)
              && (forall k :: 0 <= k < |objects| ==> Aligned(objects[k].buf_size, ps))
      ensures forall k :: 0 <= k < |objects| ==> targets[k] == Target(old(mem_maps), objects[k].load_addr)
      ensures ps > 0 && Bound(granted, chunks, ps, targets, bound) && bound[|objects|] == Now()
    {
      hide Layout, HandedFit, ClaimsFit, Marked, Gaps, AllChunks, Listed, Ascending, Mapped, Aligned, Bound;
      FreshLayout(maps, ps);
      OnePage(ps);
      CutIntervals();
      chunks := free_intervals;
      ghost var m := mem_maps;
      targets := seq(|objects|, k requires 0 <= k < |objects| => Target(m, objects[k].load_addr));
      UnusedChunks(maps, chunks, ps);
      Unclaimed(chunks, targets);
      bound := BindObjects();
    }

    // UpdateFreeIntervals, last loop: every object in turn is given what it can get of a chunk.
    method BindObjects() returns (ghost bound: seq<State>)
      requires Inv() && ps > 0 && claims == map[]
      requires forall k :: 0 <= k < |objects| ==> objects[k].ThePool() == Pool(0, 0) && Aligned(objects[k].buf_size, ps)
      modifies this`mem_maps, this`free_intervals, this`claims, objects
      ensures Inv() && |targets| == |objects|
      ensures forall k :: 0 <= k < |objects| ==> Aligned(objects[k].buf_size, ps)
      ensures Bound(granted, chunks, ps, targets, bound) && bound[|objects|] == Now()
    {
      hide Inv, Aligned, Refilled, Nearest;
      Facts();
      var k := 0;
      bound := [Now()];
      BindsFirst(granted, chunks, ps, targets, Now());
      while k < |objects|
        invariant k <= |objects| && Inv()
        invariant forall j :: 0 <= j < |objects| ==> Aligned(objects[j].buf_size, ps)
        invariant Binding(granted, chunks, ps, targets, bound, k) && bound[k] == Now()
      {
        hide Binding;
        ghost var pools := ThePools(objects);
        SomeObjects();
        var ok, at := AllocateNewInterval(k);
        OnlyPool(objects, pools, k, ThePools(objects));
        BindsNext(granted, chunks, ps, targets, bound, k, Now());
        bound := bound + [Now()];
        k := k + 1;
      }
    }

    // InitMemoryAllocator: from the mappings of the process to an allocator that is ready.
    method InitMemoryAllocator(lines: seq<Mapping>) returns (ghost bound: seq<State>)
      requires PageSize(ps) && Listed(lines, ps) && LoadedLow(objects, lines)
      requires mem_maps == map[] && free_intervals == [] && claims == map[] && handed == [] && Distinct(objects)
      requires forall k :: 0 <= k < |objects| ==> objects[k].ThePool() == Pool(0, 0) && objects[k].chunk == None
      modifies this, objects
      ensures Inv() && handed == [] && maps == lines && CutFrom(chunks, lines)
      ensures forall k :: 0 <= k < |objects| ==> Aligned(objects[k].buf_size, ps)
      ensures Loaded(targets, lines, objects) && targets == TargetsOf(lines, objects)
      ensures ps > 0 && Bound(granted, chunks, ps, targets, bound) && bound[|objects|] == Now()
    {
      hide Bound, Now, Inv, Gaps, AllChunks, Ordered, PageAligned, Listed, CutFrom, Aligned;
      SomePage(ps);
      ParsedFits(lines, ps);
      UpdateMemoryMappings(lines);
      ghost var m := mem_maps;
      bound := UpdateFreeIntervals();
      Facts();
      forall k, j | 0 <= k < |objects| && 0 <= j < |lines| && lines[j].start == objects[k].load_addr
        ensures targets[k] == lines[j].start
      {
        assert Starts(lines, lines[j].start);
        assert Named(lines, Strtol(lines[j].start));
        assert Strtol(lines[j].start) in m
          && (lines[j].start <= LONG_MAX ==> Target(m, lines[j].start) == lines[j].start);
      }
    }

    // What the allocator has to go by.
    ghost function Now(): State
      reads this`claims, objects
    {
      State(claims.Keys, ThePools(objects))
    }

    // Where the pool of an object ends: with its chunk, or at zero.
    ghost function PoolEnd(chunk: Option<nat>): nat
      reads this`chunks
    {
      if chunk.Some? && chunk.value < |chunks| then chunks[chunk.value].end else 0
    }

    // AllocateBuffer: out of the pool, out of a newly claimed chunk, or, when there is none, from the heap. room is
    // the size of the pool the buffer is taken out of. The pool takes one byte more than was asked for, so a request
    // for exactly that size breaks it, and no other does. A pool that is not refilled shows its size before the call;
    // a refilled one is a whole number of pages.
    method AllocateBuffer(k: nat, size: nat) returns (ret: nat, near: bool, room: nat)
      requires k < |objects| && size < U64 && objects[k].buf_size < U64
      requires Inv() || size <= objects[k].buf_size
      modifies this`mem_maps, this`free_intervals, this`claims, this`handed, objects[k]
      ensures room < U64 && (near <==> size <= room)
      ensures if near then objects[k].ThePool() == Bump(Pool(ret, room), size) else objects[k].buf_size == room
      ensures old(objects[k].buf_size) >= size ==>
                Pool(ret, room) == old(objects[k].ThePool()) && objects[k].chunk == old(objects[k].chunk)
      ensures old(objects[k].buf_size) < size ==> room == old(objects[k].buf_size) || (ps > 0 && Aligned(room, ps))
      ensures old(Inv()) ==> (Inv() <==> !(near && size == room))
      ensures old(Inv()) && near && size < room ==>
                objects[k].chunk.Some? && handed == old(handed) + [Buffer(k, objects[k].chunk.value, ret, size)]
      ensures old(Inv()) && (!near || size == room) ==> handed == old(handed)
      ensures old(Inv()) && near ==> ret + room == PoolEnd(objects[k].chunk)
      ensures old(objects[k].buf_size) >= size ==> old(Inv()) ==> claims.Keys == old(claims.Keys)
      ensures old(objects[k].buf_size) < size ==>
                ps > 0 && k < |targets| && Refilled(granted, chunks, ps, targets[k], old(claims.Keys),
                    old(objects[k].ThePool()), claims.Keys, if near then Pool(ret, room) else objects[k].ThePool())
      ensures old(Inv()) ==>
                (near <==> old(objects[k].buf_size) >= size
                           || exists at: nat, p: Pool ::
                             && Nearest(chunks, old(claims.Keys), targets[k], at)
                             && Largest(granted, RegionStart(chunks[at], ps), chunks[at].end, ps, p)
                             && p.buf_size >= size)
    {
      hide Inv, Refilled, Nearest, Largest, Bump, Aligned;
      var obj := objects[k];
      ghost var sound := Inv();
      if obj.buf_size < size {
        Facts();
        var ok, at := AllocateNewInterval(k);
        EnoughGranted(chunks, ps, granted, targets[k], old(claims.Keys), old(objects[k].ThePool()), claims.Keys,
                      objects[k].ThePool(), size);
      }
      room := obj.buf_size;
      if obj.buf_size >= size {
        ret := obj.base;
        near := true;
        if sound {
          PoolEnds(k);
        }
        TakeFromPool(k, size);
        return;
      }
      // posix_memalign
      ret := *;
      near := false;
    }

    lemma {:induction false} PoolEnds(k: nat)
      requires Inv() && k < |objects|
      ensures objects[k].base + objects[k].buf_size == PoolEnd(objects[k].chunk)
              && objects[k].buf_size <= MAX_INTERVAL_SIZE
    {
      hide Layout, HandedFit, ClaimsFit, Marked;
      PoolSmall(k, objects[k].ThePool(), objects[k].chunk, claims, maps, chunks, ps, targets);
    }

    lemma {:induction false} Facts()
      requires Inv()
      ensures Layout(maps, chunks, ps) && ClaimsFit(claims, chunks, targets) && HandedFit(handed, claims, chunks)
      ensures |targets| == |objects| && ps > 0
    {
      SomePage(ps);
    }

    // The bump of AllocateBuffer, and what it does to the invariant.
    method TakeFromPool(k: nat, size: nat)
      requires k < |objects| && size <= objects[k].buf_size < U64
      modifies this`claims, this`handed, objects[k]
      ensures objects[k].chunk == old(objects[k].chunk)
      ensures objects[k].ThePool() == Bump(old(objects[k].ThePool()), size)
      ensures old(Inv()) ==> claims.Keys == old(claims.Keys)
      ensures old(Inv()) ==> (Inv() <==> size != old(objects[k].buf_size))
      ensures old(Inv()) && size != old(objects[k].buf_size) ==>
                objects[k].chunk.Some? && handed == old(handed)
                  + [Buffer(k, objects[k].chunk.value, old(objects[k].base), size)]
      ensures old(Inv()) && size == old(objects[k].buf_size) ==> handed == old(handed)
    {
      hide Layout, HandedFit, ClaimsFit, Bump, Marked, Ascending;
      var obj := objects[k];
      ghost var p, chunk, claims0, sound := obj.ThePool(), obj.chunk, claims, Inv();
      obj.Take(size);
      if sound {
        PoolSmall(k, p, chunk, claims, maps, chunks, ps, targets);
        BumpStays(p, size, p.base + p.buf_size);
        if size == p.buf_size {
          if Inv() {
            PoolSmall(k, obj.ThePool(), chunk, claims, maps, chunks, ps, targets);
          }
        } else {
          HandKeeps(chunks, claims, targets, handed, k, p, chunk.value, size);
          handed := handed + [Buffer(k, chunk.value, p.base, size)];
          claims := claims[chunk.value := Claim(k, p.base + size + 1)];
          forall j | 0 <= j < |objects|
            ensures PoolFits(j, objects[j].ThePool(), objects[j].chunk, claims, chunks)
          {
            if j != k {
              ClaimKeepsPool(j, objects[j].ThePool(), objects[j].chunk, claims0, chunks, chunk.value,
                             Claim(k, p.base + size + 1));
            }
          }
          MarkedStays(free_intervals, chunks, claims0, chunk.value, Claim(k, p.base + size + 1));
        }
      }
    }

    // One request of a run: answered, unless it asks for exactly what its pool has left.
    method Answer(requests: seq<Request>, n: nat) returns (reply: Reply, exact: bool, room: nat)
      requires Inv() && ps > 0 && n < |requests| && requests[n].obj < |objects| && requests[n].size < U64
      requires Explained(BufSizes(objects), requests[..n], ps)
      modifies this`mem_maps, this`free_intervals, this`claims, this`handed, objects[requests[n].obj]
      ensures exact ==>
              requests[n].size == room && Risky(requests, n, ps)
              && objects[requests[n].obj].buf_size == U64 - 1
      ensures !exact ==> Inv() && Explained(BufSizes(objects), requests[..n + 1], ps) && reply.request == requests[n]
      ensures !exact && reply.near ==>
                && objects[requests[n].obj].chunk.Some?
                && handed == old(handed) + [Buffer(requests[n].obj, objects[requests[n].obj].chunk.value, reply.addr,
                     requests[n].size)]
      ensures !exact && !reply.near ==> handed == old(handed)
      ensures !exact ==> Serves(granted, chunks, ps, targets, old(Now()), reply, Now())
    {
      hide Inv, Explained, Risky, Aligned, Bump, Refilled, Serves, Residues, Nearest, Largest;
      var r := requests[n];
      ghost var sizes, pools, before := BufSizes(objects), ThePools(objects), Now();
      Facts();
      PoolEnds(r.obj);
      SomeObjects();
      var addr, near;
      addr, near, room := AllocateBuffer(r.obj, r.size);
      reply, exact := Reply(r, addr, near), near && room == r.size;
      if near {
        BumpLeaves(Pool(addr, room), r.size);
      }
      if exact {
        ExactRisky(sizes, requests, n, ps, room);
      } else {
        ExplainedNext(sizes, requests, n, ps, room, objects[r.obj].buf_size);
        OnlyOne(objects, sizes, r.obj, BufSizes(objects));
        OnlyPool(objects, pools, r.obj, ThePools(objects));
        ServesBy(granted, chunks, ps, targets, before, reply, Now(), room);
      }
    }

    // Without chunks there are no pools.
    lemma {:induction false} NoPool(k: nat)
      requires Inv() && chunks == [] && k < |objects|
      ensures objects[k].ThePool() == Pool(0, 0) && objects[k].chunk == None
    {
      hide Layout, HandedFit, ClaimsFit, Marked;
      assert PoolFits(k, objects[k].ThePool(), objects[k].chunk, claims, chunks);
    }

    lemma {:induction false} SomeObjects()
      requires Inv()
      ensures Distinct(objects)
    {
    }

    // What an exact request leads to: the next request, of any size, is answered just beyond the chunk.
    method Overrun(k: nat, size: nat, next: nat) returns (first: nat, second: nat)
      requires Inv() && k < |objects| && size == objects[k].buf_size && next < U64
      modifies this`mem_maps, this`free_intervals, this`claims, this`handed, objects[k]
      ensures objects[k].chunk == old(objects[k].chunk) && first == old(objects[k].base)
      ensures second == PoolEnd(objects[k].chunk) + 1
      ensures !Inv()
    {
      hide Refilled, Nearest, Largest;
      PoolEnds(k);
      var near, room;
      first, near, room := AllocateBuffer(k, size);
      second, near, room := AllocateBuffer(k, next);
      if Inv() {
        PoolEnds(k);
      }
    }
  }

  lemma {:induction false} KeysGrow(claims: map<nat, Claim>, at: nat, claim: Claim)
    ensures claims[at := claim].Keys == claims.Keys + {at}
  {
  }

  // A request larger than the pool is met exactly when enough of the nearest chunk is granted.
  lemma {:induction false} EnoughGranted(chunks: seq<FreeInterval>, ps: nat, granted: (nat, nat) -> bool, target: nat,
                                         claimed: set<nat>, p: Pool, claimed': set<nat>, p': Pool, size: nat)
    requires ps > 0 && Refilled(granted, chunks, ps, target, claimed, p, claimed', p') && p.buf_size < size
    ensures p'.buf_size >= size <==>
            exists at: nat, q: Pool ::
              && Nearest(chunks, claimed, target, at)
              && Largest(granted, RegionStart(chunks[at], ps), chunks[at].end, ps, q) && q.buf_size >= size
  {
    hide Asked, Near;
    if p'.buf_size >= size {
      var at: nat :| Nearest(chunks, claimed, target, at);
      assert Largest(granted, RegionStart(chunks[at], ps), chunks[at].end, ps, p');
    }
    forall at: nat, q: Pool | Nearest(chunks, claimed, target, at)
                              && Largest(granted, RegionStart(chunks[at], ps), chunks[at].end, ps, q)
      ensures p' == q
    {
      OneLargest(granted, RegionStart(chunks[at], ps), chunks[at].end, ps, p', q);
    }
  }

  lemma {:induction false} OneLargest(granted: (nat, nat) -> bool, start: nat, end: nat, ps: nat, p: Pool, q: Pool)
    requires ps > 0 && Largest(granted, start, end, ps, p) && Largest(granted, start, end, ps, q)
    ensures p == q
  {
  }

  lemma {:induction false} FreshPool(k: nat, p: Pool, at: nat, claims: map<nat, Claim>, chunks: seq<FreeInterval>)
    requires at < |chunks| && at in claims && claims[at] == Claim(k, chunks[at].start)
    requires chunks[at].start <= p.base && p.base + p.buf_size == chunks[at].end
    ensures PoolFits(k, p, Some(at), claims, chunks)
  {
  }

  lemma {:induction false} NoneNear(maps: seq<Mapping>, fi: seq<FreeInterval>, chunks: seq<FreeInterval>,
                                    claims: map<nat, Claim>, ps: nat, granted: (nat, nat) -> bool, target: nat, p: Pool)
    requires Layout(maps, chunks, ps) && Marked(fi, chunks, claims)
    requires forall j :: 0 <= j < |fi| ==> fi[j].used || !Near(fi[j], target)
    ensures forall j :: 0 <= j < |chunks| ==> j in claims || !Near(chunks[j], target)
    ensures ps > 0 && Refilled(granted, chunks, ps, target, claims.Keys, p, claims.Keys, p)
  {
    hide Largest, Ascending, Mapped;
    assert forall j :: 0 <= j < |chunks| ==> Near(chunks[j], target) == Near(fi[j], target);
  }

  // What the first free interval near the target and the mapping of it come to.
  lemma {:induction false} OnlyNearest(fi: seq<FreeInterval>, chunks: seq<FreeInterval>, claims: map<nat, Claim>,
                                       ps: nat, granted: (nat, nat) -> bool, target: nat, at: nat, p: Pool, p': Pool,
                                       mapped: bool)
    requires ps > 0 && Marked(fi, chunks, claims) && at < |fi| && !fi[at].used && Near(fi[at], target)
    requires forall j :: 0 <= j < at ==> fi[j].used || !Near(fi[j], target)
    requires var start, end := RegionStart(chunks[at], ps), chunks[at].end;
             && (mapped <==> exists q: Pool :: Asked(start, end, ps, q) && granted(q.base, q.buf_size))
             && (mapped ==> Asked(start, end, ps, p') && granted(p'.base, p'.buf_size))
             && (mapped ==> forall q: Pool :: Asked(start, end, ps, q) && granted(q.base, q.buf_size) ==>
                   p'.base <= q.base)
             && (!mapped ==> p' == p)
    ensures Refilled(granted, chunks, ps, target, claims.Keys, p, claims.Keys + {at}, p')
  {
    hide Asked;
    assert forall j :: 0 <= j < |chunks| ==> Near(chunks[j], target) == Near(fi[j], target);
    assert Nearest(chunks, claims.Keys, target, at);
    assert forall a: nat :: Nearest(chunks, claims.Keys, target, a) ==> a == at;
  }

  lemma {:induction false} ChunkRegion(maps: seq<Mapping>, fi: seq<FreeInterval>, chunks: seq<FreeInterval>,
                                       claims: map<nat, Claim>, ps: nat, at: nat)
    requires Layout(maps, chunks, ps) && at < |fi| && Marked(fi, chunks, claims) && fi[at].start < LOW
    ensures PageSize(ps) && Ascending(chunks) && at < |chunks| == |fi|
    ensures fi[at].start == chunks[at].start && fi[at].end == chunks[at].end
    ensures 0 < chunks[at].Size() <= MAX_INTERVAL_SIZE
    ensures RoundUp(chunks[at].Size(), ps) == chunks[at].Size() && Aligned(chunks[at].Size(), ps)
    ensures chunks[at].start < ps ==> chunks[at].start == 0 && chunks[at].Size() >= ps
  {
    RegionInside(chunks[at], ps);
  }

  // ---- whole runs ----

  // The answer to a request: an address, and whether it came out of a chunk.
  datatype Reply = Reply(request: Request, addr: nat, near: bool)

  predicate Apiece(a: Reply, b: Reply) {
    a.near && b.near ==> a.addr + a.request.size <= b.addr || b.addr + b.request.size <= a.addr
  }

  // The reply's buffer is off every mapping, and within reach of where its object was loaded.
  ghost predicate Reachable(r: Reply, maps: seq<Mapping>, objects: seq<SpObject>) {
    r.near ==>
      && r.request.obj < |objects|
      && (forall a: nat :: r.addr <= a < r.addr + r.request.size ==> !Mapped(maps, a))
      && (forall j :: 0 <= j < |maps| && maps[j].start == objects[r.request.obj].load_addr ==>
            IsDisp32(r.addr - maps[j].start) && IsDisp32(r.addr + r.request.size - maps[j].start))
  }

  // Every reply out of a chunk is a buffer that was recorded, the later the later.
  ghost predicate Recorded(replies: seq<Reply>, place: seq<nat>, handed: seq<Buffer>) {
    && |place| == |replies|
    && (forall i :: 0 <= i < |replies| && replies[i].near ==>
          && place[i] < |handed| && handed[place[i]].obj == replies[i].request.obj
          && handed[place[i]].addr == replies[i].addr && handed[place[i]].size == replies[i].request.size)
    && (forall i, j :: 0 <= i < j < |replies| && replies[i].near && replies[j].near ==> place[i] < place[j])
  }

  lemma {:induction false} RecordedNext(replies: seq<Reply>, place: seq<nat>, handed: seq<Buffer>, r: Reply, b: Buffer)
    requires Recorded(replies, place, handed)
    requires b.obj == r.request.obj && b.addr == r.addr && b.size == r.request.size
    ensures Recorded(replies + [r], place + [|handed|], handed + [b])
  {
  }

  lemma {:induction false} RecordedFar(replies: seq<Reply>, place: seq<nat>, handed: seq<Buffer>, r: Reply)
    requires Recorded(replies, place, handed) && !r.near
    ensures Recorded(replies + [r], place + [0], handed)
  {
  }

  lemma {:induction false} RecordedReply(replies: seq<Reply>, place: seq<nat>, handed: seq<Buffer>, after: seq<Buffer>,
                                         r: Reply, chunk: Option<nat>) returns (place': seq<nat>)
    requires Recorded(replies, place, handed)
    requires if r.near then chunk.Some?
             && after == handed + [Buffer(r.request.obj, chunk.value, r.addr, r.request.size)]
             else after == handed
    ensures Recorded(replies + [r], place', after) && |place'| == |place| + 1
  {
    hide Recorded;
    if r.near {
      RecordedNext(replies, place, handed, r, Buffer(r.request.obj, chunk.value, r.addr, r.request.size));
      place' := place + [|handed|];
    } else {
      RecordedFar(replies, place, handed, r);
      place' := place + [0];
    }
  }

  lemma {:induction false} RecordedNone()
    ensures Recorded([], [], [])
  {
  }

  // Every buffer out of a chunk is reachable and none overlaps another.
  ghost predicate Safe(replies: seq<Reply>, maps: seq<Mapping>, objects: seq<SpObject>) {
    && (forall i :: 0 <= i < |replies| ==> Reachable(replies[i], maps, objects))
    && (forall i, j :: 0 <= i < j < |replies| ==> Apiece(replies[i], replies[j]))
  }

  lemma {:induction false} RunSafe(maps: seq<Mapping>, chunks: seq<FreeInterval>, ps: nat, claims: map<nat, Claim>,
                                   targets: seq<nat>, handed: seq<Buffer>, replies: seq<Reply>, place: seq<nat>,
                                     objects: seq<SpObject>)
    requires Layout(maps, chunks, ps) && ClaimsFit(claims, chunks, targets) && HandedFit(handed, claims, chunks)
    requires Recorded(replies, place, handed) && Loaded(targets, maps, objects)
    ensures Safe(replies, maps, objects)
  {
    hide Layout, ClaimsFit, Mapped, IsDisp32;
    forall i | 0 <= i < |replies|
      ensures Reachable(replies[i], maps, objects)
    {
      hide HandedFit;
      if replies[i].near {
        ReachReply(maps, chunks, ps, claims, targets, handed, place[i], replies[i], objects);
      }
    }
    forall i, j | 0 <= i < j < |replies| && replies[i].near && replies[j].near
      ensures Apiece(replies[i], replies[j])
    {
      assert Disjoint(handed[place[i]], handed[place[j]]);
    }
  }

  lemma {:induction false} ReachReply(maps: seq<Mapping>, chunks: seq<FreeInterval>, ps: nat, claims: map<nat, Claim>,
                                      targets: seq<nat>, handed: seq<Buffer>, n: nat, r: Reply, objects: seq<SpObject>)
    requires Layout(maps, chunks, ps) && ClaimsFit(claims, chunks, targets) && HandedFit(handed, claims, chunks)
    requires n < |handed| && handed[n] == Buffer(r.request.obj, handed[n].chunk, r.addr, r.request.size)
    requires Loaded(targets, maps, objects)
    ensures Reachable(r, maps, objects)
  {
    hide Layout, ClaimsFit, HandedFit, Mapped, IsDisp32;
    forall a: nat | r.addr <= a < r.addr + r.request.size
      ensures !Mapped(maps, a)
    {
      Reach(maps, chunks, ps, claims, targets, handed, n, a);
    }
    Reach(maps, chunks, ps, claims, targets, handed, n, r.addr);
    Reach(maps, chunks, ps, claims, targets, handed, n, r.addr + r.request.size);
  }

  // The remainders, by pages, that the pool of object k may have after some requests: a new pool is whole pages, and
  // every buffer takes its size and one byte.
  function Residues(requests: seq<Request>, k: nat, ps: nat): (r: set<nat>)
    requires ps > 0
    ensures 0 in r
  {
    if requests == [] then {0} else
      var n := |requests| - 1;
      var before := Residues(requests[..n], k, ps);
      if requests[n].obj != k then before
      else before + set x | x in before :: (x - (requests[n].size + 1)) % ps
  }

  // Whether a request could ask for exactly what a pool has left: something its caller can tell beforehand.
  predicate Risky(requests: seq<Request>, n: nat, ps: nat)
    requires ps > 0 && n < |requests|
  {
    requests[n].size % ps in Residues(requests[..n], requests[n].obj, ps)
  }

  ghost function BufSizes(objects: seq<SpObject>): (s: seq<nat>)
    reads objects
    ensures |s| == |objects| && forall k :: 0 <= k < |s| ==> s[k] == objects[k].buf_size
  {
    seq(|objects|, k requires 0 <= k < |objects| reads objects => objects[k].buf_size)
  }

  // The remainders of all pools are those the requests explain.
  ghost predicate Explained(sizes: seq<nat>, requests: seq<Request>, ps: nat)
    requires ps > 0
  {
    forall k :: 0 <= k < |sizes| ==> sizes[k] % ps in Residues(requests, k, ps)
  }

  lemma {:induction false} ExplainedFirst(sizes: seq<nat>, ps: nat)
    requires ps > 0 && forall k :: 0 <= k < |sizes| ==> Aligned(sizes[k], ps)
    ensures Explained(sizes, [], ps)
  {
  }

  // The pool of the object after request n is what is left of room, which is what it was or whole pages.
  lemma {:induction false} ExplainedNext(sizes: seq<nat>, requests: seq<Request>, n: nat, ps: nat, room: nat, left: nat)
    requires ps > 0 && n < |requests| && requests[n].obj < |sizes| && Explained(sizes, requests[..n], ps)
    requires room == sizes[requests[n].obj] || Aligned(room, ps)
    requires left == room || left + requests[n].size + 1 == room
    ensures Explained(sizes[requests[n].obj := left], requests[..n + 1], ps)
  {
    hide Residues;
    var obj := requests[n].obj;
    var after := sizes[obj := left];
    forall k | 0 <= k < |after|
      ensures after[k] % ps in Residues(requests[..n + 1], k, ps)
    {
      if k == obj {
        ResiduesNext(requests, n, k, ps, room % ps);
        ModTake(room, requests[n].size + 1, ps);
      } else {
        ResiduesNext(requests, n, k, ps, sizes[k] % ps);
      }
    }
  }

  // A request for exactly the pool is risky.
  lemma {:induction false} ExactRisky(sizes: seq<nat>, requests: seq<Request>, n: nat, ps: nat, room: nat)
    requires ps > 0 && n < |requests| && requests[n].obj < |sizes| && Explained(sizes, requests[..n], ps)
    requires room == sizes[requests[n].obj] || Aligned(room, ps)
    requires requests[n].size == room
    ensures Risky(requests, n, ps)
  {
    hide Residues;
  }

  lemma {:induction false} ResiduesNext(requests: seq<Request>, n: nat, k: nat, ps: nat, x: nat)
    requires ps > 0 && n < |requests| && x in Residues(requests[..n], k, ps)
    ensures x in Residues(requests[..n + 1], k, ps)
    ensures k == requests[n].obj ==> (x - (requests[n].size + 1)) % ps in Residues(requests[..n + 1], k, ps)
  {
    assert requests[..n + 1][..n] == requests[..n];
  }

  // With odd sizes and an even page size no request is risky.
  lemma {:induction false} OddSizes(requests: seq<Request>, k: nat, ps: nat, x: nat)
    requires ps > 0 && ps % 2 == 0 && forall i :: 0 <= i < |requests| ==> requests[i].size % 2 == 1
    requires x in Residues(requests, k, ps)
    ensures x % 2 == 0
    decreases |requests|
  {
    hide Residues;
    var y := ResidueFrom(requests, k, ps, x);
    if requests != [] {
      var front := requests[..|requests| - 1];
      OddSizes(front, k, ps, y);
      if x != y {
        EvenMod(y - (requests[|front|].size + 1), ps);
      }
    }
  }

  lemma {:induction false} ResidueFrom(requests: seq<Request>, k: nat, ps: nat, x: nat) returns (y: nat)
    requires ps > 0 && x in Residues(requests, k, ps)
    ensures requests == [] ==> x == 0
    ensures requests != [] ==>
              && y in Residues(requests[..|requests| - 1], k, ps)
              && (x == y || x == (y - (requests[|requests| - 1].size + 1)) % ps)
  {
    if requests == [] {
      y := 0;
    } else {
      var n := |requests| - 1;
      var before := Residues(requests[..n], k, ps);
      if x in before {
        y := x;
      } else {
        y :| y in before && x == (y - (requests[n].size + 1)) % ps;
      }
    }
  }

  lemma {:induction false} EvenMod(y: int, ps: nat)
    requires ps > 0 && ps % 2 == 0
    ensures y % ps % 2 == y % 2
  {
    DivMod(y, ps);
    DivMod(ps, 2);
    Twice(y / ps, ps / 2, ps);
    EvenSum(y, y / ps * (ps / 2), y % ps);
  }

  lemma {:induction false} Twice(q: int, h: nat, ps: nat)
    requires ps == h * 2
    ensures q * ps == 2 * (q * h)
  {
  }

  lemma {:induction false} EvenSum(y: int, a: int, m: nat)
    requires y == 2 * a + m
    ensures m % 2 == y % 2
  {
  }

  lemma {:induction false} OddNotRisky(requests: seq<Request>, n: nat, ps: nat)
    requires ps > 0 && ps % 2 == 0 && n < |requests|
    requires forall i :: 0 <= i < |requests| ==> requests[i].size % 2 == 1
    ensures !Risky(requests, n, ps)
  {
    EvenMod(requests[n].size, ps);
    if Risky(requests, n, ps) {
      OddSizes(requests[..n], requests[n].obj, ps, requests[n].size % ps);
    }
  }

  // An allocator for the objects of a process, before any request.
  method Begin(ps: nat, objects: seq<SpObject>, lines: seq<Mapping>, granted: (nat, nat) -> bool)
    returns (space: SpAddrSpace, ghost bound: seq<State>)
    requires PageSize(ps) && Listed(lines, ps) && LoadedLow(objects, lines) && Distinct(objects)
    requires forall k :: 0 <= k < |objects| ==> objects[k].ThePool() == Pool(0, 0) && objects[k].chunk == None
    modifies objects
    ensures fresh(space) && space.ps == ps && space.objects == objects && space.maps == lines
    ensures ps > 0 && space.Inv() && space.handed == [] && Loaded(space.targets, lines, objects)
    ensures Explained(BufSizes(objects), [], ps) && space.granted == granted
    ensures CutFrom(space.chunks, lines) && space.targets == TargetsOf(lines, objects)
    ensures Bound(granted, space.chunks, ps, space.targets, bound) && bound[|objects|] == space.Now()
  {
    hide SpAddrSpace.Inv, SpAddrSpace.Now, Bound, CutFrom, Listed, LoadedLow, Distinct, Loaded, Explained, Aligned,
      PageSize;
    SomePage(ps);
    space := new SpAddrSpace(ps, objects, granted);
    bound := space.InitMemoryAllocator(lines);
    OnePage(ps);
    ExplainedFirst(BufSizes(objects), ps);
  }

  // An allocator in the middle of a run: every request so far has its reply.
  ghost predicate Running(space: SpAddrSpace, requests: seq<Request>, replies: seq<Reply>, place: seq<nat>)
    reads space, space.objects
  {
    && space.ps > 0 && |replies| <= |requests| && space.Inv()
    && Loaded(space.targets, space.maps, space.objects)
    && Explained(BufSizes(space.objects), requests[..|replies|], space.ps)
    && (forall i :: 0 <= i < |replies| ==> replies[i].request == requests[i])
    && Recorded(replies, place, space.handed)
  }

  lemma {:induction false} RunningSafe(space: SpAddrSpace, requests: seq<Request>, replies: seq<Reply>, place: seq<nat>)
    requires Running(space, requests, replies, place)
    ensures |replies| <= |requests| && (forall i :: 0 <= i < |replies| ==> replies[i].request == requests[i])
    ensures Safe(replies, space.maps, space.objects)
  {
    hide SpAddrSpace.Inv, Recorded, Safe, Layout, ClaimsFit, HandedFit, Loaded, Explained;
    space.Facts();
    RunSafe(space.maps, space.chunks, space.ps, space.claims, space.targets, space.handed, replies, place,
            space.objects);
  }

  // One more request of a run.
  method Next(space: SpAddrSpace, requests: seq<Request>, replies: seq<Reply>, ghost place: seq<nat>)
    returns (reply: Reply, exact: bool, room: nat, ghost place': seq<nat>)
    requires Running(space, requests, replies, place) && |replies| < |requests|
    requires forall i :: 0 <= i < |requests| ==> requests[i].obj < |space.objects| && requests[i].size < U64
    modifies space`mem_maps, space`free_intervals, space`claims, space`handed, space.objects
    ensures exact ==>
              requests[|replies|].size == room && Risky(requests, |replies|, space.ps)
              && space.objects[requests[|replies|].obj].buf_size == U64 - 1
    ensures !exact ==> Running(space, requests, replies + [reply], place')
    ensures space.ps > 0 && (!exact ==> Serves(space.granted, space.chunks, space.ps, space.targets, old(space.Now()),
                                               reply, space.Now()))
  {
    hide SpAddrSpace.Inv, SpAddrSpace.Now, Serves, Recorded, Loaded, Explained, Risky;
    var n := |replies|;
    ghost var handed := space.handed;
    reply, exact, room := space.Answer(requests, n);
    place' := place;
    if !exact {
      place' := RecordedReply(replies, place, handed, space.handed, reply, space.objects[reply.request.obj].chunk);
    }
  }

  // Serves a run of requests, up to the first that asks for exactly the space its pool has left, which only a risky
  // one can do.
  method Serve(ps: nat, objects: seq<SpObject>, lines: seq<Mapping>, granted: (nat, nat) -> bool,
               requests: seq<Request>)
    returns (replies: seq<Reply>, room: nat, ghost bound: seq<State>, ghost states: seq<State>)
    requires PageSize(ps) && Listed(lines, ps) && LoadedLow(objects, lines) && Distinct(objects)
    requires forall k :: 0 <= k < |objects| ==> objects[k].ThePool() == Pool(0, 0) && objects[k].chunk == None
    requires forall i :: 0 <= i < |requests| ==> requests[i].obj < |objects| && requests[i].size < U64
    modifies objects
    ensures |replies| <= |requests| && forall i :: 0 <= i < |replies| ==> replies[i].request == requests[i]
    ensures Safe(replies, lines, objects)
    ensures ps > 0 && Ascending(Gaps(Parsed(lines)))
    ensures var chunks, targets := AllChunks(Gaps(Parsed(lines))), TargetsOf(lines, objects);
            && Bound(granted, chunks, ps, targets, bound) && Served(granted, chunks, ps, targets, states, replies)
            && states[0] == bound[|objects|]
    ensures |replies| < |requests| ==>
              requests[|replies|].size == room && Risky(requests, |replies|, ps)
              && objects[requests[|replies|].obj].buf_size == U64 - 1
  {
    hide Safe, Risky, Running, Listed, LoadedLow, Distinct, PageSize, SpAddrSpace.Now, Serves, Bound;
    var space;
    space, bound := Begin(ps, objects, lines, granted);
    replies, room, states := [], 0, [space.Now()];
    ghost var place: seq<nat> := [];
    BeginRuns(space, requests);
    ghost var chunks, targets := space.chunks, space.targets;
    while |replies| < |requests|
      invariant Running(space, requests, replies, place) && space.maps == lines && |replies| <= |requests|
      invariant Served(granted, space.chunks, ps, space.targets, states, replies)
      invariant states[0] == bound[|objects|] && states[|replies|] == space.Now()
      invariant space.chunks == chunks && space.targets == targets
    {
      ghost var before := space.Now();
      RunningSafe(space, requests, replies, place);
      var reply, exact;
      reply, exact, room, place := Next(space, requests, replies, place);
      if exact {
        return;
      }
      ServesNext(granted, chunks, ps, targets, states, replies, reply, space.Now());
      states := states + [space.Now()];
      replies := replies + [reply];
      RunningSafe(space, requests, replies, place);
    }
    RunningSafe(space, requests, replies, place);
  }

  lemma {:induction false} BeginRuns(space: SpAddrSpace, requests: seq<Request>)
    requires space.ps > 0 && space.Inv() && space.handed == [] && Loaded(space.targets, space.maps, space.objects)
    requires Explained(BufSizes(space.objects), [], space.ps)
    ensures Running(space, requests, [], [])
  {
    hide SpAddrSpace.Inv, Recorded, Loaded, Explained;
    RecordedNone();
    assert requests[..0] == [];
  }

  // The shortest such run: with nothing mapped a new object has no pool, and a request for no bytes is answered with
  // address 0, the next one, whatever it asks for, with address 1.
  method EmptyPool(ps: nat, load_addr: nat, next: nat, granted: (nat, nat) -> bool)
    returns (first: nat, second: nat)
    requires PageSize(ps) && next < U64
    ensures first == 0 && second == 1
  {
    hide PageSize, CutFrom, Listed, SpAddrSpace.Inv;
    var obj := new SpObject(load_addr);
    var space := new SpAddrSpace(ps, [obj], granted);
    SomePage(ps);
    NoMappings(ps);
    ghost var _ := space.InitMemoryAllocator([]);
    NothingCut(space.chunks);
    space.NoPool(0);
    first, second := space.Overrun(0, 0, next);
  }

  lemma {:induction false} SomePage(ps: nat)
    requires PageSize(ps)
    ensures ps > 0
  {
  }

  lemma {:induction false} NoMappings(ps: nat)
    requires ps > 0
    ensures Listed([], ps)
  {
  }

  lemma {:induction false} NothingCut(chunks: seq<FreeInterval>)
    requires CutFrom(chunks, [])
    ensures chunks == []
  {
    GapsNone();
    AllChunksNone();
  }

  lemma {:induction false} BumpLeaves(p: Pool, size: nat)
    requires size <= p.buf_size < U64
    ensures Bump(p, size).buf_size == if size == p.buf_size then U64 - 1 else p.buf_size - size - 1
  {
    BumpStays(p, size, p.base + p.buf_size);
  }

  // Only what is granted and what is asked decides where the buffers are: there is one way to refill a pool,
  lemma {:induction false} OneRefill(granted: (nat, nat) -> bool, chunks: seq<FreeInterval>, ps: nat, target: nat,
                                     claimed: set<nat>, p: Pool, c: set<nat>, q: Pool, c': set<nat>, q': Pool)
    requires ps > 0 && Refilled(granted, chunks, ps, target, claimed, p, c, q)
    requires Refilled(granted, chunks, ps, target, claimed, p, c', q')
    ensures c == c' && q == q'
  {
    hide Asked;
    if at: nat :| Nearest(chunks, claimed, target, at) {
      var start, end := RegionStart(chunks[at], ps), chunks[at].end;
      if Largest(granted, start, end, ps, q) {
        OneLargest(granted, start, end, ps, q, q');
      }
    }
  }

  // and a run of requests has one run of replies, up to the addresses of the buffers from elsewhere.
  lemma {:induction false} OneRun(granted: (nat, nat) -> bool, chunks: seq<FreeInterval>, ps: nat, targets: seq<nat>,
                                  a: seq<State>, r: seq<Reply>, b: seq<State>, t: seq<Reply>, n: nat)
    requires ps > 0 && Served(granted, chunks, ps, targets, a, r) && Served(granted, chunks, ps, targets, b, t)
    requires a[0] == b[0] && |r| == |t| && forall i :: 0 <= i < |r| ==> r[i].request == t[i].request
    requires n <= |r|
    ensures a[n] == b[n]
    ensures forall i :: 0 <= i < n ==> r[i].near == t[i].near && (r[i].near ==> r[i] == t[i])
  {
    if n > 0 {
      OneRun(granted, chunks, ps, targets, a, r, b, t, n - 1);
      var i := n - 1;
      assert Serves(granted, chunks, ps, targets, a[i], r[i], a[i + 1])
        && Serves(granted, chunks, ps, targets, b[i], t[i], b[i + 1]);
      OneReply(granted, chunks, ps, targets, a[i], r[i], a[i + 1], t[i], b[i + 1]);
    }
  }

  lemma {:induction false} OneReply(granted: (nat, nat) -> bool, chunks: seq<FreeInterval>, ps: nat, targets: seq<nat>,
                                    s: State, r: Reply, s': State, t: Reply, t': State)
    requires ps > 0 && r.request == t.request
    requires Serves(granted, chunks, ps, targets, s, r, s') && Serves(granted, chunks, ps, targets, s, t, t')
    ensures s' == t' && r.near == t.near && (r.near ==> r == t)
  {
    hide Refilled;
    var k, size := r.request.obj, r.request.size;
    if size > s.pools[k].buf_size {
      OneRefill(granted, chunks, ps, targets[k], s.claimed, s.pools[k],
                s'.claimed, if r.near then Pool(r.addr, s'.pools[k].buf_size + size + 1) else s'.pools[k],
                t'.claimed, if t.near then Pool(t.addr, t'.pools[k].buf_size + size + 1) else t'.pools[k]);
    }
  }

  // A buffer comes from elsewhere only when the pool is too small and there is no chunk near or too little of the
  // nearest one is granted.
  lemma {:induction false} WhyFar(granted: (nat, nat) -> bool, chunks: seq<FreeInterval>, ps: nat, targets: seq<nat>,
                                  s: State, r: Reply, s': State)
    requires ps > 0 && Serves(granted, chunks, ps, targets, s, r, s')
    ensures !r.near <==>
            && r.request.size > s.pools[r.request.obj].buf_size
            && forall at: nat, p: Pool ::
                 && Nearest(chunks, s.claimed, targets[r.request.obj], at)
                 && Largest(granted, RegionStart(chunks[at], ps), chunks[at].end, ps, p) ==>
                 r.request.size > p.buf_size
  {
    hide Refilled, Nearest, Largest;
    var k, size := r.request.obj, r.request.size;
    if size > s.pools[k].buf_size {
      EnoughGranted(chunks, ps, granted, targets[k], s.claimed, s.pools[k], s'.claimed,
                    if r.near then Pool(r.addr, s'.pools[k].buf_size + size + 1) else s'.pools[k], size);
    }
  }

  lemma {:induction false} ServesBy(granted: (nat, nat) -> bool, chunks: seq<FreeInterval>, ps: nat, targets: seq<nat>,
                                    s: State, r: Reply, s': State, room: nat)
    requires ps > 0 && r.request.obj < |targets| == |s.pools| == |s'.pools| && room < U64
    requires s'.pools == s.pools[r.request.obj := s'.pools[r.request.obj]]
    requires r.near ==> r.request.size < room && s'.pools[r.request.obj] == Bump(Pool(r.addr, room), r.request.size)
    requires !r.near ==> s'.pools[r.request.obj].buf_size == room < r.request.size
    requires var k, p := r.request.obj, if r.near then Pool(r.addr, room) else s'.pools[r.request.obj];
             && (s.pools[k].buf_size >= r.request.size ==> p == s.pools[k] && s'.claimed == s.claimed)
             && (s.pools[k].buf_size < r.request.size ==>
                   Refilled(granted, chunks, ps, targets[k], s.claimed, s.pools[k], s'.claimed, p))
    ensures Serves(granted, chunks, ps, targets, s, r, s')
  {
    hide Refilled;
    if r.near {
      BumpStays(Pool(r.addr, room), r.request.size, r.addr + room);
    }
  }

  lemma {:induction false} OnlyPool(objects: seq<SpObject>, before: seq<Pool>, k: nat, after: seq<Pool>)
    requires |before| == |after| == |objects| && k < |before|
    requires forall j :: 0 <= j < |before| && j != k ==> after[j] == before[j]
    ensures after == before[k := after[k]]
  {
  }

  lemma {:induction false} OnlyOne(objects: seq<SpObject>, before: seq<nat>, k: nat, after: seq<nat>)
    requires |before| == |after| == |objects| && k < |before|
    requires forall j :: 0 <= j < |before| && j != k ==> after[j] == before[j]
    ensures after == before[k := after[k]]
  {
  }
}
