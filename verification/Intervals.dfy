/** The free intervals of the near-memory allocator: the gaps between mapped objects, clamped and cut into
    chunks. */
module Intervals {
  import opened Prelude

  const MAX_INTERVAL_SIZE: nat := 1024 * 1024 * 16
  const MAX_MAPPED_AREA_SIZE: nat := 1024 * 1024 * (1024 + 512)

  datatype Mapping = Mapping(start: nat, end: nat)
  datatype FreeInterval = FreeInterval(start: nat, end: nat, used: bool) {
    function Size(): int { end - start }
  }

  // Whether a displacement fits the 32-bit field of a branch.
  predicate IsDisp32(d: int) {
    d < 2147483646 && d >= -2147483647
  }

  // ---- what the operating system promises about its list of mappings ----

  // No process has anything between HIGH and the largest long: its own half of the address space ends far below,
  // and the other half begins above. Objects are loaded below LOW.
  const HIGH: nat := 0x4000_0000_0000_0000
  const LOW: nat := HIGH - MAX_MAPPED_AREA_SIZE
  const LONG_MAX: nat := 0x7fff_ffff_ffff_ffff

  // The list of a process: ascending, not overlapping, none empty, in whole pages, each in one half.
  predicate Listed(lines: seq<Mapping>, ps: nat)
    requires ps > 0
  {
    && (forall i :: 0 <= i < |lines| ==> lines[i].start < lines[i].end)
    && (forall i, j :: 0 <= i < j < |lines| ==> lines[i].end <= lines[j].start)
    && (forall i :: 0 <= i < |lines| ==> Aligned(lines[i].start, ps) && Aligned(lines[i].end, ps))
    && (forall i :: 0 <= i < |lines| ==> lines[i].end <= HIGH || lines[i].start >= LONG_MAX)
  }

  // strtol stops at the largest long.
  function Strtol(a: nat): nat {
    if a > LONG_MAX then LONG_MAX else a
  }

  function Parse(line: Mapping): Mapping {
    Mapping(Strtol(line.start), Strtol(line.end))
  }

  function Parsed(lines: seq<Mapping>): (maps: seq<Mapping>)
    ensures |maps| == |lines| && forall i :: 0 <= i < |lines| ==> maps[i] == Parse(lines[i])
  {
    seq(|lines|, i requires 0 <= i < |lines| => Parse(lines[i]))
  }

  // What is left of that after parsing: ascending, not overlapping, but for mappings that are empty and the same.
  predicate Ordered(maps: seq<Mapping>) {
    && (forall i :: 0 <= i < |maps| ==> maps[i].start <= maps[i].end)
    && (forall i, j :: 0 <= i < j < |maps| ==>
          maps[i].end <= maps[j].start && (maps[i].start == maps[j].start ==> maps[i].end == maps[j].end))
  }

  // Whole pages, but for what lies above all objects.
  predicate PageAligned(maps: seq<Mapping>, ps: nat)
    requires ps > 0
  {
    forall i :: 0 <= i < |maps| ==>
      && (maps[i].start < HIGH ==> Aligned(maps[i].start, ps))
      && (maps[i].end < HIGH ==> Aligned(maps[i].end, ps))
  }

  lemma {:induction false} ParsedFits(lines: seq<Mapping>, ps: nat)
    requires ps > 0 && Listed(lines, ps)
    ensures Ordered(Parsed(lines)) && PageAligned(Parsed(lines), ps)
    ensures forall i :: 0 <= i < |lines| ==> Parsed(lines)[i].end <= LONG_MAX
  {
    hide Aligned;
  }

  // Below the largest long the parsed list maps what the process has mapped.
  lemma {:induction false} ParsedMapped(lines: seq<Mapping>, a: nat)
    requires a < LONG_MAX
    ensures Mapped(Parsed(lines), a) <==> Mapped(lines, a)
  {
    if Mapped(lines, a) {
      var i :| 0 <= i < |lines| && lines[i].start <= a < lines[i].end;
      assert Parsed(lines)[i].start <= a < Parsed(lines)[i].end;
    }
  }

  // The [vsyscall] line of x86-64 Linux: both its addresses stop at the largest long, which is on no page.
  lemma {:induction false} Vsyscall()
    ensures Listed([Mapping(0xffff_ffff_ff60_0000, 0xffff_ffff_ff60_1000)], 4096)
    ensures Parsed([Mapping(0xffff_ffff_ff60_0000, 0xffff_ffff_ff60_1000)]) == [Mapping(LONG_MAX, LONG_MAX)]
    ensures !Aligned(LONG_MAX, 4096)
  {
  }

  ghost predicate Mapped(maps: seq<Mapping>, a: nat) {
    exists i :: 0 <= i < |maps| && maps[i].start <= a < maps[i].end
  }

  ghost predicate Covered(fi: seq<FreeInterval>, a: nat) {
    exists i :: 0 <= i < |fi| && fi[i].start <= a < fi[i].end
  }

  predicate Ascending(fi: seq<FreeInterval>) {
    && (forall i :: 0 <= i < |fi| ==> fi[i].start < fi[i].end)
    && (forall i, j :: 0 <= i < j < |fi| ==> fi[i].end <= fi[j].start)
  }

  function LastEnd(maps: seq<Mapping>): nat {
    if maps == [] then 0 else maps[|maps| - 1].end
  }

  // The gaps between consecutive mappings, from address 0 on.
  function Gaps(maps: seq<Mapping>): seq<FreeInterval> {
    if maps == [] then [] else
      var front, m := maps[..|maps| - 1], maps[|maps| - 1];
      Gaps(front) + (if LastEnd(front) != m.start then [FreeInterval(LastEnd(front), m.start, false)] else [])
  }

  lemma {:induction false} OrderedFront(maps: seq<Mapping>)
    requires Ordered(maps) && maps != []
    ensures Ordered(maps[..|maps| - 1]) && LastEnd(maps[..|maps| - 1]) <= maps[|maps| - 1].start <= LastEnd(maps)
  {
    if |maps| > 1 {
      assert maps[|maps| - 2].end <= maps[|maps| - 1].start;
    }
  }

  lemma {:induction false} GapsAscend(maps: seq<Mapping>)
    requires Ordered(maps)
    ensures Ascending(Gaps(maps)) && forall i :: 0 <= i < |Gaps(maps)| ==>
            Gaps(maps)[i].end <= LastEnd(maps)
            && !Gaps(maps)[i].used
  {
    if maps != [] {
      OrderedFront(maps);
      GapsAscend(maps[..|maps| - 1]);
    }
  }

  // The gaps are exactly the unmapped addresses below the end of the last mapping.
  lemma {:induction false} GapsComplement(maps: seq<Mapping>, a: nat)
    requires Ordered(maps)
    ensures Covered(Gaps(maps), a) <==> !Mapped(maps, a) && a < LastEnd(maps)
  {
    if maps == [] {
    } else {
      var front, m := maps[..|maps| - 1], maps[|maps| - 1];
      OrderedFront(maps);
      GapsComplement(front, a);
      GapsAscend(front);
      MappedSnoc(front, m, a);
      assert maps == front + [m];
      CoveredConcat(Gaps(front), if LastEnd(front) != m.start then [FreeInterval(LastEnd(front), m.start, false)]
                    else [], a);
      if LastEnd(front) != m.start {
        CoveredOne(FreeInterval(LastEnd(front), m.start, false), a);
      } else {
        CoveredNone(a);
      }
      if Mapped(front, a) {
        MappedBelow(front, a);
      }
    }
  }

  lemma {:induction false} MappedBelow(maps: seq<Mapping>, a: nat)
    requires Ordered(maps) && Mapped(maps, a)
    ensures a < LastEnd(maps)
  {
    var i :| 0 <= i < |maps| && maps[i].start <= a < maps[i].end;
    if i < |maps| - 1 {
      assert maps[i].end <= maps[|maps| - 1].start;
    }
  }

  lemma {:induction false} MappedSnoc(front: seq<Mapping>, m: Mapping, a: nat)
    ensures Mapped(front + [m], a) <==> Mapped(front, a) || m.start <= a < m.end
  {
    var all := front + [m];
    if Mapped(front, a) {
      var i :| 0 <= i < |front| && front[i].start <= a < front[i].end;
      assert all[i] == front[i];
    }
    if m.start <= a < m.end {
      assert all[|front|] == m;
    }
  }

  lemma {:induction false} CoveredConcat(x: seq<FreeInterval>, y: seq<FreeInterval>, a: nat)
    ensures Covered(x + y, a) <==> Covered(x, a) || Covered(y, a)
  {
    var all := x + y;
    if Covered(x, a) {
      var i :| 0 <= i < |x| && x[i].start <= a < x[i].end;
      assert all[i] == x[i];
    }
    if Covered(y, a) {
      var i :| 0 <= i < |y| && y[i].start <= a < y[i].end;
      assert all[|x| + i] == y[i];
    }
  }

  lemma {:induction false} CoveredOne(f: FreeInterval, a: nat)
    ensures Covered([f], a) <==> f.start <= a < f.end
  {
    if f.start <= a < f.end {
      assert [f][0] == f;
    }
  }

  lemma {:induction false} CoveredNone(a: nat)
    ensures !Covered([], a)
  {
  }

  // ---- clamping and cutting ----

  // A hole keeps its top 1.5 GB.
  function Clamped(f: FreeInterval): FreeInterval {
    if f.Size() > MAX_MAPPED_AREA_SIZE then f.(start := f.end - MAX_MAPPED_AREA_SIZE) else f
  }

  // A hole in pieces of 16 MB; the last one takes what is left.
  function Chunks(start: nat, end: nat): seq<FreeInterval>
    requires start < end
    decreases end - start
  {
    if start + MAX_INTERVAL_SIZE >= end then [FreeInterval(start, end, false)]
    else [FreeInterval(start, start + MAX_INTERVAL_SIZE, false)] + Chunks(start + MAX_INTERVAL_SIZE, end)
  }

  // Chunks follow each other without gap from start to end, and none is larger than 16 MB.
  ghost predicate Tiles(c: seq<FreeInterval>, start: nat, end: nat) {
    && c != [] && c[0].start == start && c[|c| - 1].end == end
    && (forall i :: 0 <= i < |c| ==> c[i].start < c[i].end <= c[i].start + MAX_INTERVAL_SIZE && !c[i].used)
    && (forall i :: 0 <= i < |c| - 1 ==> c[i].end == c[i + 1].start)
  }

  lemma {:induction false} ChunksTile(start: nat, end: nat)
    requires start < end
    ensures Tiles(Chunks(start, end), start, end)
    decreases end - start
  {
    if start + MAX_INTERVAL_SIZE < end {
      ChunksTile(start + MAX_INTERVAL_SIZE, end);
      var rest, c := Chunks(start + MAX_INTERVAL_SIZE, end), Chunks(start, end);
      forall i | 0 <= i < |c|
        ensures c[i].start < c[i].end <= c[i].start + MAX_INTERVAL_SIZE && !c[i].used
        ensures i < |c| - 1 ==> c[i].end == c[i + 1].start
      {
        if i > 0 {
          assert c[i] == rest[i - 1];
        }
      }
    }
  }

  // Tiles ascend, and cover exactly what they tile.
  lemma {:induction false} TilesAscend(c: seq<FreeInterval>, start: nat, end: nat, a: nat)
    requires Tiles(c, start, end)
    ensures Ascending(c) && (forall i :: 0 <= i < |c| ==> start <= c[i].start && c[i].end <= end)
    ensures Covered(c, a) <==> start <= a < end
    decreases |c|
  {
    if |c| == 1 {
      CoveredOne(c[0], a);
      assert c == [c[0]];
    } else {
      var first, rest := c[0], c[1..];
      assert c == [first] + rest;
      TilesAscend(rest, first.end, end, a);
      CoveredConcat([first], rest, a);
      CoveredOne(first, a);
      forall i, j | 0 <= i < j < |c|
        ensures c[i].end <= c[j].start
      {
        assert c[j] == rest[j - 1];
        if i > 0 {
          assert c[i] == rest[i - 1];
        }
      }
      forall i | 0 <= i < |c|
        ensures start <= c[i].start && c[i].end <= end
      {
        if i > 0 {
          assert c[i] == rest[i - 1];
        }
      }
    }
  }

  function AllChunks(gaps: seq<FreeInterval>): seq<FreeInterval>
    requires Ascending(gaps)
  {
    if gaps == [] then [] else
      var g := Clamped(gaps[|gaps| - 1]);
      AllChunks(gaps[..|gaps| - 1]) + Chunks(g.start, g.end)
  }

  ghost predicate InClamped(gaps: seq<FreeInterval>, a: nat) {
    exists i :: 0 <= i < |gaps| && Clamped(gaps[i]).start <= a < gaps[i].end
  }

  lemma {:induction false} InClampedSnoc(front: seq<FreeInterval>, last: FreeInterval, a: nat)
    ensures InClamped(front + [last], a) <==> InClamped(front, a) || Clamped(last).start <= a < last.end
  {
    hide Clamped;
    var all := front + [last];
    if InClamped(front, a) {
      var i :| 0 <= i < |front| && Clamped(front[i]).start <= a < front[i].end;
      assert all[i] == front[i];
    }
    if Clamped(last).start <= a < last.end {
      assert all[|front|] == last;
    }
  }

  lemma {:induction false} AscendFront(gaps: seq<FreeInterval>)
    requires Ascending(gaps) && gaps != []
    ensures var front, last := gaps[..|gaps| - 1], gaps[|gaps| - 1];
            && Ascending(front) && last.start <= Clamped(last).start < Clamped(last).end == last.end
            && (front != [] ==> front[|front| - 1].end <= last.start)
  {
  }

  // The chunks of all holes ascend and are small.
  lemma {:induction false} AllChunksAscend(gaps: seq<FreeInterval>)
    requires Ascending(gaps)
    ensures Ascending(AllChunks(gaps))
    ensures forall i :: 0 <= i < |AllChunks(gaps)| ==>
              && AllChunks(gaps)[i].end <= AllChunks(gaps)[i].start + MAX_INTERVAL_SIZE && !AllChunks(gaps)[i].used
              && gaps != [] && AllChunks(gaps)[i].end <= gaps[|gaps| - 1].end
  {
    hide Clamped, Chunks;
    if gaps != [] {
      var front, g := gaps[..|gaps| - 1], Clamped(gaps[|gaps| - 1]);
      AscendFront(gaps);
      AllChunksAscend(front);
      ChunksTile(g.start, g.end);
      TilesAscend(Chunks(g.start, g.end), g.start, g.end, 0);
      AscendConcat(AllChunks(front), Chunks(g.start, g.end), g.start);
    }
  }

  // They cover exactly the clamped holes.
  lemma {:induction false} AllChunksCover(gaps: seq<FreeInterval>, a: nat)
    requires Ascending(gaps)
    ensures Covered(AllChunks(gaps), a) <==> InClamped(gaps, a)
  {
    hide Clamped, Chunks, Covered, InClamped;
    if gaps == [] {
      CoveredNone(a);
      InNone(a);
    } else {
      var front, last := gaps[..|gaps| - 1], gaps[|gaps| - 1];
      var g := Clamped(last);
      AscendFront(gaps);
      AllChunksCover(front, a);
      ChunksTile(g.start, g.end);
      TilesAscend(Chunks(g.start, g.end), g.start, g.end, a);
      CoveredConcat(AllChunks(front), Chunks(g.start, g.end), a);
      assert gaps == front + [last];
      InClampedSnoc(front, last, a);
    }
  }

  lemma {:induction false} InNone(a: nat)
    ensures !InClamped([], a)
  {
  }

  lemma {:induction false} AscendConcat(x: seq<FreeInterval>, y: seq<FreeInterval>, m: nat)
    requires Ascending(x) && Ascending(y)
    requires (forall i :: 0 <= i < |x| ==> x[i].end <= m) && (forall i :: 0 <= i < |y| ==> m <= y[i].start)
    ensures Ascending(x + y)
  {
  }

  // ---- pages ----

  predicate Aligned(x: int, ps: nat)
    requires ps > 0
  {
    x % ps == 0
  }

  lemma {:induction false} AlignedSum(x: nat, y: nat, ps: nat)
    requires ps > 0 && Aligned(x, ps) && Aligned(y, ps)
    ensures Aligned(x + y, ps)
  {
    DivMod(x, ps);
    DivMod(y, ps);
    var q, r := x / ps, y / ps;
    assert x + y == (q + r) * ps;
    DivModUnique(x + y, ps, q + r, 0);
  }

  lemma {:induction false} AlignedDifference(x: nat, y: nat, ps: nat)
    requires ps > 0 && Aligned(x, ps) && Aligned(y, ps) && x >= y
    ensures Aligned(x - y, ps)
  {
    DivMod(x, ps);
    DivMod(y, ps);
    var q, r := x / ps, y / ps;
    assert x - y == (q - r) * ps;
    MulGrows(q - r, ps);
    DivModUnique(x - y, ps, q - r, 0);
  }

  // (size + ps - 1) & ~(ps - 1)
  function RoundUp(size: nat, ps: nat): nat
    requires ps > 0
  {
    (size + ps - 1) / ps * ps
  }

  lemma {:induction false} RoundAligned(size: nat, ps: nat)
    requires ps > 0 && Aligned(size, ps)
    ensures RoundUp(size, ps) == size
  {
    DivMod(size, ps);
    DivModUnique(size + ps - 1, ps, size / ps, ps - 1);
  }

  // The ends of a gap are whole pages, unless they lie above all objects.
  predicate GapAligned(f: FreeInterval, ps: nat)
    requires ps > 0
  {
    (f.start < HIGH ==> Aligned(f.start, ps)) && (f.end < HIGH ==> Aligned(f.end, ps))
  }

  predicate AllGapsAligned(fi: seq<FreeInterval>, ps: nat)
    requires ps > 0
  {
    forall i :: 0 <= i < |fi| ==> GapAligned(fi[i], ps)
  }

  // Chunks below an object are whole pages.
  predicate AllAligned(fi: seq<FreeInterval>, ps: nat)
    requires ps > 0
  {
    forall i :: 0 <= i < |fi| && fi[i].start < LOW ==> Aligned(fi[i].start, ps) && Aligned(fi[i].end, ps)
  }

  // The page size divides the chunk size and the clamp.
  predicate PageSize(ps: nat) {
    ps > 0 && Aligned(MAX_INTERVAL_SIZE, ps) && Aligned(MAX_MAPPED_AREA_SIZE, ps) && Aligned(0, ps)
  }

  lemma {:induction false} GapsAligned(maps: seq<Mapping>, ps: nat)
    requires PageSize(ps) && PageAligned(maps, ps)
    ensures AllGapsAligned(Gaps(maps), ps) && (LastEnd(maps) < HIGH ==> Aligned(LastEnd(maps), ps))
  {
    if maps != [] {
      GapsAligned(maps[..|maps| - 1], ps);
    }
  }

  lemma {:induction false} ChunksAligned(start: nat, end: nat, ps: nat)
    requires start < end && PageSize(ps) && (start < LOW ==> Aligned(start, ps)) && (end < HIGH ==> Aligned(end, ps))
    ensures AllAligned(Chunks(start, end), ps)
    decreases end - start
  {
    hide Aligned;
    if start + MAX_INTERVAL_SIZE < end {
      if start < LOW {
        AlignedSum(start, MAX_INTERVAL_SIZE, ps);
      }
      ChunksAligned(start + MAX_INTERVAL_SIZE, end, ps);
    }
  }

  lemma {:induction false} AllChunksAligned(gaps: seq<FreeInterval>, ps: nat)
    requires Ascending(gaps) && PageSize(ps) && AllGapsAligned(gaps, ps)
    ensures AllAligned(AllChunks(gaps), ps)
  {
    hide Aligned, Chunks;
    if gaps != [] {
      var last := gaps[|gaps| - 1];
      AscendFront(gaps);
      AllChunksAligned(gaps[..|gaps| - 1], ps);
      assert GapAligned(last, ps);
      if last.Size() > MAX_MAPPED_AREA_SIZE && last.end < HIGH {
        AlignedDifference(last.end, MAX_MAPPED_AREA_SIZE, ps);
      }
      ChunksAligned(Clamped(last).start, last.end, ps);
    }
  }

  lemma {:induction false} ChunkStep(start: nat, end: nat)
    requires start < end
    ensures Chunks(start, end) ==
              [FreeInterval(start, if start + MAX_INTERVAL_SIZE > end then end else start + MAX_INTERVAL_SIZE, false)]
              + (if start + MAX_INTERVAL_SIZE < end then Chunks(start + MAX_INTERVAL_SIZE, end) else [])
  {
  }

  lemma {:induction false} SplitFirst(a: seq<FreeInterval>, f: FreeInterval, b: seq<FreeInterval>)
    ensures a + ([f] + b) == a + [f] + b
  {
  }

  lemma {:induction false} GapsNone()
    ensures Gaps([]) == [] && LastEnd([]) == 0
  {
  }

  lemma {:induction false} GapsSnoc(maps: seq<Mapping>, k: nat)
    requires k < |maps|
    ensures Gaps(maps[..k + 1]) ==
              Gaps(maps[..k]) + (if LastEnd(maps[..k]) != maps[k].start
                   then [FreeInterval(LastEnd(maps[..k]), maps[k].start, false)] else [])
    ensures LastEnd(maps[..k + 1]) == maps[k].end
  {
    assert maps[..k + 1][..k] == maps[..k];
  }

  lemma {:induction false} AllChunksNone()
    ensures Ascending([]) && AllChunks([]) == []
  {
  }

  lemma {:induction false} AllChunksSnoc(gaps: seq<FreeInterval>, i: nat)
    requires Ascending(gaps) && i < |gaps|
    ensures Ascending(gaps[..i]) && Ascending(gaps[..i + 1])
    ensures Clamped(gaps[i]).start < Clamped(gaps[i]).end
    ensures AllChunks(gaps[..i + 1]) == AllChunks(gaps[..i]) + Chunks(Clamped(gaps[i]).start, Clamped(gaps[i]).end)
  {
    hide Chunks, Clamped;
    AscendFront(gaps[..i + 1]);
    assert gaps[..i + 1][..i] == gaps[..i];
  }

  // Taking something away from an amount changes its remainder by that.
  lemma {:induction false} ModTake(a: int, c: int, ps: nat)
    requires ps > 0
    ensures (a - c) % ps == (a % ps - c) % ps
  {
    DivMod(a, ps);
    var y := a % ps - c;
    DivMod(y, ps);
    assert a - c == (a / ps + y / ps) * ps + y % ps;
    DivModUnique(a - c, ps, a / ps + y / ps, y % ps);
  }
}
