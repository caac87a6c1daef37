/** The string dictionary: hash chains over window positions, threaded through head and prev. */
module Dictionary {
  import opened Prelude
  import opened Bits
  import opened Hashing

  // Window size, hash shift and hash width.
  datatype Sizes = Sizes(w: nat, shift: nat, bits: nat) {
    predicate Valid() {
      w > 0 && HashSizes(shift, bits)
    }
  }

  function HashAt(win: seq<byte>, v: nat, z: Sizes): nat
    requires v + 3 <= |win|
  {
    Hash3(win[v], win[v + 1], win[v + 2], z.shift, z.bits)
  }

  // The string at v is in the dictionary; unless it is a whole window old, its slot in prev is still its own.
  // owner[s] is the string whose link slot s of prev holds, last the youngest string.
  predicate Entry(end: nat, owner: seq<int>, last: int, z: Sizes, v: nat)
    requires z.w > 0
  {
    && v + 3 <= end && v <= last && |owner| == z.w
    && (owner[v % z.w] == v || v + z.w <= last)
  }

  // v is a string of the dictionary with hash h.
  ghost predicate OnChain(win: seq<byte>, end: nat, owner: seq<int>, last: int, z: Sizes, h: nat, v: nat)
    requires z.w > 0
  {
    v != 0 && end <= |win| && Entry(end, owner, last, z, v) && HashAt(win, v, z) == h
  }

  ghost predicate Heads(win: seq<byte>, end: nat, head: seq<nat>, owner: seq<int>, last: int, z: Sizes)
    requires z.w > 0
  {
    && |head| == Pow2(z.bits) && end <= |win|
    && forall h :: 0 <= h < |head| && head[h] != 0 ==> OnChain(win, end, owner, last, z, h, head[h])
  }

  // A link leads to an older string with the same hash.
  predicate Link(win: seq<byte>, end: nat, owner: seq<int>, last: int, z: Sizes, s: nat, v: nat)
    requires z.w > 0 && s < |owner| && end <= |win|
  {
    && Entry(end, owner, last, z, v) && v < owner[s] <= last && owner[s] + 3 <= end
    && HashAt(win, v, z) == HashAt(win, owner[s], z)
  }

  ghost predicate Links(win: seq<byte>, end: nat, prev: seq<nat>, owner: seq<int>, last: int, z: Sizes)
    requires z.w > 0
  {
    && |prev| == |owner| == z.w && end <= |win|
    && forall s :: 0 <= s < z.w && prev[s] != 0 ==> Link(win, end, owner, last, z, s, prev[s])
  }

  ghost predicate Chained(win: seq<byte>, end: nat, head: seq<nat>, prev: seq<nat>, owner: seq<int>, last: int,
                          z: Sizes) {
    z.Valid() && Heads(win, end, head, owner, last, z) && Links(win, end, prev, owner, last, z)
  }

  lemma ChainedShape(win: seq<byte>, end: nat, head: seq<nat>, prev: seq<nat>, owner: seq<int>, last: int, z: Sizes)
    requires Chained(win, end, head, prev, owner, last, z)
    ensures z.Valid() && |head| == Pow2(z.bits) && |prev| == |owner| == z.w && end <= |win|
    ensures forall h :: 0 <= h < |head| ==> head[h] == 0 || head[h] <= last
    ensures forall s :: 0 <= s < |prev| ==> prev[s] == 0 || prev[s] < last
  {
    hide Hash3, Pow2;
  }

  lemma ChainedStart(win: seq<byte>, head: seq<nat>, prev: seq<nat>, owner: seq<int>, last: int, z: Sizes)
    requires z.Valid() && |head| == Pow2(z.bits) && |prev| == |owner| == z.w
    requires (forall h :: 0 <= h < |head| ==> head[h] == 0) && (forall s :: 0 <= s < |prev| ==> prev[s] == 0)
    ensures Chained(win, 0, head, prev, owner, last, z)
  {
  }

  // Forgetting the heads keeps the rest.
  lemma ChainedForget(win: seq<byte>, end: nat, head: seq<nat>, prev: seq<nat>, owner: seq<int>, last: int, z: Sizes,
                      head': seq<nat>)
    requires Chained(win, end, head, prev, owner, last, z) && |head'| == |head|
    requires forall h :: 0 <= h < |head'| ==> head'[h] == 0
    ensures Chained(win, end, head', prev, owner, last, z)
  {
  }

  // ---- what was forgotten stays out of reach ----

  // No chain leads below the floor.
  ghost predicate Above(head: seq<nat>, prev: seq<nat>, owner: seq<int>, floor: int) {
    && |prev| == |owner|
    && (forall h :: 0 <= h < |head| && head[h] != 0 ==> head[h] >= floor)
    && (forall s :: 0 <= s < |prev| && prev[s] != 0 && owner[s] >= floor ==> prev[s] >= floor)
  }

  lemma AboveStart(head: seq<nat>, prev: seq<nat>, owner: seq<int>)
    requires |prev| == |owner|
    ensures Above(head, prev, owner, 0)
  {
  }

  lemma AboveInsert(head: seq<nat>, prev: seq<nat>, owner: seq<int>, floor: int, p: nat, h: nat, s: nat)
    requires Above(head, prev, owner, floor) && h < |head| && s < |prev| && p >= floor
    ensures Above(head[h := p], prev[s := head[h]], owner[s := p], floor)
  {
  }

  // With all heads gone no string inserted so far can be reached any more.
  lemma AboveForget(win: seq<byte>, end: nat, head: seq<nat>, prev: seq<nat>, owner: seq<int>, last: int, z: Sizes,
                    head': seq<nat>, floor: int)
    requires Chained(win, end, head, prev, owner, last, z) && last < floor
    requires forall h :: 0 <= h < |head'| ==> head'[h] == 0
    ensures Above(head', prev, owner, floor)
  {
    hide Hash3, Pow2, HashAt, Entry, Heads;
  }

  lemma AboveSlides(head: seq<nat>, prev: seq<nat>, owner: seq<int>, floor: int, w: nat, head': seq<nat>,
                    prev': seq<nat>, owner': seq<int>)
    requires Above(head, prev, owner, floor) && w > 0
    requires |head'| == |head| && forall h :: 0 <= h < |head| ==> head'[h] == Slid(head[h], w)
    requires |prev'| == |prev| && forall s :: 0 <= s < |prev| ==> prev'[s] == Slid(prev[s], w)
    requires |owner'| == |owner| && forall s :: 0 <= s < |owner| ==> owner'[s] == owner[s] - w
    ensures Above(head', prev', owner', floor - w)
  {
  }

  lemma AboveStep(win: seq<byte>, end: nat, head: seq<nat>, prev: seq<nat>, owner: seq<int>, last: int, z: Sizes,
                  h: nat, v: nat, floor: int)
    requires Chained(win, end, head, prev, owner, last, z) && OnChain(win, end, owner, last, z, h, v) && last < v + z.w
    requires Above(head, prev, owner, floor) && v >= floor && prev[v % z.w] != 0
    ensures prev[v % z.w] >= floor
  {
    hide Hash3, Pow2, HashAt, Heads, Links;
  }

  // ---- growing ----

  lemma EntryGrows(end: nat, end': nat, owner: seq<int>, last: int, z: Sizes, v: nat)
    requires z.w > 0 && Entry(end, owner, last, z, v) && end <= end'
    ensures Entry(end', owner, last, z, v)
  {
  }

  // Bytes written after the end do not matter.
  lemma ChainedGrows(win: seq<byte>, win': seq<byte>, end: nat, end': nat, head: seq<nat>, prev: seq<nat>,
                     owner: seq<int>, last: int, z: Sizes)
    requires Chained(win, end, head, prev, owner, last, z)
    requires end <= end' <= |win'| && win'[..end] == win[..end]
    ensures Chained(win', end', head, prev, owner, last, z)
  {
    hide Hash3, Pow2, Entry;
    forall h | 0 <= h < |head| && head[h] != 0
      ensures OnChain(win', end', owner, last, z, h, head[h])
    {
      EntryBound(end, owner, last, z, head[h]);
      EntryGrows(end, end', owner, last, z, head[h]);
      SameHash(win, win', end, head[h], z);
    }
    forall s | 0 <= s < z.w && prev[s] != 0
      ensures Link(win', end', owner, last, z, s, prev[s])
    {
      assert Link(win, end, owner, last, z, s, prev[s]);
      EntryBound(end, owner, last, z, prev[s]);
      EntryGrows(end, end', owner, last, z, prev[s]);
      SameHash(win, win', end, prev[s], z);
      SameHash(win, win', end, owner[s], z);
    }
  }

  lemma SameHash(win: seq<byte>, win': seq<byte>, end: nat, v: nat, z: Sizes)
    requires end <= |win| && end <= |win'| && win'[..end] == win[..end]
    ensures v + 3 <= end ==> HashAt(win', v, z) == HashAt(win, v, z)
  {
    hide Hash3;
    if v + 3 <= end {
      assert win'[..end][v] == win[..end][v] && win'[..end][v + 1] == win[..end][v + 1]
        && win'[..end][v + 2] == win[..end][v + 2];
    }
  }

  // ---- inserting ----

  // Different numbers with the same remainder are at least d apart.
  lemma SameSlot(v: nat, p: nat, d: nat)
    requires d > 0 && v < p && v % d == p % d
    ensures v + d <= p
  {
    DivMod(v, d);
    DivMod(p, d);
    var k := p / d - v / d;
    assert k * d == (p / d) * d - (v / d) * d;
    MulGrows(k, d);
  }

  lemma EntryKept(end: nat, owner: seq<int>, last: int, z: Sizes, v: nat, p: nat)
    requires z.w > 0 && Entry(end, owner, last, z, v) && last < p
    ensures Entry(end, owner[p % z.w := p], p, z, v)
  {
    if v % z.w == p % z.w {
      SameSlot(v, p, z.w);
    }
  }

  // Inserting the string at p: it becomes the head of the chain of its hash.
  lemma ChainedInsert(win: seq<byte>, end: nat, head: seq<nat>, prev: seq<nat>, owner: seq<int>, last: int, z: Sizes,
                      p: nat, h: nat)
    requires Chained(win, end, head, prev, owner, last, z) && last < p && p + 3 <= end
    requires h == HashAt(win, p, z) && h < Pow2(z.bits)
    ensures Chained(win, end, head[h := p], prev[p % z.w := head[h]], owner[p % z.w := p], p, z)
  {
    hide Hash3, Pow2, Entry;
    var slot := p % z.w;
    var head', prev', owner' := head[h := p], prev[slot := head[h]], owner[slot := p];
    EntryNew(end, owner, z, p);
    forall g | 0 <= g < |head'| && head'[g] != 0
      ensures OnChain(win, end, owner', p, z, g, head'[g])
    {
      if g != h {
        EntryKept(end, owner, last, z, head[g], p);
      }
    }
    forall s | 0 <= s < z.w && prev'[s] != 0
      ensures Link(win, end, owner', p, z, s, prev'[s])
    {
      if s == slot {
        EntryKept(end, owner, last, z, head[h], p);
        EntryBound(end, owner, last, z, head[h]);
      } else {
        assert Link(win, end, owner, last, z, s, prev[s]);
        EntryKept(end, owner, last, z, prev[s], p);
      }
    }
  }

  lemma EntryNew(end: nat, owner: seq<int>, z: Sizes, p: nat)
    requires z.w > 0 && |owner| == z.w && p + 3 <= end
    ensures Entry(end, owner[p % z.w := p], p, z, p)
  {
  }

  lemma EntryBound(end: nat, owner: seq<int>, last: int, z: Sizes, v: nat)
    requires z.w > 0 && Entry(end, owner, last, z, v)
    ensures v <= last && v + 3 <= end
  {
  }

  // ---- sliding ----

  function Slid(v: nat, w: nat): nat {
    if v >= w then v - w else 0
  }

  lemma SlotSlides(v: nat, w: nat)
    requires 0 < w <= v
    ensures (v - w) % w == v % w
  {
    DivMod(v, w);
    if v / w == 0 {
      assert false;
    }
    assert (v / w - 1) * w == (v / w) * w - w;
    DivModUnique(v - w, w, v / w - 1, v % w);
  }

  lemma EntrySlides(end: nat, owner: seq<int>, owner': seq<int>, last: int, z: Sizes, v: nat)
    requires 0 < z.w <= v && Entry(end, owner, last, z, v) && z.w <= end
    requires |owner'| == |owner| && forall s :: 0 <= s < |owner| ==> owner'[s] == owner[s] - z.w
    ensures Entry(end - z.w, owner', last - z.w, z, v - z.w)
  {
    SlotSlides(v, z.w);
  }

  lemma HashSlides(win: seq<byte>, win': seq<byte>, end: nat, v: nat, z: Sizes)
    requires z.w <= end <= |win| && end - z.w <= |win'| && win'[..end - z.w] == win[z.w..end]
    ensures z.w <= v && v + 3 <= end ==> HashAt(win', v - z.w, z) == HashAt(win, v, z)
  {
    hide Hash3;
    if z.w <= v && v + 3 <= end {
      var u := v - z.w;
      assert win'[..end - z.w][u] == win[z.w..end][u] && win'[..end - z.w][u + 1] == win[z.w..end][u + 1]
          && win'[..end - z.w][u + 2] == win[z.w..end][u + 2];
    }
  }

  // After the window has moved up by w every entry names the same string or none.
  lemma ChainedSlides(win: seq<byte>, win': seq<byte>, end: nat, head: seq<nat>, prev: seq<nat>, owner: seq<int>,
                      last: int, z: Sizes,
                      head': seq<nat>, prev': seq<nat>, owner': seq<int>)
    requires Chained(win, end, head, prev, owner, last, z)
    requires z.w <= end <= |win| && end - z.w <= |win'| && win'[..end - z.w] == win[z.w..end]
    requires |head'| == |head| && forall h :: 0 <= h < |head| ==> head'[h] == Slid(head[h], z.w)
    requires |prev'| == |prev| && forall s :: 0 <= s < |prev| ==> prev'[s] == Slid(prev[s], z.w)
    requires |owner'| == |owner| && forall s :: 0 <= s < |owner| ==> owner'[s] == owner[s] - z.w
    ensures Chained(win', end - z.w, head', prev', owner', last - z.w, z)
  {
    hide Hash3, Pow2, Entry;
    forall h | 0 <= h < |head'| && head'[h] != 0
      ensures OnChain(win', end - z.w, owner', last - z.w, z, h, head'[h])
    {
      EntryBound(end, owner, last, z, head[h]);
      EntrySlides(end, owner, owner', last, z, head[h]);
      HashSlides(win, win', end, head[h], z);
    }
    forall s | 0 <= s < z.w && prev'[s] != 0
      ensures Link(win', end - z.w, owner', last - z.w, z, s, prev'[s])
    {
      assert Link(win, end, owner, last, z, s, prev[s]);
      EntryBound(end, owner, last, z, prev[s]);
      EntrySlides(end, owner, owner', last, z, prev[s]);
      HashSlides(win, win', end, prev[s], z);
      HashSlides(win, win', end, owner[s], z);
    }
  }

  // ---- following a chain ----

  lemma ChainHead(win: seq<byte>, end: nat, head: seq<nat>, prev: seq<nat>, owner: seq<int>, last: int, z: Sizes,
                  h: nat)
    requires Chained(win, end, head, prev, owner, last, z) && h < |head| && head[h] != 0
    ensures OnChain(win, end, owner, last, z, h, head[h])
  {
  }

  // A string stays on its chain when another is inserted.
  lemma ChainKept(win: seq<byte>, end: nat, owner: seq<int>, last: int, z: Sizes, h: nat, v: nat, p: nat)
    requires z.w > 0 && OnChain(win, end, owner, last, z, h, v) && last < p && |owner| == z.w
    ensures OnChain(win, end, owner[p % z.w := p], p, z, h, v)
  {
    hide Hash3;
    EntryKept(end, owner, last, z, v, p);
  }

  // Every step along a chain leads to an older string with the same hash.
  lemma ChainStep(win: seq<byte>, end: nat, head: seq<nat>, prev: seq<nat>, owner: seq<int>, last: int, z: Sizes,
                  h: nat, v: nat)
    requires Chained(win, end, head, prev, owner, last, z) && OnChain(win, end, owner, last, z, h, v) && last < v + z.w
    requires prev[v % z.w] != 0
    ensures prev[v % z.w] < v && OnChain(win, end, owner, last, z, h, prev[v % z.w])
  {
    hide Hash3, Pow2;
    assert Link(win, end, owner, last, z, v % z.w, prev[v % z.w]);
  }

  // Two strings of one hash that share two bytes share the third.
  lemma ChainThird(win: seq<byte>, v: nat, p: nat, z: Sizes)
    requires z.Valid() && v + 3 <= |win| && p + 3 <= |win| && HashAt(win, v, z) == HashAt(win, p, z)
    requires win[v] == win[p] && win[v + 1] == win[p + 1]
    ensures win[v + 2] == win[p + 2]
  {
    hide Hash3;
    ThirdByte(win[p], win[p + 1], win[v + 2], win[p + 2], z.shift, z.bits);
  }
}
