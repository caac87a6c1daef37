/** The sliding window of the compressor: input on its way to be matched, and the dictionary over it. */
module SlidingWindows {
  import opened Prelude
  import opened Bits
  import opened Codes
  import opened Hashing
  import opened Dictionary
  import opened Lz77
  import opened Streams

  const MIN_LOOKAHEAD: nat := MAX_MATCH + MIN_MATCH + 1

  // The first n bytes of the window are the input from position base on.
  ghost predicate Tracks(win: seq<byte>, consumed: seq<byte>, base: nat, n: nat) {
    n <= |win| && |consumed| == base + n && consumed[base..] == win[..n]
  }

  lemma TracksAt(win: seq<byte>, consumed: seq<byte>, base: nat, n: nat, i: nat)
    requires Tracks(win, consumed, base, n) && i < n
    ensures win[i] == consumed[base + i]
  {
    assert consumed[base..][i] == win[..n][i];
  }

  lemma TracksSlid(win: seq<byte>, win': seq<byte>, consumed: seq<byte>, base: nat, n: nat, w: nat)
    requires Tracks(win, consumed, base, n) && w <= n && n - w <= |win'| && win'[..n - w] == win[w..n]
    ensures Tracks(win', consumed, base + w, n - w)
  {
    assert consumed[base + w..] == consumed[base..][w..];
    assert win[..n][w..] == win[w..n];
  }

  // What moving the window down keeps.
  lemma AllSlid(win: seq<byte>, win': seq<byte>, p: nat, n: nat, head: seq<nat>, prev: seq<nat>, head': seq<nat>,
                prev': seq<nat>,
                owner: seq<int>, last: int, consumed: seq<byte>, base: nat, h: nat, z: Sizes) returns (owner': seq<int>)
    requires z.Valid() && z.w <= p <= n <= |win| && n - z.w <= |win'| && win'[..n - z.w] == win[z.w..n]
    requires |head'| == |head| && forall i :: 0 <= i < |head| ==> head'[i] == Slid(head[i], z.w)
    requires |prev'| == |prev| && forall i :: 0 <= i < |prev| ==> prev'[i] == Slid(prev[i], z.w)
    requires Chained(win, n, head, prev, owner, last, z) && Tracks(win, consumed, base, n)
    requires n - p >= MIN_MATCH ==> PrimedAt(win, p, n, h, z)
    ensures Chained(win', n - z.w, head', prev', owner', last - z.w, z) && Tracks(win', consumed, base + z.w, n - z.w)
    ensures n - p >= MIN_MATCH ==> PrimedAt(win', p - z.w, n - z.w, h, z)
    ensures |owner'| == |owner| && forall s :: 0 <= s < |owner| ==> owner'[s] == owner[s] - z.w
  {
    hide Chained, Tracks, PrimedAt, Slid;
    ChainedShape(win, n, head, prev, owner, last, z);
    owner' := seq(|owner|, i requires 0 <= i < |owner| => owner[i] - z.w);
    ChainedSlides(win, win', n, head, prev, owner, last, z, head', prev', owner');
    TracksSlid(win, win', consumed, base, n, z.w);
    if n - p >= MIN_MATCH {
      PrimedSlid(win, win', p, n, h, z);
    }
  }

  lemma TracksMore(win: seq<byte>, win': seq<byte>, consumed: seq<byte>, base: nat, n: nat, more: seq<byte>)
    requires Tracks(win, consumed, base, n) && n + |more| <= |win'|
    requires win'[..n] == win[..n] && win'[n..n + |more|] == more
    ensures Tracks(win', consumed + more, base, n + |more|)
  {
    assert (consumed + more)[base..] == consumed[base..] + more;
    assert win'[..n + |more|] == win'[..n] + win'[n..n + |more|];
  }

  lemma TracksEnd(win: seq<byte>, consumed: seq<byte>, base: nat, n: nat)
    requires Tracks(win, consumed, base, n)
    ensures n <= |win| && |consumed| == base + n
  {
  }

  lemma ReadTwice(s: seq<byte>, a: nat, b: nat, c: nat)
    requires a <= b <= c <= |s|
    ensures s[a..b] + s[b..c] == s[a..c]
  {
  }

  lemma Regrouped(a: seq<byte>, b: seq<byte>, c: seq<byte>)
    ensures a + b + c == a + (b + c)
  {
  }

  // A part of the window is a part of the input.
  lemma TracksSlice(win: seq<byte>, consumed: seq<byte>, base: nat, n: nat, from: nat, to: nat)
    requires Tracks(win, consumed, base, n) && from <= to <= n
    ensures win[from..to] == consumed[base + from..base + to]
  {
    assert win[..n][from..to] == win[from..to];
    assert consumed[base..][from..to] == consumed[base + from..base + to];
  }

  // ins_h is the hash of the two bytes at p, as far as it matters.
  ghost predicate PrimedAt(win: seq<byte>, p: nat, n: nat, h: nat, z: Sizes) {
    z.Valid() && p + 2 <= n <= |win| && Primed(h, win[p], win[p + 1], z.shift, z.bits)
  }

  lemma PrimedSlid(win: seq<byte>, win': seq<byte>, p: nat, n: nat, h: nat, z: Sizes)
    requires PrimedAt(win, p, n, h, z) && z.w <= p && n - z.w <= |win'| && win'[..n - z.w] == win[z.w..n]
    ensures PrimedAt(win', p - z.w, n - z.w, h, z)
  {
    hide Primed;
    assert win'[..n - z.w][p - z.w] == win[z.w..n][p - z.w] && win'[..n - z.w][p - z.w + 1] == win[z.w..n][p - z.w + 1];
  }

  // What reading more into the window keeps.
  lemma MoreRead(win: seq<byte>, win': seq<byte>, n: nat, len: nat, chunk: seq<byte>, head: seq<nat>, prev: seq<nat>,
                 owner: seq<int>, last: int, consumed: seq<byte>, base: nat, z: Sizes)
    requires Chained(win, n, head, prev, owner, last, z) && Tracks(win, consumed, base, n)
    requires n + len <= |win'| && win'[..n] == win[..n] && chunk == win'[n..n + len]
    ensures Chained(win', n + len, head, prev, owner, last, z) && Tracks(win', consumed + chunk, base, n + len)
  {
    hide Chained, Tracks;
    TracksMore(win, win', consumed, base, n, chunk);
    TracksEnd(win', consumed + chunk, base, n + len);
    ChainedGrows(win, win', n, n + len, head, prev, owner, last, z);
  }

  // The first two bytes of a string prime the hash.
  lemma PrimeNow(win: seq<byte>, p: nat, n: nat, z: Sizes)
    requires z.Valid() && p + 2 <= n <= |win|
    ensures PrimedAt(win, p, n, Update(win[p], win[p + 1], z.shift, z.bits), z)
  {
    hide Low, BitXor, Pow2;
    var b0, b1 := win[p], win[p + 1];
    XorZero(b0);
    ShlZero(z.shift);
    FirstByte(b0, z);
    assert Update(0, b0, z.shift, z.bits) == b0;
  }

  lemma FirstByte(b: byte, z: Sizes)
    requires z.Valid()
    ensures Low(b, z.bits) == b
  {
    Pow2Values();
    Pow2Mono(8, z.bits);
    LowSmall(b, z.bits);
  }

  // ---- matches ----

  // The first len bytes at m are those at p, as far as the input goes.
  ghost predicate Agrees(win: seq<byte>, m: nat, p: nat, len: nat, n: nat) {
    m < p && n <= |win| && forall k :: p <= k < p + len && k < n ==> win[k] == win[k - (p - m)]
  }

  lemma AgreesRepeats(win: seq<byte>, consumed: seq<byte>, base: nat, n: nat, m: nat, p: nat, len: nat)
    requires Tracks(win, consumed, base, n) && Agrees(win, m, p, len, n) && p + len <= n
    ensures Repeats(consumed, base + p, len, p - m)
  {
    forall j | base + p <= j < base + p + len
      ensures consumed[j] == consumed[j - (p - m)]
    {
      TracksAt(win, consumed, base, n, j - base);
      TracksAt(win, consumed, base, n, j - base - (p - m));
    }
  }

  // The bytes compared by longest_match, the third by way of the hash.
  lemma AgreesOnChain(win: seq<byte>, m: nat, p: nat, len: nat, n: nat, z: Sizes)
    requires z.Valid() && m < p && p + 3 <= n <= |win| && m + 3 <= n
    requires HashAt(win, m, z) == HashAt(win, p, z)
    requires win[m] == win[p] && win[m + 1] == win[p + 1]
    requires p + len <= |win| && forall k :: p + 3 <= k < p + len ==> win[k] == win[k - (p - m)]
    ensures Agrees(win, m, p, len, n)
  {
    hide HashAt;
    ChainThird(win, m, p, z);
    forall k | p <= k < p + len && k < n
      ensures win[k] == win[k - (p - m)]
    {
      if k < p + 3 {
        assert k == p || k == p + 1 || k == p + 2;
      }
    }
  }

  lemma AgreesLess(win: seq<byte>, m: nat, p: nat, len: nat, len': nat, n: nat)
    requires Agrees(win, m, p, len, n) && len' <= len
    ensures Agrees(win, m, p, len', n)
  {
  }

  // ---- the search ----

  // How many bytes at m are those at p, up to the longest match, when the first k are.
  function Agreement(win: seq<byte>, m: nat, p: nat, k: nat): (len: nat)
    requires k <= MAX_MATCH
    ensures k <= len <= MAX_MATCH
    decreases MAX_MATCH - k
  {
    if k == MAX_MATCH || m + k >= |win| || p + k >= |win| || win[m + k] != win[p + k] then k
    else Agreement(win, m, p, k + 1)
  }

  function Len(win: seq<byte>, m: nat, p: nat): (len: nat)
    ensures len <= MAX_MATCH
  {
    Agreement(win, m, p, 0)
  }

  lemma {:induction false} AgreementIs(win: seq<byte>, m: nat, p: nat, k: nat, len: nat)
    requires k <= len <= MAX_MATCH && m <= p && p + MAX_MATCH < |win|
    requires forall q :: p + k <= q < p + len ==> win[q] == win[q - (p - m)]
    requires len < MAX_MATCH ==> win[m + len] != win[p + len]
    ensures Agreement(win, m, p, k) == len
    decreases MAX_MATCH - k
  {
    if k < len {
      assert win[p + k] == win[p + k - (p - m)];
      AgreementIs(win, m, p, k + 1, len);
    }
  }

  lemma {:induction false} AgreementHolds(win: seq<byte>, m: nat, p: nat, k: nat)
    requires k <= MAX_MATCH && m <= p
    ensures p + k <= |win| ==> p + Agreement(win, m, p, k) <= |win|
    ensures forall q :: p + k <= q < p + Agreement(win, m, p, k) && q < |win| ==> win[q] == win[q - (p - m)]
    decreases MAX_MATCH - k
  {
    if k < Agreement(win, m, p, k) {
      AgreementHolds(win, m, p, k + 1);
      forall q | p + k <= q < p + Agreement(win, m, p, k) && q < |win|
        ensures win[q] == win[q - (p - m)]
      {
        if q > p + k {
          assert p + (k + 1) <= q;
        }
      }
    }
  }

  // The strings that are tried: at most n along the chain from cur on, as long as they lie beyond limit.
  function Tried(prev: seq<nat>, w: nat, cur: nat, limit: nat, n: nat): (s: seq<nat>)
    requires 0 < w == |prev| && n > 0
    ensures s != [] && s[0] == cur
    decreases n
  {
    [cur] + (if n > 1 && prev[cur % w] > limit then Tried(prev, w, prev[cur % w], limit, n - 1) else [])
  }

  // What a search through the strings tried comes to, when a match has to be longer than least: nothing if none is;
  // otherwise the first of the longest, or the first of all that is nice.
  ghost predicate Selected(win: seq<byte>, p: nat, tried: seq<nat>, least: nat, nice: nat, best: nat,
                           found: Option<nat>)
  {
    match found
    case None => best == least && forall j :: 0 <= j < |tried| ==> Len(win, tried[j], p) <= least
    case Some(i) =>
      && i < |tried| && best == Len(win, tried[i], p) > least
      && (forall j :: 0 <= j < i ==>
            Len(win, tried[j], p) < best && (Len(win, tried[j], p) > least ==> Len(win, tried[j], p) < nice))
      && (best >= nice || forall j :: 0 <= j < |tried| ==> Len(win, tried[j], p) <= best)
  }

  // In the middle of a search: the strings before have been tried and none was nice.
  ghost predicate Searching(win: seq<byte>, p: nat, before: seq<nat>, least: nat, nice: nat, best: nat,
                            found: Option<nat>)
  {
    && best >= least && (forall j :: 0 <= j < |before| ==> Len(win, before[j], p) <= best)
    && match found
       case None => best == least
       case Some(i) =>
         && i < |before| && least < best == Len(win, before[i], p) && best < nice
         && forall j :: 0 <= j < i ==> Len(win, before[j], p) < best
  }

  lemma SearchingNothing(win: seq<byte>, p: nat, least: nat, nice: nat)
    ensures Searching(win, p, [], least, nice, least, None)
  {
  }

  lemma SearchingNext(win: seq<byte>, p: nat, before: seq<nat>, least: nat, nice: nat, best: nat, found: Option<nat>,
                      cur: nat)
    requires Searching(win, p, before, least, nice, best, found)
    ensures Len(win, cur, p) <= best ==> Searching(win, p, before + [cur], least, nice, best, found)
    ensures best < Len(win, cur, p) < nice ==>
              Searching(win, p, before + [cur], least, nice, Len(win, cur, p), Some(|before|))
  {
    hide Len;
  }

  // A nice match ends the search,
  lemma NiceFound(win: seq<byte>, p: nat, before: seq<nat>, least: nat, nice: nat, best: nat, found: Option<nat>,
                  cur: nat, rest: seq<nat>)
    requires Searching(win, p, before, least, nice, best, found) && Len(win, cur, p) > best && Len(win, cur, p) >= nice
    ensures Selected(win, p, before + [cur] + rest, least, nice, Len(win, cur, p), Some(|before|))
  {
    hide Len;
    var all := before + [cur] + rest;
    assert all[|before|] == cur && forall j :: 0 <= j < |before| ==> all[j] == before[j];
  }

  // and so does the end of the chain.
  lemma AllTried(win: seq<byte>, p: nat, before: seq<nat>, least: nat, nice: nat, best: nat, found: Option<nat>)
    requires Searching(win, p, before, least, nice, best, found)
    ensures Selected(win, p, before, least, nice, best, found)
  {
    hide Len;
  }

  // The strings of the search are those before and, if there is more to do, those from cur on.
  ghost predicate StillToTry(tried: seq<nat>, before: seq<nat>, prev: seq<nat>, w: nat, cur: nat, limit: nat, n: nat,
                             more: bool) {
    0 < w == |prev| && (more ==> n > 0) && tried == before + (if more then Tried(prev, w, cur, limit, n) else [])
  }

  lemma AllToTry(tried: seq<nat>, prev: seq<nat>, w: nat, cur: nat, limit: nat, n: nat)
    requires 0 < w == |prev| && n > 0 && tried == Tried(prev, w, cur, limit, n)
    ensures StillToTry(tried, [], prev, w, cur, limit, n, true)
  {
    hide Tried;
    assert [] + tried == tried;
  }

  lemma OneTried(tried: seq<nat>, before: seq<nat>, prev: seq<nat>, w: nat, cur: nat, limit: nat, n: nat)
    returns (rest: seq<nat>)
    requires StillToTry(tried, before, prev, w, cur, limit, n, true)
    ensures 0 < w == |prev| && n > 0 && tried == before + [cur] + rest
    ensures prev[cur % w] > limit && n > 1 ==>
              StillToTry(tried, before + [cur], prev, w, prev[cur % w], limit, n - 1, true)
    ensures forall c: nat, k: nat :: !(prev[cur % w] > limit && n > 1) ==>
              StillToTry(tried, before + [cur], prev, w, c, limit, k, false)
  {
    rest := if n > 1 && prev[cur % w] > limit then Tried(prev, w, prev[cur % w], limit, n - 1) else [];
    assert before + ([cur] + rest) == before + [cur] + rest;
  }

  lemma NoneToTry(tried: seq<nat>, before: seq<nat>, prev: seq<nat>, w: nat, cur: nat, limit: nat, n: nat)
    requires StillToTry(tried, before, prev, w, cur, limit, n, false)
    ensures tried == before
  {
  }

  // How a match search is set up for a level.
  datatype Effort = Effort(good_match: nat, max_lazy_match: nat, nice_match: nat, max_chain_length: nat)

  class SlidingWindow {
    const z: Sizes
    const window: array<byte>
    var head: seq<nat>
    var prev: seq<nat>
    var ins_h: nat
    var strstart: nat
    var lookahead: nat
    var block_start: int
    var match_start: int
    ghost var consumed: seq<byte>  // all input read so far
    ghost var base: nat            // the position in the input of the window's first byte
    ghost var owner: seq<int>      // the string whose link each slot of prev holds
    ghost var last: int            // the youngest string in the dictionary
    ghost var floor: int           // where the history starts that has not been forgotten

    ghost predicate Shape()
      reads this`head, this`prev
    {
      && z.Valid() && 512 <= z.w <= 32768 && window.Length == 2 * z.w
      && |head| == Pow2(z.bits) && |prev| == z.w
    }

    ghost predicate Valid()
      reads this`head, this`prev, this`strstart, this`lookahead, this`block_start, this`consumed, this`base, this`owner,
            this`last, this`floor, window
    {
      && Shape() && strstart + lookahead <= 2 * z.w
      && Tracks(window[..], consumed, base, strstart + lookahead)
      && Chained(window[..], strstart + lookahead, head, prev, owner, last, z) && last <= strstart
      && 0 <= base + block_start && block_start <= strstart && (base > 0 ==> strstart >= z.w - MIN_LOOKAHEAD)
      && Above(head, prev, owner, floor) && 0 <= base + floor && floor <= strstart
    }

    // Nothing from strstart on is in the dictionary yet, and the hash is ready for the string at strstart.
    ghost predicate Ready()
      reads this`ins_h, this`head, this`prev, this`strstart, this`lookahead, this`block_start, this`consumed, this`base,
            this`owner, this`last, this`floor, window
    {
      Valid() && last < strstart && (lookahead >= MIN_MATCH ==>
            PrimedAt(window[..], strstart, strstart + lookahead, ins_h, z))
    }

    constructor (w_bits: nat, hash_bits: nat)
      requires 9 <= w_bits <= 15 && 8 <= hash_bits <= 16
      ensures Ready() && fresh(window) && consumed == [] && base == 0 && z.w == Pow2(w_bits)
      ensures strstart == lookahead == block_start == ins_h == match_start == floor == 0 && last == -1
      ensures z.bits == hash_bits && z.shift == (hash_bits + 2) / 3
      ensures forall h :: 0 <= h < |head| ==> head[h] == 0
      ensures forall i :: 0 <= i < window.Length ==> window[i] == 0
    {
      var w := Pow2(w_bits);
      var sizes := Sizes(w, (hash_bits + MIN_MATCH - 1) / MIN_MATCH, hash_bits);
      z := sizes;
      window := new byte[2 * w](_ => 0);
      head, prev := seq(Pow2(hash_bits), _ => 0), seq(w, _ => 0);
      ins_h, strstart, lookahead, block_start, match_start := 0, 0, 0, 0, 0;
      consumed, base, owner, last, floor := [], 0, seq(w, _ => 0), -1, 0;
      new;
      Pow2Values();
      Pow2Mono(9, w_bits);
      Pow2Mono(w_bits, 15);
      assert Pow2(9) == 2 * Pow2(8);
      ChainedStart(window[..], head, prev, owner, last, z);
      AboveStart(head, prev, owner);
    }

    // The part of fill_window that moves the upper half of the window to the lower one.
    method Slide()
      requires Ready() && strstart >= z.w + z.w - MIN_LOOKAHEAD
      modifies this`head, this`prev, this`strstart, this`block_start, this`match_start, this`base, this`owner,
               this`last, this`floor, window
      ensures Shape() && strstart == old(strstart) - z.w && base == old(base) + z.w && last == old(last) - z.w
      ensures block_start == old(block_start) - z.w && match_start == old(match_start) - z.w
      ensures floor == old(floor) - z.w && HistorySlid(old(head), old(prev), old(owner))
      ensures Ready()
    {
      hide Chained, Tracks, PrimedAt, Pow2, HashAt, Above, Slid, Ready;
      ReadyMeans();
      ghost var win, n, head0, prev0, start := window[..], strstart + lookahead, head, prev, strstart;
      var w := z.w;
      MoveDown(n);
      match_start := match_start - w;
      strstart := strstart - w;
      block_start := block_start - w;
      SlideHeads();
      SlidePrev();
      Relabel(win, start, n, head0, prev0);
    }

    // What the positions stand for after a slide.
    ghost method Relabel(win: seq<byte>, start: nat, n: nat, head0: seq<nat>, prev0: seq<nat>)
      requires Shape() && z.w <= start && n == start + lookahead <= 2 * z.w == |win|
      requires strstart == start - z.w >= z.w - MIN_LOOKAHEAD
      requires 0 <= base + z.w + block_start && block_start <= strstart && 0 <= base + floor && floor <= start
      requires last < start && window[..][..n - z.w] == win[z.w..n]
      requires |head| == |head0| && forall h :: 0 <= h < |head| ==> head[h] == Slid(head0[h], z.w)
      requires |prev| == |prev0| && forall s :: 0 <= s < |prev| ==> prev[s] == Slid(prev0[s], z.w)
      requires Chained(win, n, head0, prev0, owner, last, z) && Tracks(win, consumed, base, n)
      requires Above(head0, prev0, owner, floor) && (lookahead >= MIN_MATCH ==> PrimedAt(win, start, n, ins_h, z))
      modifies this`base, this`owner, this`last, this`floor
      ensures Ready() && base == old(base) + z.w && last == old(last) - z.w && floor == old(floor) - z.w
      ensures |owner| == |old(owner)| && forall s :: 0 <= s < |owner| ==> owner[s] == old(owner)[s] - z.w
    {
      hide Chained, Tracks, PrimedAt, Pow2, HashAt, Above, Slid;
      var w, win' := z.w, window[..];
      var owner' := AllSlid(win, win', start, n, head0, prev0, head, prev, owner, last, consumed, base, ins_h, z);
      AboveSlides(head0, prev0, owner, floor, w, head, prev, owner');
      owner, last, base, floor := owner', last - w, base + w, floor - w;
      assert window[..] == win';
    }

    lemma ReadyMeans()
      requires Ready()
      ensures Shape() && strstart + lookahead <= 2 * z.w == window.Length && last < strstart
      ensures Tracks(window[..], consumed, base, strstart + lookahead)
      ensures Chained(window[..], strstart + lookahead, head, prev, owner, last, z) && Above(head, prev, owner, floor)
      ensures 0 <= base + block_start && block_start <= strstart && 0 <= base + floor && floor <= strstart
      ensures lookahead >= MIN_MATCH ==> PrimedAt(window[..], strstart, strstart + lookahead, ins_h, z)
    {
      hide Chained, Tracks, PrimedAt, Above;
    }

    // Every head and link names the string it named, w bytes further down, or none.
    ghost predicate HistorySlid(head0: seq<nat>, prev0: seq<nat>, owner0: seq<int>)
      reads this`head, this`prev, this`owner
    {
      && |head| == |head0| && (forall h :: 0 <= h < |head| ==> head[h] == Slid(head0[h], z.w))
      && |prev| == |prev0| && (forall s :: 0 <= s < |prev| ==> prev[s] == Slid(prev0[s], z.w))
      && |owner| == |owner0| && (forall s :: 0 <= s < |owner| ==> owner[s] == owner0[s] - z.w)
    }

    // window.set(window.subarray(w_size, w_size + w_size), 0)
    method MoveDown(ghost n: nat)
      requires window.Length == 2 * z.w && z.w <= n <= 2 * z.w
      modifies window
      ensures window[..][..n - z.w] == old(window[..])[z.w..n]
    {
      var w := z.w;
      forall i | 0 <= i < w {
        window[i] := window[w + i];
      }
    }

    method SlideHeads()
      modifies this`head
      ensures |head| == old(|head|) && forall h :: 0 <= h < |head| ==> head[h] == Slid(old(head[h]), z.w)
    {
      var p: nat := |head|;
      ghost var was := head;
      while p != 0
        invariant p <= |head| == |was|
        invariant forall h :: 0 <= h < |head| ==> head[h] == if h < p then was[h] else Slid(was[h], z.w)
      {
        p := p - 1;
        var m := head[p];
        head := head[p := if m >= z.w then m - z.w else 0];
      }
    }

    method SlidePrev()
      modifies this`prev
      ensures |prev| == old(|prev|) && forall s :: 0 <= s < |prev| ==> prev[s] == Slid(old(prev[s]), z.w)
    {
      var p: nat := |prev|;
      ghost var was := prev;
      while p != 0
        invariant p <= |prev| == |was|
        invariant forall s :: 0 <= s < |prev| ==> prev[s] == if s < p then was[s] else Slid(was[s], z.w)
      {
        p := p - 1;
        var m := prev[p];
        prev := prev[p := if m >= z.w then m - z.w else 0];
      }
    }

    // One round of fill_window after the slide: reads what there is room for and primes the hash.
    method ReadMore(strm: ZStream, more: nat)
      requires Ready() && strm.Valid() && window != strm.next_out && strstart + lookahead + more <= 2 * z.w
      modifies this`lookahead, this`ins_h, this`consumed, window, strm`avail_in, strm`next_in_index, strm`total_in,
               strm`accepted
      ensures Ready() && strm.Valid()
      ensures lookahead == old(lookahead) + Min(old(strm.avail_in), more)
      ensures strm.avail_in == old(strm.avail_in) - Min(old(strm.avail_in), more)
      ensures Read(strm, old(strm.next_in_index), old(consumed), old(strm.accepted))
    {
      hide Chained, Tracks, PrimedAt, Pow2, Primed, Update, HashAt, Above;
      ghost var win, n := window[..], strstart + lookahead;
      var len := strm.ReadBuf(window, strstart + lookahead, more);
      ghost var win', chunk := window[..], window[n..n + len];
      assert win'[..n] == win[..n];
      MoreRead(win, win', n, len, chunk, head, prev, owner, last, consumed, base, z);
      lookahead := lookahead + len;
      consumed := consumed + chunk;
      if lookahead >= MIN_MATCH {
        ins_h := window[strstart];
        ins_h := Update(ins_h, window[strstart + 1], z.shift, z.bits);
        PrimeNow(win', strstart, n + len, z);
      }
    }

    // What was read from the stream has joined the input.
    ghost predicate Read(strm: ZStream, from: nat, was: seq<byte>, accepted: seq<byte>)
      reads strm`next_in, strm`next_in_index, strm`accepted, this`consumed
    {
      && from <= strm.next_in_index <= |strm.next_in|
      && consumed == was + strm.next_in[from..strm.next_in_index]
      && strm.accepted == accepted + strm.next_in[from..strm.next_in_index]
    }

    // The dictionary is what it was, but for a slide.
    ghost predicate History(strstart0: nat, head0: seq<nat>, prev0: seq<nat>, owner0: seq<int>)
      reads this`head, this`prev, this`owner
    {
      if strstart0 < 2 * z.w - MIN_LOOKAHEAD then head == head0 && prev == prev0 && owner == owner0
      else HistorySlid(head0, prev0, owner0)
    }

    // One round of fill_window. There is always room for at least two bytes, so a round that leaves
    // input unread has made progress.
    method FillOnce(strm: ZStream)
      requires Ready() && strm.Valid() && window != strm.next_out && lookahead < MIN_LOOKAHEAD
      modifies this`head, this`prev, this`ins_h, this`strstart, this`lookahead, this`block_start, this`match_start,
               this`consumed, this`base, this`owner, this`last, this`floor, window, strm`avail_in, strm`next_in_index,
               strm`total_in, strm`accepted
      ensures Ready() && strm.Valid()
      ensures strm.avail_in == 0 || strm.avail_in + 2 <= old(strm.avail_in)
      ensures strstart < 2 * z.w - MIN_LOOKAHEAD
      ensures lookahead == old(lookahead) + old(strm.avail_in) - strm.avail_in && strm.avail_in <= old(strm.avail_in)
      ensures last <= old(last) && (base == old(base) ==> strstart == old(strstart))
      ensures base + strstart == old(base + strstart)
      ensures if old(strstart) < 2 * z.w - MIN_LOOKAHEAD then base == old(base) else base == old(base) + z.w
      ensures base + block_start == old(base + block_start) && base + match_start == old(base + match_start)
      ensures base + floor == old(base + floor) && History(old(strstart), old(head), old(prev), old(owner))
      ensures Read(strm, old(strm.next_in_index), old(consumed), old(strm.accepted))
    {
      hide Chained, Tracks, PrimedAt, Pow2, Above, HistorySlid;
      assert consumed + [] == consumed && strm.accepted + [] == strm.accepted;
      var more := 2 * z.w - lookahead - strstart;
      if strstart >= z.w + z.w - MIN_LOOKAHEAD {
        Slide();
        more := more + z.w;
      }
      if strm.avail_in == 0 {
        return;
      }
      ReadMore(strm, more);
    }

    // fill_window: reads until there is enough lookahead or no input left.
    method FillWindow(strm: ZStream)
      requires Ready() && strm.Valid() && window != strm.next_out && lookahead < MIN_LOOKAHEAD
      modifies this`head, this`prev, this`ins_h, this`strstart, this`lookahead, this`block_start, this`match_start,
               this`consumed, this`base, this`owner, this`last, this`floor, window, strm`avail_in, strm`next_in_index,
               strm`total_in, strm`accepted
      ensures Ready() && strm.Valid()
      ensures lookahead >= MIN_LOOKAHEAD || strm.avail_in == 0
      ensures strstart < 2 * z.w - MIN_LOOKAHEAD
      ensures lookahead == old(lookahead) + old(strm.avail_in) - strm.avail_in && strm.avail_in <= old(strm.avail_in)
      ensures last <= old(last) && (base == old(base) ==> strstart == old(strstart))
      ensures base + strstart == old(base + strstart)
      ensures if old(strstart) < 2 * z.w - MIN_LOOKAHEAD then base == old(base) else base == old(base) + z.w
      ensures base + block_start == old(base + block_start) && base + match_start == old(base + match_start)
      ensures base + floor == old(base + floor) && History(old(strstart), old(head), old(prev), old(owner))
      ensures Read(strm, old(strm.next_in_index), old(consumed), old(strm.accepted))
    {
      hide Chained, Tracks, PrimedAt, Pow2, Valid, Ready, HistorySlid;
      ghost var from, was, accepted := strm.next_in_index, consumed, strm.accepted;
      FillOnce(strm);
      while lookahead < MIN_LOOKAHEAD && strm.avail_in != 0
        invariant Ready() && strm.Valid() && strstart < 2 * z.w - MIN_LOOKAHEAD
        invariant lookahead == old(lookahead) + old(strm.avail_in) - strm.avail_in
                  && strm.avail_in <= old(strm.avail_in)
        invariant base + strstart == old(base + strstart) && last <= old(last)
        invariant if old(strstart) < 2 * z.w - MIN_LOOKAHEAD then base == old(base) else base == old(base) + z.w
        invariant base + block_start == old(base + block_start) && base + match_start == old(base + match_start)
        invariant base + floor == old(base + floor) && History(old(strstart), old(head), old(prev), old(owner))
        invariant Read(strm, from, was, accepted)
        decreases strm.avail_in
      {
        ghost var mid := strm.next_in_index;
        FillOnce(strm);
        ReadTwice(strm.next_in, from, mid, strm.next_in_index);
        Regrouped(was, strm.next_in[from..mid], strm.next_in[mid..strm.next_in_index]);
        Regrouped(accepted, strm.next_in[from..mid], strm.next_in[mid..strm.next_in_index]);
      }
    }

    // Inserts the string at strstart into the dictionary; hash_head is the youngest older string with its hash.
    method InsertString() returns (hash_head: nat)
      requires Ready() && lookahead >= MIN_MATCH
      modifies this`ins_h, this`head, this`prev, this`owner, this`last
      ensures Valid() && last == strstart && hash_head < strstart + 1 && (hash_head != 0 ==> hash_head >= floor)
      ensures Inserts(old(head), old(prev), old(owner), strstart, hash_head) && Holds(strstart)
      ensures strstart + 3 <= window.Length && PrimedAt(window[..], strstart + 1, strstart + lookahead, ins_h, z)
      ensures hash_head != 0 ==> hash_head < strstart
                                 && OnChain(window[..], strstart + lookahead, owner, last, z,
                                      HashAt(window[..], strstart, z), hash_head)
    {
      hide Tracks, Pow2, Hash3, Chained, Primed, Above;
      ghost var win, n := window[..], strstart + lookahead;
      ChainedShape(win, n, head, prev, owner, last, z);
      Roll(ins_h, win[strstart], win[strstart + 1], win[strstart + 2], z.shift, z.bits);
      ins_h := Update(ins_h, window[strstart + (MIN_MATCH - 1)], z.shift, z.bits);
      ChainedInsert(win, n, head, prev, owner, last, z, strstart, ins_h);
      ghost var was := owner;
      hash_head := head[ins_h];
      if hash_head != 0 {
        ChainHead(win, n, head, prev, owner, last, z, ins_h);
        ChainKept(win, n, owner, last, z, ins_h, hash_head, strstart);
      }
      AboveInsert(head, prev, owner, floor, strstart, ins_h, strstart % z.w);
      HeadAbove(ins_h);
      prev := prev[strstart % z.w := head[ins_h]];
      head := head[ins_h := strstart];
      owner := owner[strstart % z.w := strstart];
      last := strstart;
    }

    // The string at p has become the head of the chain of its hash, before the one that was; nothing else has changed.
    ghost predicate Inserts(head0: seq<nat>, prev0: seq<nat>, owner0: seq<int>, p: nat, hash_head: nat)
      reads this`head, this`prev, this`owner, window
    {
      && z.w > 0 && p + 3 <= window.Length
      && var h := HashAt(window[..], p, z);
         && h < |head0| && p % z.w < |prev0| == |owner0| && hash_head == head0[h]
         && head == head0[h := p] && prev == prev0[p % z.w := hash_head] && owner == owner0[p % z.w := p]
    }

    // The string at q is in the dictionary, with a link of its own.
    ghost predicate Holds(q: int)
      reads this`owner
    {
      z.w > 0 && |owner| == z.w && owner[q % z.w] == q
    }

    // So are all strings from from on and before to.
    ghost predicate HoldsAll(from: int, to: int)
      reads this`owner
    {
      forall q :: from <= q < to ==> Holds(q)
    }

    // The string at p, younger than these by less than a window, joins them.
    lemma HoldsMore(from: int, p: nat, owner0: seq<int>)
      requires 0 < z.w == |owner0| && 0 <= from && p < from + z.w && owner == owner0[p % z.w := p]
      requires forall q :: from <= q < p ==> owner0[q % z.w] == q
      ensures HoldsAll(from, p + 1)
    {
      forall q | from <= q < p + 1
        ensures Holds(q)
      {
        if q < p {
          HoldsStill(q, p, owner0);
        }
      }
    }

    lemma HoldsBefore(from: int, to: int)
      requires HoldsAll(from, to) && Valid()
      ensures 0 < z.w == |owner| && forall q :: from <= q < to ==> owner[q % z.w] == q
    {
      hide Tracks, Pow2, Chained, Above;
      ChainedShape(window[..], strstart + lookahead, head, prev, owner, last, z);
      forall q | from <= q < to
        ensures owner[q % z.w] == q
      {
        assert Holds(q);
      }
    }

    lemma HoldsOne(from: int, to: int)
      requires HoldsAll(from, to) && from < to
      ensures Holds(from)
    {
    }

    lemma HoldsLess(from: int, to: int, less: int)
      requires HoldsAll(from, to) && less <= to
      ensures HoldsAll(from, less)
    {
    }

    lemma HoldsFrom(from: int, to: int)
      requires from >= to || (to == from + 1 && Holds(from))
      ensures HoldsAll(from, to)
    {
    }

    // A string less than a window older keeps it when another is inserted.
    lemma HoldsStill(q: int, p: nat, owner0: seq<int>)
      requires 0 < z.w == |owner0| && owner0[q % z.w] == q && 0 <= q < p < q + z.w && owner == owner0[p % z.w := p]
      ensures Holds(q)
    {
      if q % z.w == p % z.w {
        SameSlot(q, p, z.w);
      }
    }

    lemma HeadAbove(h: nat)
      requires Above(head, prev, owner, floor) && h < |head|
      ensures head[h] != 0 ==> head[h] >= floor
    {
    }

    // strstart += n, lookahead -= n, with a fresh hash.
    method Skip(n: nat)
      requires Valid() && 1 <= n <= lookahead && strstart + n + 1 < window.Length
      modifies this`strstart, this`lookahead, this`ins_h
      ensures Ready() && strstart == old(strstart) + n && lookahead == old(lookahead) - n
    {
      hide Tracks, Pow2, Chained, PrimedAt, Above;
      strstart := strstart + n;
      lookahead := lookahead - n;
      ins_h := window[strstart];
      ins_h := Update(ins_h, window[strstart + 1], z.shift, z.bits);
      if lookahead >= MIN_MATCH {
        PrimeNow(window[..], strstart, strstart + lookahead, z);
      }
    }

    // strstart += lookahead, lookahead = 0, then both back so that strstart is at most max_start: no string
    // from strstart on may be in the dictionary.
    method Gather(max_start: nat) returns (full: bool)
      requires Valid() && last < strstart < max_start && lookahead >= 1
      modifies this`strstart, this`lookahead
      ensures Valid() && last < strstart && full == (old(strstart + lookahead) >= max_start)
      ensures strstart + lookahead == old(strstart + lookahead)
      ensures strstart == if full then max_start else old(strstart + lookahead)
    {
      hide Tracks, Pow2, Chained, Above;
      strstart := strstart + lookahead;
      lookahead := 0;
      full := strstart == 0 || strstart >= max_start;
      if full {
        lookahead := strstart - max_start;
        strstart := max_start;
      }
    }

    // What a full flush does: forgets the history.
    method Forget()
      requires Valid() && last < strstart
      modifies this`head, this`floor
      ensures Valid() && (old(Ready()) ==> Ready()) && floor == strstart
      ensures |head| == old(|head|) && forall h :: 0 <= h < |head| ==> head[h] == 0
    {
      hide Tracks, Pow2, Chained, PrimedAt, Above;
      ghost var was := head;
      ChainedShape(window[..], strstart + lookahead, head, prev, owner, last, z);
      var i := 0;
      while i < |head|
        invariant i <= |head| == |was| && forall h :: 0 <= h < i ==> head[h] == 0
      {
        head := head[i := 0];
        i := i + 1;
      }
      ChainedForget(window[..], strstart + lookahead, was, prev, owner, last, z, head);
      AboveForget(window[..], strstart + lookahead, was, prev, owner, last, z, head, strstart);
      floor := strstart;
    }

    // With too little lookahead nothing is inserted.
    lemma Behind()
      requires Ready()
      ensures Valid() && last < strstart
    {
    }

    // strstart++, lookahead--
    method Advance()
      requires Valid() && lookahead > 0
      requires lookahead > MIN_MATCH ==> PrimedAt(window[..], strstart + 1, strstart + lookahead, ins_h, z)
      modifies this`strstart, this`lookahead
      ensures Ready() && strstart == old(strstart) + 1 && lookahead == old(lookahead) - 1
    {
      hide Tracks, Pow2, Chained, PrimedAt, Above;
      strstart := strstart + 1;
      lookahead := lookahead - 1;
    }

    // The comparison loop of longest_match: how far the strings at scan and match_ agree from their fourth byte on.
    method Compare(scan: nat, match_: nat) returns (len: nat)
      requires match_ <= scan && scan + MAX_MATCH < window.Length
      ensures 3 <= len <= MAX_MATCH
      ensures forall k :: scan + 3 <= k < scan + len ==> window[k] == window[k - (scan - match_)]
      ensures len < MAX_MATCH ==> window[scan + len] != window[match_ + len]
    {
      var strend := scan + MAX_MATCH;
      var s, m := scan + 2 + 1, match_ + 2 + 1;
      while window[s] == window[m] && s < strend
        invariant scan + 3 <= s <= strend && m == s - (scan - match_)
        invariant forall k :: scan + 3 <= k < s ==> window[k] == window[k - (scan - match_)]
      {
        s, m := s + 1, m + 1;
      }
      len := MAX_MATCH - (strend - s);
    }

    // A candidate for the search: the stale head left over when lookahead is short may be any position.
    ghost predicate Candidate(cur: nat)
      reads this`strstart, this`lookahead, this`owner, this`last, this`floor, window
    {
      && cur <= strstart
      && (lookahead >= MIN_MATCH ==>
            && z.w > 0 && last == strstart && strstart + lookahead <= window.Length
                 && cur < strstart <= cur + z.w - MIN_LOOKAHEAD && floor <= cur
            && OnChain(window[..], strstart + lookahead, owner, last, z, HashAt(window[..], strstart, z), cur))
    }

    // The best match so far agrees with the input.
    ghost predicate Found(len: nat)
      reads this`match_start, this`strstart, this`lookahead, this`floor, window
    {
      && 0 <= match_start < strstart <= match_start + z.w - MIN_LOOKAHEAD && floor <= match_start
      && Agrees(window[..], match_start, strstart, len, strstart + lookahead)
    }

    // The comparisons of one round of longest_match; 0 stands for its continue.
    method Attempt(cur: nat, best_len: nat, scan_end: byte, scan_end1: byte) returns (len: nat)
      requires Valid() && Candidate(cur) && strstart + MAX_MATCH < window.Length && 1 <= best_len <= MAX_MATCH
      requires scan_end == window[strstart + best_len] && scan_end1 == window[strstart + best_len - 1]
      ensures len <= MAX_MATCH
      ensures lookahead >= MIN_MATCH ==>
                if Len(window[..], cur, strstart) > best_len then len == Len(window[..], cur, strstart)
                else len <= best_len
      ensures len > 0 && lookahead >= MIN_MATCH ==>
                cur < strstart <= cur + z.w - MIN_LOOKAHEAD && floor <= cur
                  && Agrees(window[..], cur, strstart, len, strstart + lookahead)
    {
      hide Valid, Candidate, Agrees, Agreement;
      var scan := strstart;
      CandidateBound(cur);
      ghost var win, agreed := window[..], Len(window[..], cur, strstart);
      AgreementHolds(win, cur, strstart, 0);
      if agreed > best_len {
        assert win[strstart] == win[cur] && win[strstart + 1] == win[cur + 1];
        assert win[strstart + best_len] == win[strstart + best_len - (strstart - cur)];
        assert win[strstart + best_len - 1] == win[strstart + best_len - 1 - (strstart - cur)];
      }
      if window[cur + best_len] != scan_end || window[cur + best_len - 1] != scan_end1 || window[cur] != window[scan]
         || window[cur + 1] != window[scan + 1] {
        return 0;
      }
      len := Compare(scan, cur);
      if lookahead >= MIN_MATCH {
        ChainAgrees(cur, len);
        CandidateNear(cur);
        AttemptLength(cur, len);
      }
    }

    lemma AttemptLength(cur: nat, len: nat)
      requires Agrees(window[..], cur, strstart, len, strstart + lookahead) && lookahead >= MIN_MATCH
      requires strstart + MAX_MATCH < window.Length && 3 <= len <= MAX_MATCH
      requires forall k :: strstart + 3 <= k < strstart + len ==> window[k] == window[k - (strstart - cur)]
      requires len < MAX_MATCH ==> window[strstart + len] != window[cur + len]
      ensures Len(window[..], cur, strstart) == len
    {
      hide Agreement;
      var win := window[..];
      forall q | strstart <= q < strstart + len
        ensures win[q] == win[q - (strstart - cur)]
      {
        if q >= strstart + 3 {
          assert window[q] == window[q - (strstart - cur)];
        }
      }
      AgreementIs(win, cur, strstart, 0, len);
    }

    // The condition of the loop of longest_match: the next string of the chain, unless it is too far or enough were
    // tried.
    method NextOnChain(cur: nat, limit: nat, chain_length: nat) returns (next: nat, left: nat, more: bool)
      requires Valid() && Candidate(cur) && chain_length >= 1
      requires limit == if strstart > z.w - MIN_LOOKAHEAD then strstart - (z.w - MIN_LOOKAHEAD) else 0
      ensures left <= chain_length && (more ==> next <= strstart && 1 <= left < chain_length && Candidate(next))
      ensures z.w == |prev| > 0 && next == prev[cur % z.w] && (more <==> next > limit && chain_length > 1)
      ensures more ==> left == chain_length - 1
    {
      hide Valid, Candidate;
      Bounds();
      if lookahead >= MIN_MATCH {
        NextCandidate(cur, limit);
      }
      next, left := prev[cur % z.w], chain_length;
      if lookahead < MIN_MATCH {
        StaleCandidate(next);
      }
      more := next > limit;
      if more {
        left := left - 1;
        more := left != 0;
      }
    }

    // How far back a match may reach.
    function Limit(): nat
      reads this`strstart
    {
      if strstart > z.w - MIN_LOOKAHEAD then strstart - (z.w - MIN_LOOKAHEAD) else 0
    }

    // What longest_match comes to when it starts at cur with these links: it tries fewer strings if the previous match
    // is good already. best is the length selected, start where the match is, or start0 if there is none.
    ghost predicate Selects(prev: seq<nat>, cur: nat, prev_length: nat, effort: Effort, start0: int, best: nat,
                            start: int)
      reads this`strstart, this`lookahead, window
    {
      && 0 < z.w == |prev| && effort.max_chain_length >= 4
      && var n := if prev_length >= effort.good_match then effort.max_chain_length / 4 else effort.max_chain_length;
         var tried := Tried(prev, z.w, cur, Limit(), n);
         exists found: Option<nat> ::
           && Selected(window[..], strstart, tried, prev_length, Min(effort.nice_match, lookahead), best, found)
           && (found.Some? ==> found.value < |tried|)
           && start == if found.Some? then tried[found.value] else start0
    }

    // longest_match: the longest match longer than prev_length on the chain, or the first nice one, cut off at the end
    // of the input; or nothing better.
    method LongestMatch(hash_head: nat, prev_length: nat, effort: Effort)
      returns (r: nat, ghost best: nat)
      requires Valid() && lookahead >= 1 && strstart <= 2 * z.w - MIN_LOOKAHEAD
      requires 1 <= prev_length <= MAX_MATCH && effort.max_chain_length >= 4 && Candidate(hash_head)
      modifies this`match_start
      ensures 1 <= r <= MAX_MATCH && r <= lookahead
      ensures r > prev_length && r >= MIN_MATCH ==>
                && match_start < strstart <= match_start + z.w - MIN_LOOKAHEAD && 0 <= base + match_start
                && floor <= match_start
                && Repeats(consumed, base + strstart, r, strstart - match_start)
      ensures r <= prev_length || lookahead < MIN_MATCH || 0 <= match_start
      ensures r == Min(best, lookahead)
      ensures lookahead >= MIN_MATCH ==>
                Selects(prev, hash_head, prev_length, effort, old(match_start), best, match_start)
    {
      hide Chained, Tracks, Pow2, Candidate, Valid, Found, Repeats, Len, Selected, Tried;
      Bounds();
      CandidateBound(hash_head);
      var chain_length: nat := effort.max_chain_length;
      var limit: nat := if strstart > z.w - MIN_LOOKAHEAD then strstart - (z.w - MIN_LOOKAHEAD) else 0;
      if prev_length >= effort.good_match {
        chain_length := chain_length / 4;
      }
      var nice := effort.nice_match;
      if nice > lookahead {
        nice := lookahead;
      }
      var best_len: nat;
      ghost var found;
      best_len, found := FollowChain(hash_head, limit, chain_length, prev_length, nice);
      if best_len > prev_length && lookahead >= MIN_MATCH {
        Settle(best_len);
      }
      best := best_len;
      r := if best_len <= lookahead then best_len else lookahead;
    }

    // The loop of longest_match.
    method FollowChain(hash_head: nat, limit: nat, max_chain_length: nat, prev_length: nat, nice: nat)
      returns (best_len: nat, ghost found: Option<nat>)
      requires Valid() && lookahead >= 1 && strstart <= 2 * z.w - MIN_LOOKAHEAD
      requires 1 <= prev_length <= MAX_MATCH && max_chain_length >= 1 && Candidate(hash_head) && limit == Limit()
      modifies this`match_start
      ensures prev_length <= best_len <= MAX_MATCH && z.w == |prev| > 0
      ensures lookahead >= MIN_MATCH && best_len > prev_length ==> Found(best_len)
      ensures lookahead >= MIN_MATCH ==>
                var tried := Tried(prev, z.w, hash_head, limit, max_chain_length);
                && Selected(window[..], strstart, tried, prev_length, nice, best_len, found)
                && (found.Some? ==> found.value < |tried|)
                && match_start == if found.Some? then tried[found.value] else old(match_start)
    {
      hide Chained, Tracks, Pow2, Candidate, Valid, Found, Len, Selected, Midway, Tried, Agrees, Searching, OnChain,
        HashAt, Agreement, StillToTry;
      Bounds();
      CandidateBound(hash_head);
      var scan, cur: nat, chain_length := strstart, hash_head, max_chain_length;
      best_len := prev_length;
      var scan_end1, scan_end := window[scan + best_len - 1], window[scan + best_len];
      ghost var tried, before, start0 := Tried(prev, z.w, cur, limit, chain_length), [], match_start;
      found := None;
      AllToTry(tried, prev, z.w, cur, limit, chain_length);
      MidwayFirst(prev_length, nice);
      var more := true;
      while more
        invariant more ==> cur <= strstart
        invariant prev_length <= best_len <= MAX_MATCH && (more ==> chain_length >= 1 && Candidate(cur))
        invariant scan_end1 == window[scan + best_len - 1] && scan_end == window[scan + best_len]
        invariant StillToTry(tried, before, prev, z.w, cur, limit, chain_length, more)
        invariant Midway(before, prev_length, nice, best_len, found, start0)
        decreases chain_length, more
      {
        ghost var rest := OneTried(tried, before, prev, z.w, cur, limit, chain_length);
        var len := Attempt(cur, best_len, scan_end, scan_end1);
        if len > best_len {
          MidwayMeans(before, prev_length, nice, best_len, found, start0);
          ghost var had, hit := best_len, found;
          match_start := cur;
          best_len := len;
          found := Some(|before|);
          if len >= nice {
            FoundNice(before, prev_length, nice, had, hit, cur, len, rest);
            break;
          }
          FoundBetter(before, prev_length, nice, had, hit, start0, cur, len);
          scan_end1, scan_end := window[scan + best_len - 1], window[scan + best_len];
        } else {
          MidwayNext(before, prev_length, nice, best_len, found, start0, cur);
        }
        before := before + [cur];
        cur, chain_length, more := NextOnChain(cur, limit, chain_length);
      }
      if !more {
        NoneToTry(tried, before, prev, z.w, cur, limit, chain_length);
        MidwayEnd(before, prev_length, nice, best_len, found, start0);
      }
    }

    // In the middle of the loop: what was found among the strings before.
    ghost predicate Midway(before: seq<nat>, least: nat, nice: nat, best: nat, found: Option<nat>, start0: int)
      reads this`match_start, this`strstart, this`lookahead, this`floor, window
    {
      lookahead >= MIN_MATCH ==>
        && Searching(window[..], strstart, before, least, nice, best, found)
        && (best > least ==> Found(best))
        && (found.Some? ==> found.value < |before|)
        && match_start == if found.Some? then before[found.value] else start0
    }

    lemma MidwayFirst(least: nat, nice: nat)
      ensures Midway([], least, nice, least, None, match_start)
    {
      SearchingNothing(window[..], strstart, least, nice);
    }

    lemma MidwayMeans(before: seq<nat>, least: nat, nice: nat, best: nat, found: Option<nat>, start0: int)
      requires Midway(before, least, nice, best, found, start0)
      ensures lookahead >= MIN_MATCH ==> Searching(window[..], strstart, before, least, nice, best, found)
    {
      hide Searching, Found;
    }

    // A string that is no better leaves things as they are,
    lemma MidwayNext(before: seq<nat>, least: nat, nice: nat, best: nat, found: Option<nat>, start0: int, cur: nat)
      requires Midway(before, least, nice, best, found, start0)
      requires lookahead >= MIN_MATCH ==> Len(window[..], cur, strstart) <= best
      ensures Midway(before + [cur], least, nice, best, found, start0)
    {
      hide Searching, Found, Len;
      if lookahead >= MIN_MATCH {
        SearchingNext(window[..], strstart, before, least, nice, best, found, cur);
      }
    }

    // a better one is the match so far,
    lemma FoundBetter(before: seq<nat>, least: nat, nice: nat, best: nat, found: Option<nat>, start0: int, cur: nat,
                      len: nat)
      requires match_start == cur && len < nice
      requires lookahead >= MIN_MATCH ==>
                 && Searching(window[..], strstart, before, least, nice, best, found)
                 && best < len == Len(window[..], cur, strstart) && cur < strstart <= cur + z.w - MIN_LOOKAHEAD
                 && floor <= cur
                 && Agrees(window[..], cur, strstart, len, strstart + lookahead)
      ensures Midway(before + [cur], least, nice, len, Some(|before|), start0)
    {
      hide Searching, Len, Agrees;
      if lookahead >= MIN_MATCH {
        SearchingNext(window[..], strstart, before, least, nice, best, found, cur);
      }
    }

    // and a nice one is taken.
    lemma FoundNice(before: seq<nat>, least: nat, nice: nat, best: nat, found: Option<nat>, cur: nat, len: nat,
                    rest: seq<nat>)
      requires match_start == cur && len >= nice
      requires lookahead >= MIN_MATCH ==>
                 && Searching(window[..], strstart, before, least, nice, best, found)
                 && best < len == Len(window[..], cur, strstart) && cur < strstart <= cur + z.w - MIN_LOOKAHEAD
                 && floor <= cur
                 && Agrees(window[..], cur, strstart, len, strstart + lookahead)
      ensures lookahead >= MIN_MATCH ==>
                && Selected(window[..], strstart, before + [cur] + rest, least, nice, len, Some(|before|))
                && Found(len) && (before + [cur] + rest)[|before|] == cur
    {
      hide Searching, Selected, Len, Agrees;
      if lookahead >= MIN_MATCH {
        NiceFound(window[..], strstart, before, least, nice, best, found, cur, rest);
      }
    }

    lemma MidwayEnd(before: seq<nat>, least: nat, nice: nat, best: nat, found: Option<nat>, start0: int)
      requires Midway(before, least, nice, best, found, start0)
      ensures lookahead >= MIN_MATCH ==>
                && Selected(window[..], strstart, before, least, nice, best, found)
                && (best > least ==> Found(best)) && (found.Some? ==> found.value < |before|)
                && match_start == if found.Some? then before[found.value] else start0
    {
      hide Searching, Selected, Found, Len;
      if lookahead >= MIN_MATCH {
        AllTried(window[..], strstart, before, least, nice, best, found);
      }
    }

    lemma Bounds()
      requires Valid()
      ensures 512 <= z.w <= 32768 && window.Length == 2 * z.w && strstart + lookahead <= 2 * z.w && |prev| == z.w
              && last <= strstart && block_start <= strstart
      ensures forall s :: 0 <= s < |prev| ==> prev[s] <= strstart
    {
      hide Chained, Tracks, Pow2, Above;
      ChainedShape(window[..], strstart + lookahead, head, prev, owner, last, z);
    }

    lemma CandidateBound(cur: nat)
      requires Candidate(cur)
      ensures cur <= strstart
    {
    }

    lemma CandidateNear(cur: nat)
      requires Candidate(cur) && lookahead >= MIN_MATCH
      ensures cur < strstart <= cur + z.w - MIN_LOOKAHEAD && floor <= cur
    {
    }

    lemma StaleCandidate(cur: nat)
      requires cur <= strstart && lookahead < MIN_MATCH
      ensures Candidate(cur)
    {
    }

    lemma ChainAgrees(cur: nat, len: nat)
      requires Valid() && Candidate(cur) && lookahead >= MIN_MATCH && strstart + len <= window.Length
      requires window[cur] == window[strstart] && window[cur + 1] == window[strstart + 1]
      requires forall k :: strstart + 3 <= k < strstart + len ==> window[k] == window[k - (strstart - cur)]
      ensures Agrees(window[..], cur, strstart, len, strstart + lookahead)
    {
      hide Tracks, Pow2, HashAt, Chained, Above;
      ChainedShape(window[..], strstart + lookahead, head, prev, owner, last, z);
      AgreesOnChain(window[..], cur, strstart, len, strstart + lookahead, z);
    }

    lemma NextCandidate(cur: nat, limit: nat)
      requires Valid() && Candidate(cur) && lookahead >= MIN_MATCH
      requires limit == if strstart > z.w - MIN_LOOKAHEAD then strstart - (z.w - MIN_LOOKAHEAD) else 0
      ensures z.w > 0 && |prev| == z.w && (prev[cur % z.w] > limit ==> Candidate(prev[cur % z.w]))
    {
      hide Tracks, Pow2, HashAt, OnChain, Chained, Above;
      ChainedShape(window[..], strstart + lookahead, head, prev, owner, last, z);
      if prev[cur % z.w] > limit {
        ChainStep(window[..], strstart + lookahead, head, prev, owner, last, z, HashAt(window[..], strstart, z), cur);
        AboveStep(window[..], strstart + lookahead, head, prev, owner, last, z, HashAt(window[..], strstart, z), cur,
                  floor);
      }
    }

    // What was found, cut off at the end of the input, repeats what was read.
    lemma Settle(len: nat)
      requires Valid() && Found(len)
      ensures 0 <= match_start < strstart <= match_start + z.w - MIN_LOOKAHEAD && floor <= match_start
      ensures Repeats(consumed, base + strstart, Min(len, lookahead), strstart - match_start)
    {
      hide Tracks, Pow2, Chained, Agrees, Repeats, Above;
      AgreesLess(window[..], match_start, strstart, len, Min(len, lookahead), strstart + lookahead);
      AgreesRepeats(window[..], consumed, base, strstart + lookahead, match_start, strstart, Min(len, lookahead));
    }
  }
}
