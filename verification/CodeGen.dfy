/** From code lengths to bit-reversed canonical codes. */
module CodeGen {
  import opened Prelude
  import opened Bits
  import opened Inflate
  import opened Canonical
  import opened Huffman
  import opened LengthCounts

  // The first len bits of a code, the other way round.
  method BiReverse(code: nat, len: nat) returns (r: nat)
    requires len >= 1
    ensures r == Reversed(code, len)
  {
    hide LowBits, Rev, Shr, Pow2;
    var res: nat, rest: nat, left: nat := 0, code, len;
    ghost var half: nat, i: nat := 0, 0;
    ReverseStart(code);
    while left > 0
      invariant left + i == len && res == 2 * half && rest == Shr(code, i)
      invariant half < Pow2(i) && LowBits(half, i) == Rev(LowBits(code, i))
    {
      ReverseStep(code, i, half, rest);
      res := BitOr(res, rest % 2);
      half := res;
      rest := rest / 2;
      res := 2 * res;
      left := left - 1;
      i := i + 1;
    }
    ReversedUnique(half, code, len);
    r := res / 2;
  }

  lemma ReverseStart(code: nat)
    ensures 0 < Pow2(0) && LowBits(0, 0) == Rev(LowBits(code, 0)) && Shr(code, 0) == code
  {
  }

  lemma {:induction false} ShrStep(v: nat, i: nat)
    ensures Shr(v, i + 1) == Shr(v, i) / 2
  {
    if i > 0 {
      ShrStep(v / 2, i - 1);
    }
  }

  lemma ReverseStep(code: nat, i: nat, half: nat, rest: nat)
    requires half < Pow2(i) && LowBits(half, i) == Rev(LowBits(code, i)) && rest == Shr(code, i)
    ensures BitOr(2 * half, rest % 2) == 2 * half + rest % 2 < Pow2(i + 1)
    ensures LowBits(2 * half + rest % 2, i + 1) == Rev(LowBits(code, i + 1))
    ensures rest / 2 == Shr(code, i + 1)
  {
    var bit := rest % 2;
    OneBit(half, bit);
    OrOneBit(half, bit);
    ShrStep(code, i);
    LowBitsSplit(code, i, 1);
    LowBitsOfLow(code, i);
    RevConcat(LowBits(code, i), LowBits(rest, 1));
    assert LowBits(rest, 1) == [bit == 1];
    assert Rev([bit == 1]) == [bit == 1];
    assert LowBits(2 * half + bit, i + 1) == [bit == 1] + LowBits(half, i);
  }

  lemma OneBit(half: nat, bit: nat)
    requires bit < 2
    ensures (2 * half + bit) % 2 == bit && (2 * half + bit) / 2 == half
  {
  }

  lemma OrOneBit(half: nat, bit: nat)
    requires bit < 2
    ensures BitOr(2 * half, bit) == 2 * half + bit
  {
    if half > 0 && bit > 0 {
      assert (2 * half) % 2 == 0 && (2 * half) / 2 == half;
      assert BitOr(half, 0) == half;
    }
  }

  lemma {:induction false} LowBitsOfLow(v: nat, k: nat)
    ensures LowBits(Low(v, k), k) == LowBits(v, k)
  {
    if k > 0 {
      LowBitsOfLow(v / 2, k - 1);
      OneBit(Low(v / 2, k - 1), v % 2);
    }
  }

  // ---- counting codes of one length ----

  lemma FirstCodes(lens: seq<nat>)
    ensures FirstCode(lens, 0) == 0
  {
  }

  lemma NextFirst(lens: seq<nat>, b: nat)
    requires b >= 1
    ensures FirstCode(lens, b) == if b == 1 then 0 else 2 * (FirstCode(lens, b - 1) + Count(lens, b - 1))
  {
  }

  lemma NoneCounted(lens: seq<nat>)
    ensures forall b :: Count(lens[..0], b) == 0
  {
  }

  lemma CountNext(lens: seq<nat>, n: nat)
    requires n < |lens|
    ensures forall b :: Count(lens[..n + 1], b) == Count(lens[..n], b) + (if lens[n] == b then 1 else 0)
  {
    assert lens[..n + 1][..n] == lens[..n];
  }

  ghost function PlacesOf(lens: seq<nat>, k: nat, b: nat): set<nat>
    requires k <= |lens|
  {
    set x: nat | x < k && lens[x] == b
  }

  lemma {:induction false} CountIsCard(lens: seq<nat>, k: nat, b: nat)
    requires k <= |lens|
    ensures Count(lens[..k], b) == |PlacesOf(lens, k, b)|
  {
    if k > 0 {
      CountNext(lens, k - 1);
      CountIsCard(lens, k - 1, b);
      if lens[k - 1] == b {
        assert PlacesOf(lens, k, b) == PlacesOf(lens, k - 1, b) + {k - 1};
      } else {
        assert PlacesOf(lens, k, b) == PlacesOf(lens, k - 1, b);
      }
    } else {
      assert PlacesOf(lens, k, b) == {};
    }
  }

  // The counts of the leaves are the counts of the code lengths.
  lemma LeafCounts(leaves: set<nat>, dl: seq<nat>, n: nat, bl: seq<nat>, b: nat)
    requires Within(leaves, dl) && Counts(leaves, dl, bl) && n <= |dl| && 1 <= b <= MAX_BITS
    requires forall x :: x in leaves ==> x < n
    requires forall x :: 0 <= x < n && x !in leaves ==> dl[x] == 0
    ensures Count(dl[..n], b) == bl[b]
  {
    var lens := dl[..n];
    assert lens[..n] == lens;
    CountIsCard(lens, n, b);
    assert PlacesOf(lens, n, b) == OfLength(leaves, dl, b);
  }

  lemma {:induction false} KraftIsSpace(lens: seq<nat>, bl: seq<nat>, max: nat, b: nat)
    requires |bl| == MAX_BITS + 1 && b <= max <= MAX_BITS
    requires forall k :: 1 <= k <= MAX_BITS ==> bl[k] == Count(lens, k)
    ensures Kraft(lens, b) == Shl(Space(bl, max, b), MAX_BITS - max)
  {
    if b == 0 {
      ShlZero(MAX_BITS - max);
    } else {
      KraftIsSpace(lens, bl, max, b - 1);
      ShlAdd(Space(bl, max, b - 1), Shl(bl[b], max - b), MAX_BITS - max);
      ShlShl(bl[b], max - b, MAX_BITS - max);
    }
  }

  lemma {:induction false} KraftBeyond(lens: seq<nat>, max: nat, b: nat)
    requires max <= b <= MAX_BITS && forall k :: max < k <= MAX_BITS ==> Count(lens, k) == 0
    ensures Kraft(lens, b) == Kraft(lens, max)
  {
    if b > max {
      KraftBeyond(lens, max, b - 1);
      ShlZero(MAX_BITS - b);
    }
  }

  // Lengths without excess describe a complete code.
  lemma NoExcessComplete(lens: seq<nat>, bl: seq<nat>, max: nat, n: nat)
    requires Excess(bl, max, 0, n)
    requires forall k :: 1 <= k <= MAX_BITS ==> bl[k] == Count(lens, k)
    requires forall i :: 0 <= i < |lens| ==> lens[i] <= MAX_BITS
    ensures Complete(lens)
  {
    hide Shl, Pow2, Space, Kraft, Count;
    KraftIsSpace(lens, bl, max, max);
    KraftBeyond(lens, max, MAX_BITS);
    ShlOne(max);
    ShlShl(1, max, MAX_BITS - max);
    ShlOne(MAX_BITS);
  }
}
