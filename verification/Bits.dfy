/** Numbers as little-endian bit sequences, as section 3.1.1 of RFC 1951 packs them. */
module Bits {
  import opened Prelude

  // The n low bits of v, least significant first.
  function LowBits(v: nat, n: nat): (s: seq<bool>)
    ensures |s| == n
  {
    if n == 0 then [] else [v % 2 == 1] + LowBits(v / 2, n - 1)
  }

  // The number whose bits, least significant first, are s.
  function Val(s: seq<bool>): nat {
    if s == [] then 0 else (if s[0] then 1 else 0) + 2 * Val(s[1..])
  }

  lemma {:induction false} ValLowBits(v: nat, n: nat)
    requires v < Pow2(n)
    ensures Val(LowBits(v, n)) == v
  {
    if n > 0 {
      ValLowBits(v / 2, n - 1);
      assert LowBits(v, n)[1..] == LowBits(v / 2, n - 1);
    }
  }

  // v shifted left by k.
  function Shl(v: nat, k: nat): nat {
    if k == 0 then v else 2 * Shl(v, k - 1)
  }

  // Unsigned shift right by k, and the k bits it drops.
  function Shr(v: nat, k: nat): nat {
    if k == 0 then v else Shr(v / 2, k - 1)
  }

  function Low(v: nat, k: nat): nat {
    if k == 0 then 0 else v % 2 + 2 * Low(v / 2, k - 1)
  }

  lemma {:induction false} ShlIsProduct(v: nat, k: nat)
    ensures Shl(v, k) == v * Pow2(k)
  {
    if k > 0 {
      ShlIsProduct(v, k - 1);
      assert v * Pow2(k) == 2 * (v * Pow2(k - 1));
    }
  }

  lemma {:induction false} ShlZero(k: nat)
    ensures Shl(0, k) == 0
  {
    if k > 0 {
      ShlZero(k - 1);
    }
  }

  lemma {:induction false} ShrLow(v: nat, k: nat)
    ensures v == Low(v, k) + Shl(Shr(v, k), k)
    ensures Low(v, k) < Pow2(k)
  {
    if k > 0 {
      ShrLow(v / 2, k - 1);
    }
  }

  // The split is the only one.
  lemma {:induction false} ShrLowUnique(v: nat, k: nat, hi: nat, lo: nat)
    requires lo < Pow2(k) && v == lo + Shl(hi, k)
    ensures Low(v, k) == lo && Shr(v, k) == hi
  {
    if k > 0 {
      assert v % 2 == lo % 2 && v / 2 == lo / 2 + Shl(hi, k - 1);
      ShrLowUnique(v / 2, k - 1, hi, lo / 2);
    }
  }

  lemma {:induction false} LowBitsConcat(a: nat, v: nat, k: nat, m: nat)
    requires a < Pow2(k)
    ensures LowBits(a + Shl(v, k), k + m) == LowBits(a, k) + LowBits(v, m)
  {
    if k > 0 {
      var w := a + Shl(v, k);
      assert w % 2 == a % 2 && w / 2 == a / 2 + Shl(v, k - 1);
      LowBitsConcat(a / 2, v, k - 1, m);
    }
  }

  lemma LowBitsSplit(v: nat, k: nat, m: nat)
    ensures LowBits(v, k + m) == LowBits(Low(v, k), k) + LowBits(Shr(v, k), m)
  {
    ShrLow(v, k);
    LowBitsConcat(Low(v, k), Shr(v, k), k, m);
  }

  // Bitwise or on naturals.
  function BitOr(a: nat, b: nat): nat {
    if a == 0 then b else if b == 0 then a else
      (if a % 2 == 1 || b % 2 == 1 then 1 else 0) + 2 * BitOr(a / 2, b / 2)
  }

  // Bitwise exclusive or on naturals.
  function BitXor(a: nat, b: nat): nat
    decreases a + b
  {
    if a == 0 then b else if b == 0 then a else
      (a + b) % 2 + 2 * BitXor(a / 2, b / 2)
  }

  lemma {:induction false} OrDisjoint(a: nat, v: nat, k: nat)
    requires a < Pow2(k)
    ensures BitOr(a, Shl(v, k)) == a + Shl(v, k)
  {
    if k > 0 && a > 0 && Shl(v, k) > 0 {
      var w := Shl(v, k);
      assert w % 2 == 0 && w / 2 == Shl(v, k - 1);
      OrDisjoint(a / 2, v, k - 1);
    }
  }

  // ---- bytes as bits ----

  function BytesToBits(s: seq<byte>): (b: seq<bool>)
    ensures |b| == 8 * |s|
  {
    if s == [] then [] else BytesToBits(s[..|s| - 1]) + LowBits(s[|s| - 1], 8)
  }

  lemma BytesToBitsSnoc(s: seq<byte>, b: byte)
    ensures BytesToBits(s + [b]) == BytesToBits(s) + LowBits(b, 8)
  {
    assert (s + [b])[..|s|] == s;
  }

  // The bits e stand at position pos of the stream s.
  predicate At(s: seq<bool>, pos: nat, e: seq<bool>) {
    pos + |e| <= |s| && s[pos..pos + |e|] == e
  }

  lemma AtSplit(s: seq<bool>, pos: nat, a: seq<bool>, b: seq<bool>)
    ensures At(s, pos, a + b) <==> At(s, pos, a) && At(s, pos + |a|, b)
  {
    if At(s, pos, a + b) {
      var t := s[pos..pos + |a + b|];
      assert t[..|a|] == a && t[|a|..] == b;
      assert s[pos..pos + |a|] == t[..|a|];
      assert s[pos + |a|..pos + |a| + |b|] == t[|a|..];
    }
    if At(s, pos, a) && At(s, pos + |a|, b) {
      assert s[pos..pos + |a + b|] == s[pos..pos + |a|] + s[pos + |a|..pos + |a| + |b|];
    }
  }

  // Whatever is appended to a stream stands at its old end.
  lemma AtEnd(s: seq<bool>, e: seq<bool>, ext: seq<bool>)
    ensures At(s + e + ext, |s|, e)
  {
  }

  lemma {:induction false} ShrSmall(v: nat, k: nat, m: nat)
    requires v < Pow2(k + m)
    ensures Shr(v, k) < Pow2(m)
  {
    if k == 0 {
    } else {
      ShrSmall(v / 2, k - 1, m);
    }
  }
}
