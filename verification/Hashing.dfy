/** The rolling hash of the string dictionary. */
module Hashing {
  import opened Prelude
  import opened Bits
  import opened BitWriters

  // ---- exclusive or, bit by bit ----

  lemma {:induction false} XorLow(a: nat, b: nat, k: nat)
    ensures Low(BitXor(a, b), k) == BitXor(Low(a, k), Low(b, k))
  {
    hide BitXor, Low;
    if k == 0 {
      NoneLow(a);
      NoneLow(b);
      NoneLow(BitXor(a, b));
      XorNone();
    } else {
      XorLow(a / 2, b / 2, k - 1);
      XorStep(a, b);
      XorStep(Low(a, k), Low(b, k));
      LowStep(a, k);
      LowStep(b, k);
      LowStep(BitXor(a, b), k);
      SumParity(a, b, Low(a, k), Low(b, k));
      Halves(Low(BitXor(a, b), k), BitXor(Low(a, k), Low(b, k)));
    }
  }

  lemma XorNone()
    ensures BitXor(0, 0) == 0
  {
  }

  lemma NoneLow(v: nat)
    ensures Low(v, 0) == 0
  {
  }

  lemma LowStep(v: nat, k: nat)
    requires k > 0
    ensures Low(v, k) % 2 == v % 2 && Low(v, k) / 2 == Low(v / 2, k - 1)
  {
  }

  lemma SumParity(a: nat, b: nat, c: nat, d: nat)
    requires a % 2 == c % 2 && b % 2 == d % 2
    ensures (a + b) % 2 == (c + d) % 2
  {
  }

  lemma Halves(x: nat, y: nat)
    requires x % 2 == y % 2 && x / 2 == y / 2
    ensures x == y
  {
  }

  lemma XorZero(b: nat)
    ensures BitXor(0, b) == b && BitXor(b, 0) == b
  {
  }

  lemma XorUnfold(a: nat, b: nat)
    requires a > 0 && b > 0
    ensures BitXor(a, b) == (a + b) % 2 + 2 * BitXor(a / 2, b / 2)
  {
  }

  lemma BitAndRest(r: nat, y: nat)
    requires r < 2
    ensures (r + 2 * y) % 2 == r && (r + 2 * y) / 2 == y
  {
  }

  lemma XorStep(a: nat, b: nat)
    ensures BitXor(a, b) % 2 == (a + b) % 2 && BitXor(a, b) / 2 == BitXor(a / 2, b / 2)
  {
    hide BitXor;
    if a == 0 {
      XorZero(b);
      XorZero(b / 2);
    } else if b == 0 {
      XorZero(a);
      XorZero(a / 2);
    } else {
      XorUnfold(a, b);
      BitAndRest((a + b) % 2, BitXor(a / 2, b / 2));
    }
  }

  lemma {:induction false} XorCancel(a: nat, b: nat, c: nat)
    requires BitXor(a, b) == BitXor(a, c)
    ensures b == c
    decreases a + b + c
  {
    hide BitXor;
    if a > 0 || b > 0 || c > 0 {
      XorStep(a, b);
      XorStep(a, c);
      if a / 2 + b / 2 + c / 2 < a + b + c {
        XorCancel(a / 2, b / 2, c / 2);
      }
    }
  }

  lemma {:induction false} LowLow(v: nat, m: nat, k: nat)
    requires k <= m
    ensures Low(Low(v, m), k) == Low(v, k)
  {
    if k > 0 {
      LowLow(v / 2, m - 1, k - 1);
    }
  }

  lemma {:induction false} LowSmall(v: nat, k: nat)
    requires v < Pow2(k)
    ensures Low(v, k) == v
  {
    if k > 0 {
      LowSmall(v / 2, k - 1);
    }
  }

  lemma {:induction false} LowOfHigh(v: nat, s: nat, k: nat)
    requires k <= s
    ensures Low(Shl(v, s), k) == 0
  {
    hide Low, Shl;
    if k == 0 {
      NoneLow(Shl(v, s));
    } else {
      ShlStep(v, s);
      LowStep(Shl(v, s), k);
      LowOfHigh(v, s - 1, k - 1);
      Halves(Low(Shl(v, s), k), 0);
    }
  }

  lemma ShlStep(v: nat, s: nat)
    requires s > 0
    ensures Shl(v, s) % 2 == 0 && Shl(v, s) / 2 == Shl(v, s - 1)
  {
  }

  // ---- the hash of three bytes ----

  // One more byte: ((h << shift) ^ c) & mask.
  function Update(h: nat, c: nat, shift: nat, bits: nat): nat {
    Low(BitXor(Shl(h, shift), c), bits)
  }

  function Hash2(b0: nat, b1: nat, shift: nat, bits: nat): nat {
    Update(Update(0, b0, shift, bits), b1, shift, bits)
  }

  function Hash3(b0: nat, b1: nat, b2: nat, shift: nat, bits: nat): nat {
    Update(Hash2(b0, b1, shift, bits), b2, shift, bits)
  }

  // The sizes deflateInit chooses.
  predicate HashSizes(shift: nat, bits: nat) {
    8 <= bits && bits <= 3 * shift && shift <= bits
  }

  lemma UpdateBelow(h: nat, c: nat, shift: nat, bits: nat)
    ensures Update(h, c, shift, bits) < Pow2(bits)
  {
    ShrLow(BitXor(Shl(h, shift), c), bits);
  }

  // The k low bits of the updated hash depend on the k - shift low bits of the old one only.
  lemma UpdateLow(h: nat, g: nat, c: nat, shift: nat, bits: nat, k: nat)
    requires shift <= bits && k <= bits
    requires k > shift ==> Low(h, k - shift) == Low(g, k - shift)
    ensures Low(Update(h, c, shift, bits), k) == Low(Update(g, c, shift, bits), k)
  {
    LowLow(BitXor(Shl(h, shift), c), bits, k);
    LowLow(BitXor(Shl(g, shift), c), bits, k);
    XorLow(Shl(h, shift), c, k);
    XorLow(Shl(g, shift), c, k);
    if k > shift {
      LowOfShifted(h, shift, k - shift);
      LowOfShifted(g, shift, k - shift);
    } else {
      LowOfHigh(h, shift, k);
      LowOfHigh(g, shift, k);
    }
  }

  // ins_h stands for the two bytes b0 and b1 as far as later hashes can tell.
  predicate Primed(h: nat, b0: nat, b1: nat, shift: nat, bits: nat)
    requires shift <= bits
  {
    Low(h, bits - shift) == Low(Hash2(b0, b1, shift, bits), bits - shift)
  }

  // Rolling the hash over a third byte gives the hash of exactly the last three bytes, and primes it for the next.
  lemma Roll(h: nat, b0: nat, b1: nat, b2: nat, shift: nat, bits: nat)
    requires HashSizes(shift, bits) && Primed(h, b0, b1, shift, bits)
    ensures Update(h, b2, shift, bits) == Hash3(b0, b1, b2, shift, bits) < Pow2(bits)
    ensures Primed(Update(h, b2, shift, bits), b1, b2, shift, bits)
  {
    hide Shl, Low, BitXor, Update;
    var g := Hash2(b0, b1, shift, bits);
    UpdateBelow(h, b2, shift, bits);
    UpdateLow(h, g, b2, shift, bits, bits);
    UpdateBelow(g, b2, shift, bits);
    LowSmall(Update(h, b2, shift, bits), bits);
    LowSmall(Update(g, b2, shift, bits), bits);
    var x := Update(0, b0, shift, bits);
    UpdateLow(x, 0, b1, shift, bits, Positive(bits - 2 * shift));
    UpdateLow(g, Update(0, b1, shift, bits), b2, shift, bits, bits - shift);
  }

  function Positive(x: int): nat {
    if x < 0 then 0 else x
  }

  // Strings with equal hashes and equal first two bytes have equal third bytes.
  lemma ThirdByte(b0: nat, b1: nat, b2: byte, c2: byte, shift: nat, bits: nat)
    requires HashSizes(shift, bits) && Hash3(b0, b1, b2, shift, bits) == Hash3(b0, b1, c2, shift, bits)
    ensures b2 == c2
  {
    hide Shl, Low, BitXor, Pow2;
    var g := Shl(Hash2(b0, b1, shift, bits), shift);
    LowLow(BitXor(g, b2), bits, 8);
    LowLow(BitXor(g, c2), bits, 8);
    XorLow(g, b2, 8);
    XorLow(g, c2, 8);
    Pow2Values();
    LowSmall(b2, 8);
    LowSmall(c2, 8);
    XorCancel(Low(g, 8), b2, c2);
  }
}
