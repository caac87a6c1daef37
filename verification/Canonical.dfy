/** Canonical codes: the code words that section 3.2.2 of RFC 1951 derives from complete
    code lengths are pairwise prefix-free, so the decoder reads back every symbol sent. */
module Canonical {
  import opened Prelude
  import opened Bits
  import opened Inflate

  // ---- shifts are linear ----

  lemma {:induction false} ShlAdd(x: nat, y: nat, k: nat)
    ensures Shl(x + y, k) == Shl(x, k) + Shl(y, k)
  {
    if k > 0 {
      ShlAdd(x, y, k - 1);
    }
  }

  lemma {:induction false} ShlShl(x: nat, j: nat, k: nat)
    ensures Shl(Shl(x, j), k) == Shl(x, j + k)
  {
    if k > 0 {
      ShlShl(x, j, k - 1);
    }
  }

  lemma {:induction false} ShlOne(k: nat)
    ensures Shl(1, k) == Pow2(k)
  {
    if k > 0 {
      ShlOne(k - 1);
    }
  }

  lemma {:induction false} ShlOrder(x: nat, y: nat, k: nat)
    ensures x <= y <==> Shl(x, k) <= Shl(y, k)
  {
    if k > 0 {
      ShlOrder(x, y, k - 1);
    }
  }

  lemma {:induction false} ShlDouble(x: nat, k: nat)
    ensures Shl(2 * x, k) == Shl(x, k + 1)
  {
    if k > 0 {
      ShlDouble(x, k - 1);
    }
  }

  // ---- reversed bits ----

  lemma {:induction false} RevConcat(a: seq<bool>, b: seq<bool>)
    ensures Rev(a + b) == Rev(b) + Rev(a)
  {
    if a == [] {
      assert a + b == b;
    } else {
      assert (a + b)[1..] == a[1..] + b;
      RevConcat(a[1..], b);
    }
  }

  lemma {:induction false} RevRev(a: seq<bool>)
    ensures Rev(Rev(a)) == a
  {
    if a != [] {
      RevRev(a[1..]);
      RevConcat(Rev(a[1..]), [a[0]]);
      assert Rev([a[0]]) == [a[0]];
    }
  }

  lemma {:induction false} LowBitsVal(b: seq<bool>)
    ensures Val(b) < Pow2(|b|) && LowBits(Val(b), |b|) == b
  {
    if b != [] {
      LowBitsVal(b[1..]);
    }
  }

  lemma CodeBitsInjective(c: nat, d: nat, n: nat)
    requires c < Pow2(n) && d < Pow2(n) && CodeBits(c, n) == CodeBits(d, n)
    ensures c == d
  {
    RevRev(LowBits(c, n));
    RevRev(LowBits(d, n));
    ValLowBits(c, n);
    ValLowBits(d, n);
  }

  // A leading part of a code word is a code word of the leading bits.
  lemma CodeBitsPrefix(c: nat, a: nat, d: nat)
    ensures CodeBits(c, a + d)[..a] == CodeBits(Shr(c, d), a)
  {
    LowBitsSplit(c, d, a);
    RevConcat(LowBits(Low(c, d), d), LowBits(Shr(c, d), a));
  }

  // The value whose low bits, sent least significant first, spell the code word.
  function Reversed(code: nat, length: nat): (r: nat)
    ensures r < Pow2(length) && LowBits(r, length) == CodeBits(code, length)
  {
    LowBitsVal(CodeBits(code, length));
    Val(CodeBits(code, length))
  }

  lemma ReversedUnique(v: nat, code: nat, length: nat)
    requires v < Pow2(length) && LowBits(v, length) == CodeBits(code, length)
    ensures v == Reversed(code, length)
  {
    ValLowBits(v, length);
  }

  // ---- the interval of code space each symbol owns ----

  lemma {:induction false} CountStep(lens: seq<nat>, s: nat, t: nat, b: nat)
    requires s < t <= |lens|
    ensures Count(lens[..s], b) + (if lens[s] == b then 1 else 0) <= Count(lens[..t], b)
    decreases t
  {
    assert lens[..t][..t - 1] == lens[..t - 1];
    if s < t - 1 {
      CountStep(lens, s, t - 1, b);
    }
  }

  lemma {:induction false} FirstCodeKraft(lens: seq<nat>, b: nat)
    requires 1 <= b <= MAX_BITS
    ensures Shl(FirstCode(lens, b), MAX_BITS - b) == Kraft(lens, b - 1)
  {
    if b == 1 {
      ShlZero(MAX_BITS - 1);
    } else {
      FirstCodeKraft(lens, b - 1);
      var f, n := FirstCode(lens, b - 1), Count(lens, b - 1);
      ShlDouble(f + n, MAX_BITS - b);
      ShlAdd(f, n, MAX_BITS - (b - 1));
    }
  }

  lemma {:induction false} KraftMono(lens: seq<nat>, a: nat, b: nat)
    requires a <= b <= MAX_BITS
    ensures Kraft(lens, a) <= Kraft(lens, b)
    decreases b - a
  {
    if a < b {
      KraftMono(lens, a + 1, b);
    }
  }

  // Where the interval starts; it is Pow2(MAX_BITS - lens[s]) long.
  function Start(lens: seq<nat>, s: nat): nat
    requires s < |lens| && lens[s] <= MAX_BITS
  {
    Shl(CodeOf(lens, s), MAX_BITS - lens[s])
  }

  lemma StartBounds(lens: seq<nat>, s: nat)
    requires s < |lens| && 1 <= lens[s] <= MAX_BITS
    ensures Kraft(lens, lens[s] - 1) <= Start(lens, s)
    ensures Start(lens, s) + Pow2(MAX_BITS - lens[s]) <= Kraft(lens, lens[s])
  {
    hide Count, FirstCode, Shl, Pow2;
    var b := lens[s];
    var k := MAX_BITS - b;
    var f, r := FirstCode(lens, b), Count(lens[..s], b);
    FirstCodeKraft(lens, b);
    ShlAdd(f, r, k);
    ShlOne(k);
    ShlAdd(r, 1, k);
    CountStep(lens, s, |lens|, b);
    assert lens[..|lens|] == lens;
    ShlOrder(r + 1, Count(lens, b), k);
  }

  // Intervals follow one another in the order of (length, symbol).
  lemma StartOrder(lens: seq<nat>, s: nat, t: nat)
    requires s < |lens| && t < |lens|
    requires 1 <= lens[s] <= lens[t] <= MAX_BITS
    requires lens[s] < lens[t] || s < t
    ensures Start(lens, s) + Pow2(MAX_BITS - lens[s]) <= Start(lens, t)
  {
    StartBounds(lens, s);
    StartBounds(lens, t);
    if lens[s] < lens[t] {
      KraftMono(lens, lens[s], lens[t] - 1);
    } else {
      var b := lens[s];
      var k := MAX_BITS - b;
      CountStep(lens, s, t, b);
      ShlOrder(CodeOf(lens, s) + 1, CodeOf(lens, t), k);
      ShlAdd(CodeOf(lens, s), 1, k);
      ShlOne(k);
    }
  }

  lemma CodeFits(lens: seq<nat>, s: nat)
    requires Complete(lens) && s < |lens| && lens[s] > 0
    ensures CodeOf(lens, s) < Pow2(lens[s])
  {
    hide Count, FirstCode, Shl, Pow2;
    var b := lens[s];
    var k := MAX_BITS - b;
    StartBounds(lens, s);
    KraftMono(lens, b, MAX_BITS);
    ShlOne(k);
    ShlOne(b);
    ShlShl(1, b, k);
    ShlOne(MAX_BITS);
    ShlAdd(CodeOf(lens, s), 1, k);
    ShlOrder(CodeOf(lens, s) + 1, Pow2(b), k);
  }

  lemma StartIs(lens: seq<nat>, s: nat)
    requires s < |lens| && lens[s] <= MAX_BITS
    ensures Start(lens, s) == Shl(CodeOf(lens, s), MAX_BITS - lens[s])
  {
  }

  // ---- no code word is a prefix of another ----

  lemma PrefixFree(lens: seq<nat>, s: nat, t: nat)
    requires Complete(lens) && s < |lens| && t < |lens| && s != t
    requires lens[s] > 0 && lens[t] > 0
    ensures !(SymbolBits(lens, s) <= SymbolBits(lens, t))
  {
    hide Count, FirstCode, CodeOf, Start, Shl, Shr, Pow2, Kraft, LowBits, Rev;
    if SymbolBits(lens, s) <= SymbolBits(lens, t) {
      var a, d := lens[s], lens[t] - lens[s];
      var c, e := CodeOf(lens, s), CodeOf(lens, t);
      CodeFits(lens, s);
      CodeFits(lens, t);
      CodeBitsPrefix(e, a, d);
      ShrSmall(e, d, a);
      CodeBitsInjective(c, Shr(e, d), a);
      Contained(c, e, d, MAX_BITS - lens[t]);
      StartIs(lens, s);
      StartIs(lens, t);
      if lens[s] < lens[t] || s < t {
        StartOrder(lens, s, t);
      } else {
        StartOrder(lens, t, s);
      }
      assert false;
    }
  }

  // A number starting with the bits of c lies in the interval of c.
  lemma Contained(c: nat, e: nat, d: nat, k: nat)
    requires Shr(e, d) == c
    ensures Shl(c, d + k) <= Shl(e, k) < Shl(c, d + k) + Pow2(d + k)
  {
    ShrLow(e, d);
    ShlAdd(Low(e, d), Shl(c, d), k);
    ShlShl(c, d, k);
    ShlOne(d);
    ShlShl(1, d, k);
    ShlOne(d + k);
    ShlOrder(Pow2(d), Low(e, d), k);
  }

  // ---- the decoder finds the symbol that was sent ----

  lemma {:induction false} FindSent(lens: seq<nat>, s: seq<bool>, pos: nat, c: nat, sym: nat)
    requires Complete(lens) && c <= sym < |lens| && lens[sym] > 0
    requires At(s, pos, SymbolBits(lens, sym))
    ensures FindSymbol(lens, s, pos, c) == Some((sym, pos + lens[sym]))
    decreases sym - c
  {
    if c < sym {
      if lens[c] > 0 && At(s, pos, SymbolBits(lens, c)) {
        var p, q := SymbolBits(lens, c), SymbolBits(lens, sym);
        PrefixFree(lens, c, sym);
        PrefixFree(lens, sym, c);
        SamePlace(s, pos, p, q);
        assert false;
      }
      FindSent(lens, s, pos, c + 1, sym);
    }
  }

  // Of two sequences at one place, one is a prefix of the other.
  lemma SamePlace(s: seq<bool>, pos: nat, p: seq<bool>, q: seq<bool>)
    requires At(s, pos, p) && At(s, pos, q)
    ensures p <= q || q <= p
  {
    var n := if |p| <= |q| then |p| else |q|;
    forall i | 0 <= i < n
      ensures p[i] == q[i]
    {
      assert p[i] == s[pos + i] == q[i];
    }
  }

  lemma ReadSent(lens: seq<nat>, s: seq<bool>, pos: nat, sym: nat)
    requires Complete(lens) && sym < |lens| && lens[sym] > 0
    requires At(s, pos, SymbolBits(lens, sym))
    ensures ReadSymbol(lens, s, pos) == Some((sym, pos + lens[sym]))
  {
    FindSent(lens, s, pos, 0, sym);
  }

  lemma ReadNumber(s: seq<bool>, pos: nat, v: nat, n: nat)
    requires v < Pow2(n) && At(s, pos, LowBits(v, n))
    ensures ReadBits(s, pos, n) == Some(v)
  {
    ValLowBits(v, n);
  }
}
