/** Shared vocabulary: options, bytes, powers of two and finite sums. */
module Prelude {

  datatype Option<+T> = None | Some(value: T)

  const U64: nat := 0x1_0000_0000_0000_0000

  type byte = x: int | 0 <= x < 256

  function Min(a: int, b: int): int {
    if a <= b then a else b
  }

  function Pow2(n: nat): (p: nat)
    ensures p > 0
  {
    if n == 0 then 1 else 2 * Pow2(n - 1)
  }

  lemma {:induction false} Pow2Add(a: nat, b: nat)
    ensures Pow2(a + b) == Pow2(a) * Pow2(b)
  {
    if a > 0 {
      Pow2Add(a - 1, b);
      assert Pow2(a + b) == 2 * (Pow2(a - 1) * Pow2(b)) == (2 * Pow2(a - 1)) * Pow2(b);
    }
  }

  lemma Pow2Values()
    ensures Pow2(3) == 8 && Pow2(4) == 16 && Pow2(5) == 32 && Pow2(7) == 128 && Pow2(8) == 256
    ensures Pow2(15) == 0x8000 && Pow2(16) == 0x1_0000
  {
    assert Pow2(3) == 8;
    assert Pow2(7) == 128;
    Pow2Add(8, 7);
  }

  lemma {:induction false} Pow2Mono(a: nat, b: nat)
    requires a <= b
    ensures Pow2(a) <= Pow2(b)
    decreases b - a
  {
    if a < b {
      Pow2Mono(a + 1, b);
    }
  }

  lemma DivMod(v: int, d: nat)
    requires d > 0
    ensures v == (v / d) * d + v % d && 0 <= v % d < d
  {
  }

  lemma MulGrows(k: int, d: int)
    requires d >= 0
    ensures k >= 1 ==> k * d >= d
    ensures k <= -1 ==> k * d <= -d
  {
  }

  // Quotient and remainder are determined by the decomposition.
  lemma DivModUnique(v: int, d: nat, q: int, r: nat)
    requires d > 0 && r < d && v == q * d + r
    ensures v / d == q && v % d == r
  {
    DivMod(v, d);
    var k := q - v / d;
    assert k * d == q * d - (v / d) * d;
    MulGrows(k, d);
  }

  // ---- sums of the values of a finite map ----

  ghost function Sum(m: map<nat, int>): int {
    if m == map[] then 0 else
      var x :| x in m;
      m[x] + Sum(m - {x})
  }

  lemma {:induction false} SumExtract(m: map<nat, int>, x: nat)
    requires x in m
    ensures Sum(m) == m[x] + Sum(m - {x})
    decreases m
  {
    var y :| y in m && Sum(m) == m[y] + Sum(m - {y});
    if y != x {
      SumExtract(m - {y}, x);
      assert m - {y} - {x} == m - {x} - {y};
      SumExtract(m - {x}, y);
    }
  }

  lemma SumInsert(m: map<nat, int>, x: nat, v: int)
    requires x !in m
    ensures Sum(m[x := v]) == Sum(m) + v
  {
    SumExtract(m[x := v], x);
    assert m[x := v] - {x} == m;
  }
}
