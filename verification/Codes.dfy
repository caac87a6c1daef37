/** Length and distance codes of the compressor (section 3.2.5 of RFC 1951 seen from the sender). */
module Codes {
  import opened Prelude
  import opened Bits
  import opened Inflate
  import opened Canonical

  const LITERALS: nat := 256
  const MIN_MATCH: nat := 3
  const MAX_MATCH: nat := 258
  const D_CODES: nat := 30
  const BL_CODES: nat := 19
  const BASE_LENGTH: seq<nat> := [0, 1, 2, 3, 4, 5, 6, 7, 8, 10, 12, 14, 16, 20, 24, 28, 32, 40, 48, 56, 64, 80, 96,
    112, 128, 160, 192, 224, 0]
  const BASE_DIST: seq<nat> := [0, 1, 2, 3, 4, 6, 8, 12, 16, 24, 32, 48, 64, 96, 128, 192, 256, 384, 512, 768, 1024,
    1536, 2048, 3072, 4096, 6144, 8192, 12288, 16384, 24576]

  // The last of the codes up to c whose base is at most x.
  function Bucket(base: seq<nat>, x: nat, c: nat): (r: nat)
    requires c < |base| && base[0] == 0
    ensures r <= c && base[r] <= x
    ensures r == c || x < base[r + 1]
  {
    if base[c] <= x then c else Bucket(base, x, c - 1)
  }

  // The code of match length lc + MIN_MATCH.
  function LengthCode(lc: nat): (c: nat)
    requires lc < 256
    ensures c <= 28
  {
    if lc == 255 then 28 else Bucket(BASE_LENGTH, lc, 27)
  }

  // The code of distance d + 1.
  function DistCode(d: nat): (c: nat)
    ensures c < D_CODES && BASE_DIST[c] <= d
  {
    Bucket(BASE_DIST, d, 29)
  }

  lemma LengthSteps(c: nat)
    requires c < 28
    ensures LENGTH_BASE[c] == BASE_LENGTH[c] + MIN_MATCH
    ensures (if c == 27 then 255 else BASE_LENGTH[c + 1]) <= BASE_LENGTH[c] + Pow2(LENGTH_EXTRA[c])
  {
    Pow2Values();
    assert Pow2(0) == 1 && Pow2(1) == 2 && Pow2(2) == 4;
  }

  lemma DistSteps(c: nat)
    requires c < D_CODES
    ensures DIST_BASE[c] == BASE_DIST[c] + 1
    ensures (if c == 29 then 32768 else BASE_DIST[c + 1]) <= BASE_DIST[c] + Pow2(DIST_EXTRA[c])
  {
    Pow2Values();
    assert Pow2(0) == 1 && Pow2(1) == 2 && Pow2(2) == 4 && Pow2(6) == 64 && Pow2(9) == 512;
    assert Pow2(10) == 1024 && Pow2(11) == 2048 && Pow2(12) == 4096 && Pow2(13) == 8192;
  }

  // A length is its code's base plus a number that fits the code's extra bits.
  lemma LengthParts(lc: nat)
    requires lc < 256
    ensures var c := LengthCode(lc);
            && (c < 28 ==>
                  BASE_LENGTH[c] <= lc && lc - BASE_LENGTH[c] < Pow2(LENGTH_EXTRA[c])
                  && LENGTH_BASE[c] + (lc - BASE_LENGTH[c]) == lc + MIN_MATCH)
            && (c == 28 ==> LENGTH_EXTRA[c] == 0 && LENGTH_BASE[c] == lc + MIN_MATCH)
  {
    var c := LengthCode(lc);
    if lc < 255 {
      LengthSteps(c);
    }
  }

  lemma DistParts(d: nat)
    requires d < 32768
    ensures var c := DistCode(d);
            BASE_DIST[c] <= d && d - BASE_DIST[c] < Pow2(DIST_EXTRA[c]) && DIST_BASE[c] + (d - BASE_DIST[c]) == d + 1
  {
    DistSteps(DistCode(d));
  }

  lemma ExtraBound(c: nat)
    ensures c < 29 ==> LENGTH_EXTRA[c] <= 5
    ensures c < D_CODES ==> DIST_EXTRA[c] <= 13
  {
  }
}
