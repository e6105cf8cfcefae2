/** Bytes, little-endian words made of them, and products. */
module Bytes {
  type byte = x: int | 0 <= x < 256

  function U16(lo: byte, hi: byte): (w: nat)
    ensures w < 0x10000
  {
    lo + 256 * hi
  }

  function Lo(w: nat): byte { w % 256 }
  function Hi(w: nat): byte { w / 256 % 256 }

  /** `m * n` as `m` runs of `n`, so that a product is unfolded one run at a time. */
  function Times(m: nat, n: nat): nat { if m == 0 then 0 else Times(m - 1, n) + n }

  lemma {:induction false} TimesIs(m: nat, n: nat)
    ensures Times(m, n) == m * n
  {
    if m > 0 { TimesIs(m - 1, n); }
  }

  lemma {:induction false} TimesAdd(a: nat, b: nat, n: nat)
    ensures Times(a + b, n) == Times(a, n) + Times(b, n)
    decreases b
  {
    if b > 0 { TimesAdd(a, b - 1, n); }
  }

  lemma TimesAtLeast(m: nat, n: nat)
    ensures m >= 1 ==> Times(m, n) >= n
    ensures m >= 2 ==> Times(m, n) >= 2 * n
  {
    if m >= 2 { TimesAdd(m - 2, 2, n); }
  }

  lemma WordRoundTrip(w: nat)
    requires w < 0x10000
    ensures U16(Lo(w), Hi(w)) == w
  {
  }

  lemma BytesRoundTrip(lo: byte, hi: byte)
    ensures Lo(U16(lo, hi)) == lo && Hi(U16(lo, hi)) == hi
  {
  }
}
