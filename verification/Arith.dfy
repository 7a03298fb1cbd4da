/** Products, quotients and the largest unsigned long long. */
module Arith {
  const ULLONG_MAX: nat := 0xFFFF_FFFF_FFFF_FFFF

  lemma MulMono(k: nat, a: nat, b: nat)
    requires a <= b
    ensures k * a <= k * b && a * k <= b * k
  {
  }

  lemma MulGap(d: nat, a: nat, b: nat)
    ensures a < b ==> a * d + d <= b * d
  {
    if a < b {
      MulMono(d, a + 1, b);
    }
  }

  lemma DivUnique(x: nat, d: nat, q: nat, r: nat)
    requires d > 0 && x == q * d + r && r < d
    ensures x / d == q && x % d == r
  {
    var k := x / d;
    assert x == k * d + x % d;
    MulGap(d, k, q);
    MulGap(d, q, k);
  }

  lemma DivMod(x: nat, d: nat)
    requires d > 0
    ensures x / d * d <= x < x / d * d + d && x - x / d * d == x % d
  {
    assert x == x / d * d + x % d;
  }
}
