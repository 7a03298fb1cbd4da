/** The prime table of src/map.c and its load limits. */
module HashLoad {
  import opened MapTypes
  import opened Arith

  const PRIMES: seq<nat> := [
    23, 53, 97, 193, 389, 769, 1543, 3079, 6151, 12289, 24593, 49157,
    98317, 196613, 393241, 786433, 1572869, 3145739, 6291469, 12582917,
    25165843, 50331653, 100663319, 201326611, 402653189, 805306457,
    1610612741, 3221225473
  ]
  const TOP: nat := |PRIMES| - 1

  function Wrap(x: int): nat {
    x % UINT_MOD
  }

  /** x_frac in 32-bit arithmetic. */
  function XFrac(n: nat, d: nat, v: nat): nat
    requires d > 0
  {
    Wrap(Wrap(v / d * n) + Wrap(v % d * n) / d)
  }

  /** No step of x_frac wraps, and it rounds down. */
  lemma FracExact(n: nat, d: nat, v: nat)
    requires 0 < d <= 0x1_0000 && n <= d && v < UINT_MOD
    ensures v / d * n < UINT_MOD && v % d * n < UINT_MOD
    ensures XFrac(n, d, v) == v * n / d
  {
    hide Wrap;
    Exact(v / d, v % d, n, d, v);
  }

  lemma Exact(q: nat, r: nat, n: nat, d: nat, v: nat)
    requires r < d <= 0x1_0000 && n <= d && v < UINT_MOD && v == q * d + r
    ensures q * n < UINT_MOD && r * n < UINT_MOD
    ensures Wrap(Wrap(q * n) + Wrap(r * n) / d) == v * n / d
  {
    Parts(q, r, n, d);
    Small(q, r, n, d);
    NoWrap(q * n, r * n, d);
  }

  lemma NoWrap(x: nat, y: nat, d: nat)
    requires d > 0 && x < UINT_MOD && y < UINT_MOD && x + y / d < UINT_MOD
    ensures Wrap(Wrap(x) + Wrap(y) / d) == x + y / d
  {
  }

  lemma Parts(q: nat, r: nat, n: nat, d: nat)
    requires r < d
    ensures (q * d + r) * n / d == q * n + r * n / d
  {
    DivSplit(q * n, r * n, d);
    assert (q * d + r) * n == (q * n) * d + r * n;
  }

  lemma Small(q: nat, r: nat, n: nat, d: nat)
    requires r < d <= 0x1_0000 && n <= d
    ensures q * n <= q * d && r * n < 0x1_0000_0000 && q * n + r * n / d <= q * d + r
  {
    MulMono(q, n, d);
    MulMono(r, n, d);
    MulMono(d, r, d - 1);
    MulMono(d - 1, d, 0x1_0000);
    DivMono(r, n, d);
  }

  /** x_frac is the fraction rounded down, for every numerator and value it could be given. */
  ghost predicate FracFor(d: nat)
    requires d > 0
  {
    forall n: nat, v: nat :: n <= d && v < UINT_MOD ==> XFrac(n, d, v) == v * n / d
  }

  /** That is so exactly for denominators up to 2^16: beyond, the product of the remainder wraps. */
  lemma FracExactly(d: nat)
    requires 0 < d < UINT_MOD
    ensures FracFor(d) <==> d <= 0x1_0000
  {
    hide XFrac;
    if d <= 0x1_0000 {
      forall n: nat, v: nat | n <= d && v < UINT_MOD
        ensures XFrac(n, d, v) == v * n / d
      {
        FracExact(n, d, v);
      }
    } else {
      FracWraps(d);
    }
  }

  lemma FracWraps(d: nat)
    requires 0x1_0000 < d < UINT_MOD
    ensures XFrac(d, d, d - 1) < (d - 1) * d / d
  {
    hide Wrap;
    var x := (d - 1) * d;
    MulMono(0x1_0000, 0x1_0001, d);
    MulMono(d, 0x1_0000, d - 1);
    DivUnique(x, d, d - 1, 0);
    DivUnique(d - 1, d, 0, d - 1);
    WrapBelow(x);
    Short(Wrap(x), d, x);
    Little(Wrap(x) / d);
    assert 0 * d == 0;
  }

  lemma WrapBelow(x: nat)
    ensures Wrap(x) < UINT_MOD
  {
  }

  lemma Short(w: nat, d: nat, x: nat)
    requires d > 0 && w < x == (d - 1) * d
    ensures w / d < d - 1
  {
    DivMod(w, d);
    if w / d >= d - 1 {
      MulMono(d, d - 1, w / d);
    }
  }

  lemma Little(k: nat)
    ensures Wrap(Wrap(0) + k) <= k && Wrap(0) == 0
  {
  }

  lemma DivSplit(a: nat, b: nat, d: nat)
    requires d > 0
    ensures (a * d + b) / d == a + b / d
  {
    var k := b / d;
    assert b == k * d + b % d;
    assert a * d + b == (a + k) * d + b % d;
    DivUnique(a * d + b, d, a + k, b % d);
  }

  lemma DivMono(v: nat, n: nat, d: nat)
    requires d > 0 && n <= d
    ensures v * n / d <= v
  {
    MulMono(v, n, d);
    var k := v * n / d;
    if k > v {
      MulMono(d, v + 1, k);
    }
  }

  function MinLoad(power: nat): nat
    requires power <= TOP
  {
    if power != 0 then PRIMES[power] / 4 else 0
  }

  function MaxLoad(power: nat): nat
    requires power <= TOP
  {
    XFrac(7, 10, PRIMES[power])
  }

  /** The table roughly doubles. */
  lemma Doubling(power: nat)
    requires power < TOP
    ensures 0 < PRIMES[power] < PRIMES[power + 1] < UINT_MOD
    ensures power >= 2 ==> PRIMES[power] >= 97 && 31 * PRIMES[power] <= 16 * PRIMES[power + 1] <= 33 * PRIMES[power]
  {
  }

  lemma PrimePositive(power: nat)
    requires power <= TOP
    ensures PRIMES[power] > 0
  {
    Doubling(if power < TOP then power else power - 1);
  }

  lemma MaxLoadIs(power: nat)
    requires power <= TOP
    ensures MaxLoad(power) == PRIMES[power] * 7 / 10
  {
    if power < TOP {
      Doubling(power);
    } else {
      Doubling(power - 1);
    }
    FracExact(7, 10, PRIMES[power]);
  }

  function Pow2(n: nat): nat {
    if n == 0 then 1 else 2 * Pow2(n - 1)
  }

  /** Size after size doubles: each lies close to 3 * 2^n, and has no common factor with 2, 3, 5, 7, 11 and 13. */
  lemma Sizes(power: nat)
    requires power <= TOP
    ensures TOP == 27 && 3 * Pow2(power + 3) - 1 <= PRIMES[power] <= 3 * Pow2(power + 3) + 89
    ensures PRIMES[power] % 2 != 0 && PRIMES[power] % 3 != 0 && PRIMES[power] % 5 != 0
    ensures PRIMES[power] % 7 != 0 && PRIMES[power] % 11 != 0 && PRIMES[power] % 13 != 0
  {
    hide Pow2;
    Powers();
    if power < 9 {
    } else if power < 18 {
    }
  }

  lemma Powers()
    ensures Pow2(3) == 8 && Pow2(4) == 16 && Pow2(5) == 32 && Pow2(6) == 64
    ensures Pow2(7) == 128 && Pow2(8) == 256 && Pow2(9) == 512 && Pow2(10) == 1024
    ensures Pow2(11) == 2048 && Pow2(12) == 4096 && Pow2(13) == 8192 && Pow2(14) == 16384
    ensures Pow2(15) == 32768 && Pow2(16) == 65536 && Pow2(17) == 131072 && Pow2(18) == 262144
    ensures Pow2(19) == 524288 && Pow2(20) == 1048576 && Pow2(21) == 2097152 && Pow2(22) == 4194304
    ensures Pow2(23) == 8388608 && Pow2(24) == 16777216 && Pow2(25) == 33554432 && Pow2(26) == 67108864
    ensures Pow2(27) == 134217728 && Pow2(28) == 268435456 && Pow2(29) == 536870912 && Pow2(30) == 1073741824
  {
  }

  /** A table may be filled up to seven tenths and, unless it is the smallest, down to a quarter, both rounded
      down. */
  lemma LoadLimits(power: nat)
    requires power <= TOP
    ensures 10 * MaxLoad(power) <= 7 * PRIMES[power] < 10 * MaxLoad(power) + 10
    ensures power > 0 ==> 4 * MinLoad(power) <= PRIMES[power] < 4 * MinLoad(power) + 4
    ensures MinLoad(0) == 0
  {
    MaxLoadIs(power);
  }

  /** How the limits of neighbouring table sizes lie. */
  lemma Limits(power: nat)
    requires power < TOP
    ensures MinLoad(power) < MinLoad(power + 1) <= MaxLoad(power) < MaxLoad(power + 1)
    ensures 4 * MaxLoad(power) <= 3 * MaxLoad(power + 1) && 5 * MinLoad(power + 1) <= 4 * MaxLoad(power) + 5
    ensures 4 * MinLoad(power + 1) <= 3 * MaxLoad(power) + 4 && 5 * MinLoad(power) <= 4 * MinLoad(power + 1) + 1
  {
    Doubling(power);
    MaxLoadIs(power);
    MaxLoadIs(power + 1);
  }

  function Max(a: int, b: int): int {
    if a < b then b else a
  }

  /** Credit saved up for the next resize. */
  function Potential(power: nat, items: nat): nat
    requires power <= TOP
  {
    Max(0, Max(4 * items - 3 * MaxLoad(power), 5 * (MinLoad(power) - 1) - 4 * items))
  }

  /** The credit pays for moving every node. */
  lemma GrowPaid(power: nat)
    requires power < TOP
    ensures var i := MaxLoad(power); Potential(power + 1, i) + i <= Potential(power, i)
  {
    Limits(power);
  }

  lemma ShrinkPaid(power: nat, items: nat)
    requires 0 < power <= TOP && items < MinLoad(power)
    ensures Potential(power - 1, items) + items <= Potential(power, items)
  {
    Limits(power - 1);
  }

  lemma StepPaid(power: nat, items: nat)
    requires power <= TOP
    ensures Potential(power, items + 1) <= Potential(power, items) + 4
    ensures Potential(power, items) <= Potential(power, items + 1) + 4
  {
  }
}
