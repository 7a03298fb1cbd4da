/** Signed time arithmetic (src/time.c). */
module Timespec {
  const NANOSECOND: int := 1000000000
  const LONG_MAX: int := 0x7FFF_FFFF_FFFF_FFFF

  /** Division and remainder of C, which cut towards zero. */
  function Quot(n: int, d: int): int
    requires d > 0
  {
    if n >= 0 then n / d else -(-n / d)
  }

  function Rem(n: int, d: int): int
    requires d > 0
  {
    if n >= 0 then n % d else -(-n % d)
  }

  predicate Fits(n: int) {
    -LONG_MAX <= n <= LONG_MAX
  }

  /** Seconds with the nanoseconds; the sign stands with the seconds unless they are zero. */
  datatype Time = Time(sec: int, nsec: int)

  predicate Canonical(t: Time) {
    -NANOSECOND < t.nsec < NANOSECOND && (t.sec != 0 ==> t.nsec >= 0)
  }

  /** The signed nanoseconds. */
  function Nanos(t: Time): int {
    t.sec * NANOSECOND + if t.sec >= 0 then t.nsec else -t.nsec
  }

  /** The canonical time of a number of nanoseconds. */
  function Of(n: int): Time {
    Time(Quot(n, NANOSECOND), if Quot(n, NANOSECOND) < 0 then -Rem(n, NANOSECOND) else Rem(n, NANOSECOND))
  }

  lemma OfNanos(n: int)
    ensures Canonical(Of(n)) && Nanos(Of(n)) == n
  {
    if n < 0 {
      assert -n == (-n) / NANOSECOND * NANOSECOND + (-n) % NANOSECOND;
    }
  }

  /** A canonical time is determined by its nanoseconds. */
  lemma Unique(t: Time)
    requires Canonical(t)
    ensures Of(Nanos(t)) == t
  {
    var n := Nanos(t);
    if t.sec > 0 || (t.sec == 0 && t.nsec >= 0) {
      DivIs(n, t.sec, t.nsec);
    } else {
      DivIs(-n, -t.sec, if t.sec == 0 then -t.nsec else t.nsec);
    }
  }

  lemma DivIs(n: int, q: int, r: int)
    requires 0 <= r < NANOSECOND && n == q * NANOSECOND + r
    ensures n / NANOSECOND == q && n % NANOSECOND == r
  {
  }

  /** struct timespec; the results may be written over an operand. */
  class Timespec {
    var tv_sec: int
    var tv_nsec: int

    function Value(): Time
      reads this
    {
      Time(tv_sec, tv_nsec)
    }

    constructor (sec: int, nsec: int)
      ensures Value() == Time(sec, nsec)
    {
      tv_sec, tv_nsec := sec, nsec;
    }
  }

  /** HX_timespec_isneg */
  method IsNeg(x: Timespec) returns (neg: bool)
    requires Canonical(x.Value())
    ensures neg <==> Nanos(x.Value()) < 0
  {
    neg := x.tv_sec < 0 || x.tv_nsec < 0;
  }

  /** HX_timespec_neg */
  method Neg(r: Timespec, a: Timespec)
    requires Canonical(a.Value()) && Fits(Nanos(a.Value()))
    modifies r
    ensures r.Value() == Of(-old(Nanos(a.Value())))
  {
    ghost var n := Nanos(a.Value());
    if a.tv_sec != 0 {
      r.tv_sec := -a.tv_sec;
      r.tv_nsec := a.tv_nsec;
    } else {
      r.tv_sec := 0;
      r.tv_nsec := -a.tv_nsec;
    }
    assert Nanos(r.Value()) == -n;
    Unique(r.Value());
  }

  /** No intermediate product of the conversions leaves the range of a long when the value is in it;
      the methods assert so where they compute one. */
  lemma NoOverflow(t: Time)
    requires Canonical(t) && Fits(Nanos(t))
    ensures Fits(t.sec * NANOSECOND)
  {
  }

  /** HX_timespec_add; the operands are read before the result is written. */
  method Add(r: Timespec, a: Timespec, b: Timespec)
    requires Canonical(a.Value()) && Canonical(b.Value())
    requires Fits(Nanos(a.Value())) && Fits(Nanos(b.Value())) && Fits(Nanos(a.Value()) + Nanos(b.Value()))
    modifies r
    ensures r.Value() == Of(old(Nanos(a.Value())) + old(Nanos(b.Value())))
  {
    NoOverflow(a.Value());
    NoOverflow(b.Value());
    assert Fits(a.tv_sec * NANOSECOND) && Fits(b.tv_sec * NANOSECOND);
    var aa := a.tv_sec * NANOSECOND + if a.tv_sec >= 0 then a.tv_nsec else -a.tv_nsec;
    var bb := b.tv_sec * NANOSECOND + if b.tv_sec >= 0 then b.tv_nsec else -b.tv_nsec;
    var rr := aa + bb;
    assert Fits(aa) && Fits(bb) && Fits(rr) && Fits(-rr);
    r.tv_sec := Quot(rr, NANOSECOND);
    r.tv_nsec := Rem(if r.tv_sec < 0 then -rr else rr, NANOSECOND);
  }

  /** HX_timespec_sub */
  method Sub(r: Timespec, a: Timespec, b: Timespec)
    requires Canonical(a.Value()) && Canonical(b.Value())
    requires Fits(Nanos(a.Value())) && Fits(Nanos(b.Value())) && Fits(Nanos(a.Value()) - Nanos(b.Value()))
    modifies r
    ensures r.Value() == Of(old(Nanos(a.Value())) - old(Nanos(b.Value())))
  {
    var b2 := new Timespec(0, 0);
    OfNanos(-Nanos(b.Value()));
    Neg(b2, b);
    Add(r, a, b2);
  }

  /** HX_timespec_mul */
  method Mul(r: Timespec, a: Timespec, f: int)
    requires Canonical(a.Value()) && Fits(Nanos(a.Value())) && Fits(Nanos(a.Value()) * f)
    modifies r
    ensures r.Value() == Of(old(Nanos(a.Value())) * f)
  {
    NoOverflow(a.Value());
    assert Fits(a.tv_sec * NANOSECOND);
    var t := a.tv_sec * NANOSECOND + if a.tv_sec >= 0 then a.tv_nsec else -a.tv_nsec;
    assert Fits(t);
    t := t * f;
    assert Fits(t);
    r.tv_sec := Quot(t, NANOSECOND);
    r.tv_nsec := Rem(t, NANOSECOND);
    if r.tv_sec < 0 && r.tv_nsec < 0 {
      r.tv_nsec := -r.tv_nsec;
    }
    Signs(t);
  }

  lemma Signs(t: int)
    ensures Quot(t, NANOSECOND) < 0 ==> t < 0
    ensures Rem(t, NANOSECOND) < 0 ==> t < 0
  {
  }

  /** The time that addition computes. */
  function Sum(a: Time, b: Time): Time {
    Of(Nanos(a) + Nanos(b))
  }

  /** Adding and subtracting the same time gives the first one back, field by field; negation is an
      involution; the order and the grouping of the operands of an addition do not matter. */
  lemma Algebra(a: Time, b: Time, c: Time)
    requires Canonical(a) && Canonical(b)
    ensures Sum(a, b) == Sum(b, a) && Sum(Sum(a, b), c) == Sum(a, Sum(b, c))
    ensures Of(Nanos(Of(Nanos(a) + Nanos(b))) - Nanos(b)) == a
    ensures Of(-Nanos(Of(-Nanos(a)))) == a
    ensures Of(Nanos(a) - Nanos(a)) == Time(0, 0)
  {
    hide Of, Nanos;
    OfNanos(Nanos(a) + Nanos(b));
    OfNanos(Nanos(b) + Nanos(c));
    OfNanos(-Nanos(a));
    Unique(a);
    Zero();
  }

  lemma Zero()
    ensures Of(0) == Time(0, 0)
  {
  }

  /** The fields of HX_timeval_sub, in microseconds. */
  predicate CanonicalVal(t: Time) {
    -1000000 < t.nsec < 1000000 && (t.sec != 0 ==> t.nsec >= 0)
  }

  function Micros(t: Time): int {
    t.sec * 1000000 + if t.sec >= 0 then t.nsec else -t.nsec
  }

  /** HX_timeval_sub: exact, since the nanoseconds in between are whole microseconds. */
  method TimevalSub(future: Time, past: Time) returns (delta: Time)
    requires CanonicalVal(future) && CanonicalVal(past)
    requires Fits(Micros(future) * 1000) && Fits(Micros(past) * 1000) && Fits((Micros(future) - Micros(past)) * 1000)
    ensures CanonicalVal(delta) && Micros(delta) == Micros(future) - Micros(past)
  {
    var f := new Timespec(future.sec, future.nsec * 1000);
    var p := new Timespec(past.sec, past.nsec * 1000);
    var d := new Timespec(0, 0);
    assert Nanos(f.Value()) == Micros(future) * 1000 && Nanos(p.Value()) == Micros(past) * 1000;
    Sub(d, f, p);
    WholeMicros(Micros(future) - Micros(past));
    delta := Time(d.tv_sec, Quot(d.tv_nsec, 1000));
  }

  lemma WholeMicros(m: int)
    ensures var t := Of(m * 1000);
      CanonicalVal(Time(t.sec, Quot(t.nsec, 1000))) && Micros(Time(t.sec, Quot(t.nsec, 1000))) == m
  {
    var t := Of(m * 1000);
    OfNanos(m * 1000);
    var u := if t.sec >= 0 then t.nsec else -t.nsec;
    assert m * 1000 == t.sec * NANOSECOND + u;
    var k := m - t.sec * 1000000;
    assert u == k * 1000;
    if t.nsec >= 0 {
      assert t.nsec / 1000 == if t.sec >= 0 then k else -k;
    } else {
      assert (-t.nsec) / 1000 == -k;
    }
  }
}
