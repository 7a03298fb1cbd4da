/** HX_unit_size_cu (src/string.c): sizes with a unit, rounded up without floating point. */
module UnitSize {
  import opened MapTypes
  import opened Arith

  const LAST_UNIT: nat := 11   // the terminator of unit_names stands after the ten prefixes

  function Quot(x: nat, d: nat): nat
    requires d > 0
  {
    x / d
  }

  function Pow(b: nat, k: nat): (p: nat)
    ensures b > 0 ==> p > 0
  {
    if k == 0 then 1 else Pow(b, k - 1) * b
  }

  /** p_90: nine tenths, rounded down, without a product that could overflow. */
  function P90(x: nat): nat
    requires x > 0
  {
    x - x / 10 - if x % 10 != 0 then 1 else 0
  }

  lemma P90Is(x: nat)
    requires x > 0
    ensures P90(x) == 9 * x / 10
  {
    var q, r := x / 10, x % 10;
    assert x == 10 * q + r;
    assert 9 * x == 10 * (9 * q) + 9 * r;
    assert 9 * x / 10 == 9 * q + 9 * r / 10;
  }

  /** What is printed: the whole part, the tenths if they are printed, and the unit. */
  datatype Figure = Figure(whole: nat, tenths: nat, unit: nat)

  /** What a figure is meant to stand for, in tenths of a byte. */
  function Worth(f: Figure, divisor: nat): nat {
    (10 * f.whole + f.tenths) * Pow(divisor, f.unit)
  }

  /** What it stands for as printed: the last unit has no letter, so that the number stands alone. */
  function Value(f: Figure, divisor: nat): nat {
    if f.unit == LAST_UNIT then 10 * f.whole + f.tenths else Worth(f, divisor)
  }

  /** The unit of a size: how often the divisor goes into it, `n` times at most. */
  function Level(orig: nat, divisor: nat, n: nat): (k: nat)
    requires divisor > 0
    ensures k <= n
    decreases n
  {
    if n == 0 || orig < divisor then 0 else 1 + Level(orig / divisor, divisor, n - 1)
  }

  /** The last remainder in tenths, rounded down, in unsigned int arithmetic. */
  function TenthOf(last: nat, divisor: nat): nat
    requires divisor > 0
  {
    Quot(last * 10 % UINT_MOD, divisor)
  }

  /** The rounding, in terms of the quotient and remainder of the size by its unit. */
  function Rounded(size: nat, rem: nat, gpow: nat, last_rem: nat, tenth: nat): (nat, nat)
    requires gpow > 0
  {
    if rem == 0 then (size, last_rem)
    else if rem > P90(gpow) then (size + 1, 0)
    else if tenth + 1 == 10 || size >= 10 then (size + 1, 0)
    else (size, tenth + 1)
  }

  /** The figure for a size of `size` units `g` and `rem`; a whole part that reaches the divisor is carried. */
  function RoundedFigure(size: nat, rem: nat, g: nat, last: nat, idx: nat, divisor: nat): Figure
    requires divisor > 0 && g > 0
  {
    var (w, t) := Rounded(size, rem, g, last, TenthOf(last, divisor));
    if rem != 0 && idx < LAST_UNIT && w == divisor then Figure(1, t, idx + 1) else Figure(w, t, idx)
  }

  /** A size in units of the divisor's powers. */
  function SizeFigure(orig: nat, divisor: nat): Figure
    requires divisor > 0
  {
    var idx := Level(orig, divisor, LAST_UNIT);
    var g := Pow(divisor, idx);
    if idx == 0 then Figure(orig, 0, 0)
    else RoundedFigure(Quot(orig, g), orig % g, g, Quot(orig, Lower(divisor, idx)) % divisor, idx, divisor)
  }

  /** The unit below. */
  function Lower(divisor: nat, idx: nat): (small: nat)
    requires idx > 0
    ensures divisor > 0 ==> small > 0
    ensures Pow(divisor, idx) == small * divisor
  {
    Pow(divisor, idx - 1)
  }

  // ---------------------------------------------------------------- the code

  /** The division loop: the size is taken apart exactly, and no product leaves its type. */
  method Divide(orig: nat, divisor: nat) returns (unit_idx: nat, size: nat, gpow: nat, last_rem: nat)
    requires orig <= ULLONG_MAX && 0 < divisor < UINT_MOD
    ensures unit_idx == Level(orig, divisor, LAST_UNIT) && gpow == Pow(divisor, unit_idx) && 0 < gpow <= ULLONG_MAX
    ensures size == orig / gpow && (unit_idx == 0 ==> size == orig) && size * gpow <= orig < size * gpow + gpow
    ensures unit_idx > 0 ==> last_rem == orig / Lower(divisor, unit_idx) % divisor
  {
    unit_idx, size, gpow, last_rem := 0, orig, 1, 0;
    while unit_idx < LAST_UNIT && size >= divisor
      invariant unit_idx <= LAST_UNIT && gpow == Pow(divisor, unit_idx) && 0 < gpow <= ULLONG_MAX && size == orig / gpow
      invariant unit_idx + Level(size, divisor, LAST_UNIT - unit_idx) == Level(orig, divisor, LAST_UNIT)
      invariant unit_idx > 0 ==> last_rem == orig / Lower(divisor, unit_idx) % divisor
      decreases LAST_UNIT - unit_idx
    {
      DivDiv(orig, gpow, divisor);
      Fits(orig, gpow, divisor);
      unit_idx, last_rem, size, gpow := unit_idx + 1, size % divisor, size / divisor, gpow * divisor;
    }
    DivMod(orig, gpow);
  }

  lemma DivDiv(x: nat, g: nat, d: nat)
    requires g > 0 && d > 0
    ensures g * d > 0 && x / g / d == x / (g * d)
  {
    var p, q := x / g, x / g / d;
    DivMod(x, g);
    DivMod(p, d);
    MulMono(g, 1, d);
    Nested(x, g, d, p, q);
    DivUnique(x, g * d, q, x - q * (g * d));
  }

  lemma Nested(x: nat, g: nat, d: nat, p: nat, q: nat)
    requires p * g <= x < p * g + g && q * d <= p < q * d + d
    ensures q * (g * d) <= x < q * (g * d) + g * d
  {
    MulMono(g, q * d, p);
    MulMono(g, p + 1, q * d + d);
    assert q * d * g == q * (g * d);
    assert (q * d + d) * g == q * d * g + d * g;
    assert (p + 1) * g == p * g + g;
  }

  lemma Fits(x: nat, g: nat, d: nat)
    requires g > 0 && x / g >= d
    ensures g * d <= x
  {
    DivMod(x, g);
    MulMono(g, d, x / g);
  }

  /** The rounding step. */
  method RoundStep(size0: nat, rem: nat, gpow: nat, last0: nat, divisor: nat) returns (size: nat, last_rem: nat)
    requires 0 < gpow && 0 < divisor < UINT_MOD && last0 < divisor
    ensures (size, last_rem) == Rounded(size0, rem, gpow, last0, TenthOf(last0, divisor))
  {
    hide P90, Quot;
    size, last_rem := size0, last0;
    if rem != 0 {
      if rem > P90(gpow) {
        size, last_rem := size + 1, 0;
      } else {
        last_rem := last_rem * 10 % UINT_MOD;
        last_rem := Quot(last_rem, divisor);
        last_rem := last_rem + 1;
        if last_rem == 10 || (size >= 10 && last_rem > 0) {
          size, last_rem := size + 1, 0;
        }
      }
    }
  }

  /** HX_unit_size_cu up to the printing; `plain` tells that the tenths are not printed. */
  method UnitSizeCu(orig: nat, divisor0: nat) returns (f: Figure, plain: bool)
    requires orig <= ULLONG_MAX && divisor0 < UINT_MOD
    ensures f == SizeFigure(orig, if divisor0 == 0 then 1000 else divisor0)
    ensures plain <==> f.unit == 0 || (f.whole >= 10 && f.tenths == 0)
  {
    hide Pow, Level, Rounded, TenthOf;
    var divisor := if divisor0 == 0 then 1000 else divisor0;
    var unit_idx, size, gpow, last_rem := Divide(orig, divisor);
    if unit_idx == 0 {
      return Figure(size, 0, 0), true;
    }
    DivMod(orig, gpow);
    var grand_rem := orig - size * gpow;
    size, last_rem := RoundStep(size, grand_rem, gpow, last_rem, divisor);
    if grand_rem != 0 && unit_idx < LAST_UNIT && size == divisor {
      unit_idx, size := unit_idx + 1, size / divisor;
    }
    f := Figure(size, last_rem, unit_idx);
    plain := size >= 10 && last_rem == 0;
  }

  // ---------------------------------------------------------------- how good the figure is

  /** The largest divisor for which the tenths cannot overflow where they are used. */
  const EXACT: nat := 477218588

  /** `rem` is `last` times the next smaller unit and less than one of those more. */
  predicate Part(rem: int, last: nat, small: nat) {
    last * small <= rem < last * small + small
  }

  /** By how much the figure exceeds the size, in tenths of a unit times `g`. */
  function Excess(size: nat, rem: nat, g: nat, w: nat, t: nat): int {
    10 * (w - size) * g + t * g - 10 * rem
  }

  /** The figure is never too small, and too large by at most a tenth of the unit below ten units,
      by less than a unit above; `tenth` matters only up to nine tenths. */
  lemma RoundedUp(size: nat, rem: nat, g: nat, k: nat, last: nat, tenth: nat)
    requires g == 10 * k && k > 0 && rem < g && (rem == 0 ==> last == 0)
    requires rem <= 9 * k ==> tenth < 10 && 0 < (tenth + 1) * g - 10 * rem <= g && (tenth == 9 ==> rem == 9 * k)
    ensures var (w, t) := Rounded(size, rem, g, last, tenth);
      t < 10 && size <= w <= size + 1 && 0 <= Excess(size, rem, g, w, t)
      && (Excess(size, rem, g, w, t) == 0 <==> rem == 0)
      && (if size < 10 then Excess(size, rem, g, w, t) <= g else Excess(size, rem, g, w, t) < 10 * g && t == 0)
  {
    hide P90;
    P90Is(g);
    assert P90(g) == 9 * k;
    var (w, t) := Rounded(size, rem, g, last, tenth);
    if rem == 0 {
    } else if w == size + 1 {
      assert 10 * (w - size) * g == 10 * g;
    } else {
      assert 10 * (w - size) * g == 0;
    }
  }

  lemma Scale(size: nat, rem: nat, g: nat, w: nat, t: nat)
    ensures (10 * w + t) * g - 10 * (size * g + rem) == Excess(size, rem, g, w, t)
  {
    assert (10 * w + t) * g == 10 * (w * g) + t * g;
    assert (w - size) * g == w * g - size * g;
    assert 10 * (w - size) * g == 10 * ((w - size) * g);
  }

  lemma OneTenth(rem: nat, small: nat, last: nat, c: nat)
    requires c > 0 && small > 0 && Part(rem, last, small)
    ensures var t := last / c + 1; var g := 10 * (c * small); 0 < t * g - 10 * rem <= g
  {
    var q := last / c;
    var r := last % c;
    assert last == q * c + r;
    var k := c * small;
    assert last * small == q * k + r * small by {
      assert (q * c + r) * small == q * (c * small) + r * small;
    }
    MulMono(small, r + 1, c);
    assert (r + 1) * small == r * small + small;
    assert (q + 1) * (10 * k) == 10 * (q * k) + 10 * k;
  }

  lemma Tens(last: nat, c: nat)
    requires c > 0
    ensures last * 10 / (10 * c) == last / c
  {
    var q, r := last / c, last % c;
    assert last == q * c + r;
    DivUnique(last * 10, 10 * c, q, 10 * r);
  }

  /** A remainder of up to nine tenths keeps the last remainder small enough for the tenths to be
      right, and only one of exactly nine has ten of them. */
  lemma TenthFacts(rem: nat, small: nat, last: nat, c: nat)
    requires c > 0 && small > 0 && 10 * c <= EXACT && Part(rem, last, small) && rem <= 9 * (c * small)
    ensures var k, tenth := c * small, TenthOf(last, 10 * c);
      k > 0 && tenth < 10 && 0 < (tenth + 1) * (10 * k) - 10 * rem <= 10 * k && (tenth == 9 ==> rem == 9 * k)
  {
    AtMostNine(rem, small, last, c);
    assert last * 10 % UINT_MOD == last * 10;
    Tens(last, c);
    OneTenth(rem, small, last, c);
    MulMono(small, 1, c);
    NineTenths(rem, small, last, c);
  }

  lemma AtMostNine(rem: nat, small: nat, last: nat, c: nat)
    requires small > 0 && Part(rem, last, small) && rem <= 9 * (c * small)
    ensures last <= 9 * c && (last == 9 * c ==> rem == 9 * (c * small))
  {
    MulGap(small, 9 * c, last);
    assert 9 * c * small == 9 * (c * small);
  }

  lemma NineTenths(rem: nat, small: nat, last: nat, c: nat)
    requires c > 0 && small > 0 && last <= 9 * c && (last == 9 * c ==> rem == 9 * (c * small))
    ensures last / c < 10 && (last / c == 9 ==> rem == 9 * (c * small))
  {
    var q := last / c;
    assert last == q * c + last % c;
    MulGap(c, 9, q);
  }

  lemma NoRemainder(rem: nat, last: nat, small: nat)
    requires Part(rem, last, small) && rem == 0 && small > 0
    ensures last == 0
  {
    MulGap(small, 0, last);
  }

  lemma Tenfold(small: nat, c: nat)
    ensures small * (10 * c) == 10 * (c * small)
  {
  }

  /** The figure of a size that has been divided at least once by a multiple of ten. */
  lemma RoundedOk(orig: nat, size: nat, rem: nat, small: nat, last: nat, divisor: nat, g: nat)
    requires 0 < divisor <= EXACT && divisor % 10 == 0 && small > 0 && Part(rem, last, small)
    requires g == small * divisor && 0 < g && rem < g && orig == size * g + rem
    ensures var (w, t) := Rounded(size, rem, g, last, TenthOf(last, divisor));
      var excess := (10 * w + t) * g - 10 * orig;
      t < 10 && 0 <= excess && (excess == 0 <==> rem == 0) && (if size < 10 then excess <= g else excess < 10 * g)
  {
    hide Rounded, Excess, TenthOf;
    var c := divisor / 10;
    assert divisor == 10 * c;
    Tenfold(small, c);
    if rem <= 9 * (c * small) {
      TenthFacts(rem, small, last, c);
    }
    if rem == 0 {
      NoRemainder(rem, last, small);
    }
    RoundedUp(size, rem, g, c * small, last, TenthOf(last, divisor));
    var (w, t) := Rounded(size, rem, g, last, TenthOf(last, divisor));
    Scale(size, rem, g, w, t);
  }

  /** The remainder by a unit in units of the next smaller one. */
  lemma LastPart(x: nat, small: nat, d: nat)
    requires small > 0 && d > 0
    ensures small * d > 0 && Part(x % (small * d), x / small % d, small)
  {
    DivDiv(x, small, d);
    var p, g := x / small, small * d;
    var q, r := p / d, p % d;
    DivMod(x, small);
    DivMod(x, g);
    assert p == q * d + r && q == x / g;
    assert p * small == q * g + r * small by {
      assert (q * d + r) * small == q * (small * d) + r * small;
    }
  }

  /** The figure of any size, by its unit `g`: exact for multiples of the unit, otherwise too large, by at most a
      tenth of the unit below ten units and by less than a unit above, unless it has come to the unit without
      a letter. */
  lemma FigureBounds(orig: nat, divisor: nat)
    requires 0 < divisor <= EXACT && divisor % 10 == 0
    ensures var f, g := SizeFigure(orig, divisor), Pow(divisor, Level(orig, divisor, LAST_UNIT));
      var excess := Worth(f, divisor) - 10 * orig;
      0 < g && f.tenths < 10 && 0 <= excess && (excess == 0 <==> orig % g == 0)
      && (if orig < 10 * g then excess <= g else excess < 10 * g)
      && (f.unit < LAST_UNIT ==> Value(f, divisor) == Worth(f, divisor))
  {
    hide Rounded, RoundedFigure, TenthOf, Level, Part, Pow, Lower, Worth;
    var idx := Level(orig, divisor, LAST_UNIT);
    var g := Pow(divisor, idx);
    if idx == 0 {
      Whole(orig, divisor);
    } else {
      var small := Lower(divisor, idx);
      var size, rem, last := orig / g, orig % g, orig / small % divisor;
      DivMod(orig, g);
      LastPart(orig, small, divisor);
      RoundedOk(orig, size, rem, small, last, divisor, g);
      Below(orig, size, g);
      LevelStops(orig, divisor, LAST_UNIT);
      Carried(size, rem, g, last, idx, divisor);
    }
  }

  lemma Whole(orig: nat, divisor: nat)
    ensures Worth(Figure(orig, 0, 0), divisor) == 10 * orig && Pow(divisor, 0) == 1 && orig % 1 == 0
  {
  }

  /** The tenths from the last remainder alone: for divisors that are no multiple of ten they may be too small,
      but by less than nine of the next smaller units. */
  lemma NearTenth(rem: nat, small: nat, last: nat, d: nat)
    requires d > 0 && small > 0 && Part(rem, last, small)
    ensures var t, g := last * 10 / d + 1, small * d; -9 * small < t * g - 10 * rem <= g
  {
    var q, r := last * 10 / d, last * 10 % d;
    assert last * 10 == q * d + r;
    assert 10 * (last * small) == q * (small * d) + r * small by {
      assert (q * d + r) * small == q * (small * d) + r * small;
    }
    MulMono(small, r + 1, d);
    assert (r + 1) * small == r * small + small;
    assert (q + 1) * (small * d) == q * (small * d) + small * d;
  }

  lemma RoundedNear(size: nat, rem: nat, g: nat, small: nat, last: nat, d: nat)
    requires d > 0 && small > 0 && g == small * d && g > 0 && rem < g && Part(rem, last, small) && last < d
    requires 10 * d <= UINT_MOD
    ensures var (w, t) := Rounded(size, rem, g, last, TenthOf(last, d));
      t < 10 && size <= w <= size + 1
      && if size < 10 then -9 * small < Excess(size, rem, g, w, t) <= g
         else 0 <= Excess(size, rem, g, w, t) < 10 * g && t == 0
  {
    hide P90, Part;
    P90Is(g);
    NearTenth(rem, small, last, d);
    TenthBelow(last, d);
    if rem == 0 {
      NoRemainder(rem, last, small);
    }
    var (w, t) := Rounded(size, rem, g, last, TenthOf(last, d));
    assert w == size + 1 ==> 10 * (w - size) * g == 10 * g;
    assert w == size ==> 10 * (w - size) * g == 0;
  }

  /** The same for the size. */
  lemma NearOk(orig: nat, size: nat, rem: nat, g: nat, small: nat, last: nat, d: nat)
    requires d > 0 && small > 0 && g == small * d && g > 0 && rem < g && Part(rem, last, small) && last < d
    requires 10 * d <= UINT_MOD && orig == size * g + rem
    ensures var (w, t) := Rounded(size, rem, g, last, TenthOf(last, d));
      var excess := (10 * w + t) * g - 10 * orig;
      t < 10 && if size < 10 then -9 * small < excess <= g else 0 <= excess < 10 * g
  {
    hide Rounded, TenthOf, Excess, Part;
    RoundedNear(size, rem, g, small, last, d);
    var (w, t) := Rounded(size, rem, g, last, TenthOf(last, d));
    Scale(size, rem, g, w, t);
  }

  lemma TenthBelow(last: nat, d: nat)
    requires last < d && 10 * d <= UINT_MOD
    ensures TenthOf(last, d) == last * 10 / d < 10
  {
    assert last * 10 % UINT_MOD == last * 10;
    DivMod(last * 10, d);
    if last * 10 / d >= 10 {
      MulMono(d, 10, last * 10 / d);
    }
  }

  /** For every divisor with which the tenths do not overflow, 1024 among them: the figure is less than nine
      of the next smaller units too low, in tenths, and no more too high than for multiples of ten. */
  lemma FigureNear(orig: nat, divisor: nat)
    requires 1 < divisor <= 429496729
    ensures var f, k := SizeFigure(orig, divisor), Level(orig, divisor, LAST_UNIT);
      var g, excess := Pow(divisor, k), Worth(f, divisor) - 10 * orig;
      0 < g && f.tenths < 10 && (if orig < 10 * g then excess <= g else 0 <= excess < 10 * g)
      && (f.unit < 11 ==> f.whole < divisor) && if k == 0 then excess == 0 else -9 * Lower(divisor, k) < excess
  {
    hide Rounded, RoundedFigure, TenthOf, Level, Pow, Lower, Worth;
    var idx := Level(orig, divisor, LAST_UNIT);
    if idx == 0 {
      Whole(orig, divisor);
      LevelStops(orig, divisor, LAST_UNIT);
    } else {
      FigureNearUnit(orig, divisor, idx, Pow(divisor, idx), Lower(divisor, idx));
    }
  }

  /** How near a figure of `w` units `g` and `t` tenths is to the size. */
  ghost predicate Near(orig: nat, w: nat, t: nat, g: nat, small: nat) {
    var excess := (10 * w + t) * g - 10 * orig;
    t < 10 && -9 * small < excess && if orig < 10 * g then excess <= g else 0 <= excess < 10 * g
  }

  lemma FigureNearUnit(orig: nat, divisor: nat, idx: nat, g: nat, small: nat)
    requires 1 < divisor <= 429496729 && idx == Level(orig, divisor, LAST_UNIT) > 0
    requires g == Pow(divisor, idx) > 0 && small == Lower(divisor, idx)
    ensures var f := RoundedFigure(Quot(orig, g), orig % g, g, Quot(orig, small) % divisor, idx, divisor);
      var excess := Worth(f, divisor) - 10 * orig;
      f.tenths < 10 && (f.unit < 11 ==> f.whole < divisor) && -9 * small < excess
      && if orig < 10 * g then excess <= g else 0 <= excess < 10 * g
  {
    hide Rounded, RoundedFigure, TenthOf, Level, Pow, Lower, Worth, Near, Quot, Taken;
    var size, rem, last := Quot(orig, g), orig % g, Quot(orig, small) % divisor;
    TakenIs(orig, divisor, g, small);
    NearTaken(orig, divisor, g, small, size, rem, last);
    LevelSize(orig, divisor);
    Carried(size, rem, g, last, idx, divisor);
    var (w, t) := Rounded(size, rem, g, last, TenthOf(last, divisor));
    NearIs(orig, w, t, g, small);
  }

  lemma NearIs(orig: nat, w: nat, t: nat, g: nat, small: nat)
    requires Near(orig, w, t, g, small)
    ensures var excess := (10 * w + t) * g - 10 * orig;
      t < 10 && -9 * small < excess && if orig < 10 * g then excess <= g else 0 <= excess < 10 * g
  {
  }

  lemma LevelSize(orig: nat, divisor: nat)
    requires divisor > 0
    ensures var k := Level(orig, divisor, LAST_UNIT);
      Pow(divisor, k) > 0 && (k < LAST_UNIT ==> Quot(orig, Pow(divisor, k)) < divisor)
  {
    LevelStops(orig, divisor, LAST_UNIT);
  }

  /** A size by its unit, and the last remainder. */
  ghost predicate Taken(orig: nat, d: nat, g: nat, small: nat, size: nat, rem: nat, last: nat) {
    orig == size * g + rem && rem < g && Part(rem, last, small) && last < d && (size < 10 <==> orig < 10 * g)
  }

  lemma TakenIs(orig: nat, d: nat, g: nat, small: nat)
    requires d > 0 && small > 0 && g == small * d && g > 0
    ensures Taken(orig, d, g, small, Quot(orig, g), orig % g, Quot(orig, small) % d)
  {
    hide Part;
    DivMod(orig, g);
    LastPart(orig, small, d);
    DivMod(Quot(orig, small), d);
    Below(orig, Quot(orig, g), g);
  }

  lemma NearTaken(orig: nat, d: nat, g: nat, small: nat, size: nat, rem: nat, last: nat)
    requires 1 < d <= 429496729 && small > 0 && g == small * d && g > 0 && Taken(orig, d, g, small, size, rem, last)
    ensures var (w, t) := Rounded(size, rem, g, last, TenthOf(last, d)); Near(orig, w, t, g, small)
  {
    hide Rounded, TenthOf, Part;
    NearOk(orig, size, rem, g, small, last, d);
  }

  /** The unit is the largest power of the divisor, up to the eleventh, that the size reaches. */
  lemma LargestUnit(orig: nat, divisor: nat, k: nat)
    requires divisor > 1
    ensures k == Level(orig, divisor, 11) <==>
      k <= 11 && (k > 0 ==> Pow(divisor, k) <= orig) && (k < 11 ==> orig < Pow(divisor, k + 1))
  {
    hide Level, Pow;
    var n := Level(orig, divisor, 11);
    LevelReached(orig, divisor, 11);
    LevelStops(orig, divisor, 11);
    if n < 11 {
      NextPow(orig, divisor, n);
    }
    if k < n {
      PowUp(divisor, k + 1, n);
    } else if n < k {
      PowUp(divisor, n + 1, k);
    }
  }

  lemma NextPow(x: nat, b: nat, k: nat)
    requires Pow(b, k) > 0 && x / Pow(b, k) < b
    ensures x < Pow(b, k + 1)
  {
    var p := Pow(b, k);
    DivMod(x, p);
    MulMono(p, x / p + 1, b);
  }

  lemma {:induction false} PowUp(b: nat, k: nat, n: nat)
    requires b > 0 && k <= n
    ensures Pow(b, k) <= Pow(b, n)
    decreases n
  {
    if k < n {
      PowUp(b, k, n - 1);
      MulMono(Pow(b, n - 1), 1, b);
    }
  }

  /** The carry into the next unit leaves the value as it is, and the whole part below the divisor. */
  lemma Carried(size: nat, rem: nat, g: nat, last: nat, idx: nat, divisor: nat)
    requires divisor > 1 && g > 0 && g == Pow(divisor, idx) && idx <= LAST_UNIT && (idx < LAST_UNIT ==> size < divisor)
    ensures var f, (w, t) := RoundedFigure(size, rem, g, last, idx, divisor), Rounded(size, rem, g, last,
      TenthOf(last, divisor));
      Worth(f, divisor) == (10 * w + t) * g && f.tenths == t && f.unit <= LAST_UNIT
      && (f.unit < LAST_UNIT ==> f.whole < divisor)
  {
    hide TenthOf, P90;
    var (w, t) := Rounded(size, rem, g, last, TenthOf(last, divisor));
    if rem != 0 && idx < LAST_UNIT && w == divisor {
      assert t == 0;
      Tenfold(g, divisor);
      assert Pow(divisor, idx + 1) == g * divisor;
      assert 10 * divisor * g == 10 * (g * divisor);
    }
  }

  lemma Below(orig: nat, size: nat, g: nat)
    requires size * g <= orig < size * g + g
    ensures size < 10 <==> orig < 10 * g
  {
    if size < 10 {
      MulMono(g, size + 1, 10);
    } else {
      MulMono(g, 10, size);
    }
  }

  /** Below the last unit the whole part is less than the divisor. */
  lemma {:induction false} LevelStops(orig: nat, divisor: nat, n: nat)
    requires divisor > 0
    ensures var k := Level(orig, divisor, n); Pow(divisor, k) > 0 && (k < n ==> orig / Pow(divisor, k) < divisor)
    decreases n
  {
    hide Pow;
    var k := Level(orig, divisor, n);
    if k == 0 {
      PowZero(orig, divisor);
    } else {
      LevelStops(orig / divisor, divisor, n - 1);
      NextLevel(orig, divisor, k);
    }
  }

  lemma PowZero(x: nat, b: nat)
    ensures Pow(b, 0) == 1 && x / 1 == x
  {
  }

  lemma NextLevel(x: nat, b: nat, k: nat)
    requires b > 0 && k > 0
    ensures Pow(b, k) > 0 && x / Pow(b, k) == x / b / Pow(b, k - 1)
  {
    DivDiv(x, b, Pow(b, k - 1));
  }

  /** No 64-bit size gets a figure that is too small. */
  ghost predicate NeverLow(divisor: nat)
    requires divisor > 0
  {
    forall orig: nat :: orig <= ULLONG_MAX ==> 10 * orig <= Value(SizeFigure(orig, divisor), divisor)
  }

  /** Exactly for which divisors that is so: below 60 the unit without a letter is reached. */
  lemma NeverLowExactly(divisor: nat)
    requires 0 < divisor < UINT_MOD
    ensures NeverLow(divisor) <==> divisor == 1 || (divisor % 10 == 0 && 60 <= divisor <= EXACT)
  {
    hide SizeFigure, Value, Worth, Pow, Level;
    if divisor == 1 {
      forall orig: nat | orig <= ULLONG_MAX
        ensures 10 * orig <= Value(SizeFigure(orig, divisor), divisor)
      {
        UnitOne(orig);
      }
    } else if divisor > EXACT {
      LowByOverflow(divisor);
    } else if divisor % 10 != 0 {
      var orig := LowByTenths(divisor);
    } else if divisor < 60 {
      var orig := LowByLetter(divisor);
    } else {
      forall orig: nat | orig <= ULLONG_MAX
        ensures 10 * orig <= Value(SizeFigure(orig, divisor), divisor)
      {
        FigureBounds(orig, divisor);
        LetterShown(orig, divisor);
      }
    }
  }

  lemma {:induction false} PowMono(a: nat, b: nat, k: nat)
    requires a <= b
    ensures Pow(a, k) <= Pow(b, k)
  {
    if k > 0 {
      PowMono(a, b, k - 1);
      MulMono(a, Pow(a, k - 1), Pow(b, k - 1));
      MulMono(Pow(b, k - 1), a, b);
    }
  }

  lemma Pow50()
    ensures Pow(50, LAST_UNIT) == 4_882_812_500_000_000_000
  {
    assert Pow(50, 3) == 125_000;
    assert Pow(50, 6) == 15_625_000_000;
    assert Pow(50, 9) == 1_953_125_000_000_000;
  }

  lemma Pow60()
    ensures Pow(60, LAST_UNIT) > ULLONG_MAX && 59 * Pow(60, LAST_UNIT - 1) > ULLONG_MAX
  {
    assert Pow(60, 3) == 216_000;
    assert Pow(60, 6) == 46_656_000_000;
    assert Pow(60, 9) == 10_077_696_000_000_000;
  }

  /** From a divisor of 60 on, every 64-bit size is printed with its unit. */
  lemma LetterShown(orig: nat, divisor: nat)
    requires orig <= ULLONG_MAX && 60 <= divisor
    ensures SizeFigure(orig, divisor).unit < LAST_UNIT
  {
    hide Pow, Level, Rounded, TenthOf;
    var idx := Level(orig, divisor, LAST_UNIT);
    var g := Pow(divisor, idx);
    Pow60();
    PowMono(60, divisor, idx);
    LevelReached(orig, divisor, LAST_UNIT);
    if idx == LAST_UNIT - 1 {
      Below59(orig, g);
      SizeStays(Quot(orig, g), orig % g, g, Quot(orig, Lower(divisor, idx)) % divisor, idx, divisor);
    }
  }

  lemma Below59(orig: nat, g: nat)
    requires g > 0 && orig <= ULLONG_MAX < 59 * g
    ensures Quot(orig, g) < 59
  {
    DivMod(orig, g);
    MulGap(g, 58, orig / g);
  }

  /** The whole part grows by one at most. */
  lemma SizeStays(size: nat, rem: nat, g: nat, last: nat, idx: nat, divisor: nat)
    requires divisor > 0 && g > 0 && size + 1 < divisor
    ensures RoundedFigure(size, rem, g, last, idx, divisor).unit == idx
  {
    hide P90, TenthOf;
  }

  /** A size is at least one of its units. */
  lemma {:induction false} LevelReached(orig: nat, divisor: nat, n: nat)
    requires divisor > 0
    ensures var k := Level(orig, divisor, n); k > 0 ==> Pow(divisor, k) <= orig
    decreases n
  {
    var k := Level(orig, divisor, n);
    if k > 0 {
      LevelReached(orig / divisor, divisor, n - 1);
      DivMod(orig, divisor);
      if k == 1 {
        PowZero(orig, divisor);
      } else {
        MulMono(divisor, Pow(divisor, k - 1), orig / divisor);
      }
    }
  }

  /** For every divisor up to 50, one of the last unit is printed as the number one. */
  lemma LowByLetter(divisor: nat) returns (orig: nat)
    requires 1 < divisor <= 50
    ensures orig == Pow(divisor, LAST_UNIT) <= ULLONG_MAX && SizeFigure(orig, divisor) == Figure(1, 0, LAST_UNIT)
    ensures Value(SizeFigure(orig, divisor), divisor) < 10 * orig
  {
    hide Pow, Level;
    orig := Pow(divisor, LAST_UNIT);
    PowMono(divisor, 50, LAST_UNIT);
    Pow50();
    var small := Pow(divisor, LAST_UNIT - 1);
    OneLastUnit(divisor, small);
    MulMono(small, 2, divisor);
    LevelIs(orig, divisor, LAST_UNIT, LAST_UNIT);
  }

  lemma OneLastUnit(divisor: nat, small: nat)
    requires divisor > 1 && small == Pow(divisor, LAST_UNIT - 1)
    ensures var g := Pow(divisor, LAST_UNIT);
      small > 0 && g == small * divisor && g < g * divisor && g > 1
      && Quot(g, g) == 1 && g % g == 0 && Quot(g, small) % divisor == 0
  {
    var g := Pow(divisor, LAST_UNIT);
    MulMono(g, 2, divisor);
    DivUnique(g, g, 1, 0);
    DivUnique(g, small, divisor, 0);
    DivUnique(divisor, divisor, 1, 0);
  }

  /** Ten to the eleventh in powers of ten: "1.0" and nothing behind it. */
  lemma LowByLetterTen()
    ensures SizeFigure(100_000_000_000, 10) == Figure(1, 0, LAST_UNIT)
    ensures Value(SizeFigure(100_000_000_000, 10), 10) == 10
  {
    hide Level, SizeFigure;
    assert Pow(10, 3) == 1000;
    assert Pow(10, 6) == 1_000_000;
    assert Pow(10, 9) == 1_000_000_000;
    var orig := LowByLetter(10);
  }

  lemma {:induction false} PowOne(k: nat)
    ensures Pow(1, k) == 1
  {
    if k > 0 {
      PowOne(k - 1);
    }
  }

  lemma UnitOne(orig: nat)
    ensures Value(SizeFigure(orig, 1), 1) == 10 * orig
  {
    hide Level;
    var idx := Level(orig, 1, LAST_UNIT);
    PowOne(idx);
    if idx > 0 {
      PowOne(idx - 1);
      assert SizeFigure(orig, 1) == Figure(orig, 0, idx);
    }
  }

  /** How far a size is divided. */
  lemma {:induction false} LevelIs(orig: nat, divisor: nat, k: nat, n: nat)
    requires divisor > 0 && k <= n && Pow(divisor, k) <= orig < Pow(divisor, k) * divisor
    ensures Level(orig, divisor, n) == k
    decreases n
  {
    if k > 0 {
      var p := Pow(divisor, k - 1);
      Divided(orig, divisor, p);
      LevelIs(orig / divisor, divisor, k - 1, n - 1);
    }
  }

  lemma Divided(orig: nat, divisor: nat, p: nat)
    requires divisor > 0 && p > 0 && p * divisor <= orig < p * divisor * divisor
    ensures p <= orig / divisor < p * divisor && divisor <= orig
  {
    var q := orig / divisor;
    DivMod(orig, divisor);
    MulGap(divisor, q, p);
    MulGap(divisor, p * divisor, q + 1);
    MulMono(divisor, 1, p);
  }

  /** The figure of one unit `g` and `rem`. */
  lemma OneUnit(divisor: nat, k: nat, rem: nat)
    requires divisor > 1 && k < LAST_UNIT && rem < Pow(divisor, k) * divisor
    ensures var small := Pow(divisor, k); var g := small * divisor;
      small > 0 && g > 0 && g == Pow(divisor, k + 1)
      && SizeFigure(g + rem, divisor) == RoundedFigure(1, rem, g, Quot(g + rem, small) % divisor, k + 1, divisor)
  {
    hide RoundedFigure, Level;
    var g := Pow(divisor, k + 1);
    MulMono(g, 2, divisor);
    LevelIs(g + rem, divisor, k + 1, LAST_UNIT);
    DivUnique(g + rem, g, 1, rem);
  }

  /** Above EXACT the tenths overflow for a size of one unit and a tenth. */
  lemma LowByOverflow(divisor: nat)
    requires EXACT < divisor < UINT_MOD
    ensures var orig := divisor + 429496730; Value(SizeFigure(orig, divisor), divisor) < 10 * orig
  {
    hide RoundedFigure, SizeFigure, Value, P90, TenthOf, Pow, Quot;
    var rem := 429496730;
    PowZero(divisor, divisor);
    OneUnit(divisor, 0, rem);
    PastExact(divisor, rem);
    OneTenthShown(rem, divisor, rem, 1, divisor);
  }

  lemma PastExact(divisor: nat, rem: nat)
    requires EXACT < divisor < UINT_MOD && rem == 429496730
    ensures rem <= P90(divisor) && TenthOf(rem, divisor) == 0 && Quot(divisor + rem, 1) % divisor == rem
  {
    P90Is(divisor);
    DivUnique(divisor + rem, divisor, 1, rem);
    assert rem * 10 % UINT_MOD == 4;
  }

  /** A figure of one unit and one tenth. */
  lemma OneTenthShown(rem: nat, g: nat, last: nat, idx: nat, divisor: nat)
    requires divisor > 1 && g > 0 && 0 < rem <= P90(g) && TenthOf(last, divisor) == 0
    requires g == Pow(divisor, idx) && idx < LAST_UNIT
    ensures Value(RoundedFigure(1, rem, g, last, idx, divisor), divisor) == 11 * g
  {
    hide P90, TenthOf;
  }

  /** For a divisor that is no multiple of ten, one unit, a tenth of the divisor in the next smaller
      unit, and nearly one of those more. */
  lemma LowByTenths(divisor: nat) returns (orig: nat)
    requires 1 < divisor <= EXACT && divisor % 10 != 0
    ensures orig <= ULLONG_MAX && Value(SizeFigure(orig, divisor), divisor) < 10 * orig
  {
    hide RoundedFigure, SizeFigure, Value, P90, TenthOf;
    var k := if divisor <= 10 then 4 else 1;
    var small := SmallUnit(divisor, k);
    var g, last, rem := small * divisor, divisor / 10, divisor / 10 * small + small - 1;
    Shortfall(small, divisor);
    OneUnit(divisor, k, rem);
    LastIs(g + rem, small, divisor, last);
    NoTenth(last, divisor);
    OneTenthShown(rem, g, last, k + 1, divisor);
    orig := g + rem;
  }

  lemma SmallUnit(divisor: nat, k: nat) returns (small: nat)
    requires 1 < divisor <= EXACT && k == if divisor <= 10 then 4 else 1
    ensures small == Pow(divisor, k) > 10 && 2 * (small * divisor) <= ULLONG_MAX
  {
    var p0, p1 := Pow(divisor, 0), Pow(divisor, 1);
    assert p0 == 1 && p1 == divisor;
    small := Pow(divisor, k);
    if divisor <= 10 {
      var p2, p3, p4 := Pow(divisor, 2), Pow(divisor, 3), Pow(divisor, 4);
      assert p2 == divisor * divisor && p3 == p2 * divisor && p4 == p3 * divisor;
      MulMono(divisor, 2, divisor);
      MulMono(divisor, divisor, 10);
      MulMono(divisor, 4, p2);
      MulMono(divisor, p2, 100);
      MulMono(divisor, 8, p3);
      MulMono(divisor, p3, 1000);
      MulMono(divisor, p4, 10000);
    } else {
      MulMono(divisor, divisor, EXACT);
    }
  }

  lemma NoTenth(last: nat, divisor: nat)
    requires divisor > 0 && divisor % 10 != 0 && divisor < UINT_MOD && last == divisor / 10
    ensures TenthOf(last, divisor) == 0
  {
  }

  /** The remainder lies between what one tenth shows and nine tenths. */
  lemma Shortfall(small: nat, divisor: nat)
    requires small > 10 && divisor > 1 && divisor % 10 != 0
    ensures var g, rem := small * divisor, divisor / 10 * small + small - 1;
      g > 0 && 0 < rem < g && rem <= P90(g) && 11 * g < 10 * (g + rem)
  {
    hide P90;
    var g, last, m := small * divisor, divisor / 10, divisor % 10;
    var u, v := last * small, m * small;
    assert divisor == 10 * last + m;
    assert g == 10 * u + v by {
      assert small * (10 * last + m) == 10 * (last * small) + m * small;
    }
    MulMono(small, 1, m);
    MulMono(small, m, 9);
    if last == 0 {
      MulMono(small, 2, m);
    } else {
      MulMono(small, 1, last);
    }
    P90Is(g);
  }

  lemma LastIs(x: nat, small: nat, divisor: nat, last: nat)
    requires small > 0 && divisor > 0 && last < divisor && x == small * divisor + (last * small + small - 1)
    ensures Quot(x, small) % divisor == last
  {
    assert (divisor + last) * small == small * divisor + last * small;
    DivUnique(x, small, divisor + last, small - 1);
    DivUnique(divisor + last, divisor, 1, last);
  }
}
