/** What the numbers and units of a period mean, and what a printed duration looks like, in plain figures. */
module DurationLaws {
  import opened MapTypes
  import opened CString
  import opened DurationUnits
  import opened DurationSpec
  import opened Duration

  /** A number with an optional plus sign, as it is written, and the text behind it. */
  function Number(plus: bool, n: nat, x: CStr): CStr {
    (if plus then "+" else "") + (Dec(n) + x)
  }

  /** What the loop sees of a number. */
  lemma NumberSeen(bs: CStr, plus: bool, n: nat, bs2: CStr, v: CStr)
    requires Blanks(bs) && Blanks(bs2) && (v == "" || (!Blank(v[0]) && (bs2 == "" ==> !('0' <= v[0] <= '9'))))
    requires n <= 0xFFFF_FFFF_FFFF_FFFF
    ensures var t, x := Number(plus, n, bs2 + v), bs2 + v;
      SkipBlanks(bs + t) == t && t != "" && t[0] != '-' && Strtoull(t) == (n, false, x) && x != t && SkipBlanks(x) == v
  {
    hide SkipBlanks, Strtoull;
    SkipThem(bs2, v);
    NumberStarts(plus, n, bs2 + v);
    SkipThem(bs, Number(plus, n, bs2 + v));
  }

  lemma NumberStarts(plus: bool, n: nat, x: CStr)
    requires (x == "" || !('0' <= x[0] <= '9')) && n <= 0xFFFF_FFFF_FFFF_FFFF
    ensures var t := Number(plus, n, x);
      t != "" && !Blank(t[0]) && t[0] != '-' && Strtoull(t) == (n, false, x) && |x| < |t|
  {
    hide Digits, Value, Dec;
    var t, d := Number(plus, n, x), Dec(n);
    DigitsThen(d, x);
    DecValue(n);
    assert (if plus then t[1..] else t) == d + x;
    assert (d + x)[..|d|] == d && (d + x)[|d|..] == x;
    assert t[0] == if plus then '+' else d[0];
  }

  /** A number and a unit in any letter case, with blanks before either, adds so many seconds; a sum of 2^64 or
      more is an error that points at the number. */
  lemma UnitMeans(bs: CStr, plus: bool, n: nat, bs2: CStr, w: CStr, tail: CStr, seconds: nat, quant: nat, stale: bool)
    requires Blanks(bs) && Blanks(bs2) && Spelling(Lowered(w), seconds) && (tail == "" || !Letter(tail[0]))
    requires quant <= 0xFFFF_FFFF_FFFF_FFFF && n < 0xFFFF_FFFF_FFFF_FFFF
    ensures var t := Number(plus, n, bs2 + (w + tail));
      Period(bs + t, quant, stale) ==
        if quant + n * seconds <= 0xFFFF_FFFF_FFFF_FFFF then Period(tail, quant + n * seconds, stale)
        else Range(Some(t))
  {
    hide Period, FirstUnit, NameOf, MultOf, Spelling, Place, Number, Strtoull, SkipBlanks, Added;
    var i := Place(Lowered(w));
    Listed(Lowered(w), seconds);
    LowerWord(w, i);
    WordStarts(w, i);
    FirstNamed(w, tail, i);
    NumberSeen(bs, plus, n, bs2, w + tail);
    Duration.PeriodStep(bs + Number(plus, n, bs2 + (w + tail)), quant, stale);
    AddedIs(quant, n, seconds);
    assert (w + tail)[|w|..] == tail;
  }

  lemma WordStarts(w: CStr, i: nat)
    requires i < UNIT_COUNT && Lowered(w) == NameOf(i) && Word(w)
    ensures w != "" && !Blank(w[0]) && !('0' <= w[0] <= '9')
  {
    hide NameOf, MultOf;
    Shape(i);
    assert Lowered(w)[0] == NameOf(i)[0];
  }

  /** A zero needs no unit; any other number whose word is no unit ends the reading before it. */
  lemma NoUnitMeans(bs: CStr, plus: bool, n: nat, bs2: CStr, w: CStr, tail: CStr, quant: nat, stale: bool)
    requires Blanks(bs) && Blanks(bs2) && Word(w) && !IsUnit(Lowered(w)) && Ends(w, tail)
    requires w == "" && tail != "" ==> !Blank(tail[0]) && (bs2 == "" ==> !('0' <= tail[0] <= '9'))
    requires quant <= 0xFFFF_FFFF_FFFF_FFFF && n < 0xFFFF_FFFF_FFFF_FFFF
    ensures var t := Number(plus, n, bs2 + (w + tail));
      Period(bs + t, quant, stale) == if n == 0 then Period(w + tail, quant, stale) else Parsed(quant, t)
  {
    hide Period, FirstUnit, NameOf, MultOf, Spelling, Number, Strtoull, SkipBlanks;
    FirstNone(w, tail);
    assert w + tail != "" ==> (w + tail)[0] == if w == "" then tail[0] else w[0];
    NumberSeen(bs, plus, n, bs2, w + tail);
    Duration.PeriodStep(bs + Number(plus, n, bs2 + (w + tail)), quant, stale);
  }

  /** A number of 2^64 or more is an error; 2^64 - 1 itself is taken for one when errno is ERANGE from before. */
  lemma TooLarge(bs: CStr, n: nat, x: CStr, quant: nat, stale: bool)
    requires Blanks(bs) && (x == "" || !('0' <= x[0] <= '9')) && quant <= 0xFFFF_FFFF_FFFF_FFFF
    requires n > 0xFFFF_FFFF_FFFF_FFFF || (n == 0xFFFF_FFFF_FFFF_FFFF && stale)
    ensures Period(bs + (Dec(n) + x), quant, stale) == Range(None)
  {
    hide SkipBlanks, Digits, Value, Dec, FirstUnit;
    var d := Dec(n);
    var t: CStr := d + x;
    DigitsThen(d, x);
    DecValue(n);
    assert t[..|d|] == d && t[0] == d[0];
    SkipThem(bs, t);
  }

  /** Reading ends before a minus sign and before anything that is no number. */
  lemma NoNumberMeans(bs: CStr, t: CStr, quant: nat, stale: bool)
    requires Blanks(bs) && quant <= 0xFFFF_FFFF_FFFF_FFFF && t != "" && !Blank(t[0])
    requires t[0] != '+' && !('0' <= t[0] <= '9')
    ensures Period(bs + t, quant, stale) == Parsed(quant, t)
  {
    hide SkipBlanks;
    SkipThem(bs, t);
  }

  // ---------------------------------------------------------------- printing

  /** The fields of a duration are those numbers that add up to it, with no field as large as the next longer
      unit in use: years of 31557600 seconds, months of 2629800, weeks of 604800, if wanted. */
  lemma SplitExactly(f: Fields, secs: nat, y: bool, m: bool, w: bool)
    ensures f == Split(secs, y, m, w) <==>
      secs == f.years * 31557600 + f.months * 2629800 + f.weeks * 604800 + f.days * 86400 + f.hours * 3600
        + f.mins * 60 + f.secs
      && f.secs < 60 && f.mins < 60 && f.hours < 24
      && (if w then f.days < 7 else f.weeks == 0)
      && (if m then secs - f.years * 31557600 - f.months * 2629800 < 2629800 else f.months == 0)
      && (if y then secs - f.years * 31557600 < 31557600 else f.years == 0)
  {
    var g := Split(secs, y, m, w);
    SplitTotal(secs, y, m, w);
    var r1 := if y then secs % YEAR else secs;
    var r2 := if m then r1 % MONTH else r1;
    var r3 := if w then r2 % WEEK else r2;
    assert r3 == secs - g.years * YEAR - g.months * MONTH - g.weeks * WEEK;
  }

  /** One field of a printed duration. */
  function Shown(n: nat, one: string, many: string): string {
    if n == 0 then "" else Dec(n) + if n == 1 then one else many
  }

  /** The printed text is that of the fields that are not zero, and "0s" if all are. */
  lemma PrintedIs(secs: nat, y: bool, m: bool, w: bool)
    ensures var f := Split(secs, y, m, w);
      Printed(secs, y, m, w) == Shown(f.years, "y", "y") + Shown(f.months, "month", "months")
        + Shown(f.weeks, "week", "weeks") + Shown(f.days, "d", "d") + Shown(f.hours, "h", "h")
        + Shown(f.mins, "min", "min") + if f.secs > 0 || secs == 0 then Dec(f.secs) + "s" else ""
  {
    hide Split, Dec, Text, NameOf, MultOf, Amount;
    var f := Split(secs, y, m, w);
    SplitTotal(secs, y, m, w);
    Places();
    FieldShown(f.years, 19, 19, "y", "y");
    FieldShown(f.months, 16, 15, "month", "months");
    FieldShown(f.weeks, 14, 13, "week", "weeks");
    FieldShown(f.days, 12, 12, "d", "d");
    FieldShown(f.hours, 9, 9, "h", "h");
    FieldShown(f.mins, 6, 6, "min", "min");
    var a, b, c := Field(f.years, 19, 19), Field(f.months, 16, 15), Field(f.weeks, 14, 13);
    var d, e, g := Field(f.days, 12, 12), Field(f.hours, 9, 9), Field(f.mins, 6, 6);
    Concat(a, b);
    Concat(a + b, c);
    Concat(a + b + c, d);
    Concat(a + b + c + d, e);
    Concat(a + b + c + d + e, g);
    var z := if f.secs > 0 || secs == 0 then [(f.secs, 3)] else [];
    SecondsShown(f.secs);
    Concat(a + b + c + d + e + g, z);
  }

  lemma SecondsShown(n: nat)
    ensures AllWritten([(n, 3)]) && Text([(n, 3)]) == Dec(n) + "s" && AllWritten([]) && Text([]) == ""
  {
    OneText(n);
    Nothing();
  }

  lemma FieldShown(n: nat, one: nat, many: nat, s1: string, s2: string)
    requires Written(one) && Written(many) && NameOf(one) == s1 && NameOf(many) == s2
    ensures AllWritten(Field(n, one, many)) && Text(Field(n, one, many)) == Shown(n, s1, s2)
  {
    hide Dec;
    var f := Field(n, one, many);
    if n > 0 {
      assert f[1..] == [] && Text(f[1..]) == "";
      assert Text(f) == Dec(n) + (if n == 1 then s1 else s2) + "";
    }
  }
}
