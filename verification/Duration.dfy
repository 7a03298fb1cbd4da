/** HX_unit_seconds and HX_strtoull_sec (src/string.c). */
module Duration {
  import opened MapTypes
  import opened CString
  import opened Arith
  import opened DurationUnits
  import opened DurationSpec

  /** The fields a number of seconds is split into. */
  datatype Fields = Fields(years: nat, months: nat, weeks: nat, days: nat, hours: nat, mins: nat, secs: nat)

  function Split(secs: nat, y: bool, m: bool, w: bool): Fields {
    var years, r1 := if y then secs / YEAR else 0, if y then secs % YEAR else secs;
    var months, r2 := if m then r1 / MONTH else 0, if m then r1 % MONTH else r1;
    var weeks, r3 := if w then r2 / WEEK else 0, if w then r2 % WEEK else r2;
    Fields(years, months, weeks, r3 / DAY, r3 % DAY / 3600, r3 % DAY % 3600 / 60, r3 % DAY % 3600 % 60)
  }

  function Total(f: Fields): nat {
    f.years * YEAR + f.months * MONTH + f.weeks * WEEK + f.days * DAY + f.hours * 3600 + f.mins * 60 + f.secs
  }

  lemma SplitTotal(secs: nat, y: bool, m: bool, w: bool)
    ensures Total(Split(secs, y, m, w)) == secs
  {
    var r1 := if y then secs % YEAR else secs;
    var r2 := if m then r1 % MONTH else r1;
    var r3 := if w then r2 % WEEK else r2;
    assert y ==> secs == secs / YEAR * YEAR + r1;
    assert m ==> r1 == r1 / MONTH * MONTH + r2;
    assert w ==> r2 == r2 / WEEK * WEEK + r3;
    assert r3 == r3 / DAY * DAY + r3 % DAY;
    var d := r3 % DAY;
    assert d == d / 3600 * 3600 + d % 3600;
    assert d % 3600 == d % 3600 / 60 * 60 + d % 3600 % 60;
  }

  /** A field that is written only if it is not zero, with the singular for the long units. */
  function Field(n: nat, one: nat, many: nat): seq<(nat, nat)> {
    if n == 0 then [] else [(n, if n == 1 then one else many)]
  }

  function Pieces(f: Fields): seq<(nat, nat)> {
    Field(f.years, 19, 19) + Field(f.months, 16, 15) + Field(f.weeks, 14, 13) + Field(f.days, 12, 12)
    + Field(f.hours, 9, 9) + Field(f.mins, 6, 6)
    + if f.secs > 0 || f == Fields(0, 0, 0, 0, 0, 0, 0) then [(f.secs, 3)] else []
  }

  lemma PiecesWritten(f: Fields)
    ensures forall k :: 0 <= k < |Pieces(f)| ==> Written(Pieces(f)[k].1)
    ensures forall k :: 0 <= k < |Pieces(f)| ==> Pieces(f)[k].0 <= Total(f)
  {
  }

  predicate AllWritten(ps: seq<(nat, nat)>) {
    forall k :: 0 <= k < |ps| ==> Written(ps[k].1)
  }

  lemma {:induction false} Concat(a: seq<(nat, nat)>, b: seq<(nat, nat)>)
    requires AllWritten(a) && AllWritten(b)
    ensures AllWritten(a + b) && Text(a + b) == Text(a) + Text(b) && Time(a + b) == Time(a) + Time(b)
  {
    hide NameOf, MultOf, Amount, Dec;
    if |a| == 0 {
      assert a + b == b;
    } else {
      var c := a + b;
      assert c[1..] == a[1..] + b && c[0] == a[0];
      Concat(a[1..], b);
      var head := Dec(a[0].0) + NameOf(a[0].1);
      assert Text(c) == head + Text(c[1..]) && Text(a) == head + Text(a[1..]);
    }
  }

  /** The text of a field, and what it stands for. */
  lemma FieldText(n: nat, one: nat, many: nat, k: nat, len: nat, mult: nat)
    requires Written(one) && Written(many) && 0 < k && n < Pow10(k) && MultOf(one) == MultOf(many) == mult
    requires |NameOf(one)| <= len && |NameOf(many)| <= len
    ensures AllWritten(Field(n, one, many)) && |Text(Field(n, one, many))| <= (if n == 0 then 0 else k + len)
    ensures Time(Field(n, one, many)) == n * mult
  {
    hide NameOf, MultOf;
    var f := Field(n, one, many);
    if n > 0 {
      DecLength(n, k);
      assert f[1..] == [];
      assert Text(f[1..]) == "" && Time(f[1..]) == 0;
    }
  }

  lemma SecondsText(n: nat)
    requires n < 60
    ensures AllWritten([(n, 3)]) && |Text([(n, 3)])| <= 3 && Time([(n, 3)]) == n
  {
    var f := [(n, 3)];
    assert Pow10(1) == 10 && Pow10(2) == 10 * Pow10(1);
    DecLength(n, 2);
    assert f[1..] == [];
    assert Text(f[1..]) == "" && Time(f[1..]) == 0;
    assert NameOf(3) == "s" && MultOf(3) == 1;
  }

  lemma Powers()
    ensures Pow10(1) == 10 && Pow10(2) == 100 && Pow10(3) == 1000 && Pow10(12) == 1000000000000
    ensures Pow10(13) == 10 * Pow10(12) && Pow10(14) == 10 * Pow10(13) && Pow10(15) == 10 * Pow10(14)
  {
    assert Pow10(4) == 10000 && Pow10(5) == 10 * Pow10(4) && Pow10(6) == 10 * Pow10(5);
    assert Pow10(7) == 10 * Pow10(6) && Pow10(8) == 10 * Pow10(7) && Pow10(9) == 10 * Pow10(8);
    assert Pow10(10) == 10 * Pow10(9) && Pow10(11) == 10 * Pow10(10) && Pow10(12) == 10 * Pow10(11);
  }

  /** How many digits the fields can have. */
  function Width(y: bool, m: bool, w: bool): (int, int, int, int) {
    (if y then 12 else 1, if !m then 1 else if y then 2 else 13,
     if !w then 1 else if m then 1 else if y then 2 else 14,
     if w then 1 else if m then 2 else if y then 3 else 15)
  }

  lemma SplitWidth(secs: nat, y: bool, m: bool, w: bool)
    requires secs <= ULLONG_MAX
    ensures var f, k := Split(secs, y, m, w), Width(y, m, w);
      f.years < Pow10(k.0) && f.months < Pow10(k.1) && f.weeks < Pow10(k.2) && f.days < Pow10(k.3)
      && f.hours < 24 && f.mins < 60 && f.secs < 60 && (!y ==> f.years == 0) && (!m ==> f.months == 0)
      && (!w ==> f.weeks == 0)
  {
    Powers();
  }

  /** The units of HX_unit_seconds by their place in the table. */
  lemma Places()
    ensures NameOf(19) == "y" && NameOf(16) == "month" && NameOf(15) == "months" && NameOf(14) == "week"
    ensures NameOf(13) == "weeks"
    ensures NameOf(12) == "d" && NameOf(9) == "h" && NameOf(6) == "min" && NameOf(3) == "s"
    ensures MultOf(19) == YEAR && MultOf(16) == MultOf(15) == MONTH && MultOf(14) == MultOf(13) == WEEK
    ensures MultOf(12) == DAY && MultOf(9) == 3600 && MultOf(6) == 60 && MultOf(3) == 1
  {
  }

  /** What HX_unit_seconds prints. */
  function Printed(secs: nat, y: bool, m: bool, w: bool): string {
    PiecesWritten(Split(secs, y, m, w));
    Text(Pieces(Split(secs, y, m, w)))
  }

  /** The text never needs more than 40 characters, and stands for the number printed. */
  lemma PrintedFits(secs: nat, y: bool, m: bool, w: bool)
    requires secs <= ULLONG_MAX
    ensures |Printed(secs, y, m, w)| <= 40
    ensures AllWritten(Pieces(Split(secs, y, m, w))) && Time(Pieces(Split(secs, y, m, w))) == secs
  {
    var f, k := Split(secs, y, m, w), Width(y, m, w);
    SplitWidth(secs, y, m, w);
    SplitTotal(secs, y, m, w);
    hide Split;
    PiecesText(f, k.0, k.1, k.2, k.3);
  }

  /** The length of the text, field by field. */
  lemma PiecesText(f: Fields, ky: nat, km: nat, kw: nat, kd: nat)
    requires ky > 0 && km > 0 && kw > 0 && kd > 0 && f.hours < 24 && f.mins < 60 && f.secs < 60
    requires f.years < Pow10(ky) && f.months < Pow10(km) && f.weeks < Pow10(kw) && f.days < Pow10(kd)
    ensures AllWritten(Pieces(f)) && Time(Pieces(f)) == Total(f)
    ensures |Text(Pieces(f))| <= (if f.years == 0 then 0 else ky + 1) + (if f.months == 0 then 0 else km + 6)
                                 + (if f.weeks == 0 then 0 else kw + 5) + kd + 1 + 3 + 5 + 3
  {
    hide NameOf, MultOf, Pow10, Text, Time, Field;
    LongText(f, ky, km, kw);
    ShortText(f, kd);
    Concat(LongPieces(f), ShortPieces(f));
    assert Pieces(f) == LongPieces(f) + ShortPieces(f);
  }

  function LongPieces(f: Fields): seq<(nat, nat)> {
    Field(f.years, 19, 19) + Field(f.months, 16, 15) + Field(f.weeks, 14, 13)
  }

  function ShortPieces(f: Fields): seq<(nat, nat)> {
    Field(f.days, 12, 12) + Field(f.hours, 9, 9) + Field(f.mins, 6, 6)
    + if f.secs > 0 || f == Fields(0, 0, 0, 0, 0, 0, 0) then [(f.secs, 3)] else []
  }

  lemma LongText(f: Fields, ky: nat, km: nat, kw: nat)
    requires ky > 0 && km > 0 && kw > 0 && f.years < Pow10(ky) && f.months < Pow10(km) && f.weeks < Pow10(kw)
    ensures var ps := LongPieces(f);
      AllWritten(ps) && Time(ps) == f.years * YEAR + f.months * MONTH + f.weeks * WEEK
      && |Text(ps)| <= (if f.years == 0 then 0 else ky + 1) + (if f.months == 0 then 0 else km + 6)
                       + (if f.weeks == 0 then 0 else kw + 5)
  {
    hide NameOf, MultOf, Pow10, Text, Time, Field;
    Places();
    var a, b, c := Field(f.years, 19, 19), Field(f.months, 16, 15), Field(f.weeks, 14, 13);
    FieldText(f.years, 19, 19, ky, 1, YEAR);
    FieldText(f.months, 16, 15, km, 6, MONTH);
    FieldText(f.weeks, 14, 13, kw, 5, WEEK);
    Concat(a, b);
    Concat(a + b, c);
  }

  lemma ShortText(f: Fields, kd: nat)
    requires kd > 0 && f.days < Pow10(kd) && f.hours < 24 && f.mins < 60 && f.secs < 60
    ensures var ps := ShortPieces(f);
      AllWritten(ps) && Time(ps) == f.days * DAY + f.hours * 3600 + f.mins * 60 + f.secs && |Text(ps)| <= kd + 12
  {
    hide NameOf, MultOf, Pow10, Text, Time, Field;
    Places();
    Powers();
    Nothing();
    SecondsText(f.secs);
    var d, h, m := Field(f.days, 12, 12), Field(f.hours, 9, 9), Field(f.mins, 6, 6);
    var s: seq<(nat, nat)> := if f.secs > 0 || f == Fields(0, 0, 0, 0, 0, 0, 0) then [(f.secs, 3)] else [];
    FieldText(f.days, 12, 12, kd, 1, DAY);
    FieldText(f.hours, 9, 9, 2, 1, 3600);
    FieldText(f.mins, 6, 6, 2, 3, 60);
    Concat(d, h);
    Concat(d + h, m);
    Concat(d + h + m, s);
  }

  lemma Nothing()
    ensures AllWritten([]) && Text([]) == "" && Time([]) == 0
  {
  }

  /** Reading what was printed gives the number back and uses the text up. */
  lemma RoundTrip(secs: nat, y: bool, m: bool, w: bool, stale: bool)
    requires secs <= ULLONG_MAX
    ensures var text := Printed(secs, y, m, w);
      '\0' !in text && '.' !in text && text != "" && '0' <= text[0] <= '9' && !LooksLikeIso8601(text)
      && Period(text, 0, stale) == Parsed(secs, "")
  {
    hide Split, Text, Time;
    PrintedFits(secs, y, m, w);
    PiecesWritten(Split(secs, y, m, w));
    var ps := Pieces(Split(secs, y, m, w));
    SplitSmall(secs, y, m, w);
    TextStarts(ps);
    TextSome(Split(secs, y, m, w));
    PeriodText(ps, 0, stale);
  }

  /** Something is printed. */
  lemma TextSome(f: Fields)
    ensures AllWritten(Pieces(f)) && Text(Pieces(f)) != ""
  {
    hide NameOf, Dec;
    PiecesWritten(f);
    assert |Pieces(f)| > 0;
  }

  /** No field is as large as the largest number. */
  lemma SplitSmall(secs: nat, y: bool, m: bool, w: bool)
    requires secs <= ULLONG_MAX
    ensures AllSmall(Pieces(Split(secs, y, m, w)))
  {
    hide Pieces;
    var r1 := if y then secs % YEAR else secs;
    var r2 := if m then r1 % MONTH else r1;
    var r3 := if w then r2 % WEEK else r2;
    Smaller(secs, YEAR);
    Smaller(r1, MONTH);
    Smaller(r2, WEEK);
    Smaller(r3, DAY);
    FieldsSmall(Split(secs, y, m, w));
  }

  lemma Smaller(x: nat, d: nat)
    requires x <= ULLONG_MAX && d > 1
    ensures x / d < ULLONG_MAX && x % d <= x
  {
    DivMod(x, d);
    MulGap(d, 0, x / d);
    MulMono(x / d, 2, d);
  }

  lemma FieldsSmall(f: Fields)
    requires f.years < ULLONG_MAX && f.months < ULLONG_MAX && f.weeks < ULLONG_MAX && f.days < ULLONG_MAX
    requires f.hours < 24 && f.mins < 60 && f.secs < 60
    ensures AllSmall(Pieces(f))
  {
    hide Field, AllSmall;
    FieldSmall(f.years, 19, 19);
    FieldSmall(f.months, 16, 15);
    FieldSmall(f.weeks, 14, 13);
    FieldSmall(f.days, 12, 12);
    FieldSmall(f.hours, 9, 9);
    FieldSmall(f.mins, 6, 6);
    var s := if f.secs > 0 || f == Fields(0, 0, 0, 0, 0, 0, 0) then [(f.secs, 3)] else [];
    assert AllSmall(s) by { OneSmall(f.secs, s); }
    SmallConcat(Field(f.years, 19, 19), Field(f.months, 16, 15));
    SmallConcat(Field(f.years, 19, 19) + Field(f.months, 16, 15), Field(f.weeks, 14, 13));
    SmallConcat(LongPieces(f), Field(f.days, 12, 12));
    SmallConcat(LongPieces(f) + Field(f.days, 12, 12), Field(f.hours, 9, 9));
    SmallConcat(LongPieces(f) + Field(f.days, 12, 12) + Field(f.hours, 9, 9), Field(f.mins, 6, 6));
    SmallConcat(LongPieces(f) + Field(f.days, 12, 12) + Field(f.hours, 9, 9) + Field(f.mins, 6, 6), s);
  }

  predicate AllSmall(ps: seq<(nat, nat)>) {
    forall k :: 0 <= k < |ps| ==> ps[k].0 < ULLONG_MAX
  }

  lemma SmallConcat(a: seq<(nat, nat)>, b: seq<(nat, nat)>)
    requires AllSmall(a) && AllSmall(b)
    ensures AllSmall(a + b)
  {
  }

  lemma FieldSmall(n: nat, one: nat, many: nat)
    requires n < ULLONG_MAX
    ensures AllSmall(Field(n, one, many))
  {
  }

  lemma OneSmall(n: nat, ps: seq<(nat, nat)>)
    requires n < 60 && |ps| <= 1 && (ps != [] ==> ps[0].0 == n)
    ensures AllSmall(ps)
  {
  }

  predicate LooksLikeIso8601(s: CStr) {
    At(s, 0) == 'P' && |s| > 1 && (IsDigit(s[1]) || (s[1] == 'T' && |s| > 2 && IsDigit(s[2])))
  }

  /** HX_strlcat on a buffer of `size` characters: what fits before the terminator. */
  function Strlcat(out: string, s: string, size: nat): string
    requires size > 0
  {
    Cut(out + s, size - 1)
  }

  function Cut(s: string, n: nat): string {
    if |s| <= n then s else s[..n]
  }

  lemma CutIs(s: string, n: nat)
    ensures Cut(s, n) <= s && |Cut(s, n)| <= n && (|Cut(s, n)| < n || |s| <= n ==> Cut(s, n) == s)
  {
  }

  lemma CutTwice(a: string, b: string, n: nat)
    ensures Cut(Cut(a, n) + b, n) == Cut(a + b, n)
  {
  }

  lemma ShortNames(i: nat)
    requires Written(i)
    ensures |NameOf(i)| <= 6
  {
    Places();
  }

  /** One field is appended if it is not zero. */
  method Put(out: string, outsize: nat, n: nat, one: nat, many: nat, k: nat, ghost text: string) returns (out': string)
    requires outsize > 0 && Written(one) && Written(many) && 0 < k <= 17 && n < Pow10(k)
    requires out == Cut(text, outsize - 1)
    ensures AllWritten(Field(n, one, many)) && out' == Cut(text + Text(Field(n, one, many)), outsize - 1)
  {
    hide NameOf, MultOf, Dec, Pow10;
    out' := out;
    if n == 0 {
      assert text + Text([]) == text;
    } else {
      var i := if n == 1 then one else many;
      var buf := Dec(n) + NameOf(i);
      DecLength(n, k);
      ShortNames(i);
      assert |buf| <= 24;   // buf[HXSIZEOF_Z64+4] holds it
      CutTwice(text, buf, outsize - 1);
      out' := Strlcat(out, buf, outsize);
      var f := [(n, i)];
      assert f[1..] == [] && Text(f) == buf + Text(f[1..]) && buf + "" == buf;
    }
  }

  /** HX_unit_seconds: the text, cut if the buffer is too small.  41 characters are always enough. */
  method UnitSeconds(outsize: nat, secs0: nat, y: bool, m: bool, w: bool) returns (out: string)
    requires outsize > 0 && secs0 <= ULLONG_MAX
    ensures out == Cut(Printed(secs0, y, m, w), outsize - 1)
    ensures out <= Printed(secs0, y, m, w) && |out| < outsize
    ensures |out| < outsize - 1 || outsize >= 41 ==> out == Printed(secs0, y, m, w)
  {
    PrintedFits(secs0, y, m, w);
    SplitWidth(secs0, y, m, w);
    Powers();
    var k := Width(y, m, w);
    var years, months, weeks, secs := 0, 0, 0, secs0;
    if y {
      years, secs := secs / YEAR, secs % YEAR;
    }
    if m {
      months, secs := secs / MONTH, secs % MONTH;
    }
    if w {
      weeks, secs := secs / WEEK, secs % WEEK;
    }
    var days := secs / DAY;
    secs := secs % DAY;
    var hours := secs / 3600;
    secs := secs % 3600;
    var mins := secs / 60;
    secs := secs % 60;
    ghost var f := Fields(years, months, weeks, days, hours, mins, secs);
    assert f == Split(secs0, y, m, w);
    out := PutFields(outsize, years, months, weeks, days, hours, mins, secs, k.0, k.1, k.2, k.3);
    CutIs(Printed(secs0, y, m, w), outsize - 1);
  }

  /** The printing half of HX_unit_seconds. */
  method PutFields(outsize: nat, years: nat, months: nat, weeks: nat, days: nat, hours: nat, mins: nat, secs: nat,
                   ky: nat, km: nat, kw: nat, kd: nat) returns (out: string)
    requires outsize > 0 && 0 < ky <= 17 && 0 < km <= 17 && 0 < kw <= 17 && 0 < kd <= 17 && hours < 24 && mins < 60
    requires secs < 60
    requires years < Pow10(ky) && months < Pow10(km) && weeks < Pow10(kw) && days < Pow10(kd)
    ensures var f := Fields(years, months, weeks, days, hours, mins, secs);
      AllWritten(Pieces(f)) && out == Cut(Text(Pieces(f)), outsize - 1)
  {
    hide Pow10, Text, Field, Cut, NameOf, MultOf, Amount, Pieces;
    ghost var f := Fields(years, months, weeks, days, hours, mins, secs);
    Powers();
    Nothing();
    PiecesText(f, ky, km, kw, kd);
    CutNone(outsize - 1);
    ghost var ps: seq<(nat, nat)> := [];
    out := "";
    out, ps := PutMore(out, outsize, years, 19, 19, ky, ps);
    out, ps := PutMore(out, outsize, months, 16, 15, km, ps);
    out, ps := PutMore(out, outsize, weeks, 14, 13, kw, ps);
    out, ps := PutMore(out, outsize, days, 12, 12, kd, ps);
    out, ps := PutMore(out, outsize, hours, 9, 9, 2, ps);
    out, ps := PutMore(out, outsize, mins, 6, 6, 2, ps);
    PiecesChain(f);
    if secs > 0 || (years == 0 && months == 0 && weeks == 0 && days == 0 && hours == 0 && mins == 0) {
      out := PutSeconds(out, outsize, secs, ps);
    }
  }

  /** The fields, one after the other. */
  lemma PiecesChain(f: Fields)
    ensures var ps := [] + Field(f.years, 19, 19) + Field(f.months, 16, 15) + Field(f.weeks, 14, 13)
        + Field(f.days, 12, 12) + Field(f.hours, 9, 9) + Field(f.mins, 6, 6);
      Pieces(f) == if f.secs > 0 || f == Fields(0, 0, 0, 0, 0, 0, 0) then ps + [(f.secs, 3)] else ps
  {
    assert [] + Field(f.years, 19, 19) == Field(f.years, 19, 19);
  }

  method PutSeconds(out: string, outsize: nat, secs: nat, ghost ps: seq<(nat, nat)>) returns (out': string)
    requires outsize > 0 && AllWritten(ps) && out == Cut(Text(ps), outsize - 1)
    ensures AllWritten(ps + [(secs, 3)]) && out' == Cut(Text(ps + [(secs, 3)]), outsize - 1)
  {
    CutTwice(Text(ps), Dec(secs) + "s", outsize - 1);
    out' := Strlcat(out, Dec(secs) + "s", outsize);
    OneText(secs);
    Concat(ps, [(secs, 3)]);
  }

  method PutMore(out: string, outsize: nat, n: nat, one: nat, many: nat, k: nat, ghost ps: seq<(nat, nat)>)
    returns (out': string, ghost ps': seq<(nat, nat)>)
    requires outsize > 0 && Written(one) && Written(many) && 0 < k <= 17 && n < Pow10(k) && AllWritten(ps)
    requires out == Cut(Text(ps), outsize - 1)
    ensures ps' == ps + Field(n, one, many) && AllWritten(ps') && out' == Cut(Text(ps'), outsize - 1)
  {
    out' := Put(out, outsize, n, one, many, k, Text(ps));
    Concat(ps, Field(n, one, many));
    ps' := ps + Field(n, one, many);
  }

  lemma CutNone(n: nat)
    ensures Cut("", n) == ""
  {
  }

  lemma OneText(n: nat)
    ensures AllWritten([(n, 3)]) && Text([(n, 3)]) == Dec(n) + "s"
  {
    var f := [(n, 3)];
    assert f[1..] == [];
    assert Text(f) == Dec(n) + NameOf(3) + Text(f[1..]);
    assert NameOf(3) == "s";
  }

  /** The loop of HX_strtoull_period over its unit table. */
  method FindUnit(s: CStr) returns (i: nat)
    ensures i == FirstUnit(s, 0)
  {
    i := 0;
    while i < UNIT_COUNT && !Matches(s, NameOf(i))
      invariant i <= UNIT_COUNT && FirstUnit(s, i) == FirstUnit(s, 0)
    {
      i := i + 1;
    }
  }

  method SkipAt(s: CStr) returns (t: CStr)
    ensures t == SkipBlanks(s)
  {
    t := s;
    while |t| > 0 && IsSpace(t[0])
      invariant SkipBlanks(t) == SkipBlanks(s)
      decreases |t|
    {
      t := t[1..];
    }
  }

  /** strtoull(s, &end, 10) on a text that starts with no blank and no '-': the value, ULLONG_MAX and
      ERANGE if it does not fit, and what is left. */
  function Strtoull(s: CStr): (r: (nat, bool, CStr))
    ensures |r.2| <= |s|
  {
    var u := if At(s, 0) == '+' then s[1..] else s;
    var n := Digits(u);
    DigitsAre(u);
    if n == 0 then (0, false, s)
    else if Value(u[..n]) > ULLONG_MAX then (ULLONG_MAX, true, u[n..])
    else (Value(u[..n]), false, u[n..])
  }

  /** One number and its unit, as strtoull and the table search see them. */
  lemma PeriodStep(s: CStr, quant: nat, stale: bool)
    requires s != "" && quant <= ULLONG_MAX
    ensures var t: CStr, p := SkipBlanks(s), Period(s, quant, stale);
      if At(t, 0) == '-' then p == Parsed(quant, t)
      else
        var (num, overflow, end) := Strtoull(t);
        if num == ULLONG_MAX && (overflow || stale) then p == Range(None)
        else if end == t then p == Parsed(quant, t)
        else
          var v: CStr := SkipBlanks(end);
          var i := FirstUnit(v, 0);
          |v| < |s| && (i < UNIT_COUNT ==> |NameOf(i)| <= |v|)
          && p ==
            if i == UNIT_COUNT then (if num == 0 then Period(v, quant, stale) else Parsed(quant, t))
            else match Added(quant, num, MultOf(i)) case None => Range(Some(t))
              case Some(q) => Period(v[|NameOf(i)|..], q, stale)
  {
    hide Value, Digits, SkipBlanks, NameOf, MultOf, Added;
    var t: CStr := SkipBlanks(s);
    var u: CStr := if At(t, 0) == '+' then t[1..] else t;
    DigitsAre(u);
  }

  /** HX_strtoull_period with the tables of HX_strtoull_sec, for texts without a decimal point.
      `out_end` is None where the source leaves it unset, and `range` tells of ULLONG_MAX returned
      with ERANGE. */
  method StrtoullPeriod(s0: CStr, stale: bool) returns (quant: nat, range: bool, out_end: Option<CStr>)
    requires '.' !in s0
    ensures match Period(s0, 0, stale)
            case Parsed(v, rest) => !range && quant == v && out_end == Some(rest)
            case Range(at) => range && quant == ULLONG_MAX && out_end == at
  {
    hide Period, Strtoull, FirstUnit, SkipBlanks, NameOf, MultOf;
    var s: CStr := s0;
    quant, range := 0, false;
    while s != ""
      invariant quant <= ULLONG_MAX && !range && Period(s, quant, stale) == Period(s0, 0, stale)
      decreases |s|
    {
      PeriodStep(s, quant, stale);
      s := SkipAt(s);
      var numbegin := s;
      if At(s, 0) == '-' {
        break;
      }
      var (num, overflow, end) := Strtoull(s);
      if num == ULLONG_MAX && (overflow || stale) {
        return num, true, None;
      }
      if end == s {
        break;
      }
      s := SkipAt(end);
      var i := FindUnit(s);
      if i == UNIT_COUNT {
        if num == 0 {
          continue;
        }
        s := numbegin;
        break;
      }
      var mult := MultOf(i);
      if mult > 0 && num > ULLONG_MAX / mult {
        return ULLONG_MAX, true, Some(numbegin);
      }
      num := num * mult;
      if num > ULLONG_MAX - quant {
        return ULLONG_MAX, true, Some(numbegin);
      }
      quant := quant + num;
      s := s[|NameOf(i)|..];
    }
    PeriodNone(quant, stale);
    out_end := Some(s);
  }

  /** HX_strtoull_sec after HX_unit_seconds: the number printed, with nothing left over. */
  method ThereAndBack(outsize: nat, secs: nat, y: bool, m: bool, w: bool, stale: bool)
    returns (quant: nat, range: bool, out_end: Option<CStr>)
    requires outsize >= 41 && secs <= ULLONG_MAX
    ensures quant == secs && !range && out_end == Some("")
  {
    hide Period, Printed, LooksLikeIso8601;
    RoundTrip(secs, y, m, w, stale);
    var text := UnitSeconds(outsize, secs, y, m, w);
    assert !LooksLikeIso8601(text);
    quant, range, out_end := StrtoullPeriod(text, stale);
  }
}
