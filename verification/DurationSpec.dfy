/** The period strings of HX_strtoull_period (src/string.c), and how numbers are printed. */
module DurationSpec {
  import opened MapTypes
  import opened CString
  import opened Arith
  import opened DurationUnits

  /** How many digits a text starts with, and their value. */
  function Digits(s: CStr): nat
    ensures Digits(s) <= |s|
  {
    if |s| > 0 && IsDigit(s[0]) then 1 + Digits(s[1..]) else 0
  }

  function Digit(c: char): nat
    requires IsDigit(c)
  {
    c as int - '0' as int
  }

  function Value(s: string): nat
    requires forall i :: 0 <= i < |s| ==> IsDigit(s[i])
  {
    if |s| == 0 then 0 else Value(s[..|s| - 1]) * 10 + Digit(s[|s| - 1])
  }

  lemma {:induction false} DigitsAre(s: CStr)
    ensures forall i :: 0 <= i < Digits(s) ==> IsDigit(s[i])
  {
    if |s| > 0 && IsDigit(s[0]) {
      DigitsAre(s[1..]);
      assert forall i :: 1 <= i < Digits(s) ==> s[i] == s[1..][i - 1];
    }
  }

  /** The number parsed, with what is left; or an error, with the text left where out_end is set. */
  datatype Parsed = Parsed(value: nat, rest: CStr) | Range(at: Option<CStr>)

  /** The guarded multiplication and addition. */
  function Added(quant: nat, num: nat, mult: nat): (r: Option<nat>)
    requires quant <= ULLONG_MAX
    ensures r.Some? ==> r.value <= ULLONG_MAX
  {
    if mult > 0 && num > ULLONG_MAX / mult then None
    else if num * mult > ULLONG_MAX - quant then None
    else Some(quant + num * mult)
  }

  /** The guards turn away exactly what does not fit. */
  lemma AddedIs(quant: nat, num: nat, mult: nat)
    requires quant <= ULLONG_MAX
    ensures Added(quant, num, mult) == if quant + num * mult <= ULLONG_MAX then Some(quant + num * mult) else None
  {
    if mult > 0 {
      DivGuard(ULLONG_MAX, num, mult);
    }
  }

  lemma DivGuard(m: nat, num: nat, mult: nat)
    requires mult > 0
    ensures num > m / mult <==> num * mult > m
  {
    var k := m / mult;
    assert m == k * mult + m % mult;
    if num > k {
      MulMono(mult, k + 1, num);
    } else {
      MulMono(mult, num, k);
    }
  }

  /** HX_strtoull_period on texts without a decimal point.  `stale` tells whether errno is ERANGE
      from before. */
  function Period(s: CStr, quant: nat, stale: bool): Parsed
    requires quant <= ULLONG_MAX
    decreases |s|
  {
    if |s| == 0 then Parsed(quant, s)
    else
      var t := SkipBlanks(s);
      if At(t, 0) == '-' then Parsed(quant, t)
      else
        var u := if At(t, 0) == '+' then t[1..] else t;
        var n := Digits(u);
        DigitsAre(u);
        if n == 0 then Parsed(quant, t)
        else if Value(u[..n]) > ULLONG_MAX || (Value(u[..n]) == ULLONG_MAX && stale) then Range(None)
        else
          var num, v := Value(u[..n]), SkipBlanks(u[n..]);
          var i := FirstUnit(v, 0);
          if i == UNIT_COUNT then
            if num == 0 then Period(v, quant, stale) else Parsed(quant, t)
          else
            match Added(quant, num, MultOf(i))
            case None => Range(Some(t))
            case Some(q) => Period(v[|NameOf(i)|..], q, stale)
  }

  // Printing.

  function Dec(n: nat): CStr
    ensures |Dec(n)| > 0
    ensures forall i :: 0 <= i < |Dec(n)| ==> IsDigit(Dec(n)[i])
  {
    (if n < 10 then "" else Dec(n / 10)) + [('0' as int + n % 10) as char]
  }

  lemma {:induction false} DecValue(n: nat)
    ensures Value(Dec(n)) == n
  {
    var c := ('0' as int + n % 10) as char;
    var front := if n < 10 then "" else Dec(n / 10);
    if n >= 10 {
      DecValue(n / 10);
    }
    ValueMore(front, c);
  }

  lemma ValueMore(s: string, c: char)
    requires IsDigit(c) && forall i :: 0 <= i < |s| ==> IsDigit(s[i])
    ensures Value(s + [c]) == Value(s) * 10 + Digit(c)
  {
    var t := s + [c];
    assert t[..|t| - 1] == s && t[|t| - 1] == c;
  }

  function Pow10(k: nat): nat {
    if k == 0 then 1 else 10 * Pow10(k - 1)
  }

  lemma {:induction false} DecLength(n: nat, k: nat)
    requires k > 0 && n < Pow10(k)
    ensures |Dec(n)| <= k
  {
    if n >= 10 {
      assert k > 1;
      DecLength(n / 10, k - 1);
    }
  }

  /** The units that HX_unit_seconds writes, by their place in the table. */
  predicate Written(i: nat) {
    i == 3 || i == 6 || i == 9 || (12 <= i <= 16) || i == 19
  }

  lemma WrittenNames(i: nat)
    requires Written(i)
    ensures MultOf(i) > 0
    ensures var n := NameOf(i); |n| > 0 && '\0' !in n && (forall k :: 0 <= k < |n| ==> 'a' <= n[k] <= 'z')
  {
  }

  lemma {:induction false} DigitsThen(d: CStr, tail: CStr)
    requires (forall i :: 0 <= i < |d| ==> IsDigit(d[i])) && !IsDigit(At(tail, 0))
    ensures Digits(d + tail) == |d|
  {
    var s: CStr := d + tail;
    if |d| == 0 {
      assert s == tail;
    } else {
      assert s[1..] == d[1..] + tail;
      DigitsThen(d[1..], tail);
    }
  }

  function Amount(n: nat, i: nat): nat
    requires i < UNIT_COUNT
  {
    n * MultOf(i)
  }

  /** One number with its unit, as HX_unit_seconds writes it, and what follows. */
  lemma PeriodPiece(n: nat, i: nat, tail: CStr, quant: nat, stale: bool)
    requires Written(i) && '\0' !in NameOf(i) && (tail == "" || IsDigit(tail[0]))
    requires quant + Amount(n, i) <= ULLONG_MAX && n < ULLONG_MAX
    ensures Period(Dec(n) + NameOf(i) + tail, quant, stale) == Period(tail, quant + Amount(n, i), stale)
  {
    hide NameOf, MultOf, Period, FirstUnit, Value, Digits, Dec;
    var d, name := Dec(n), NameOf(i);
    var v: CStr := name + tail;
    var s: CStr := d + name + tail;
    WrittenNames(i);
    LowerNames(i);
    FirstNamed(name, tail, i);
    AddedIs(quant, n, MultOf(i));
    DecValue(n);
    assert s == d + v && v[0] == name[0] && v[|name|..] == tail;
    DigitsThen(d, v);
    assert s[0] == d[0] && s[..|d|] == d && s[|d|..] == v;
    assert SkipBlanks(s) == s && SkipBlanks(v) == v;
    PeriodStep(s, quant, stale, |d|, i);
  }

  /** A step of Period on a text that starts with a number and a unit. */
  lemma PeriodStep(s: CStr, quant: nat, stale: bool, n: nat, i: nat)
    requires quant <= ULLONG_MAX && 0 < n < |s| && IsDigit(s[0]) && Digits(s) == n && i < UNIT_COUNT
    requires SkipBlanks(s) == s && SkipBlanks(s[n..]) == s[n..] && FirstUnit(s[n..], 0) == i && |NameOf(i)| <= |s[n..]|
    requires (forall k :: 0 <= k < n ==> IsDigit(s[k])) && Value(s[..n]) < ULLONG_MAX
    requires Added(quant, Value(s[..n]), MultOf(i)) == Some(quant + Amount(Value(s[..n]), i))
    requires quant + Amount(Value(s[..n]), i) <= ULLONG_MAX
    ensures Period(s, quant, stale) == Period(s[n..][|NameOf(i)|..], quant + Amount(Value(s[..n]), i), stale)
  {
    hide NameOf, MultOf, FirstUnit, Value, Digits, SkipBlanks, Added, Amount;
  }

  /** Numbers with units, and the text and time they stand for. */
  function Text(ps: seq<(nat, nat)>): string
    requires forall k :: 0 <= k < |ps| ==> Written(ps[k].1)
  {
    if |ps| == 0 then "" else assert Written(ps[0].1); Dec(ps[0].0) + NameOf(ps[0].1) + Text(ps[1..])
  }

  function Time(ps: seq<(nat, nat)>): nat
    requires forall k :: 0 <= k < |ps| ==> Written(ps[k].1)
  {
    if |ps| == 0 then 0 else assert Written(ps[0].1); Amount(ps[0].0, ps[0].1) + Time(ps[1..])
  }

  lemma {:induction false} TextStarts(ps: seq<(nat, nat)>)
    requires forall k :: 0 <= k < |ps| ==> Written(ps[k].1)
    ensures '\0' !in Text(ps) && '.' !in Text(ps) && (Text(ps) == "" || IsDigit(Text(ps)[0]))
  {
    if |ps| > 0 {
      TextStarts(ps[1..]);
      WrittenNames(ps[0].1);
    }
  }

  lemma PeriodNone(quant: nat, stale: bool)
    requires quant <= ULLONG_MAX
    ensures Period("", quant, stale) == Parsed(quant, "")
  {
  }

  lemma {:induction false} PeriodText(ps: seq<(nat, nat)>, quant: nat, stale: bool)
    requires forall k :: 0 <= k < |ps| ==> Written(ps[k].1) && ps[k].0 < ULLONG_MAX
    requires quant + Time(ps) <= ULLONG_MAX
    ensures '\0' !in Text(ps) && Period(Text(ps), quant, stale) == Parsed(quant + Time(ps), "")
  {
    hide NameOf, MultOf, Period, Amount;
    TextStarts(ps);
    PeriodNone(quant, stale);
    if |ps| > 0 {
      var n, i := ps[0].0, ps[0].1;
      assert Written(i) && n < ULLONG_MAX;
      WrittenNames(i);
      TextStarts(ps[1..]);
      PeriodPiece(n, i, Text(ps[1..]), quant, stale);
      PeriodText(ps[1..], quant + Amount(n, i), stale);
      assert Text(ps) == Dec(n) + NameOf(i) + Text(ps[1..]);
    }
  }
}
