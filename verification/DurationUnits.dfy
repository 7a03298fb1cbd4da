/** The unit table of HX_strtoull_sec (src/string.c), and which names it knows. */
module DurationUnits {
  import opened CString

  const YEAR: nat := 31557600
  const MONTH: nat := 2629800
  const WEEK: nat := 604800
  const DAY: nat := 86400

  /** struct HX_unit_desc with the multiplier of sec_mult. */
  datatype Unit = Unit(name: string, mult: nat)

  /** txtperiod_utab, the micro sign in its two bytes. */
  const UNITS: seq<Unit> := [
    Unit("seconds", 1), Unit("second", 1), Unit("sec", 1), Unit("s", 1),
    Unit("minutes", 60), Unit("minute", 60), Unit("min", 60),
    Unit("hours", 3600), Unit("hour", 3600), Unit("h", 3600),
    Unit("days", DAY), Unit("day", DAY), Unit("d", DAY),
    Unit("weeks", WEEK), Unit("week", WEEK),
    Unit("months", MONTH), Unit("month", MONTH),
    Unit("years", YEAR), Unit("year", YEAR), Unit("y", YEAR),
    Unit("msec", 0), Unit("ms", 0), Unit("\U{C2}\U{B5}sec", 0), Unit("\U{C2}\U{B5}s", 0), Unit("nsec", 0), Unit("ns", 0)
  ]

  const UNIT_COUNT: nat := 26

  function NameOf(i: nat): string
    requires i < UNIT_COUNT
  {
    UNITS[i].name
  }

  function MultOf(i: nat): nat
    requires i < UNIT_COUNT
  {
    UNITS[i].mult
  }

  /** strncasecmp and the word boundary. */
  predicate Matches(s: CStr, name: string) {
    |name| <= |s| && (forall k :: 0 <= k < |name| ==> ToLower(s[k]) == ToLower(name[k])) && !IsAlpha(At(s, |name|))
  }

  /** The first matching table entry from `i` on, or the table size. */
  function FirstUnit(s: CStr, i: nat): nat
    requires i <= UNIT_COUNT
    ensures i <= FirstUnit(s, i) <= UNIT_COUNT
    ensures FirstUnit(s, i) < UNIT_COUNT ==> Matches(s, NameOf(FirstUnit(s, i)))
    decreases UNIT_COUNT - i
  {
    if i == UNIT_COUNT || Matches(s, NameOf(i)) then i else FirstUnit(s, i + 1)
  }

  /** A unit name in lower case and its length in seconds; what is shorter than a second counts nothing.  A
      year has 365.25 days and a month is a twelfth of it. */
  predicate Spelling(name: string, seconds: nat) {
    (seconds == 1 && (name == "seconds" || name == "second" || name == "sec" || name == "s"))
    || (seconds == 60 && (name == "minutes" || name == "minute" || name == "min"))
    || (seconds == 3600 && (name == "hours" || name == "hour" || name == "h"))
    || (seconds == 86400 && (name == "days" || name == "day" || name == "d"))
    || (seconds == 604800 && (name == "weeks" || name == "week"))
    || (seconds == 2629800 && (name == "months" || name == "month"))
    || (seconds == 31557600 && (name == "years" || name == "year" || name == "y"))
    || (seconds == 0 && (name == "msec" || name == "ms" || name == "nsec" || name == "ns"))
    || (seconds == 0 && (name == "\U{C2}\U{B5}sec" || name == "\U{C2}\U{B5}s"))
  }

  predicate Letter(c: char) {
    'A' <= c <= 'Z' || 'a' <= c <= 'z'
  }

  function Lowered(s: CStr): (t: CStr)
    ensures |t| == |s|
  {
    seq(|s|, i requires 0 <= i < |s| => ToLower(s[i]))
  }

  /** The place of a name in the table, from its length and its first two characters. */
  function Place(name: string): nat {
    var n := |name|;
    if n == 0 then UNIT_COUNT
    else if name[0] == 's' then (if n == 7 then 0 else if n == 6 then 1 else if n == 3 then 2 else 3)
    else if name[0] == 'm' then
      (if n == 7 then 4 else if n == 6 then (if name[1] == 'i' then 5 else 15) else if n == 3 then 6
       else if n == 5 then 16 else if n == 4 then 20 else 21)
    else if name[0] == 'h' then (if n == 5 then 7 else if n == 4 then 8 else 9)
    else if name[0] == 'd' then (if n == 4 then 10 else if n == 3 then 11 else 12)
    else if name[0] == 'w' then (if n == 5 then 13 else 14)
    else if name[0] == 'y' then (if n == 5 then 17 else if n == 4 then 18 else 19)
    else if name[0] == 'n' then (if n == 4 then 24 else 25)
    else if n == 5 then 22 else 23
  }

  lemma PlaceOfShort(i: nat)
    requires i < 13
    ensures Place(NameOf(i)) == i && Spelling(NameOf(i), MultOf(i))
  {
    if i <= 3 {
    } else if i <= 6 {
    } else if i <= 9 {
    }
  }

  lemma PlaceOfLong(i: nat)
    requires 13 <= i < UNIT_COUNT
    ensures Place(NameOf(i)) == i && Spelling(NameOf(i), MultOf(i))
  {
    if i <= 16 {
    } else if i <= 19 {
    } else if i <= 22 {
    }
  }

  lemma PlaceOf(i: nat)
    requires i < UNIT_COUNT
    ensures Place(NameOf(i)) == i && Spelling(NameOf(i), MultOf(i))
  {
    if i < 13 {
      PlaceOfShort(i);
    } else {
      PlaceOfLong(i);
    }
  }

  /** Every spelling is in the table, with its worth. */
  lemma Listed(name: string, seconds: nat)
    requires Spelling(name, seconds)
    ensures Place(name) < UNIT_COUNT && NameOf(Place(name)) == name && MultOf(Place(name)) == seconds
  {
    if seconds <= 1 {
      ListedShort(name, seconds);
    } else if seconds <= 3600 {
      ListedDay(name, seconds);
    } else {
      ListedYear(name, seconds);
    }
  }

  lemma ListedShort(name: string, seconds: nat)
    requires seconds <= 1 && Spelling(name, seconds)
    ensures Place(name) < UNIT_COUNT && NameOf(Place(name)) == name && MultOf(Place(name)) == seconds
  {
    if seconds == 0 {
    }
  }

  lemma ListedDay(name: string, seconds: nat)
    requires 1 < seconds <= 3600 && Spelling(name, seconds)
    ensures Place(name) < UNIT_COUNT && NameOf(Place(name)) == name && MultOf(Place(name)) == seconds
  {
    if seconds == 60 {
    }
  }

  lemma ListedYear(name: string, seconds: nat)
    requires seconds > 3600 && Spelling(name, seconds)
    ensures Place(name) < UNIT_COUNT && NameOf(Place(name)) == name && MultOf(Place(name)) == seconds
  {
    if seconds == 86400 {
    } else if seconds == 604800 {
    } else if seconds == 2629800 {
    }
  }

  /** A run of letters, or the micro sign followed by one. */
  predicate Word(w: string) {
    if |w| > 2 && w[0] == '\U{C2}' && w[1] == '\U{B5}' then forall k :: 2 <= k < |w| ==> Letter(w[k])
    else forall k :: 0 <= k < |w| ==> Letter(w[k])
  }

  predicate Lower(name: string) {
    forall k :: 0 <= k < |name| ==> ToLower(name[k]) == name[k]
  }

  lemma Shape(i: nat)
    requires i < UNIT_COUNT
    ensures |NameOf(i)| > 0 && Word(NameOf(i)) && Lower(NameOf(i)) && '\0' !in NameOf(i)
  {
    if i < 13 {
      ShapeShort(i);
    } else {
      ShapeLong(i);
    }
  }

  lemma ShapeShort(i: nat)
    requires i < 13
    ensures |NameOf(i)| > 0 && Word(NameOf(i)) && Lower(NameOf(i)) && '\0' !in NameOf(i)
  {
    hide MultOf;
    PlaceOf(i);
  }

  lemma ShapeLong(i: nat)
    requires 13 <= i < UNIT_COUNT
    ensures |NameOf(i)| > 0 && Word(NameOf(i)) && Lower(NameOf(i)) && '\0' !in NameOf(i)
  {
    hide MultOf;
    PlaceOf(i);
  }

  lemma LowerNames(i: nat)
    requires i < UNIT_COUNT
    ensures '\0' !in NameOf(i) && Lowered(NameOf(i)) == NameOf(i)
  {
    hide NameOf, MultOf;
    Shape(i);
  }

  /** The text behind a word. */
  predicate Ends(w: CStr, tail: CStr) {
    tail == "" || (!Letter(tail[0]) && (w == "" ==> tail[0] != '\U{C2}'))
  }

  /** A word matches a name as a whole or not at all. */
  lemma MatchWhole(w: CStr, tail: CStr, i: nat)
    requires Word(w) && Ends(w, tail) && i < UNIT_COUNT
    ensures Matches(w + tail, NameOf(i)) <==> Lowered(w) == NameOf(i)
  {
    hide NameOf, MultOf;
    Shape(i);
    var s: CStr, name := w + tail, NameOf(i);
    assert |name| < |w| ==> s[|name|] == w[|name|];
    assert tail != "" ==> s[|w|] == tail[0];
    if Matches(s, name) {
      assert ToLower(s[0]) == ToLower(name[0]);
      assert |name| <= |w|;
      assert |name| == |w|;
      assert forall k :: 0 <= k < |w| ==> s[k] == w[k] && ToLower(s[k]) == ToLower(name[k]);
    }
    if Lowered(w) == name {
      assert forall k :: 0 <= k < |name| ==> Lowered(w)[k] == ToLower(s[k]) == name[k];
      assert |name| < |s| ==> s[|name|] == tail[0];
    }
  }

  lemma LowerWord(w: CStr, i: nat)
    requires i < UNIT_COUNT && Lowered(w) == NameOf(i)
    ensures Word(w)
  {
    hide NameOf, MultOf;
    Shape(i);
    assert forall k :: 0 <= k < |w| ==> ToLower(w[k]) == NameOf(i)[k];
  }

  /** A name of the table in any letter case is recognised as itself. */
  lemma FirstNamed(w: CStr, tail: CStr, i: nat)
    requires i < UNIT_COUNT && Lowered(w) == NameOf(i) && Ends(w, tail)
    ensures FirstUnit(w + tail, 0) == i
  {
    hide NameOf, MultOf, Matches, Place;
    LowerWord(w, i);
    forall j | 0 <= j < UNIT_COUNT
      ensures Matches(w + tail, NameOf(j)) <==> j == i
    {
      MatchWhole(w, tail, j);
      PlaceOf(i);
      PlaceOf(j);
    }
    FirstIs(w + tail, 0, i);
  }

  lemma {:induction false} FirstIs(s: CStr, j: nat, i: nat)
    requires j <= i <= UNIT_COUNT && (i < UNIT_COUNT ==> Matches(s, NameOf(i)))
    requires forall k :: j <= k < i ==> !Matches(s, NameOf(k))
    ensures FirstUnit(s, j) == i
    decreases i - j
  {
    if j < i {
      FirstIs(s, j + 1, i);
    }
  }

  ghost predicate IsUnit(name: string) {
    exists seconds :: Spelling(name, seconds)
  }

  /** A word that is no unit is not taken for one. */
  lemma FirstNone(w: CStr, tail: CStr)
    requires Word(w) && Ends(w, tail) && !IsUnit(Lowered(w))
    ensures FirstUnit(w + tail, 0) == UNIT_COUNT
  {
    hide NameOf, MultOf, Matches, Place, Spelling;
    forall j | 0 <= j < UNIT_COUNT
      ensures !Matches(w + tail, NameOf(j))
    {
      MatchWhole(w, tail, j);
      PlaceOf(j);
    }
    FirstIs(w + tail, 0, UNIT_COUNT);
  }
}
