/** HX_shconf_break (src/opt.c): one line of key=value pairs, taken apart in place. */
module ShConfig {
  import opened MapTypes
  import opened CString
  import opened Dequote
  import opened DequoteLaws
  import opened QuoteSpec

  const STOPS: string := "\t\n ;"

  predicate IsWord(c: char) {
    IsAlnum(c) || c == '_'
  }

  function SkipSeparators(s: CStr): CStr {
    if |s| > 0 && (IsSpace(s[0]) || s[0] == ';') then SkipSeparators(s[1..]) else s
  }

  function NameLength(s: CStr): nat
    ensures NameLength(s) <= |s|
  {
    if |s| > 0 && IsWord(s[0]) then 1 + NameLength(s[1..]) else 0
  }

  lemma {:induction false} SkipShorter(s: CStr)
    ensures var t := SkipSeparators(s); |t| <= |s| && t == s[|s| - |t|..]
  {
    if |s| > 0 && (IsSpace(s[0]) || s[0] == ';') {
      SkipShorter(s[1..]);
    }
  }

  /** The pairs a line yields. */
  function Break(s: CStr): seq<(string, string)>
    decreases |s|
  {
    SkipShorter(s);
    var t := SkipSeparators(s);
    if |t| == 0 || t[0] == '#' || !(IsAlpha(t[0]) || t[0] == '_') then []
    else
      var n := NameLength(t);
      if n == |t| || t[n] != '=' then []
      else
        UnquoteFits(t[n + 1..], '\0', STOPS);
        var u := Unquote(t[n + 1..], '\0', STOPS);
        [(t[..n], u.text)] + match u.rest case None => [] case Some(r) => Break(r)
  }

  function Chomped(s: CStr): CStr {
    if |s| > 0 && (s[|s| - 1] == '\n' || s[|s| - 1] == '\r') then Chomped(s[..|s| - 1]) else s
  }

  /** The C string at `p`. */
  function Content(buf: array<char>, p: nat): string
    requires p <= buf.Length
    reads buf
    decreases buf.Length - p
  {
    if p == buf.Length || buf[p] == '\0' then "" else [buf[p]] + Content(buf, p + 1)
  }

  lemma {:induction false} ContentHolds(buf: array<char>, p: nat, s: CStr)
    requires Holds(buf, p, s)
    ensures Content(buf, p) == s
    decreases |s|
  {
    assert buf[p..p + |s|] == s;
    if |s| > 0 {
      assert buf[p + 1..p + |s|] == buf[p..p + |s|][1..] == s[1..];
      assert buf[p] == s[0];
      ContentHolds(buf, p + 1, s[1..]);
      assert [s[0]] + s[1..] == s;
    }
  }

  lemma HoldsAt(buf: array<char>, p: nat, s: string)
    requires p + |s| < buf.Length && buf[p + |s|] == '\0' && forall k :: 0 <= k < |s| ==> buf[p + k] == s[k]
    ensures Holds(buf, p, s)
  {
    var t := buf[p..p + |s|];
    assert forall k :: 0 <= k < |t| ==> t[k] == buf[p + k];
  }

  lemma HoldsEach(buf: array<char>, p: nat, s: string)
    requires Holds(buf, p, s)
    ensures forall k :: 0 <= k < |s| ==> buf[p + k] == s[k]
  {
    var t := buf[p..p + |s|];
    assert forall k :: 0 <= k < |t| ==> t[k] == buf[p + k];
  }

  /** A suffix of a held string is held further on. */
  lemma HoldsTail(buf: array<char>, p: nat, s: CStr, n: nat)
    requires Holds(buf, p, s) && n <= |s|
    ensures Holds(buf, p + n, s[n..])
  {
    HoldsEach(buf, p, s);
    HoldsAt(buf, p + n, s[n..]);
  }

  /** HX_chomp */
  method Chomp(buf: array<char>, line: nat, ghost s: CStr)
    requires Holds(buf, line, s)
    modifies buf
    ensures Holds(buf, line, Chomped(s))
  {
    ContentHolds(buf, line, s);
    var p: int := line + |Content(buf, line)| - 1;
    ghost var t := s;
    while p >= line
      invariant |t| <= |s| && p == line + |t| - 1 && Holds(buf, line, t) && Chomped(t) == Chomped(s)
    {
      HoldsEach(buf, line, t);
      assert buf[p] == t[|t| - 1];
      if buf[p] != '\n' && buf[p] != '\r' {
        break;
      }
      buf[p] := '\0';
      p := p - 1;
      t := t[..|t| - 1];
      HoldsAt(buf, line, t);
    }
  }

  /** The two scanning loops: separators before a name, and the name itself. */
  method SkipAt(buf: array<char>, lp0: nat, ghost s: CStr) returns (lp: nat)
    requires Holds(buf, lp0, s)
    ensures Holds(buf, lp, SkipSeparators(s)) && lp == lp0 + |s| - |SkipSeparators(s)|
  {
    lp := lp0;
    ghost var t := s;
    HoldsEach(buf, lp, s);
    while IsSpace(buf[lp]) || buf[lp] == ';'
      invariant Holds(buf, lp, t) && lp == lp0 + |s| - |t| && SkipSeparators(t) == SkipSeparators(s) && lp < buf.Length
      decreases |t|
    {
      HoldsEach(buf, lp, t);
      HoldsTail(buf, lp, t, 1);
      lp, t := lp + 1, t[1..];
    }
    HoldsEach(buf, lp, t);
    assert |t| > 0 ==> buf[lp + 0] == t[0];
  }

  method NameAt(buf: array<char>, lp0: nat, ghost s: CStr) returns (lp: nat)
    requires Holds(buf, lp0, s)
    ensures lp == lp0 + NameLength(s)
  {
    lp := lp0;
    ghost var t := s;
    while IsAlnum(buf[lp]) || buf[lp] == '_'
      invariant Holds(buf, lp, t) && lp + NameLength(t) == lp0 + NameLength(s) && lp < buf.Length
      decreases |t|
    {
      HoldsEach(buf, lp, t);
      HoldsTail(buf, lp, t, 1);
      lp, t := lp + 1, t[1..];
    }
    HoldsEach(buf, lp, t);
    assert |t| > 0 ==> buf[lp + 0] == t[0];
  }

  ghost function Pending(t: Option<CStr>): seq<(string, string)> {
    match t case None => [] case Some(s) => Break(s)
  }

  /** What Break does with a text, in the order of the code. */
  lemma BreakStep(s: CStr)
    ensures var t := SkipSeparators(s);
      if |t| == 0 || t[0] == '#' || !(IsAlpha(t[0]) || t[0] == '_') then Break(s) == []
      else
        var n := NameLength(t);
        if n == |t| || t[n] != '=' then Break(s) == []
        else
          var u := Unquote(t[n + 1..], '\0', STOPS);
          (u.rest.Some? ==> '\0' !in u.rest.value && |u.rest.value| < |s|) && '\0' !in u.text
          && Break(s) == [(t[..n], u.text)] + Pending(u.rest)
  {
    SkipShorter(s);
    var t := SkipSeparators(s);
    if |t| > 0 {
      var n := NameLength(t);
      if n < |t| {
        UnquoteFits(t[n + 1..], '\0', STOPS);
        UnquoteClean(t[n + 1..], '\0', STOPS);
      }
    }
  }

  lemma {:induction false} UnquoteClean(s: CStr, quot: char, end: string)
    ensures '\0' !in Unquote(s, quot, end).text
    decreases |s|
  {
    if |s| == 0 {
    } else if s[0] == '\\' {
      if |s| > 1 {
        UnquoteClean(s[2..], quot, end);
      }
    } else if quot == '\0' && (s[0] == '"' || s[0] == '\'') {
      UnquoteClean(s[1..], s[0], end);
    } else if quot != '\0' && s[0] == quot {
      UnquoteClean(s[1..], '\0', end);
    } else if quot != '\0' || s[0] !in end {
      UnquoteClean(s[1..], quot, end);
    }
  }

  /** Ends the name with a terminator and steps over it. */
  method Cut(buf: array<char>, key: nat, eq: nat, ghost t: CStr)
    requires Holds(buf, key, t) && key <= eq < key + |t|
    modifies buf
    ensures Holds(buf, key, t[..eq - key]) && Holds(buf, eq + 1, t[eq - key + 1..])
  {
    ghost var n := eq - key;
    HoldsEach(buf, key, t);
    buf[eq] := '\0';
    HoldsAt(buf, key, t[..n]);
    HoldsAt(buf, eq + 1, t[n + 1..]);
  }

  /** Unquoting a value leaves the name before it alone. */
  method DequoteValue(buf: array<char>, val: nat, ghost v: CStr, ghost key: nat, ghost name: CStr)
    returns (next: Option<nat>)
    requires Holds(buf, val, v) && Holds(buf, key, name) && key + |name| < val
    modifies buf
    ensures Holds(buf, key, name) && Holds(buf, val, Unquote(v, '\0', STOPS).text)
    ensures match Unquote(v, '\0', STOPS).rest case None => next ==
      None case Some(r) => next.Some? && Holds(buf, next.value, r)
  {
    hide Unquote;
    HoldsEach(buf, key, name);
    next := DequoteInt(buf, val, STOPS, v);
    HoldsAt(buf, key, name);
  }

  /** One pair: the name is cut off at the '=', the value unquoted where it stands, and both are
      handed to the callback. */
  method Pair(buf: array<char>, key: nat, eq: nat, ghost t: CStr) returns (next: Option<nat>, pair: (string, string))
    requires Holds(buf, key, t) && key <= eq < key + |t|
    modifies buf
    ensures var u := Unquote(t[eq - key + 1..], '\0', STOPS);
      pair == (t[..eq - key], u.text)
      && match u.rest case None => next == None case Some(r) => next.Some? && Holds(buf, next.value, r)
  {
    hide Unquote, Holds;
    ghost var v: CStr := t[eq - key + 1..];
    Cut(buf, key, eq, t);
    next := DequoteValue(buf, eq + 1, v, key, t[..eq - key]);
    UnquoteClean(v, '\0', STOPS);
    ContentHolds(buf, key, t[..eq - key]);
    ContentHolds(buf, eq + 1, Unquote(v, '\0', STOPS).text);
    HoldsLength(buf, eq + 1, Unquote(v, '\0', STOPS).text);
    pair := (Content(buf, key), Content(buf, eq + 1));
  }

  lemma HoldsLength(buf: array<char>, p: nat, s: string)
    requires Holds(buf, p, s)
    ensures p < buf.Length
  {
  }

  lemma See(buf: array<char>, p: nat, s: CStr, n: nat)
    requires Holds(buf, p, s) && n <= |s|
    ensures p + n < buf.Length && buf[p + n] == At(s, n)
  {
    HoldsEach(buf, p, s);
  }

  /** One turn of the loop in HX_shconf_break; `more` is false where the source returns. */
  method Entry(buf: array<char>, lp: nat, ghost s: CStr)
    returns (more: bool, next: Option<nat>, pair: (string, string), ghost rest: Option<CStr>)
    requires Holds(buf, lp, s)
    modifies buf
    ensures if more then Break(s) == [pair] + Pending(rest) else Break(s) == []
    ensures more ==> match rest case None => next ==
      None case Some(r) => |r| < |s| && next.Some? && Holds(buf, next.value, r)
  {
    hide Break, SkipSeparators, NameLength, Unquote, Holds, Pending;
    more, next, pair, rest := false, None, ("", ""), None;
    ghost var t: CStr := SkipSeparators(s);
    BreakStep(s);
    var key := SkipAt(buf, lp, s);
    See(buf, key, t, 0);
    if buf[key] == '#' || buf[key] == '\0' {
      return;
    }
    if !IsAlpha(buf[key]) && buf[key] != '_' {
      return;
    }
    var eq := NameAt(buf, key, t);
    See(buf, key, t, NameLength(t));
    if buf[eq] != '=' {
      return;
    }
    next, pair := Pair(buf, key, eq, t);
    more, rest := true, Unquote(t[NameLength(t) + 1..], '\0', STOPS).rest;
  }

  /** HX_shconf_break; the calls of the callback are logged. */
  method ShconfBreak(buf: array<char>, line: nat, ghost s: CStr) returns (log: seq<(string, string)>)
    requires Holds(buf, line, s)
    modifies buf
    ensures log == Break(Chomped(s))
  {
    hide Break, Holds;
    Chomp(buf, line, s);
    log := [];
    var lp := Some(line);
    ghost var left: Option<CStr> := Some(Chomped(s));
    while lp.Some?
      invariant lp.Some? <==> left.Some?
      invariant lp.Some? ==> Holds(buf, lp.value, left.value)
      invariant log + Pending(left) == Break(Chomped(s))
      decreases if left.Some? then 1 + |left.value| else 0
    {
      var more, next, pair;
      ghost var rest;
      more, next, pair, rest := Entry(buf, lp.value, left.value);
      if !more {
        return;
      }
      assert log + ([pair] + Pending(rest)) == log + [pair] + Pending(rest);
      lp, left, log := next, rest, log + [pair];
    }
  }

  // ---------------------------------------------------------------- printing pairs and reading them back

  predicate NameChar(c: char) {
    'A' <= c <= 'Z' || 'a' <= c <= 'z' || '0' <= c <= '9' || c == '_'
  }

  predicate IsName(k: CStr) {
    |k| > 0 && !('0' <= k[0] <= '9') && forall i :: 0 <= i < |k| ==> NameChar(k[i])
  }

  /** Tab, newline, space and semicolon end a value that is not quoted; they may stand between pairs. */
  predicate Separates(c: char) {
    c as int == 9 || c as int == 10 || c as int == 32 || c == ';'
  }

  /** A value that needs no quotes: every other character but quotes and backslashes means itself. */
  predicate Bare(v: string) {
    Unmarked(v) && forall i :: 0 <= i < |v| ==> !Separates(v[i])
  }

  /** A pair of a line, in double quotes or bare, and the separator behind it. */
  datatype Item = Item(name: CStr, value: Bytes, quoted: bool, sep: Char)

  predicate Good(x: Item) {
    IsName(x.name) && Separates(x.sep) && (!x.quoted ==> Bare(x.value))
  }

  /** key="value", with the value quoted by HX_strquote, or key=value. */
  function Printed(x: Item): string {
    x.name + "=" + if x.quoted then "\"" + Escaped(DQuote, x.value) + "\"" else x.value
  }

  function Line(xs: seq<Item>): string {
    if |xs| == 0 then ""
    else if |xs| == 1 then Printed(xs[0])
    else Printed(xs[0]) + ([xs[0].sep] + Line(xs[1..]))
  }

  function Pairs(xs: seq<Item>): seq<(string, string)> {
    seq(|xs|, i requires 0 <= i < |xs| => (xs[i].name, xs[i].value))
  }

  /** HX_strquote in double quotes masks exactly what the unquoter needs masked. */
  lemma {:induction false} EscapedMasked(s: Bytes)
    ensures Escaped(DQuote, s) == Masked('"', s)
  {
    if |s| > 0 {
      EscapedMasked(s[1..]);
      assert Chars(DQuote)[0] == '"' && Chars(DQuote)[1] == '\\';
    }
  }

  /** Inside double quotes the unquoter undoes the quoting and goes on behind the closing quote. */
  lemma UnquoteEscaped(s: Bytes, tail: CStr, end: string)
    ensures '\0' !in Escaped(DQuote, s)
    ensures Unquote(Escaped(DQuote, s) + "\"" + tail, '"', end) == Prefix(s, Unquote(tail, '\0', end))
  {
    hide Unquote;
    EscapedMasked(s);
    UnquoteMasked('"', s, tail, end);
    assert Escaped(DQuote, s) + "\"" + tail == Masked('"', s) + (['"'] + tail);
  }

  lemma {:induction false} NameLengthIs(k: CStr, tail: CStr)
    requires (forall i :: 0 <= i < |k| ==> NameChar(k[i])) && |tail| > 0 && !NameChar(tail[0])
    ensures NameLength(k + tail) == |k|
  {
    if |k| == 0 {
      assert k + tail == tail;
    } else {
      assert (k + tail)[1..] == k[1..] + tail;
      NameLengthIs(k[1..], tail);
    }
  }

  /** A name, an equals sign and anything behind it. */
  lemma BreakNamed(k: CStr, v: CStr)
    requires IsName(k)
    ensures var u := Unquote(v, '\0', STOPS);
      (u.rest.Some? ==> '\0' !in u.rest.value) && Break(k + "=" + v) == [(k, u.text)] + Pending(u.rest)
  {
    hide Unquote;
    var eq: CStr := "=" + v;
    var q: CStr := k + "=" + v;
    assert q == k + eq;
    NameLengthIs(k, eq);
    assert q[0] == k[0] && SkipSeparators(q) == q;
    assert q[|k|] == '=' && q[..|k|] == k && q[|k| + 1..] == v;
    hide NameLength, SkipSeparators, Break;
    BreakStep(q);
  }

  lemma StopsAre(c: char)
    ensures c in STOPS <==> Separates(c)
  {
    assert STOPS[0] == '\t' && STOPS[1] == '\n' && STOPS[2] == ' ' && STOPS[3] == ';';
  }

  /** The value of a printed pair with anything behind it. */
  lemma UnquoteValue(x: Item, tail: CStr)
    requires Good(x)
    ensures '\0' !in Printed(x)
    ensures var v := if x.quoted then "\"" + Escaped(DQuote, x.value) + "\"" else x.value;
      Unquote(v + tail, '\0', STOPS) == Prefix(x.value, Unquote(tail, '\0', STOPS))
  {
    hide Unquote;
    if x.quoted {
      EscapedMasked(x.value);
      UnquoteQuoted('"', x.value, tail, STOPS);
      assert "\"" + Escaped(DQuote, x.value) + "\"" + tail == ['"'] + (Masked('"', x.value) + (['"'] + tail));
    } else {
      forall i | 0 <= i < |x.value|
        ensures x.value[i] !in STOPS
      {
        StopsAre(x.value[i]);
      }
      UnquotePlain(x.value, tail, STOPS);
    }
  }

  /** A printed pair with anything behind it. */
  lemma BreakPrinted(x: Item, tail: CStr)
    requires Good(x)
    ensures var u := Unquote(tail, '\0', STOPS);
      '\0' !in Printed(x) && (u.rest.Some? ==> '\0' !in u.rest.value)
      && Break(Printed(x) + tail) == [(x.name, x.value + u.text)] + Pending(u.rest)
  {
    hide Escaped, Unquote, Break, NameLength, SkipSeparators, Bare, IsName;
    UnquoteValue(x, tail);
    var v := if x.quoted then "\"" + Escaped(DQuote, x.value) + "\"" else x.value;
    BreakNamed(x.name, v + tail);
    assert Printed(x) + tail == x.name + "=" + (v + tail);
  }

  /** A pair that ends the line. */
  lemma BreakLast(x: Item)
    requires Good(x)
    ensures '\0' !in Printed(x) && Break(Printed(x)) == [(x.name, x.value)]
  {
    hide Printed, Break, Good, Unquote;
    BreakPrinted(x, "");
    UnquoteEnd(STOPS);
    assert Printed(x) + "" == Printed(x) && x.value + "" == x.value;
  }

  /** A pair ends at its separator, and reading goes on behind it. */
  lemma BreakNext(x: Item, rest: CStr)
    requires Good(x)
    ensures '\0' !in Printed(x) && Break(Printed(x) + ([x.sep] + rest)) == [(x.name, x.value)] + Break(rest)
  {
    hide Printed, Break, IsName, Unquote;
    StopsAre(x.sep);
    UnquoteStop(x.sep, rest, STOPS);
    BreakPrinted(x, [x.sep] + rest);
    assert x.value + "" == x.value;
  }

  /** Separators and other blanks before a name are skipped. */
  lemma {:induction false} BreakSkips(seps: CStr, s: CStr)
    requires forall i :: 0 <= i < |seps| ==> Blank(seps[i]) || seps[i] == ';'
    ensures Break(seps + s) == Break(s)
  {
    if |seps| == 0 {
      assert seps + s == s;
    } else {
      BreakSkips(seps[1..], s);
      assert (seps + s)[1..] == seps[1..] + s;
      BreakStep(seps + s);
      BreakStep(seps[1..] + s);
    }
  }

  /** Reading ends at a comment, at anything else that is no name, and at a name without '='. */
  lemma BreakEnds(k: CStr, s: CStr)
    ensures IsName(k) && (s == "" || !(NameChar(s[0]) || s[0] == '=')) ==> Break(k + s) == []
    ensures s == "" || !(Blank(s[0]) || s[0] == ';' || (NameChar(s[0]) && !('0' <= s[0] <= '9'))) ==> Break(s) == []
  {
    hide NameLength;
    BreakStep(s);
    if IsName(k) && (s == "" || !(NameChar(s[0]) || s[0] == '=')) {
      BreakStep(k + s);
      assert (k + s)[0] == k[0];
      if s == "" {
        NameWhole(k);
        assert k + s == k;
      } else {
        NameLengthIs(k, s);
      }
    }
  }

  lemma {:induction false} NameWhole(k: CStr)
    requires forall i :: 0 <= i < |k| ==> NameChar(k[i])
    ensures NameLength(k) == |k|
  {
    if |k| > 0 {
      NameWhole(k[1..]);
    }
  }

  lemma {:induction false} BreakLine(xs: seq<Item>)
    requires forall i :: 0 <= i < |xs| ==> Good(xs[i])
    ensures '\0' !in Line(xs) && Break(Line(xs)) == Pairs(xs)
  {
    hide Printed, Break, Good, Line;
    LineText(xs);
    if |xs| == 0 {
      BreakNothing();
    } else if |xs| == 1 {
      BreakLast(xs[0]);
    } else {
      BreakLine(xs[1..]);
      BreakNext(xs[0], Line(xs[1..]));
      assert Pairs(xs) == [(xs[0].name, xs[0].value)] + Pairs(xs[1..]);
    }
  }

  lemma LineText(xs: seq<Item>)
    ensures |xs| == 0 ==> Line(xs) == ""
    ensures |xs| == 1 ==> Line(xs) == Printed(xs[0])
    ensures |xs| > 1 ==> Line(xs) == Printed(xs[0]) + ([xs[0].sep] + Line(xs[1..]))
  {
    hide Printed;
  }

  lemma BreakNothing()
    ensures Break("") == []
  {
  }

  lemma {:induction false} ChompPrefix(v: CStr)
    ensures Chomped(v) <= v && (Chomped(v) == v <==> !EndsLine(v))
  {
    if EndsLine(v) {
      ChompPrefix(v[..|v| - 1]);
    }
  }

  predicate EndsLine(v: string) {
    |v| > 0 && (v[|v| - 1] == '\n' || v[|v| - 1] == '\r')
  }

  lemma {:induction false} ChompJoin(a: CStr, b: CStr)
    requires Chomped(b) != ""
    ensures Chomped(a + b) == a + Chomped(b)
    decreases |b|
  {
    if EndsLine(b) {
      assert (a + b)[..|a + b| - 1] == a + b[..|b| - 1];
      ChompJoin(a, b[..|b| - 1]);
    }
  }

  lemma {:induction false} ChompValue(a: CStr, v: CStr)
    requires a != "" && !EndsLine(a)
    ensures Chomped(a + v) == a + Chomped(v)
    decreases |v|
  {
    if v == "" {
      assert a + v == a;
    } else if EndsLine(v) {
      assert (a + v)[..|a + v| - 1] == a + v[..|v| - 1];
      ChompValue(a, v[..|v| - 1]);
    }
  }

  /** The pair that ends a line, after HX_chomp: a bare value loses the carriage returns at its end. */
  function Ended(x: Item): Item {
    ChompPrefix(x.value);
    if x.quoted then x else x.(value := Chomped(x.value))
  }

  function EndedLine(xs: seq<Item>): seq<Item> {
    if |xs| == 0 then [] else xs[..|xs| - 1] + [Ended(xs[|xs| - 1])]
  }

  lemma EndedGood(x: Item)
    requires Good(x)
    ensures Good(Ended(x)) && '\0' !in Printed(x) && '\0' !in Printed(Ended(x))
    ensures Chomped(Printed(x)) == Printed(Ended(x)) != ""
  {
    hide Escaped, Unquote;
    ChompPrefix(x.value);
    UnquoteValue(x, "");
    UnquoteValue(Ended(x), "");
    var a: CStr := x.name + "=";
    if x.quoted {
      assert !EndsLine(Printed(x));
    } else {
      ChompValue(a, x.value);
    }
  }

  lemma EndedRest(xs: seq<Item>)
    requires |xs| > 1
    ensures |EndedLine(xs)| == |xs| && EndedLine(xs)[0] == xs[0] && EndedLine(xs)[1..] == EndedLine(xs[1..])
  {
    hide Ended;
  }

  lemma Regroup(a: string, b: string, c: string)
    ensures a + b + c == a + (b + c)
  {
  }

  lemma {:induction false} ChompLine(xs: seq<Item>)
    requires |xs| > 0 && forall i :: 0 <= i < |xs| ==> Good(xs[i])
    ensures '\0' !in Line(xs) && Chomped(Line(xs)) == Line(EndedLine(xs)) != ""
    ensures forall i :: 0 <= i < |xs| ==> Good(EndedLine(xs)[i])
  {
    hide Printed, Good, Ended, Chomped, Line;
    var ys := EndedLine(xs);
    LineText(xs);
    LineText(ys);
    EndedGood(xs[0]);
    EndedGood(xs[|xs| - 1]);
    if |xs| > 1 {
      ChompLine(xs[1..]);
      EndedRest(xs);
      var a, b := Printed(xs[0]), Line(xs[1..]);
      ChompJoin(a + [xs[0].sep], b);
      Regroup(a, [xs[0].sep], b);
      Regroup(a, [xs[0].sep], Chomped(b));
    }
  }

  /** A line of pairs, quoted or bare, with any separators between them: the callback gets those pairs, but
      carriage returns that end a bare last value are taken for the end of the line.  So it gets exactly
      what was printed unless there are such. */
  lemma RoundTrip(xs: seq<Item>)
    requires forall i :: 0 <= i < |xs| ==> Good(xs[i])
    ensures '\0' !in Line(xs) && Break(Chomped(Line(xs))) == Pairs(EndedLine(xs))
    ensures Break(Chomped(Line(xs))) == Pairs(xs) <==> |xs| == 0 || !Returns(xs[|xs| - 1])
  {
    hide Printed, Break, Line, Chomped, Good, Pairs, EndedLine;
    BreakLine(xs);
    LineText(xs);
    SamePairs(xs);
    if |xs| > 0 {
      ChompLine(xs);
      EndedLength(xs);
      BreakLine(EndedLine(xs));
    } else {
      ChompNothing();
    }
  }

  lemma ChompNothing()
    ensures Chomped("") == "" && EndedLine([]) == []
  {
  }

  lemma EndedLength(xs: seq<Item>)
    ensures |EndedLine(xs)| == |xs|
  {
    hide Ended;
  }

  lemma SamePairs(xs: seq<Item>)
    requires forall i :: 0 <= i < |xs| ==> Good(xs[i])
    ensures Pairs(EndedLine(xs)) == Pairs(xs) <==> |xs| == 0 || !Returns(xs[|xs| - 1])
  {
    if |xs| > 0 {
      var n, ps, qs := |xs| - 1, Pairs(EndedLine(xs)), Pairs(xs);
      ChompPrefix(xs[n].value);
      assert Good(xs[n]);
      assert !xs[n].quoted && |xs[n].value| > 0 ==> !Separates(xs[n].value[|xs[n].value| - 1]);
      assert ps[n] == (xs[n].name, Ended(xs[n]).value) && qs[n] == (xs[n].name, xs[n].value);
      assert forall i :: 0 <= i < n ==> ps[i] == qs[i];
    }
  }

  /** A bare value with a carriage return at its end. */
  predicate Returns(x: Item) {
    !x.quoted && |x.value| > 0 && x.value[|x.value| - 1] == '\r'
  }
}
