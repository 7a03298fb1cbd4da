/** How the template scanner goes over texts: plain ones, nested ones, quoted and escaped ones. */
module FormatScan {
  import opened MapTypes
  import opened CString
  import opened DequoteLaws
  import opened FormatSpec

  /** Characters without a meaning of their own to the scanner and the unquoter. */
  predicate Bare(c: char) {
    c != '(' && c != ')' && c != '"' && c != '\'' && c != '\\'
  }

  lemma ScanChar(c: Char, tail: CStr, level: nat, end: Stop)
    requires Bare(c) && (level > 0 || !Stops(end, c))
    ensures Scan([c] + tail, level, '\0', end) == Shift(1, Scan(tail, level, '\0', end))
  {
    assert ([c] + tail)[1..] == tail;
  }

  lemma {:induction false} ScanPlain(s: CStr, tail: CStr, level: nat, end: Stop)
    requires forall i :: 0 <= i < |s| ==> Bare(s[i]) && (level > 0 || !Stops(end, s[i]))
    ensures Scan(s + tail, level, '\0', end) == Shift(|s|, Scan(tail, level, '\0', end))
  {
    hide Scan;
    if |s| == 0 {
      assert s + tail == tail;
    } else {
      assert s + tail == [s[0]] + (s[1..] + tail);
      ScanPlain(s[1..], tail, level, end);
      ScanChar(s[0], s[1..] + tail, level, end);
    }
  }

  /** Parentheses whose inside the scanner runs over. */
  lemma ScanNested(inner: CStr, after: CStr, level: nat, end: Stop)
    requires Scan(inner + (")" + after), level + 1, '\0', end) == Shift(|inner|, Scan(")" + after, level + 1, '\0',
      end))
    ensures Scan("(" + (inner + (")" + after)), level, '\0', end) == Shift(2 + |inner|, Scan(after, level, '\0', end))
  {
    hide Scan;
    ScanOpen(inner + (")" + after), level, end);
    ScanClose(after, level + 1, end);
  }

  lemma ScanReference(inner: CStr, after: CStr, level: nat, end: Stop)
    requires Scan(inner + (")" + after), level + 1, '\0', end) == Shift(|inner|, Scan(")" + after, level + 1, '\0',
      end))
    ensures Scan("%(" + (inner + (")" + after)), level, '\0', end) == Shift(3 + |inner|, Scan(after, level, '\0', end))
  {
    hide Scan;
    var s: CStr := "(" + (inner + (")" + after));
    ScanNested(inner, after, level, end);
    ScanChar('%', s, level, end);
    assert "%(" + (inner + (")" + after)) == ['%'] + s;
  }

  lemma ScanOpen(s: CStr, level: nat, end: Stop)
    ensures Scan("(" + s, level, '\0', end) == Shift(1, Scan(s, level + 1, '\0', end))
  {
    assert ("(" + s)[1..] == s;
  }

  lemma ScanClose(s: CStr, level: nat, end: Stop)
    requires level > 0
    ensures Scan(")" + s, level, '\0', end) == Shift(1, Scan(s, level - 1, '\0', end))
  {
    assert (")" + s)[1..] == s;
  }

  lemma ScanHere(c: Char, after: CStr, end: Stop)
    requires Stops(end, c)
    ensures Scan([c] + after, 0, '\0', end) == Some(0)
  {
  }

  // ---------------------------------------------------------------- quotes and escapes

  lemma ShiftNone(o: Option<nat>)
    ensures Shift(0, o) == o
  {
  }

  lemma ShiftTwice(n: nat, k: nat, o: Option<nat>)
    ensures Shift(n, Shift(k, o)) == Shift(n + k, o)
  {
  }

  /** The scanner skips an escaped character, whatever it is, inside quotes and outside. */
  lemma ScanEscape(c: Char, tail: CStr, level: nat, quot: char, end: Stop)
    requires quot == '\0' || IsQuote(quot)
    ensures Scan(['\\', c] + tail, level, quot, end) == Shift(2, Scan(tail, level, quot, end))
  {
    var s: CStr := ['\\', c] + tail;
    assert s[2..] == tail;
  }

  lemma ScanToggle(q: Char, tail: CStr, level: nat, end: Stop)
    requires IsQuote(q)
    ensures Scan([q] + tail, level, '\0', end) == Shift(1, Scan(tail, level, q, end))
    ensures Scan([q] + tail, level, q, end) == Shift(1, Scan(tail, level, '\0', end))
  {
    var s: CStr := [q] + tail;
    assert s[1..] == tail;
  }

  lemma ScanKept(c: Char, q: Char, tail: CStr, level: nat, end: Stop)
    requires IsQuote(q) && c != q && c != '\\'
    ensures Scan([c] + tail, level, q, end) == Shift(1, Scan(tail, level, q, end))
  {
    var s: CStr := [c] + tail;
    assert s[1..] == tail;
  }

  lemma {:induction false} ScanMasked(q: Char, v: CStr, tail: CStr, level: nat, end: Stop)
    requires IsQuote(q)
    ensures Scan(Masked(q, v) + ([q] + tail), level, q, end) ==
      Shift(|Masked(q, v)| + 1, Scan(tail, level, '\0', end))
  {
    hide Scan, Shift;
    var rest: CStr := [q] + tail;
    if |v| == 0 {
      assert Masked(q, v) + rest == rest;
      ScanToggle(q, tail, level, end);
    } else {
      var more: CStr := Masked(q, v[1..]) + rest;
      ScanMasked(q, v[1..], tail, level, end);
      if v[0] == q || v[0] == '\\' {
        assert Masked(q, v) + rest == ['\\', v[0]] + more;
        ScanEscape(v[0], more, level, q, end);
        ShiftTwice(2, |Masked(q, v[1..])| + 1, Scan(tail, level, '\0', end));
      } else {
        assert Masked(q, v) + rest == [v[0]] + more;
        ScanKept(v[0], q, more, level, end);
        ShiftTwice(1, |Masked(q, v[1..])| + 1, Scan(tail, level, '\0', end));
      }
    }
  }

  /** Text in quotes: stop characters and parentheses in it mean nothing. */
  lemma ScanQuoted(q: Char, v: CStr, tail: CStr, level: nat, end: Stop)
    requires IsQuote(q)
    ensures Scan([q] + (Masked(q, v) + ([q] + tail)), level, '\0', end) ==
      Shift(|Masked(q, v)| + 2, Scan(tail, level, '\0', end))
  {
    hide Scan, Masked, Shift;
    ScanMasked(q, v, tail, level, end);
    ScanToggle(q, Masked(q, v) + ([q] + tail), level, end);
    ShiftTwice(1, |Masked(q, v)| + 1, Scan(tail, level, '\0', end));
  }

  lemma DequotedPlain(s: CStr)
    requires Unmarked(s)
    ensures Dequoted(s) == s
  {
    UnquotePlain(s, "", "");
    assert s + "" == s;
  }

  /** A text between quotes of either kind, without that quote and backslashes, is skipped as a whole and
      unquoted to itself. */
  lemma QuotedText(q: Char, v: CStr, tail: CStr, level: nat, end: Stop)
    requires IsQuote(q) && q !in v && '\\' !in v
    ensures Scan([q] + (v + ([q] + tail)), level, '\0', end) == Shift(|v| + 2, Scan(tail, level, '\0', end))
    ensures Dequoted([q] + (v + [q])) == v
  {
    hide Scan;
    MaskedPlain(q, v);
    ScanQuoted(q, v, tail, level, end);
    UnquoteQuoted(q, v, "", "");
    assert [q] + "" == [q] && v + "" == v;
  }
}
