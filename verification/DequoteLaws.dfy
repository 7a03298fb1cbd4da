/** What quotes and backslashes do to the unquoter. */
module DequoteLaws {
  import opened MapTypes
  import opened CString
  import opened Dequote

  predicate IsQuote(c: char) {
    c == '"' || c == '\''
  }

  /** No quotes and backslashes. */
  predicate Unmarked(s: string) {
    forall i :: 0 <= i < |s| ==> !IsQuote(s[i]) && s[i] != '\\'
  }

  /** A text as it may stand between two quotes `q`. */
  function Masked(q: char, s: CStr): CStr {
    if |s| == 0 then "" else (if s[0] == q || s[0] == '\\' then ['\\', s[0]] else [s[0]]) + Masked(q, s[1..])
  }

  /** Without such characters it stands there as it is. */
  lemma {:induction false} MaskedPlain(q: char, s: CStr)
    requires q !in s && '\\' !in s
    ensures Masked(q, s) == s
  {
    if |s| > 0 {
      MaskedPlain(q, s[1..]);
      assert [s[0]] + s[1..] == s;
    }
  }

  /** A backslash keeps the character after it, whatever it is, inside quotes and outside. */
  lemma UnquoteEscape(c: Char, tail: CStr, quot: char, end: string)
    ensures Unquote(['\\', c] + tail, quot, end) == Put(c, Unquote(tail, quot, end))
  {
    var s: CStr := ['\\', c] + tail;
    assert s[2..] == tail;
  }

  lemma UnquoteToggle(q: Char, tail: CStr, end: string)
    requires IsQuote(q)
    ensures Unquote([q] + tail, '\0', end) == Unquote(tail, q, end)
    ensures Unquote([q] + tail, q, end) == Unquote(tail, '\0', end)
  {
    var s: CStr := [q] + tail;
    assert s[1..] == tail;
  }

  lemma UnquoteKept(c: Char, q: Char, tail: CStr, end: string)
    requires IsQuote(q) && c != q && c != '\\'
    ensures Unquote([c] + tail, q, end) == Put(c, Unquote(tail, q, end))
  {
    var s: CStr := [c] + tail;
    assert s[1..] == tail;
  }

  lemma PrefixFirst(c: char, s: string, u: Unquoted)
    ensures Put(c, Prefix(s, u)) == Prefix([c] + s, u)
  {
    assert [c] + s + u.text == [c] + (s + u.text);
  }

  lemma PrefixNone(u: Unquoted)
    ensures Prefix("", u) == u
  {
    assert "" + u.text == u.text;
  }

  /** Between quotes every character keeps its place, and the text behind the closing quote goes on. */
  lemma {:induction false} UnquoteMasked(q: Char, s: CStr, tail: CStr, end: string)
    requires IsQuote(q)
    ensures Unquote(Masked(q, s) + ([q] + tail), q, end) == Prefix(s, Unquote(tail, '\0', end))
  {
    hide Unquote, Prefix, Put;
    var rest: CStr := [q] + tail;
    if |s| == 0 {
      assert Masked(q, s) + rest == rest;
      UnquoteToggle(q, tail, end);
      PrefixNone(Unquote(tail, '\0', end));
    } else {
      var more: CStr := Masked(q, s[1..]) + rest;
      UnquoteMasked(q, s[1..], tail, end);
      if s[0] == q || s[0] == '\\' {
        assert Masked(q, s) + rest == ['\\', s[0]] + more;
        UnquoteEscape(s[0], more, q, end);
      } else {
        assert Masked(q, s) + rest == [s[0]] + more;
        UnquoteKept(s[0], q, more, end);
      }
      PrefixFirst(s[0], s[1..], Unquote(tail, '\0', end));
      assert [s[0]] + s[1..] == s;
    }
  }

  lemma UnquoteQuoted(q: Char, s: CStr, tail: CStr, end: string)
    requires IsQuote(q)
    ensures Unquote([q] + (Masked(q, s) + ([q] + tail)), '\0', end) == Prefix(s, Unquote(tail, '\0', end))
  {
    hide Unquote, Prefix, Masked;
    UnquoteMasked(q, s, tail, end);
    UnquoteToggle(q, Masked(q, s) + ([q] + tail), end);
  }

  /** Outside quotes a text without a meaning of its own is kept. */
  lemma {:induction false} UnquotePlain(s: CStr, tail: CStr, end: string)
    requires Unmarked(s) && forall i :: 0 <= i < |s| ==> s[i] !in end
    ensures Unquote(s + tail, '\0', end) == Prefix(s, Unquote(tail, '\0', end))
  {
    if |s| == 0 {
      assert s + tail == tail;
      PrefixNone(Unquote(tail, '\0', end));
    } else {
      assert (s + tail)[1..] == s[1..] + tail;
      UnquotePlain(s[1..], tail, end);
      PrefixFirst(s[0], s[1..], Unquote(tail, '\0', end));
      assert [s[0]] + s[1..] == s;
    }
  }

  /** A backslash at the end is dropped. */
  lemma UnquoteTrailing(s: CStr, end: string)
    requires Unmarked(s) && forall i :: 0 <= i < |s| ==> s[i] !in end
    ensures Unquote(s + "\\", '\0', end) == Unquoted(s, None)
  {
    UnquotePlain(s, "\\", end);
    assert Unquote("\\", '\0', end) == Unquoted("", None);
    assert s + "" == s;
  }

  lemma UnquoteEnd(end: string)
    ensures Unquote("", '\0', end) == Unquoted("", None)
  {
  }

  /** A stop character outside quotes ends the text. */
  lemma UnquoteStop(c: Char, tail: CStr, end: string)
    requires c in end && !IsQuote(c) && c != '\\'
    ensures Unquote([c] + tail, '\0', end) == Unquoted("", Some(tail))
  {
    var s: CStr := [c] + tail;
    assert s[1..] == tail;
  }
}
