/** HXparse_dequote_int (src/opt.c): shell-style unquoting, in place. */
module Dequote {
  import opened MapTypes
  import opened CString

  /** The unquoted text up to a terminating character, and what follows that character.  `quot` is
      the quote that is open, or NUL. */
  datatype Unquoted = Unquoted(text: string, rest: Option<string>)

  function Put(c: char, u: Unquoted): Unquoted {
    u.(text := [c] + u.text)
  }

  function Unquote(s: CStr, quot: char, end: string): Unquoted {
    if |s| == 0 then Unquoted("", None)
    else if s[0] == '\\' then
      if |s| == 1 then Unquoted("", None) else Put(s[1], Unquote(s[2..], quot, end))
    else if quot == '\0' then
      if s[0] == '"' || s[0] == '\'' then Unquote(s[1..], s[0], end)
      else if s[0] in end then Unquoted("", Some(s[1..]))
      else Put(s[0], Unquote(s[1..], quot, end))
    else if s[0] == quot then Unquote(s[1..], '\0', end)
    else Put(s[0], Unquote(s[1..], quot, end))
  }

  /** Unquoting shortens: the text fits before what follows. */
  lemma {:induction false} UnquoteFits(s: CStr, quot: char, end: string)
    ensures var u := Unquote(s, quot, end);
      |u.text| + (match u.rest case None => 0 case Some(r) => 1 + |r|) <= |s|
    ensures var u := Unquote(s, quot, end); u.rest.Some? ==> u.rest.value == s[|s| - |u.rest.value|..]
    decreases |s|
  {
    if |s| == 0 {
    } else if s[0] == '\\' {
      if |s| > 1 {
        UnquoteFits(s[2..], quot, end);
      }
    } else if quot == '\0' && (s[0] == '"' || s[0] == '\'') {
      UnquoteFits(s[1..], s[0], end);
    } else if quot != '\0' && s[0] == quot {
      UnquoteFits(s[1..], '\0', end);
    } else if quot != '\0' || s[0] !in end {
      UnquoteFits(s[1..], quot, end);
    }
  }

  /** `s` is the C string at `p` in the buffer. */
  ghost predicate Holds(buf: array<char>, p: nat, s: string)
    reads buf
  {
    p + |s| < buf.Length && buf[p..p + |s|] == s && buf[p + |s|] == '\0'
  }

  function Prefix(d: string, u: Unquoted): Unquoted {
    u.(text := d + u.text)
  }

  lemma PrefixPut(d: string, c: char, u: Unquoted)
    ensures Prefix(d, Put(c, u)) == Prefix(d + [c], u)
  {
    assert d + ([c] + u.text) == d + [c] + u.text;
  }

  /** The reader at `i` has the rest of the string before it, the writer at `o` the text so far
      behind it; the writer never passes the reader. */
  ghost predicate Split(buf: array<char>, o0: nat, s: CStr, done: string, o: nat, i: nat, quot: char, end: string)
    reads buf
  {
    quot != '\\' && o0 <= o <= i <= o0 + |s| < buf.Length && o == o0 + |done| && buf[o0 + |s|] == '\0'
    && (forall k :: i <= k < o0 + |s| ==> buf[k] == s[k - o0])
    && (forall k :: o0 <= k < o ==> buf[k] == done[k - o0])
    && Unquote(s, '\0', end) == Prefix(done, Unquote(s[i - o0..], quot, end))
  }

  /** The characters outside the string are as they were. */
  twostate predicate Outside(buf: array<char>, lo: nat, hi: nat)
    reads buf
  {
    forall k :: 0 <= k < buf.Length && (k < lo || hi < k) ==> buf[k] == old(buf[k])
  }

  /** Moves one character back and advances reader and writer; the reader comes from `j`. */
  method Copy(buf: array<char>, o: nat, i: nat, ghost o0: nat, ghost s: CStr, ghost done: string, ghost j: nat,
              ghost quot: char, ghost end: string)
    requires Split(buf, o0, s, done, o, j, quot, end) && j <= i < o0 + |s|
    requires Unquote(s[j - o0..], quot, end) == Put(buf[i], Unquote(s[i + 1 - o0..], quot, end))
    modifies buf
    ensures Split(buf, o0, s, done + [old(buf[i])], o + 1, i + 1, quot, end)
    ensures i + 1 <= o0 + |s| < buf.Length && (buf[i + 1] == '\0' <==> i + 1 == o0 + |s|)
    ensures Outside(buf, o0, o0 + |s|)
  {
    PrefixPut(done, buf[i], Unquote(s[i + 1 - o0..], quot, end));
    hide Unquote, Prefix;
    buf[o] := buf[i];
  }

  /** What the reader sees at `i` is what Unquote decides on. */
  lemma Look(buf: array<char>, o0: nat, s: CStr, done: string, o: nat, i: nat, quot: char, end: string)
    requires Split(buf, o0, s, done, o, i, quot, end) && i < o0 + |s|
    ensures var u, c := Unquote(s[i - o0..], quot, end), buf[i];
      c != '\0' && c == s[i - o0] && (c == '\\' ==> quot != c)
      && if c == '\\' then
           if i + 1 == o0 + |s| then u == Unquoted("", None) && buf[i + 1] == '\0'
           else buf[i + 1] != '\0' && u == Put(buf[i + 1], Unquote(s[i + 2 - o0..], quot, end))
         else if quot == '\0' then
           if c == '"' || c == '\'' then u == Unquote(s[i + 1 - o0..], c, end)
           else if c in end then u == Unquoted("", Some(s[i + 1 - o0..]))
           else u == Put(c, Unquote(s[i + 1 - o0..], quot, end))
         else if c == quot then u == Unquote(s[i + 1 - o0..], '\0', end)
         else u == Put(c, Unquote(s[i + 1 - o0..], quot, end))
  {
    var left: CStr := s[i - o0..];
    assert left[0] == s[i - o0] && left[1..] == s[i + 1 - o0..];
    assert |left| > 1 ==> left[1] == s[i + 1 - o0] && left[2..] == s[i + 2 - o0..];
  }

  lemma Begin(buf: array<char>, o0: nat, s: CStr, end: string)
    requires Holds(buf, o0, s)
    ensures Split(buf, o0, s, "", o0, o0, '\0', end) && (buf[o0] == '\0' <==> |s| == 0)
  {
    assert s[0..] == s && "" + Unquote(s, '\0', end).text == Unquote(s, '\0', end).text;
    assert forall k :: 0 <= k < |s| ==> buf[o0 + k] == buf[o0..o0 + |s|][k] == s[k];
  }

  lemma Toggle(buf: array<char>, o0: nat, s: CStr, done: string, o: nat, i: nat, quot: char, end: string, quot': char)
    requires Split(buf, o0, s, done, o, i, quot, end) && i < o0 + |s| && quot' != '\\'
    requires Unquote(s[i - o0..], quot, end) == Unquote(s[i + 1 - o0..], quot', end)
    ensures Split(buf, o0, s, done, o, i + 1, quot', end)
    ensures i + 1 <= o0 + |s| < buf.Length && (buf[i + 1] == '\0' <==> i + 1 == o0 + |s|)
  {
  }

  lemma Trail(buf: array<char>, o0: nat, s: CStr, done: string, o: nat, i: nat, quot: char, end: string)
    requires Split(buf, o0, s, done, o, i, quot, end) && i + 1 == o0 + |s|
    requires Unquote(s[i - o0..], quot, end) == Unquoted("", None)
    ensures Split(buf, o0, s, done, o, i + 1, quot, end)
  {
    assert s[i + 1 - o0..] == "";
  }

  /** A backslash is dropped, and the character after it, if there is one, moved back. */
  method KeepNext(buf: array<char>, o: nat, i: nat, ghost o0: nat, ghost s: CStr, ghost done: string, ghost quot: char,
                  ghost end: string) returns (o': nat, i': nat, ghost done': string)
    requires Split(buf, o0, s, done, o, i, quot, end) && i < o0 + |s| && buf[i] == '\\'
    modifies buf
    ensures Split(buf, o0, s, done', o', i', quot, end)
    ensures i < i' <= o0 + |s| < buf.Length && o' <= i' && (buf[i'] == '\0' <==> i' == o0 + |s|)
    ensures Outside(buf, o0, o0 + |s|)
  {
    Look(buf, o0, s, done, o, i, quot, end);
    hide Unquote;
    o', i', done' := o, i + 1, done;
    if buf[i'] != '\0' {
      done' := done + [buf[i']];
      Copy(buf, o, i', o0, s, done, i, quot, end);
      o', i' := o + 1, i' + 1;
    } else {
      Trail(buf, o0, s, done, o, i, quot, end);
    }
  }

  /** The terminator is written. */
  method Finish(buf: array<char>, o: nat, ghost o0: nat, ghost s: CStr, ghost done: string, ghost i: nat,
                ghost quot: char, ghost end: string)
    requires Split(buf, o0, s, done, o, i, quot, end)
    requires i < o0 + |s| ==> Unquote(s[i - o0..], quot, end) == Unquoted("", Some(s[i + 1 - o0..]))
    modifies buf
    ensures Holds(buf, o0, Unquote(s, '\0', end).text) && Outside(buf, o0, o0 + |s|)
    ensures Unquote(s, '\0', end).rest == if i < o0 + |s| then Some(s[i + 1 - o0..]) else None
    ensures i < o0 + |s| ==> Holds(buf, i + 1, s[i + 1 - o0..])
  {
    if i == o0 + |s| {
      assert s[i - o0..] == "";
    }
    assert Unquote(s, '\0', end).text == done + "" == done;
    hide Unquote;
    buf[o] := '\0';
    assert buf[o0..o] == done;
    if i < o0 + |s| {
      assert buf[i + 1..o0 + |s|] == s[i + 1 - o0..];
    }
  }

  /** HXparse_dequote_int.  The result is the place after the terminating character. */
  method DequoteInt(buf: array<char>, o0: nat, end: string, ghost s: CStr) returns (next: Option<nat>)
    requires Holds(buf, o0, s)
    modifies buf
    ensures Holds(buf, o0, Unquote(s, '\0', end).text)
    ensures match Unquote(s, '\0', end).rest
            case None => next == None
            case Some(r) => |r| < |s| && next == Some(o0 + |s| - |r|) && Holds(buf, next.value, r)
    ensures Outside(buf, o0, o0 + |s|)
  {
    hide Unquote, Split;
    var i: nat, o: nat, quot := o0, o0, '\0';
    ghost var done := "";
    Begin(buf, o0, s, end);
    while buf[i] != '\0'
      invariant Split(buf, o0, s, done, o, i, quot, end) && o <= i <= o0 + |s| < buf.Length
      invariant (buf[i] == '\0' <==> i == o0 + |s|)
      invariant Outside(buf, o0, o0 + |s|)
      decreases o0 + |s| - i
    {
      Look(buf, o0, s, done, o, i, quot, end);
      ghost var c := buf[i];
      if quot == '\0' {
        if buf[i] == '"' || buf[i] == '\'' {
          Toggle(buf, o0, s, done, o, i, quot, end, buf[i]);
          quot, i := buf[i], i + 1;
          continue;
        }
        if buf[i] == '\\' {
          o, i, done := KeepNext(buf, o, i, o0, s, done, quot, end);
          continue;
        }
        if buf[i] in end {
          Finish(buf, o, o0, s, done, i, quot, end);
          return Some(i + 1);
        }
        Copy(buf, o, i, o0, s, done, i, quot, end);
        o, i, done := o + 1, i + 1, done + [c];
        continue;
      }
      if buf[i] == quot {
        Toggle(buf, o0, s, done, o, i, quot, end, '\0');
        quot, i := '\0', i + 1;
        continue;
      } else if buf[i] == '\\' {
        o, i, done := KeepNext(buf, o, i, o0, s, done, quot, end);
        continue;
      }
      Copy(buf, o, i, o0, s, done, i, quot, end);
      o, i, done := o + 1, i + 1, done + [c];
    }
    Finish(buf, o, o0, s, done, i, quot, end);
    next := None;
  }
}
