/** C strings and the character classes of the C locale. */
module CString {
  /** A C string: no NUL inside. */
  type CStr = s: string | '\0' !in s

  type Char = c: char | c != '\0' witness ' '

  /** Reading at the end gives the terminator. */
  function At(s: CStr, i: nat): char
    requires i <= |s|
  {
    if i < |s| then s[i] else '\0'
  }

  predicate IsSpace(c: char) {
    c == ' ' || '\t' <= c <= '\r'
  }

  predicate IsAlpha(c: char) {
    'A' <= c <= 'Z' || 'a' <= c <= 'z'
  }

  predicate IsDigit(c: char) {
    '0' <= c <= '9'
  }

  predicate IsAlnum(c: char) {
    IsAlpha(c) || IsDigit(c)
  }

  function ToUpper(c: char): char {
    if 'a' <= c <= 'z' then (c as int - 32) as char else c
  }

  function ToLower(c: char): char {
    if 'A' <= c <= 'Z' then (c as int + 32) as char else c
  }

  /** A text without the blanks it starts with. */
  function SkipBlanks(s: string): (t: string)
    ensures |t| <= |s| && ('\0' !in s ==> '\0' !in t)
  {
    if |s| > 0 && IsSpace(s[0]) then SkipBlanks(s[1..]) else s
  }

  /** Space, tab, newline, vertical tab, form feed and carriage return. */
  predicate Blank(c: char) {
    c as int == 32 || 9 <= c as int <= 13
  }

  predicate Blanks(s: string) {
    forall i :: 0 <= i < |s| ==> Blank(s[i])
  }

  /** Exactly those are skipped. */
  lemma {:induction false} SkipThem(bs: CStr, s: CStr)
    requires Blanks(bs) && (s == "" || !Blank(s[0]))
    ensures SkipBlanks(bs + s) == s
  {
    if |bs| == 0 {
      assert bs + s == s;
    } else {
      assert (bs + s)[1..] == bs[1..] + s;
      SkipThem(bs[1..], s);
    }
  }
}
