/** HX_strquote (src/string.c): the sizing loops and the writers. */
module Quote {
  import opened QuoteSpec

  /** strcspn with the characters to quote, or strspn with those not to. */
  method Span(t: Kind, s: Bytes, i: nat) returns (j: nat)
    requires i <= |s|
    ensures i <= j <= |s| && (j < |s| ==> Special(t, s[j]))
    ensures forall k :: i <= k < j ==> !Special(t, s[k])
  {
    j := i;
    while j < |s| && !Special(t, s[j])
      invariant i <= j <= |s| && forall k :: i <= k < j ==> !Special(t, s[k])
    {
      j := j + 1;
    }
  }

  lemma SpanPlain(t: Kind, s: Bytes, i: nat, j: nat)
    requires i <= j <= |s| && forall k :: i <= k < j ==> !Special(t, s[k])
    ensures Escaped(t, s[..j]) == Escaped(t, s[..i]) + s[i..j]
  {
    var seg: Bytes := s[i..j];
    assert s[..j] == s[..i] + seg;
    EscapedSplit(t, s[..i], seg);
    EscapedPlain(t, seg);
  }

  /** HX_qsize_bsr, HX_qsize_bsa and HX_qsize_html: what a special character adds. */
  function Cost(t: Kind, c: char): nat {
    match t
    case SQuote => 1
    case DQuote => 1
    case Html => if c == '"' then 5 else if c == '&' then 4 else 3
    case _ => 2
  }

  lemma CostIs(t: Kind, c: char)
    requires c < 256 as char && Special(t, c) && !IsBase64(t)
    ensures |Escape(t, c)| == 1 + Cost(t, c)
  {
  }

  lemma Empty(t: Kind, s: Bytes)
    ensures s[..0] == "" && Escaped(t, s[..0]) == ""
  {
  }

  /** HX_quoted_size */
  method QuotedSize(t: Kind, s: Bytes) returns (n: nat)
    ensures n == |Quoted(t, s)|
  {
    if IsBase64(t) {
      Encoded64Size(s, Last(t).0, Last(t).1);
      return (|s| + 2) / 3 * 4;
    }
    hide Escaped, Escape;
    n := |s|;
    var p := Span(t, s, 0);
    SpanPlain(t, s, 0, p);
    Empty(t, s);
    while p < |s|
      invariant p <= |s| && n == |s| + |Escaped(t, s[..p])| - p && (p < |s| ==> Special(t, s[p]))
    {
      EscapedNext(t, s, p);
      CostIs(t, s[p]);
      n := n + Cost(t, s[p]);
      var q := Span(t, s, p + 1);
      SpanPlain(t, s, p + 1, q);
      p := q;
    }
    assert s[..|s|] == s;
  }

  /** The text written so far fills the buffer up to `d`. */
  ghost predicate Written(dest: array<char>, d: nat, text: string)
    reads dest
  {
    d == |text| <= dest.Length && forall k :: 0 <= k < d ==> dest[k] == text[k]
  }

  /** Copies a text to the end of what is written. */
  method Append(dest: array<char>, d: nat, text: string, ghost before: string) returns (d': nat)
    requires Written(dest, d, before) && d + |text| <= dest.Length
    modifies dest
    ensures d' == d + |text| && Written(dest, d', before + text)
  {
    for i := 0 to |text|
      invariant forall k :: 0 <= k < d ==> dest[k] == before[k]
      invariant forall k :: 0 <= k < i ==> dest[d + k] == text[k]
    {
      dest[d + i] := text[i];
    }
    d' := d + |text|;
  }

  lemma Fits(t: Kind, s: Bytes, i: nat)
    requires i <= |s|
    ensures |Escaped(t, s[..i])| <= |Escaped(t, s)|
  {
    assert s == s[..i] + s[i..];
    EscapedSplit(t, s[..i], s[i..]);
  }

  /** The loop of HX_quote_backslash, HX_quote_html, HX_quote_ldap and HX_quote_urlenc: plain
      stretches are copied, special characters escaped. */
  method WriteEscaped(dest: array<char>, t: Kind, src: Bytes)
    requires !IsBase64(t) && dest.Length == |Quoted(t, src)| + 1
    modifies dest
    ensures dest[..] == Quoted(t, src) + "\0"
  {
    hide Escaped, Escape;
    var d: nat, i: nat := 0, 0;
    Empty(t, src);
    while i < |src|
      invariant i <= |src| && Written(dest, d, Escaped(t, src[..i]))
    {
      var j := Span(t, src, i);
      SpanPlain(t, src, i, j);
      Fits(t, src, j);
      d := Append(dest, d, src[i..j], Escaped(t, src[..i]));
      i := j;
      if i == |src| {
        break;
      }
      EscapedNext(t, src, i);
      Fits(t, src, i + 1);
      d := Append(dest, d, Escape(t, src[i]), Escaped(t, src[..i]));
      i := i + 1;
    }
    assert src[..|src|] == src;
    Close(dest, d, Escaped(t, src));
  }

  /** The masks and shifts of HX_quote_base64 are the base-64 digits of the group. */
  lemma Masks(a: nat, b: nat, c: nat)
    requires a < 256 && b < 256 && c < 256
    ensures var n := a * 65536 + b * 256 + c;
      n < 0x100_0000 && n / 262144 == a / 4 && n / 4096 % 64 == a % 4 * 16 + b / 16 && n / 64 % 64 ==
        b % 16 * 4 + c / 64 && n % 64 == c % 64
  {
    Digits(a / 4, a % 4 * 16 + b / 16, b % 16 * 4 + c / 64, c % 64);
    assert a == a / 4 * 4 + a % 4 && b == b / 16 * 16 + b % 16 && c == c / 64 * 64 + c % 64;
  }

  /** One turn of the loop in HX_quote_base64: the next group of up to three bytes. */
  function Quad(s: Bytes, x1: char, x2: char): string
    requires |s| > 0
  {
    var a, n := s[0] as int, |s|;
    var b := if n > 1 then s[1] as int else 0;
    var c := if n > 2 then s[2] as int else 0;
    [Digit(a / 4, x1, x2), Digit(a % 4 * 16 + b / 16, x1, x2),
     if n > 1 then Digit(b % 16 * 4 + c / 64, x1, x2) else '=',
     if n > 2 then Digit(c % 64, x1, x2) else '=']
  }

  lemma QuadIs(s: Bytes, x1: char, x2: char)
    requires |s| > 0
    ensures Encoded64(s, x1, x2) == Quad(s, x1, x2) + Encoded64(if |s| > 3 then s[3..] else "", x1, x2)
  {
    hide Digit, Number, Encoded64, Group;
    var n := if |s| > 3 then 3 else |s|;
    var a, b, c := s[0] as int, if n > 1 then s[1] as int else 0, if n > 2 then s[2] as int else 0;
    NumberIs(s, n);
    GroupIs(a, b, c, x1, x2);
    EncodedStep(s, x1, x2);
    EncodedNone(x1, x2);
    assert |s| == 3 ==> s[3..] == "";
  }

  /** The four digits of three bytes, by the masks of the code. */
  lemma GroupIs(a: nat, b: nat, c: nat, x1: char, x2: char)
    requires a < 256 && b < 256 && c < 256
    ensures a * 65536 + b * 256 + c < 0x100_0000
    ensures Group(a * 65536 + b * 256 + c, x1, x2) ==
        [Digit(a / 4, x1, x2), Digit(a % 4 * 16 + b / 16, x1, x2), Digit(b % 16 * 4 + c / 64, x1, x2), Digit(c % 64,
          x1, x2)]
  {
    hide Digit;
    Masks(a, b, c);
  }

  lemma EncodedNone(x1: char, x2: char)
    ensures Encoded64("", x1, x2) == ""
  {
  }

  /** The encoder's text, group by group. */
  lemma EncodedStep(s: Bytes, x1: char, x2: char)
    requires |s| > 0
    ensures var g := Group(Number(s, if |s| > 3 then 3 else |s|), x1, x2);
      Encoded64(s, x1, x2) ==
        if |s| == 1 then [g[0], g[1], '=', '=']
        else if |s| == 2 then [g[0], g[1], g[2], '=']
        else [g[0], g[1], g[2], g[3]] + Encoded64(s[3..], x1, x2)
  {
    hide Number, Digit;
  }

  lemma NumberIs(s: Bytes, n: nat)
    requires |s| > 0 && n == if |s| > 3 then 3 else |s|
    ensures Number(s, n) == (s[0] as int) * 65536 + (if n > 1 then s[1] as int else 0) * 256 + if n > 2
      then s[2] as int else 0
  {
  }

  /** HX_quote_base64, the bit masks written as quotients and remainders. */
  method WriteBase64(d: array<char>, s: Bytes, x1: char, x2: char)
    requires d.Length == |Encoded64(s, x1, x2)| + 1
    modifies d
    ensures d[..] == Encoded64(s, x1, x2) + "\0"
  {
    hide Quad, Encoded64;
    var o: nat, left: Bytes := 0, s;
    ghost var done := "";
    while |left| > 0
      invariant Written(d, o, done) && done + Encoded64(left, x1, x2) == Encoded64(s, x1, x2)
      decreases |left|
    {
      QuadIs(left, x1, x2);
      var group, next: Bytes := Quad(left, x1, x2), if |left| > 3 then left[3..] else "";
      Regroup(done, group, Encoded64(next, x1, x2));
      o := Append(d, o, group, done);
      left, done := next, done + group;
    }
    Nothing(x1, x2);
    assert done + "" == done;
    Close(d, o, done);
  }

  lemma Regroup(a: string, b: string, c: string)
    ensures a + (b + c) == a + b + c && |a| + |b| <= |a + b + c|
  {
  }

  /** Writes the terminator. */
  method Close(dest: array<char>, d: nat, ghost text: string)
    requires Written(dest, d, text) && dest.Length == d + 1
    modifies dest
    ensures dest[..] == text + "\0"
  {
    dest[d] := '\0';
  }

  lemma Nothing(x1: char, x2: char)
    ensures Encoded64("", x1, x2) == ""
  {
  }

  /** HX_strquote without the caller's buffer: the copy is allocated at the size computed and is
      filled exactly. */
  method StrQuote(src: Bytes, t: Kind) returns (r: string)
    ensures r == Quoted(t, src)
  {
    var p := Span(t, src, 0);
    if !IsBase64(t) && p == |src| {
      EscapedPlain(t, src);
      return src;
    }
    var n := QuotedSize(t, src);
    var dest := new char[n + 1];
    if IsBase64(t) {
      WriteBase64(dest, src, Last(t).0, Last(t).1);
    } else {
      WriteEscaped(dest, t, src);
    }
    r := dest[..n];
  }
}
