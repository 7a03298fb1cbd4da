/** What the quoting types of HX_strquote (src/string.c) mean, and how each is undone. */
module QuoteSpec {
  import opened MapTypes
  import opened CString

  /** A C string of 8-bit characters. */
  type Bytes = s: CStr | forall i :: 0 <= i < |s| ==> s[i] < 256 as char

  datatype Kind = SQuote | DQuote | Html | LdapFlt | LdapRdn | UriEnc | Base64 | Base64Url | Base64Imap

  predicate IsBase64(t: Kind) {
    t.Base64? || t.Base64Url? || t.Base64Imap?
  }

  /** The table HX_quote_rules. */
  function Chars(t: Kind): string {
    match t
    case SQuote => "'\\"
    case DQuote => "\"\\"
    case Html => "\"&<>"
    case LdapFlt => "\n*()\\"
    case LdapRdn => "\n \"#+,;<=>\\"
    case _ => ""
  }

  /** What needs quoting; the list of HXQUOTE_URIENC is that of the characters that do not. */
  predicate Special(t: Kind, c: char) {
    if t.UriEnc? then !(IsAlnum(c) || c in "-._~") else c in Chars(t)
  }

  function HexDigit(n: nat): char
    requires n < 16
  {
    "0123456789ABCDEF"[n]
  }

  function Hex(lead: char, c: char): string
    requires c < 256 as char
  {
    [lead, HexDigit(c as int / 16), HexDigit(c as int % 16)]
  }

  /** How one special character is written. */
  function Escape(t: Kind, c: char): string
    requires c < 256 as char
  {
    match t
    case SQuote => ['\\', c]
    case DQuote => ['\\', c]
    case Html => if c == '"' then "&quot;" else if c == '&' then "&amp;" else if c == '<' then "&lt;" else "&gt;"
    case LdapFlt => Hex('\\', c)
    case LdapRdn => Hex('\\', c)
    case UriEnc => Hex('%', c)
    case _ => [c]
  }

  function Escaped(t: Kind, s: Bytes): string {
    if |s| == 0 then "" else (if Special(t, s[0]) then Escape(t, s[0]) else [s[0]]) + Escaped(t, s[1..])
  }

  /** The Base64 alphabet of section 4 of RFC 4648, with the last two characters chosen. */
  function Digit(i: nat, x1: char, x2: char): char
    requires i < 64
  {
    if i < 26 then 'A' + i as char
    else if i < 52 then 'a' + (i - 26) as char
    else if i < 62 then '0' + (i - 52) as char
    else if i == 62 then x1 else x2
  }

  /** The four base-64 digits of a 24-bit group. */
  function Group(n: nat, x1: char, x2: char): string
    requires n < 0x100_0000
  {
    [Digit(n / 262144, x1, x2), Digit(n / 4096 % 64, x1, x2), Digit(n / 64 % 64, x1, x2), Digit(n % 64, x1, x2)]
  }

  function Number(s: Bytes, k: nat): nat
    requires 0 < k <= |s| && k <= 3
    ensures Number(s, k) < 0x100_0000
  {
    s[0] as int * 65536 + (if k > 1 then s[1] as int * 256 else 0) + (if k > 2 then s[2] as int else 0)
  }

  function Encoded64(s: Bytes, x1: char, x2: char): string {
    if |s| == 0 then ""
    else if |s| == 1 then Group(Number(s, 1), x1, x2)[..2] + "=="
    else if |s| == 2 then Group(Number(s, 2), x1, x2)[..3] + "="
    else Group(Number(s, 3), x1, x2) + Encoded64(s[3..], x1, x2)
  }

  function Last(t: Kind): (char, char) {
    match t
    case Base64Url => ('-', '_')
    case Base64Imap => ('+', ',')
    case _ => ('+', '/')
  }

  function Quoted(t: Kind, s: Bytes): string {
    if IsBase64(t) then Encoded64(s, Last(t).0, Last(t).1) else Escaped(t, s)
  }

  // The ways back.

  function UnHexDigit(c: char): Option<nat> {
    if '0' <= c <= '9' then Some(c as int - '0' as int)
    else if 'A' <= c <= 'F' then Some(c as int - 'A' as int + 10)
    else None
  }

  function Cons(c: char, r: Option<string>): Option<string> {
    match r case None => None case Some(s) => Some([c] + s)
  }

  /** A backslash keeps the next character. */
  function UnBackslash(q: string): Option<string> {
    if |q| == 0 then Some("")
    else if q[0] != '\\' then Cons(q[0], UnBackslash(q[1..]))
    else if |q| == 1 then None
    else Cons(q[1], UnBackslash(q[2..]))
  }

  /** Section 2.1 of RFC 3986 for '%', section 3 of RFC 4515 for a backslash. */
  function UnHex(lead: char, q: string): Option<string> {
    if |q| == 0 then Some("")
    else if q[0] != lead then Cons(q[0], UnHex(lead, q[1..]))
    else if |q| < 3 then None
    else match (UnHexDigit(q[1]), UnHexDigit(q[2]))
      case (Some(a), Some(b)) => Cons((a * 16 + b) as char, UnHex(lead, q[3..]))
      case _ => None
  }

  function UnHtml(q: string): Option<string> {
    if |q| == 0 then Some("")
    else if q[0] != '&' then Cons(q[0], UnHtml(q[1..]))
    else if "&quot;" <= q then Cons('"', UnHtml(q[6..]))
    else if "&amp;" <= q then Cons('&', UnHtml(q[5..]))
    else if "&lt;" <= q then Cons('<', UnHtml(q[4..]))
    else if "&gt;" <= q then Cons('>', UnHtml(q[4..]))
    else None
  }

  function UnDigit(c: char, x1: char, x2: char): Option<nat> {
    if c == x1 then Some(62)
    else if c == x2 then Some(63)
    else if 'A' <= c <= 'Z' then Some(c as int - 'A' as int)
    else if 'a' <= c <= 'z' then Some(c as int - 'a' as int + 26)
    else if '0' <= c <= '9' then Some(c as int - '0' as int + 52)
    else None
  }

  /** Section 4 of RFC 4648. */
  function Decoded64(q: string, x1: char, x2: char): Option<string> {
    if |q| == 0 then Some("")
    else if |q| < 4 then None
    else
      var pad := if q[3] != '=' then 0 else if q[2] != '=' then 1 else 2;
      var d2 := if pad == 2 then Some(0) else UnDigit(q[2], x1, x2);
      var d3 := if pad >= 1 then Some(0) else UnDigit(q[3], x1, x2);
      match (UnDigit(q[0], x1, x2), UnDigit(q[1], x1, x2), d2, d3)
      case (Some(a), Some(b), Some(c), Some(d)) =>
        var n := ((a * 64 + b) * 64 + c) * 64 + d;
        if pad == 0 then
          match Decoded64(q[4..], x1, x2)
          case None => None
          case Some(r) => Some([(n / 65536 % 256) as char, (n / 256 % 256) as char, (n % 256) as char] + r)
        else if |q| > 4 then None
        else if pad == 1 then Some([(n / 65536 % 256) as char, (n / 256 % 256) as char])
        else Some([(n / 65536 % 256) as char])
      case _ => None
  }

  function Unquoted(t: Kind, q: string): Option<string> {
    match t
    case SQuote => UnBackslash(q)
    case DQuote => UnBackslash(q)
    case Html => UnHtml(q)
    case LdapFlt => UnHex('\\', q)
    case LdapRdn => UnHex('\\', q)
    case UriEnc => UnHex('%', q)
    case _ => Decoded64(q, Last(t).0, Last(t).1)
  }

  lemma HexBack(lead: char, c: char, q: string)
    requires c < 256 as char
    ensures UnHex(lead, Hex(lead, c) + q) == Cons(c, UnHex(lead, q))
  {
    var e := Hex(lead, c);
    var n := c as int;
    UnHexBack(n / 16);
    UnHexBack(n % 16);
    assert (e + q)[3..] == q;
    assert n / 16 * 16 + n % 16 == n;
  }

  lemma UnHexBack(n: nat)
    requires n < 16
    ensures UnHexDigit(HexDigit(n)) == Some(n)
  {
  }

  lemma HtmlBack(c: char, q: string)
    requires c in Chars(Html)
    ensures UnHtml(Escape(Html, c) + q) == Cons(c, UnHtml(q))
  {
    var e := Escape(Html, c);
    var r := e + q;
    assert e <= r && r[|e|..] == q;
    assert c == '"' || c == '&' || c == '<' || c == '>';
    assert r[0] == '&' && r[1] == (if c == '"' then 'q' else if c == '&' then 'a' else if c == '<' then 'l' else 'g');
    assert "&quot;"[1] == 'q' && "&amp;"[1] == 'a' && "&lt;"[1] == 'l' && "&gt;"[1] == 'g';
  }

  lemma EscapeBack(t: Kind, c: char, q: string)
    requires c < 256 as char && !IsBase64(t)
    ensures Unquoted(t, (if Special(t, c) then Escape(t, c) else [c]) + q) == Cons(c, Unquoted(t, q))
  {
    var e := if Special(t, c) then Escape(t, c) else [c];
    assert (e + q)[|e|..] == q;
    assert e <= e + q;
    if Special(t, c) {
      match t
      case SQuote => assert (e + q)[2..] == q;
      case DQuote => assert (e + q)[2..] == q;
      case Html => HtmlBack(c, q);
      case LdapFlt => HexBack('\\', c, q);
      case LdapRdn => HexBack('\\', c, q);
      case UriEnc => HexBack('%', c, q);
    } else {
      LeadsQuoted();
      assert (e + q)[1..] == q;
    }
  }

  /** The characters that begin an escape are themselves escaped. */
  lemma LeadsQuoted()
    ensures '\\' in Chars(SQuote) && '\\' in Chars(DQuote) && '&' in Chars(Html)
    ensures '\\' in Chars(LdapFlt) && '\\' in Chars(LdapRdn) && Special(UriEnc, '%')
  {
    assert Chars(SQuote)[1] == '\\' && Chars(DQuote)[1] == '\\' && Chars(Html)[1] == '&';
    assert Chars(LdapFlt)[4] == '\\' && Chars(LdapRdn)[10] == '\\';
  }

  lemma {:induction false} EscapedBack(t: Kind, s: Bytes)
    requires !IsBase64(t)
    ensures Unquoted(t, Escaped(t, s)) == Some(s)
  {
    if |s| > 0 {
      EscapedBack(t, s[1..]);
      EscapeBack(t, s[0], Escaped(t, s[1..]));
      assert [s[0]] + s[1..] == s;
    }
  }

  lemma UnDigitBack(i: nat, t: Kind)
    requires i < 64
    ensures UnDigit(Digit(i, Last(t).0, Last(t).1), Last(t).0, Last(t).1) == Some(i)
    ensures Digit(i, Last(t).0, Last(t).1) != '='
  {
  }

  /** Four base-64 digits and their number determine each other. */
  lemma Digits(p: nat, q: nat, r: nat, s: nat)
    requires p < 64 && q < 64 && r < 64 && s < 64
    ensures var n := p * 262144 + q * 4096 + r * 64 + s;
      n < 0x100_0000 && n / 262144 == p && n / 4096 % 64 == q && n / 64 % 64 == r && n % 64 == s
  {
    var n := p * 262144 + q * 4096 + r * 64 + s;
    assert n / 262144 == p;
    assert n / 4096 == p * 64 + q;
    assert n / 64 == p * 4096 + q * 64 + r;
  }

  lemma Recompose(n: nat)
    ensures n / 262144 * 262144 + n / 4096 % 64 * 4096 + n / 64 % 64 * 64 + n % 64 == n
  {
    var m := n / 64;
    var k := m / 64;
    var j := k / 64;
    assert n == m * 64 + n % 64 && m == k * 64 + m % 64 && k == j * 64 + k % 64;
    assert n / 4096 == k;
    assert n / 262144 == j;
  }

  lemma GroupBack(n: nat, t: Kind)
    requires n < 0x100_0000
    ensures var g, x := Group(n, Last(t).0, Last(t).1), Last(t);
      |g| == 4 && '=' !in g
      && UnDigit(g[0], x.0, x.1) == Some(n / 262144) && UnDigit(g[1], x.0, x.1) == Some(n / 4096 % 64)
      && UnDigit(g[2], x.0, x.1) == Some(n / 64 % 64) && UnDigit(g[3], x.0, x.1) == Some(n % 64)
    ensures ((n / 262144 * 64 + n / 4096 % 64) * 64 + n / 64 % 64) * 64 + n % 64 == n
  {
    Recompose(n);
    UnDigitBack(n / 262144, t);
    UnDigitBack(n / 4096 % 64, t);
    UnDigitBack(n / 64 % 64, t);
    UnDigitBack(n % 64, t);
  }

  lemma ThreeBytes(a: nat, b: nat, c: nat)
    requires a < 256 && b < 256 && c < 256
    ensures var n := a * 65536 + b * 256 + c; n / 65536 == a && n / 256 == a * 256 + b && n % 256 == c && n < 0x100_0000
  {
  }

  lemma NumberBack(s: Bytes, k: nat)
    requires 0 < k <= |s| && k <= 3
    ensures var n := Number(s, k);
      n / 65536 % 256 == s[0] as int && (k > 1 ==> n / 256 % 256 == s[1] as int) && (k > 2 ==> n % 256 == s[2] as int)
    ensures var n := Number(s, k); (k < 3 ==> n % 64 == 0) && (k < 2 ==> n / 64 % 64 == 0)
  {
    ThreeBytes(s[0] as int, if k > 1 then s[1] as int else 0, if k > 2 then s[2] as int else 0);
  }

  /** A full group followed by anything. */
  lemma StepBack(g: string, n: nat, t: Kind, rest: string)
    requires n < 0x100_0000 && g == Group(n, Last(t).0, Last(t).1)
    ensures Decoded64(g + rest, Last(t).0, Last(t).1) ==
      match Decoded64(rest, Last(t).0, Last(t).1)
      case None => None
      case Some(r) => Some([(n / 65536 % 256) as char, (n / 256 % 256) as char, (n % 256) as char] + r)
  {
    hide UnDigit, Group, Last;
    GroupBack(n, t);
    var q := g + rest;
    assert q[0] == g[0] && q[1] == g[1] && q[2] == g[2] && q[3] == g[3] && q[4..] == rest;
  }

  /** The last group with one or two bytes. */
  lemma PadBack(g: string, n: nat, t: Kind, two: bool)
    requires n < 0x100_0000 && g == Group(n, Last(t).0, Last(t).1) && n % 64 == 0 && (!two ==> n / 64 % 64 == 0)
    ensures Decoded64(if two then g[..3] + "=" else g[..2] + "==", Last(t).0, Last(t).1) ==
      Some(if two then [(n / 65536 % 256) as char, (n / 256 % 256) as char] else [(n / 65536 % 256) as char])
  {
    hide UnDigit, Group, Last;
    GroupBack(n, t);
    var q := if two then g[..3] + "=" else g[..2] + "==";
    assert q[0] == g[0] && q[1] == g[1] && q[3] == '=' && q[2] == if two then g[2] else '=';
  }

  lemma {:induction false} EncodedBack(s: Bytes, t: Kind)
    ensures Decoded64(Encoded64(s, Last(t).0, Last(t).1), Last(t).0, Last(t).1) == Some(s)
  {
    if |s| > 0 {
      var k := if |s| < 3 then |s| else 3;
      var n := Number(s, k);
      NumberBack(s, k);
      hide Number, Group, Decoded64, Last;
      if |s| >= 3 {
        EncodedBack(s[3..], t);
        StepBack(Group(n, Last(t).0, Last(t).1), n, t, Encoded64(s[3..], Last(t).0, Last(t).1));
        assert [s[0], s[1], s[2]] + s[3..] == s;
      } else {
        PadBack(Group(n, Last(t).0, Last(t).1), n, t, |s| == 2);
        assert s == if |s| == 2 then [s[0], s[1]] else [s[0]];
      }
    }
  }

  /** Every quoting type is undone by its decoder. */
  lemma QuotedBack(t: Kind, s: Bytes)
    ensures Unquoted(t, Quoted(t, s)) == Some(s)
  {
    if IsBase64(t) {
      EncodedBack(s, t);
    } else {
      EscapedBack(t, s);
    }
  }

  lemma {:induction false} Encoded64Size(s: Bytes, x1: char, x2: char)
    ensures |Encoded64(s, x1, x2)| == (|s| + 2) / 3 * 4
  {
    hide Digit, Number;
    if |s| >= 3 {
      Encoded64Size(s[3..], x1, x2);
      assert |Encoded64(s, x1, x2)| == 4 + |Encoded64(s[3..], x1, x2)|;
    }
  }

  lemma {:induction false} EscapedSplit(t: Kind, a: Bytes, b: Bytes)
    ensures Escaped(t, a + b) == Escaped(t, a) + Escaped(t, b)
  {
    hide Special, Escape;
    if |a| == 0 {
      assert a + b == b;
    } else {
      assert (a + b)[1..] == a[1..] + b;
      EscapedSplit(t, a[1..], b);
    }
  }

  lemma {:induction false} EscapedPlain(t: Kind, a: Bytes)
    requires forall i :: 0 <= i < |a| ==> !Special(t, a[i])
    ensures Escaped(t, a) == a
  {
    hide Special, Escape;
    if |a| > 0 {
      EscapedPlain(t, a[1..]);
      assert [a[0]] + a[1..] == a;
    }
  }

  lemma EscapedNext(t: Kind, s: Bytes, i: nat)
    requires i < |s|
    ensures Escaped(t, s[..i + 1]) == Escaped(t, s[..i]) + (if Special(t, s[i]) then Escape(t, s[i]) else [s[i]])
  {
    var one: Bytes := [s[i]];
    assert s[..i + 1] == s[..i] + one;
    EscapedSplit(t, s[..i], one);
    assert one[1..] == [];
    assert Escaped(t, one) == (if Special(t, s[i]) then Escape(t, s[i]) else [s[i]]) + Escaped(t, one[1..]);
  }
}
