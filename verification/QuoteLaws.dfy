/** Which characters each quoting type protects, and the Base64 alphabets, written out. */
module QuoteLaws {
  import opened QuoteSpec

  /** What must not stand in a text of the type as it is: the quote and the backslash in quoted strings; the
      markup characters of HTML; newline, asterisk, parentheses and backslash in an LDAP filter; newline, space
      and "#+,;<=>\ in a relative distinguished name; all but the unreserved characters of RFC 3986 in a URI. */
  predicate Unsafe(t: Kind, c: char) {
    match t
    case SQuote => c as int in {39, 92}
    case DQuote => c as int in {34, 92}
    case Html => c as int in {34, 38, 60, 62}
    case LdapFlt => c as int in {10, 40, 41, 42, 92}
    case LdapRdn => c as int in {10, 32, 34, 35, 43, 44, 59, 60, 61, 62, 92}
    case UriEnc =>
      !(65 <= c as int <= 90 || 97 <= c as int <= 122 || 48 <= c as int <= 57 || c as int in {45, 46, 95, 126})
    case _ => false
  }

  lemma UnsafeExactly(t: Kind, c: char)
    requires !IsBase64(t)
    ensures Special(t, c) <==> Unsafe(t, c)
  {
    Sets(t, c);
  }

  lemma Sets(t: Kind, c: char)
    ensures t.SQuote? || t.DQuote? || t.Html? || t.LdapFlt? || t.LdapRdn? ==> (c in Chars(t) <==> Unsafe(t, c))
    ensures c in "-._~" <==> c as int in {45, 46, 95, 126}
  {
    var u := "-._~";
    assert u[0] == '-' && u[1] == '.' && u[2] == '_' && u[3] == '~';
    match t
    case SQuote => assert Chars(t)[0] == '\'' && Chars(t)[1] == '\\';
    case DQuote => assert Chars(t)[0] == '"' && Chars(t)[1] == '\\';
    case Html => assert Chars(t)[0] == '"' && Chars(t)[1] == '&' && Chars(t)[2] == '<' && Chars(t)[3] == '>';
    case LdapFlt =>
      assert Chars(t)[0] == '\n' && Chars(t)[1] == '*' && Chars(t)[2] == '(' && Chars(t)[3] == ')';
      assert Chars(t)[4] == '\\';
    case LdapRdn =>
      assert Chars(t)[0] == '\n' && Chars(t)[1] == ' ' && Chars(t)[2] == '"' && Chars(t)[3] == '#';
      assert Chars(t)[4] == '+';
      assert Chars(t)[5] == ',' && Chars(t)[6] == ';' && Chars(t)[7] == '<' && Chars(t)[8] == '=';
      assert Chars(t)[9] == '>' && Chars(t)[10] == '\\';
    case _ =>
  }

  /** A text is left as it is exactly when nothing in it is unsafe. */
  lemma {:induction false} Untouched(t: Kind, s: Bytes)
    requires !IsBase64(t)
    ensures |Escaped(t, s)| >= |s|
    ensures Escaped(t, s) == s <==> forall i :: 0 <= i < |s| ==> !Unsafe(t, s[i])
  {
    hide Unsafe, Special;
    if |s| > 0 {
      UnsafeExactly(t, s[0]);
      Untouched(t, s[1..]);
      EscapeLonger(t, s[0]);
      assert s == [s[0]] + s[1..];
      assert (forall i :: 0 <= i < |s| ==> !Unsafe(t, s[i])) <==>
        !Unsafe(t, s[0]) && forall i :: 0 <= i < |s| - 1 ==> !Unsafe(t, s[1..][i]) by {
        assert forall i :: 1 <= i < |s| ==> s[i] == s[1..][i - 1];
      }
      if !Unsafe(t, s[0]) {
        assert Escaped(t, s) == [s[0]] + Escaped(t, s[1..]);
        assert Escaped(t, s)[1..] == Escaped(t, s[1..]);
      }
    }
  }

  lemma EscapeLonger(t: Kind, c: char)
    requires c < 256 as char && !IsBase64(t)
    ensures |Escape(t, c)| > 1
  {
  }

  /** The character that begins an escape. */
  function Lead(t: Kind): char {
    match t case Html => '&' case UriEnc => '%' case _ => '\\'
  }

  /** In HTML, LDAP and URI texts nothing unsafe is left but the characters that begin the escapes. */
  lemma {:induction false} Protected(t: Kind, s: Bytes, i: nat)
    requires (t.Html? || t.LdapFlt? || t.LdapRdn? || t.UriEnc?) && i < |Escaped(t, s)|
    ensures Unsafe(t, Escaped(t, s)[i]) ==> Escaped(t, s)[i] == Lead(t)
  {
    hide Unsafe, Special;
    var e := if Special(t, s[0]) then Escape(t, s[0]) else [s[0]];
    UnsafeExactly(t, s[0]);
    if i < |e| {
      if Special(t, s[0]) {
        EscapeSafe(t, s[0], i);
      }
    } else {
      Protected(t, s[1..], i - |e|);
    }
  }

  lemma EscapeSafe(t: Kind, c: char, i: nat)
    requires c < 256 as char && (t.Html? || t.LdapFlt? || t.LdapRdn? || t.UriEnc?) && i < |Escape(t, c)|
    ensures Unsafe(t, Escape(t, c)[i]) ==> Escape(t, c)[i] == Lead(t)
  {
    HexMeans(c);
  }

  /** Two hexadecimal digits in upper case, by their character codes. */
  lemma HexMeans(c: char)
    requires c < 256 as char
    ensures forall lead :: |Hex(lead, c)| == 3 && Hex(lead, c)[0] == lead
    ensures forall lead :: IsHex(Hex(lead, c)[1], c as int / 16) && IsHex(Hex(lead, c)[2], c as int % 16)
  {
    HexDigitMeans(c as int / 16);
    HexDigitMeans(c as int % 16);
  }

  predicate IsHex(d: char, n: int) {
    if n < 10 then d as int == 48 + n else d as int == 55 + n
  }

  lemma HexDigitMeans(n: nat)
    requires n < 16
    ensures IsHex(HexDigit(n), n)
  {
  }

  /** The entities of HTML. */
  lemma Entities()
    ensures Escaped(Html, "\"") == "&quot;" && Escaped(Html, "&") == "&amp;"
    ensures Escaped(Html, "<") == "&lt;" && Escaped(Html, ">") == "&gt;"
  {
    Alone(Html, '"');
    Alone(Html, '&');
    Alone(Html, '<');
    Alone(Html, '>');
  }

  lemma Alone(t: Kind, c: char)
    requires 0 < c as int < 256 && !IsBase64(t)
    ensures Escaped(t, [c]) == if Unsafe(t, c) then Escape(t, c) else [c]
  {
    var s: Bytes := [c];
    UnsafeExactly(t, c);
    assert s[1..] == "" && Escaped(t, s[1..]) == "";
  }

  /** The alphabets of sections 4 and 5 of RFC 4648, and that of section 5.1.3 of RFC 3501, by their character
      codes. */
  lemma Alphabet(t: Kind, i: nat)
    requires i < 64
    ensures Digit(i, Last(t).0, Last(t).1) as int ==
      if i < 26 then 65 + i
      else if i < 52 then 71 + i
      else if i < 62 then i - 4
      else if i == 62 then (if t.Base64Url? then 45 else 43)
      else if t.Base64Url? then 95 else if t.Base64Imap? then 44 else 47
  {
  }

  /** Test vectors of section 10 of RFC 4648. */
  lemma Vectors()
    ensures Quoted(Base64, "") == "" && Quoted(Base64, "f") == "Zg==" && Quoted(Base64, "fo") == "Zm8="
    ensures Quoted(Base64, "foo") == "Zm9v" && Quoted(Base64, "foobar") == "Zm9vYmFy"
  {
    hide Digit, Group, Number;
    Numbers();
    Codes();
    var f: Bytes, fo: Bytes, foo: Bytes, bar: Bytes, all: Bytes := "f", "fo", "foo", "bar", "foobar";
    Four(6684672, 25, 32, 0, 0);
    Four(6713088, 25, 38, 60, 0);
    Four(6713199, 25, 38, 61, 47);
    Four(6447474, 24, 38, 5, 50);
    assert foo[3..] == "" && bar[3..] == "" && all[3..] == bar;
    assert "Zm9v" + "" == "Zm9v" && "YmFy" + "" == "YmFy" && "Zm9v" + "YmFy" == "Zm9vYmFy";
  }

  lemma Numbers()
    ensures Number("f", 1) == 6684672 && Number("fo", 2) == 6713088 && Number("foo", 3) == 6713199
    ensures Number("bar", 3) == 6447474 && Number("foobar", 3) == 6713199
  {
  }

  lemma Four(n: nat, p: nat, q: nat, r: nat, s: nat)
    requires p < 64 && q < 64 && r < 64 && s < 64 && n == p * 262144 + q * 4096 + r * 64 + s
    ensures n < 0x100_0000
    ensures Group(n, '+', '/') == [Digit(p, '+', '/'), Digit(q, '+', '/'), Digit(r, '+', '/'), Digit(s, '+', '/')]
  {
    Digits(p, q, r, s);
  }

  lemma Codes()
    ensures Digit(25, '+', '/') == 'Z' && Digit(32, '+', '/') == 'g' && Digit(38, '+', '/') == 'm'
    ensures Digit(60, '+', '/') == '8' && Digit(61, '+', '/') == '9' && Digit(47, '+', '/') == 'v'
    ensures Digit(24, '+', '/') == 'Y' && Digit(5, '+', '/') == 'F' && Digit(50, '+', '/') == 'y'
  {
  }
}
