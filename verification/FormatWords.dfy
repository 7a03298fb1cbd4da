/** What single references mean, as the user of a template writes them. */
module FormatWords {
  import opened MapTypes
  import opened CString
  import opened FormatSpec
  import opened FormatScan
  import opened FormatTree

  /** A name as it stands: no blanks, quotes, backslashes, parentheses and percent signs. */
  predicate NameText(s: string) {
    s != "" && forall i :: 0 <= i < |s| ==> Bare(s[i]) && !Blank(s[i]) && s[i] != '%'
  }

  /** No percent sign with an opening parenthesis behind it. */
  predicate NoCalls(s: string) {
    forall i :: 0 <= i < |s| - 1 ==> s[i] != '%' || s[i + 1] != '('
  }

  /** An argument as it stands: blanks and commas may be in it unless they separate arguments, and percent signs
      unless they begin a reference. */
  predicate ArgumentText(s: string, comma: bool, space: bool) {
    s != "" && !Blank(s[0]) && NoCalls(s)
    && forall i :: 0 <= i < |s| ==> Bare(s[i]) && (comma ==> s[i] != ',') && (space ==> s[i] != ' ')
  }

  /** What a value makes of the text behind it. */
  function Before(v: Answer, o: Outcome): Outcome {
    match v
    case Error => Error
    case Nothing => o
    case Str(s) => if o.Str? then Str(s + o.s) else o
  }

  lemma {:induction false} NoReferenceText(s: string)
    requires NoCalls(s)
    ensures !HasReference(s)
  {
    if |s| > 1 {
      assert NoCalls(s[1..]) by {
        assert forall i {:trigger s[1..][i]} :: 0 <= i < |s| - 1 ==> s[1..][i] == s[i + 1];
      }
      NoReferenceText(s[1..]);
    }
  }

  lemma {:induction false} ExpandText(env: Env, s: CStr)
    requires forall i :: 0 <= i < |s| ==> s[i] != '%'
    ensures Expand(env, s) == Str(s)
  {
    hide Any;
    if |s| > 0 {
      ExpandText(env, s[1..]);
      assert s[..1] + s[1..] == s;
    }
  }

  /** %(k) is the value of the variable `k`, or nothing if there is none. */
  lemma VariableMeans(env: Env, k: CStr, rest: CStr)
    requires NameText(k)
    ensures Expand(env, "%(" + (k + (")" + rest))) ==
      Before(if k in env.vars then Str(env.vars[k]) else Nothing, Expand(env, rest))
  {
    hide Scan, Expand, Any;
    var tail: CStr := ")" + rest;
    var s: CStr := k + tail;
    ScanPlain(k, tail, 0, Name);
    ScanHere(')', rest, Name);
    DequotedPlain(k);
    ExpandText(env, k);
    assert s[..|k|] == k && s[|k| + 1..] == rest && s[0] == k[0];
    AnyVariable(env, s, |k|);
    ExpandReference(env, s);
  }

  /** %() is nothing. */
  lemma EmptyMeans(env: Env, rest: CStr)
    ensures Expand(env, "%()" + rest) == Expand(env, rest)
  {
    hide Expand;
    var s: CStr := ")" + rest;
    assert "%()" + rest == "%(" + s && s[1..] == rest;
    ExpandReference(env, s);
  }

  /** A name that is empty once its quotes are gone is an error. */
  lemma EmptyNameMeans(env: Env, q: Char, rest: CStr)
    requires q == '"' || q == '\''
    ensures Expand(env, "%(" + ([q, q, ')'] + rest)) == Error
  {
    hide Scan, Any, Expand;
    var tail: CStr := ")" + rest;
    var s: CStr := [q, q] + tail;
    QuotedText(q, "", tail, 0, Name);
    assert [q] + ("" + ([q] + tail)) == s && [q] + ("" + [q]) == [q, q];
    ScanHere(')', rest, Name);
    assert s[..2] == [q, q] && s == [q, q, ')'] + rest;
    ExpandText(env, "");
    AnyVariable(env, s, 2);
    ExpandReference(env, s);
  }

  /** An argument with the blanks before it. */
  datatype Item = Item(blanks: CStr, text: CStr)

  predicate Items(xs: seq<Item>, comma: bool, space: bool) {
    forall i :: 0 <= i < |xs| ==> Blanks(xs[i].blanks) && ArgumentText(xs[i].text, comma, space)
  }

  function Line(xs: seq<Item>, sep: Char): CStr {
    if |xs| == 0 then ""
    else xs[0].blanks + (xs[0].text + if |xs| == 1 then "" else [sep] + Line(xs[1..], sep))
  }

  function Texts(xs: seq<Item>): seq<string> {
    seq(|xs|, i requires 0 <= i < |xs| => xs[i].text)
  }

  /** One argument, up to the character that ends it. */
  lemma GatherOne(env: Env, comma: bool, space: bool, x: Item, c: Char, u: CStr)
    requires Blanks(x.blanks) && ArgumentText(x.text, comma, space)
    requires c == ')' || (comma && c == ',') || (space && c == ' ')
    ensures var delims := Args(comma, space);
      Gather(env, delims, x.blanks + (x.text + ([c] + u))) ==
        if c == ')' then Gathered([x.text], u) else Following([x.text], Gather(env, delims, u))
  {
    hide Scan, SkipBlanks, Expand;
    var delims := Args(comma, space);
    var tail: CStr := [c] + u;
    var t: CStr := x.text + tail;
    SkipThem(x.blanks, t);
    ScanPlain(x.text, tail, 0, delims);
    ScanHere(c, u, delims);
    DequotedPlain(x.text);
    NoReferenceText(x.text);
    assert t[..|x.text|] == x.text && t[|x.text|] == c && t[|x.text| + 1..] == u;
  }

  lemma {:induction false} GatherItems(env: Env, comma: bool, space: bool, xs: seq<Item>, sep: Char, after: CStr)
    requires |xs| > 0 && Items(xs, comma, space) && (|xs| > 1 ==> (comma && sep == ',') || (space && sep == ' '))
    ensures Gather(env, Args(comma, space), Line(xs, sep) + (")" + after)) == Gathered(Texts(xs), after)
  {
    hide Gather, ArgumentText, Blanks, Line;
    var x, end: CStr := xs[0], ")" + after;
    LineText(xs, sep, end);
    if |xs| == 1 {
      GatherOne(env, comma, space, x, ')', after);
      assert Texts(xs) == [x.text];
    } else {
      GatherItems(env, comma, space, xs[1..], sep, after);
      GatherOne(env, comma, space, x, sep, Line(xs[1..], sep) + end);
      assert Texts(xs) == [x.text] + Texts(xs[1..]);
    }
  }

  lemma LineText(xs: seq<Item>, sep: Char, end: CStr)
    requires |xs| > 0
    ensures |xs| == 1 ==> Line(xs, sep) + end == xs[0].blanks + (xs[0].text + end)
    ensures |xs| > 1 ==>
      Line(xs, sep) + end == xs[0].blanks + (xs[0].text + ([sep] + (Line(xs[1..], sep) + end)))
  {
    if |xs| > 1 {
      var a, b, c, d := xs[0].blanks, xs[0].text, [sep], Line(xs[1..], sep);
      assert (a + (b + (c + d))) + end == a + (b + (c + (d + end)));
    } else {
      assert xs[0].text + "" == xs[0].text;
    }
  }

  /** What a call of `fn` with arguments is worth: an unknown function is nothing. */
  function Worth(env: Env, fn: string, args: seq<string>): Answer {
    if fn in env.funcs then env.funcs[fn].call(args) else Nothing
  }

  /** %(fn a,b) and the like: blanks of any kind go before the name's arguments and before each of them,
      and the function gets the arguments in their order. */
  lemma CallMeans(env: Env, fn: CStr, b: Char, xs: seq<Item>, sep: Char, rest: CStr)
    requires NameText(fn) && Blank(b) && |xs| > 0 && xs[0].blanks == ""
    requires fn in env.funcs && Items(xs, env.funcs[fn].comma, env.funcs[fn].space)
    requires |xs| > 1 ==> (env.funcs[fn].comma && sep == ',') || (env.funcs[fn].space && sep == ' ')
    ensures Expand(env, "%(" + (fn + ([b] + (Line(xs, sep) + (")" + rest))))) ==
      Before(env.funcs[fn].call(Texts(xs)), Expand(env, rest))
  {
    hide Scan, Any, Expand, Gather, SkipBlanks;
    var u: CStr := Line(xs, sep) + (")" + rest);
    assert u[0] == xs[0].text[0];
    CallBegins(env, fn, b, "", u);
    assert "" + u == u;
    GatherItems(env, env.funcs[fn].comma, env.funcs[fn].space, xs, sep, rest);
  }

  /** Blanks between the name and the arguments. */
  lemma CallBegins(env: Env, fn: CStr, b: Char, bs: CStr, u: CStr)
    requires NameText(fn) && Blank(b) && Blanks(bs) && (u == "" || !Blank(u[0]))
    ensures var x := Call(env, fn, u);
      Expand(env, "%(" + (fn + ([b] + (bs + u)))) == Append(x.val, Expand(env, x.rest))
  {
    hide Scan, Any, Expand, Call, SkipBlanks;
    var s: CStr := fn + ([b] + (bs + u));
    ScanPlain(fn, [b] + (bs + u), 0, Name);
    ScanHere(b, bs + u, Name);
    DequotedPlain(fn);
    SkipThem(bs, u);
    assert s[..|fn|] == fn && s[|fn|] == b && s[|fn| + 1..] == bs + u && s[0] == fn[0];
    AnyCall(env, s, |fn|);
    ExpandReference(env, s);
  }

  /** A function that nobody knows is nothing, with its arguments skipped up to the parenthesis. */
  lemma UnknownMeans(env: Env, fn: CStr, b: Char, x: CStr, rest: CStr)
    requires NameText(fn) && Blank(b) && fn !in env.funcs && ArgumentText(x, false, false)
    ensures Expand(env, "%(" + (fn + ([b] + (x + (")" + rest))))) == Expand(env, rest)
  {
    hide Scan, Any, Expand, Gather, SkipBlanks;
    var u: CStr := x + (")" + rest);
    assert u[0] == x[0] && "" + u == u;
    CallBegins(env, fn, b, "", u);
    GatherOne(env, false, false, Item("", x), ')', rest);
  }

  /** %(fn ) calls the function without arguments. */
  lemma BareCallMeans(env: Env, fn: CStr, b: Char, bs: CStr, rest: CStr)
    requires NameText(fn) && Blank(b) && Blanks(bs) && fn in env.funcs
    ensures Expand(env, "%(" + (fn + ([b] + (bs + (")" + rest))))) ==
      Before(env.funcs[fn].call([]), Expand(env, rest))
  {
    hide Scan, Any, Expand, Gather, SkipBlanks;
    var u: CStr := ")" + rest;
    CallBegins(env, fn, b, bs, u);
    assert u[1..] == rest;
  }

  /** A call that is not closed ends with the text. */
  lemma UnclosedMeans(env: Env, fn: CStr, b: Char, x: CStr)
    requires NameText(fn) && Blank(b) && fn in env.funcs
    requires ArgumentText(x, env.funcs[fn].comma, env.funcs[fn].space)
    ensures Expand(env, "%(" + (fn + ([b] + x))) == Before(env.funcs[fn].call([x]), Str(""))
  {
    hide Any, Expand, SkipBlanks, Gather;
    CallBegins(env, fn, b, "", x);
    assert "" + x == x;
    GatherEnd(env, env.funcs[fn].comma, env.funcs[fn].space, x);
    ExpandText(env, "");
  }

  lemma GatherEnd(env: Env, comma: bool, space: bool, x: CStr)
    requires ArgumentText(x, comma, space)
    ensures Gather(env, Args(comma, space), x) == Gathered([x], "")
  {
    hide Scan, SkipBlanks, Expand;
    SkipThem("", x);
    assert "" + x == x && x + "" == x && x[..|x|] == x;
    ScanPlain(x, "", 0, Args(comma, space));
    assert Scan("", 0, '\0', Args(comma, space)) == Some(0) by { ScanNothing(Args(comma, space)); }
    DequotedPlain(x);
    NoReferenceText(x);
  }

  lemma ScanNothing(end: Stop)
    ensures Scan("", 0, '\0', end) == Some(0)
  {
  }

  /** An argument in quotes is one argument, whatever separators, blanks and parentheses it has. */
  lemma QuotedMeans(env: Env, fn: CStr, b: Char, q: Char, v: CStr, rest: CStr)
    requires NameText(fn) && Blank(b) && fn in env.funcs && (q == '"' || q == '\'')
    requires q !in v && '\\' !in v && NoCalls(v)
    ensures Expand(env, "%(" + (fn + ([b] + ([q] + (v + ([q] + (")" + rest))))))) ==
      Before(env.funcs[fn].call([v]), Expand(env, rest))
  {
    hide Any, Expand, Gather;
    var u: CStr := [q] + (v + ([q] + (")" + rest)));
    CallBegins(env, fn, b, "", u);
    assert "" + u == u;
    GatherQuoted(env, Delims(env, fn), q, v, rest);
  }

  lemma GatherQuoted(env: Env, delims: Stop, q: Char, v: CStr, rest: CStr)
    requires delims.Args? && (q == '"' || q == '\'')
    requires q !in v && '\\' !in v && NoCalls(v)
    ensures Gather(env, delims, [q] + (v + ([q] + (")" + rest)))) == Gathered([v], rest)
  {
    hide Scan, Gather, SkipBlanks, Dequoted;
    var tail: CStr := ")" + rest;
    var a: CStr := [q] + (v + [q]);
    var u: CStr := [q] + (v + ([q] + tail));
    SkipThem("", u);
    assert "" + u == u;
    QuotedText(q, v, tail, 0, delims);
    ScanHere(')', rest, delims);
    NoReferenceText(v);
    QuotedPlaces(q, v, rest);
    GatherAt(env, delims, u, |v| + 2);
  }

  lemma QuotedPlaces(q: char, v: string, rest: string)
    ensures var a, u := [q] + (v + [q]), [q] + (v + ([q] + (")" + rest)));
      |a| == |v| + 2 && u[..|a|] == a && u[|a|] == ')' && u[|a| + 1..] == rest
  {
    var a := [q] + (v + [q]);
    assert [q] + (v + ([q] + (")" + rest))) == a + (")" + rest);
  }
}
