/** The built-in functions of src/format.c, and what templates that use them mean. */
module FormatLaws {
  import opened MapTypes
  import opened CString
  import opened FormatSpec
  import opened FormatScan
  import opened FormatTree
  import opened Format

  /** Every printed tree is a template the code expands without leaving its string, and the
      outcome is the value of the tree. */
  lemma AprintfPrint(env: Env, t: Template)
    requires Proper(env, t, Top)
    ensures Expand(env, Print(t)) == Eval(env, t) != Wild
  {
    hide Expand, Eval;
    ExpandPrint(env, t);
    EvalTame(env, t);
  }

  // ---------------------------------------------------------------- templates without references

  /** An odd number of `c` at the end. */
  predicate OddRun(c: char, s: string) {
    |s| > 0 && s[|s| - 1] == c && !OddRun(c, s[..|s| - 1])
  }

  lemma {:induction false} OddJoin(c: char, x: string, s: string)
    requires !OddRun(c, x)
    ensures OddRun(c, x + s) == OddRun(c, s)
    decreases |s|
  {
    if |s| == 0 {
      assert x + s == x;
    } else {
      OddJoin(c, x, s[..|s| - 1]);
      assert (x + s)[..|x + s| - 1] == x + s[..|s| - 1];
    }
  }

  /** Two characters of which the first one takes the second one along. */
  lemma OddPair(c: char, p: string)
    requires |p| == 2 && p[0] == c
    ensures !OddRun(c, p)
  {
    OddOne(c, p[..1]);
  }

  /** A template without references is copied as it stands, unless it ends in an odd number of
      percent signs: then the last one has no character to go with, and the cursor runs past the
      terminator. */
  lemma {:induction false} CopiedExactly(env: Env, s: CStr)
    requires !HasReference(s)
    ensures Expand(env, s) == if OddRun('%', s) then Wild else Str(s)
    decreases |s|
  {
    hide Any;
    if |s| == 0 {
    } else if s[0] != '%' {
      CopiedExactly(env, s[1..]);
      assert [s[0]] + s[1..] == s && s[..1] == [s[0]];
      OddJoin('%', [s[0]], s[1..]);
    } else if |s| > 1 {
      var p: CStr := s[..2];
      assert p + s[2..] == s;
      OddPair('%', p);
      NoReferenceIn(p, s[2..]);
      CopiedExactly(env, s[2..]);
      OddJoin('%', p, s[2..]);
    }
  }

  // ---------------------------------------------------------------- references without an end

  predicate NoQuotes(s: string) {
    forall i :: 0 <= i < |s| ==> s[i] != '"' && s[i] != '\''
  }

  predicate NoStops(s: string, end: Stop) {
    forall i :: 0 <= i < |s| ==> !Stops(end, s[i])
  }

  /** Without quotes and stop characters the scanner comes to the end, at any nesting level, unless
      there is an odd number of backslashes there: then it stands still before the last one. */
  lemma {:induction false} ScanUnstopped(s: CStr, level: nat, end: Stop)
    requires NoQuotes(s) && NoStops(s, end)
    ensures Scan(s, level, '\0', end) == if OddRun('\\', s) then None else Some(|s|)
    decreases |s|
  {
    hide OddRun, Stops, Scan;
    if |s| <= 1 {
      ScanShort(s, level, end);
    } else if s[0] == '\\' {
      OddPair('\\', s[..2]);
      OddJoin('\\', s[..2], s[2..]);
      assert s == ['\\', s[1]] + s[2..] && s[..2] == ['\\', s[1]];
      ScanEscape(s[1], s[2..], level, '\0', end);
      ScanUnstopped(s[2..], level, end);
    } else {
      OddOne('\\', [s[0]]);
      OddJoin('\\', [s[0]], s[1..]);
      assert s == [s[0]] + s[1..] && !Stops(end, s[0]);
      StopsAtClose(end);
      ScanUnstopped(s[1..], if s[0] == '(' then level + 1 else level, end);
      if s[0] == '(' {
        ScanOpen(s[1..], level, end);
      } else {
        ScanChar(s[0], s[1..], level, end);
      }
    }
  }

  lemma ScanShort(s: CStr, level: nat, end: Stop)
    requires |s| <= 1 && NoQuotes(s) && NoStops(s, end)
    ensures Scan(s, level, '\0', end) == if OddRun('\\', s) then None else Some(|s|)
  {
    OddNone();
    if |s| == 1 {
      OddOne('\\', s);
      StopsAtClose(end);
      assert s[0] != ')' && s[1..] == "";
    }
  }

  lemma OddNone()
    ensures !OddRun('\\', "")
  {
  }

  lemma OddOne(c: char, s: string)
    requires |s| == 1
    ensures OddRun(c, s) == (s[0] == c)
  {
  }

  lemma StopsAtClose(end: Stop)
    ensures Stops(end, ')')
  {
  }

  /** A reference whose name has no quotes and does not end is an error, or holds the scanner for ever
      exactly when an odd number of backslashes ends the text. */
  lemma StandsStill(env: Env, s: CStr)
    requires NoQuotes(s) && NoStops(s, Name)
    ensures Expand(env, "%(" + s) == if OddRun('\\', s) then Wild else Error
  {
    hide Scan, OddRun;
    ScanUnstopped(s, 0, Name);
    ExpandReference(env, s);
  }

  /** A blank after the opening parenthesis leads out of the string, or holds the scanner, whenever the
      rest has no quotes and no closing parenthesis. */
  lemma BlankUnclosed(env: Env, b: Char, s: CStr)
    requires IsSpace(b) && NoQuotes(s) && ')' !in s
    ensures Expand(env, "%(" + ([b] + s)) == Wild
  {
    hide Scan, OddRun;
    var t: CStr := [b] + s;
    SkipShorter(t);
    var u: CStr := SkipBlanks(t);
    assert NoQuotes(u) && NoStops(u, CLOSE);
    ScanUnstopped(u, 0, CLOSE);
    ExpandReference(env, t);
  }

  /** With a closing parenthesis it makes the reference nothing. */
  lemma BlankClosed(env: Env, b: Char, u: CStr, rest: CStr)
    requires IsSpace(b) && forall i :: 0 <= i < |u| ==> Bare(u[i])
    ensures Expand(env, "%(" + ([b] + (u + (")" + rest)))) == Expand(env, rest)
  {
    hide Scan, Expand;
    var tail: CStr := ")" + rest;
    var t: CStr := [b] + (u + tail);
    SkipShorter(u);
    SkipInto(u, tail);
    assert t[1..] == u + tail;
    var v: CStr := SkipBlanks(u);
    ScanPlain(v, tail, 0, CLOSE);
    ScanHere(')', rest, CLOSE);
    assert SkipBlanks(t) == v + tail && (v + tail)[|v| + 1..] == rest;
    ExpandReference(env, t);
  }

  lemma {:induction false} SkipInto(u: string, tail: string)
    requires |tail| > 0 && !IsSpace(tail[0])
    ensures SkipBlanks(u + tail) == SkipBlanks(u) + tail
  {
    if |u| == 0 {
      assert u + tail == tail;
    } else {
      assert (u + tail)[1..] == u[1..] + tail;
      SkipInto(u[1..], tail);
    }
  }

  /** HXformat2_if */
  function If(args: seq<string>): Answer {
    if |args| < 2 then Nothing
    else if args[0] != "" then (if args[1] != "" then Str(args[1]) else Nothing)
    else if |args| >= 3 && args[2] != "" then Str(args[2])
    else Nothing
  }

  function Each(s: string, f: char -> char): string {
    seq(|s|, i requires 0 <= i < |s| => f(s[i]))
  }

  /** HXformat2_upper and HXformat2_lower */
  function Upper(args: seq<string>): Answer {
    if |args| == 0 then Nothing else Str(Each(args[0], ToUpper))
  }

  function Lower(args: seq<string>): Answer {
    if |args| == 0 then Nothing else Str(Each(args[0], ToLower))
  }

  /** The two cases of a letter have the same place in their alphabets, and nothing else has a case. */
  lemma CaseOf(c: char)
    ensures var upper, lower := 'A' <= c <= 'Z', 'a' <= c <= 'z';
      if upper || lower
      then ToUpper(c) as int - 65 == ToLower(c) as int - 97 == c as int - (if upper then 65 else 97)
      else ToUpper(c) == ToLower(c) == c
  {
  }

  lemma CaseOnce(c: char)
    ensures ToLower(ToUpper(c)) == ToLower(c)
  {
  }

  lemma LowerUpper(v: string)
    ensures Each(Each(v, ToUpper), ToLower) == Each(v, ToLower)
  {
    var w := Each(v, ToUpper);
    forall i | 0 <= i < |v|
      ensures Each(w, ToLower)[i] == Each(v, ToLower)[i]
    {
      assert w[i] == ToUpper(v[i]);
      assert Each(w, ToLower)[i] == ToLower(w[i]);
      assert Each(v, ToLower)[i] == ToLower(v[i]);
      CaseOnce(v[i]);
    }
  }

  /** %(if c,a,b) is `a` or `b` by whether `c` expands to something, when all three expand. */
  lemma IfChooses(env: Env, c: Template, a: Template, b: Template, rest: Template, vc: string, va: string, vb: string)
    requires "if" in env.funcs && env.funcs["if"] == Func(true, false, If)
    requires Proper(env, Invoke("if", ',', Arg(c, Arg(a, Arg(b, NoArgs))), rest), Top)
    requires Eval(env, c) == Str(vc) && Eval(env, a) == Str(va) && Eval(env, b) == Str(vb)
    ensures var t := Invoke("if", ',', Arg(c, Arg(a, Arg(b, NoArgs))), rest);
      Expand(env, Print(t)) == Append(Str(if vc != "" then va else vb), Eval(env, rest))
  {
    hide Expand, Proper, Print;
    var args := Arg(c, Arg(a, Arg(b, NoArgs)));
    var t := Invoke("if", ',', args, rest);
    ExpandPrint(env, t);
    AppendNone(Eval(env, rest));
    assert EvalArgs(env, Arg(b, NoArgs)) == Some([vb] + []);
    assert EvalArgs(env, Arg(a, Arg(b, NoArgs))) == Some([va] + ([vb] + []));
    assert EvalArgs(env, args) == Some([vc, va, vb]) by {
      assert [vc] + ([va] + ([vb] + [])) == [vc, va, vb];
    }
  }

  /** %(upper x) and %(lower x) change the case of what `x` expands to, and nothing else. */
  lemma CaseChanges(env: Env, x: Template, v: string)
    requires "upper" in env.funcs && env.funcs["upper"] == Func(false, false, Upper)
    requires "lower" in env.funcs && env.funcs["lower"] == Func(false, false, Lower)
    requires x != Done && Eval(env, x) == Str(v) && Proper(env, Call1("lower", Call1("upper", x)), Top)
    ensures Expand(env, Print(Call1("upper", x))) == Str(Each(v, ToUpper))
    ensures Expand(env, Print(Call1("lower", Call1("upper", x)))) == Str(Each(v, ToLower))
  {
    hide Expand, Proper, Print, Each;
    var u := Call1("upper", x);
    var l := Call1("lower", u);
    UpperProper(env, x);
    ExpandPrint(env, u);
    ExpandPrint(env, l);
    assert EvalArgs(env, Arg(x, NoArgs)) == Some([v] + []) && [v] + [] == [v];
    var w := Each(v, ToUpper);
    assert w + "" == w;
    assert Eval(env, u) == Str(w);
    assert EvalArgs(env, Arg(u, NoArgs)) == Some([w] + []) && [w] + [] == [w];
    LowerUpper(v);
    assert Each(v, ToLower) + "" == Each(v, ToLower);
  }

  /** A call with one argument. */
  function Call1(fn: CStr, x: Template): Template {
    Invoke(fn, ' ', Arg(x, NoArgs), Done)
  }

  /** Where quotes are allowed, so are texts without. */
  lemma {:induction false} ProperFirst(env: Env, t: Template, place: Place)
    requires Proper(env, t, place) && !place.Top?
    ensures Proper(env, t, place.(first := true))
    decreases t
  {
    match t
    case Done =>
    case Lit(c, rest) =>
      ProperFirst(env, rest, place);
    case Pair(c, rest) =>
      ProperFirst(env, rest, place);
    case Group(inner, rest) =>
      ProperFirst(env, inner, Grouped(place.first));
      ProperFirst(env, rest, place);
    case Quoted(q, inner, rest) =>
      ProperFirst(env, rest, place);
    case Escape(c, rest) =>
      ProperFirst(env, rest, place);
    case Var(name, rest) =>
      ProperFirst(env, rest, place);
    case Invoke(fn, sep, args, rest) =>
      ProperFirst(env, rest, place);
  }

  lemma UpperProper(env: Env, x: Template)
    requires Proper(env, Call1("lower", Call1("upper", x)), Top)
    ensures Proper(env, Call1("upper", x), Top)
  {
    var u := Call1("upper", x);
    assert ProperCall(env, "lower", ' ', Arg(u, NoArgs), true);
    assert ProperArgs(env, Arg(u, NoArgs), ' ', Delims(env, "lower"), true);
    assert Proper(env, u, Inside(Delims(env, "lower"), true));
    assert ProperCall(env, "upper", ' ', Arg(x, NoArgs), false);
    assert ProperArgs(env, Arg(x, NoArgs), ' ', Delims(env, "upper"), false);
    assert Proper(env, x, Inside(Delims(env, "upper"), false));
    ProperFirst(env, x, Inside(Delims(env, "upper"), false));
    assert ProperArgs(env, Arg(x, NoArgs), ' ', Delims(env, "upper"), true);
    assert ProperCall(env, "upper", ' ', Arg(x, NoArgs), true);
  }
}
