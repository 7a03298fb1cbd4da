/** The template language of HXformat (src/format.c) on strings: what the scanner, the argument
    gatherer and the expander compute. */
module FormatSpec {
  import opened MapTypes
  import opened CString
  import opened Dequote

  /** What a reference expands to: a failure, nothing (HXformat2_nexp), or a text.  `Wild` stands for
      a run that leaves its string behind the terminator or never comes back. */
  datatype Val = Wild | Error | Nothing | Str(s: string)

  /** What an expansion ends with, and what a function may answer. */
  type Outcome = v: Val | v != Nothing witness Error
  type Answer = v: Val | v != Wild witness Nothing

  /** struct func_entry */
  datatype Func = Func(comma: bool, space: bool, call: seq<string> -> Answer)

  /** struct HXformat_map */
  datatype Env = Env(vars: map<string, string>, funcs: map<string, Func>)

  /** The sets of characters at which the scanner stops: those that end a name, and the closing
      parenthesis with a function's separators. */
  datatype Stop = Name | Args(comma: bool, space: bool)

  const CLOSE: Stop := Args(false, false)

  predicate Stops(e: Stop, c: char) {
    c == ')' || match e case Name => IsSpace(c) case Args(comma, space) => (comma && c == ',') || (space && c == ' ')
  }

  function Delims(env: Env, fn: string): Stop {
    if fn in env.funcs then Args(env.funcs[fn].comma, env.funcs[fn].space) else CLOSE
  }

  function Apply(env: Env, fn: string, args: seq<string>): Val {
    if fn in env.funcs then env.funcs[fn].call(args) else Nothing
  }

  function Shift(n: nat, o: Option<nat>): Option<nat> {
    match o case None => None case Some(k) => Some(n + k)
  }

  /** What the scanner does at a character: end, stand still for ever, or go on `n` characters with
      a nesting level and an open quote (NUL for none). */
  datatype Move = Halt | Stuck | Go(n: nat, level: nat, quot: char)

  function Next(s: CStr, level: nat, quot: char, end: Stop): (m: Move)
    requires |s| > 0
    ensures m.Go? ==> 0 < m.n <= |s|
    ensures m.Stuck? ==> s == "\\"
    ensures m.Halt? ==> Stops(end, s[0])
  {
    if quot != '\0' then
      if s[0] == quot then Go(1, level, '\0') else Go(if s[0] == '\\' && |s| > 1 then 2 else 1, level, quot)
    else if s[0] == '"' || s[0] == '\'' then Go(1, level, s[0])
    else if s[0] == '\\' then if |s| == 1 then Stuck else Go(2, level, quot)
    else if s[0] == '(' then Go(1, level + 1, quot)
    else if level == 0 && Stops(end, s[0]) then Halt
    else Go(1, if s[0] == ')' && level > 0 then level - 1 else level, quot)
  }

  /** HXparse_dequote_fmt: how far the text reaches that ends at one of `end`, with quoted text,
      escaped characters and nested parentheses skipped; None if the scanner stands still. */
  function Scan(s: CStr, level: nat, quot: char, end: Stop): (o: Option<nat>)
    ensures o.Some? ==> o.value <= |s|
  {
    if |s| == 0 then Some(0)
    else
      match Next(s, level, quot, end)
      case Halt => Some(0)
      case Stuck => None
      case Go(n, level', quot') => Shift(n, Scan(s[n..], level', quot', end))
  }

  /** It ends at a stop character or at the end of the text, and stands still only before a
      backslash there. */
  lemma {:induction false} ScanStops(s: CStr, level: nat, quot: char, end: Stop)
    ensures match Scan(s, level, quot, end)
            case None => |s| > 0 && s[|s| - 1] == '\\'
            case Some(n) => n < |s| ==> Stops(end, s[n])
    decreases |s|
  {
    hide Next, Stops;
    if |s| > 0 {
      var m := Next(s, level, quot, end);
      if m.Go? {
        ScanStops(s[m.n..], m.level, m.quot, end);
      }
    }
  }

  lemma {:induction false} SkipShorter(s: string)
    ensures var t := SkipBlanks(s); |t| <= |s| && t == s[|s| - |t|..]
  {
    if |s| > 0 && IsSpace(s[0]) {
      SkipShorter(s[1..]);
    }
  }

  lemma {:induction false} UnquoteIsCStr(s: CStr, quot: char, end: string)
    ensures '\0' !in Unquote(s, quot, end).text
    decreases |s|
  {
    if |s| == 0 {
    } else if s[0] == '\\' {
      if |s| > 1 {
        UnquoteIsCStr(s[2..], quot, end);
      }
    } else if quot == '\0' && (s[0] == '"' || s[0] == '\'') {
      UnquoteIsCStr(s[1..], s[0], end);
    } else if quot != '\0' && s[0] == quot {
      UnquoteIsCStr(s[1..], '\0', end);
    } else if quot != '\0' || s[0] !in end {
      UnquoteIsCStr(s[1..], quot, end);
    }
  }

  /** HXparse_dequote_int on the text that was cut out. */
  function Dequoted(s: CStr): (t: CStr)
    ensures |t| <= |s|
  {
    UnquoteFits(s, '\0', "");
    UnquoteIsCStr(s, '\0', "");
    Unquote(s, '\0', "").text
  }

  predicate HasReference(s: string) {
    |s| > 1 && ((s[0] == '%' && s[1] == '(') || HasReference(s[1..]))
  }

  datatype Expanded = Expanded(val: Val, rest: CStr)
  datatype Gathered = Failed(v: Outcome) | Gathered(args: seq<string>, rest: CStr)

  /** A value in front of what the rest of the template expands to. */
  function Append(v: Val, o: Outcome): Outcome {
    match v
    case Wild => Wild
    case Error => Error
    case Nothing => o
    case Str(s) => if o.Str? then Str(s + o.s) else o
  }

  /** HXformat_aprintf.  A '%' that ends the template takes the cursor past the terminator. */
  function Expand(env: Env, s: CStr): Outcome
    decreases |s|, 0
  {
    if |s| == 0 then Str("")
    else if s[0] != '%' then Append(Str(s[..1]), Expand(env, s[1..]))
    else if |s| == 1 then Wild
    else if s[1] != '(' then Append(Str(s[..2]), Expand(env, s[2..]))
    else
      var x := Any(env, s[2..]);
      Append(x.val, Expand(env, x.rest))
  }

  /** HXformat2_xany, on the text after the opening parenthesis.  A blank there drops everything up
      to the closing parenthesis, which must exist. */
  function Any(env: Env, s: CStr): (x: Expanded)
    ensures |x.rest| <= |s|
    decreases |s|, 4
  {
    if |s| > 0 && s[0] == ')' then Expanded(Nothing, s[1..])
    else if |s| > 0 && IsSpace(s[0]) then
      var u: CStr := SkipBlanks(s);
      var n := Scan(u, 0, '\0', CLOSE);
      if n == None || n.value == |u| then Expanded(Wild, "") else Expanded(Nothing, u[n.value + 1..])
    else
      match Scan(s, 0, '\0', Name)
      case None => Expanded(Wild, "")
      case Some(n) =>
        if n == |s| then Expanded(Error, "")
        else if s[n] == ')' then Expanded(Variable(env, Expand(env, Dequoted(s[..n]))), s[n + 1..])
        else
          SkipShorter(s[n + 1..]);
          Call(env, Dequoted(s[..n]), SkipBlanks(s[n + 1..]))
  }

  /** A name that expands to nothing fails the expansion; an unknown name is nothing. */
  function Variable(env: Env, name: Outcome): Val {
    match name
    case Wild => Wild
    case Error => Error
    case Str(k) => if k == "" then Error else if k in env.vars then Str(env.vars[k]) else Nothing
  }

  /** An argument is a template of its own if it has a reference. */
  function Argument(env: Env, a: CStr): Outcome
    decreases |a|, 1
  {
    if HasReference(a) then Expand(env, a) else Str(a)
  }

  /** HXformat2_xcall */
  function Call(env: Env, fn: string, t: CStr): (x: Expanded)
    ensures |x.rest| <= |t|
    decreases |t|, 3
  {
    if |t| > 0 && t[0] == ')' then Expanded(Apply(env, fn, []), t[1..])
    else
      match Gather(env, Delims(env, fn), t)
      case Failed(v) => Expanded(v, "")
      case Gathered(args, rest) => Expanded(Apply(env, fn, args), rest)
  }

  /** The argument loop of HXformat2_xcall. */
  function Gather(env: Env, delims: Stop, t: CStr): (g: Gathered)
    ensures g.Gathered? ==> |g.rest| <= |t|
    decreases |t|, 2
  {
    if |t| == 0 then Gathered([], "")
    else
      SkipShorter(t);
      var u: CStr := SkipBlanks(t);
      match Scan(u, 0, '\0', delims)
      case None => Failed(Wild)
      case Some(n) =>
        var a := Argument(env, Dequoted(u[..n]));
        if !a.Str? then Failed(a)
        else if n == |u| then Gathered([a.s], "")
        else if u[n] == ')' then Gathered([a.s], u[n + 1..])
        else Following([a.s], Gather(env, delims, u[n + 1..]))
  }

  /** The arguments so far, followed by what is still to be gathered. */
  function Following(args: seq<string>, g: Gathered): Gathered {
    match g case Failed(v) => Failed(v) case Gathered(more, rest) => Gathered(args + more, rest)
  }
}
