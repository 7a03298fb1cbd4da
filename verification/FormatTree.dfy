/** Templates as trees: printing a tree and expanding the text gives what evaluating the tree gives. */
module FormatTree {
  import opened MapTypes
  import opened CString
  import opened Dequote
  import opened DequoteLaws
  import opened FormatSpec
  import opened FormatScan

  /** A template: literal characters, a percent sign with the character after it, a text in
      parentheses, a text in quotes, an escaped character, variables whose name is a template, and
      function calls whose arguments are templates separated by `sep`. */
  datatype Template =
    | Done
    | Lit(c: Char, rest: Template)
    | Pair(c: Char, rest: Template)
    | Group(inner: Template, rest: Template)
    | Quoted(q: Char, inner: Template, rest: Template)
    | Escape(c: Char, rest: Template)
    | Var(name: Template, rest: Template)
    | Invoke(fn: CStr, sep: Char, args: Arguments, rest: Template)
  datatype Arguments = NoArgs | Arg(a: Template, more: Arguments)

  function Print(t: Template): CStr {
    match t
    case Done => ""
    case Lit(c, rest) => [c] + Print(rest)
    case Pair(c, rest) => ['%', c] + Print(rest)
    case Group(inner, rest) => "(" + (Print(inner) + (")" + Print(rest)))
    case Quoted(q, inner, rest) => [q] + (Masked(q, Print(inner)) + ([q] + Print(rest)))
    case Escape(c, rest) => ['\\', c] + Print(rest)
    case Var(name, rest) => "%(" + (Print(name) + (")" + Print(rest)))
    case Invoke(fn, sep, args, rest) => "%(" + (fn + (" " + (PrintArgs(args, sep) + (")" + Print(rest)))))
  }

  function PrintArgs(args: Arguments, sep: Char): CStr {
    match args
    case NoArgs => ""
    case Arg(a, more) => if more.NoArgs? then Print(a) else Print(a) + ([sep] + PrintArgs(more, sep))
  }

  /** The text of a tree after its quotes and escapes have been taken away, as happens once to the
      name or an argument of a reference. */
  function Plain(t: Template): CStr {
    match t
    case Done => ""
    case Lit(c, rest) => [c] + Plain(rest)
    case Pair(c, rest) => ['%', c] + Plain(rest)
    case Group(inner, rest) => "(" + (Plain(inner) + (")" + Plain(rest)))
    case Quoted(q, inner, rest) => Print(inner) + Plain(rest)
    case Escape(c, rest) => [c] + Plain(rest)
    case Var(name, rest) => "%(" + (Print(name) + (")" + Plain(rest)))
    case Invoke(fn, sep, args, rest) => "%(" + (fn + (" " + (PrintArgs(args, sep) + (")" + Plain(rest)))))
  }

  /** The meaning of a tree. */
  function Eval(env: Env, t: Template): Outcome {
    match t
    case Done => Str("")
    case Lit(c, rest) => Append(Str([c]), Eval(env, rest))
    case Pair(c, rest) => Append(Str(['%', c]), Eval(env, rest))
    case Group(inner, rest) => Append(Str("("), Append(Eval(env, inner), Append(Str(")"), Eval(env, rest))))
    case Quoted(q, inner, rest) => Append(Eval(env, inner), Eval(env, rest))
    case Escape(c, rest) => Append(Str([c]), Eval(env, rest))
    case Var(name, rest) => Append(Variable(env, Eval(env, name)), Eval(env, rest))
    case Invoke(fn, sep, args, rest) => Append(Applied(env, fn, EvalArgs(env, args)), Eval(env, rest))
  }

  function Applied(env: Env, fn: string, args: Option<seq<string>>): Val {
    if args.Some? then Apply(env, fn, args.value) else Error
  }

  function EvalArgs(env: Env, args: Arguments): Option<seq<string>> {
    match args
    case NoArgs => Some([])
    case Arg(a, more) =>
      var v, vs := Eval(env, a), EvalArgs(env, more);
      if v.Str? && vs.Some? then Some([v.s] + vs.value) else None
  }

  /** Where a tree stands: outside all references, directly inside one, or in parentheses there.
      `first` tells that the reference is not itself inside another one, whose unquoting would come
      before its own. */
  datatype Place = Top | Inside(stop: Stop, first: bool) | Grouped(first: bool)

  /** A character that means itself at a place: anything at the top, and nothing that the scanner or
      the unquoter would act on inside a reference. */
  predicate Literal(c: char, place: Place) {
    match place
    case Top => true
    case Inside(stop, _) => Bare(c) && !Stops(stop, c)
    case Grouped(_) => Bare(c)
  }

  predicate Quotable(place: Place) {
    !place.Top? && place.first
  }

  /** Parentheses inside references are balanced unless quoted, a name is not empty, an argument does
      not start with a blank, and no call has one empty argument.  What stands in quotes is any
      template of its own. */
  predicate Proper(env: Env, t: Template, place: Place)
    decreases t
  {
    match t
    case Done => true
    case Lit(c, rest) => c != '%' && Literal(c, place) && Proper(env, rest, place)
    case Pair(c, rest) => c != '(' && Literal(c, place) && Proper(env, rest, place)
    case Group(inner, rest) =>
      Proper(env, inner, if place.Top? then Top else Grouped(place.first)) && Proper(env, rest, place)
    case Quoted(q, inner, rest) =>
      Quotable(place) && (q == '"' || q == '\'') && Proper(env, inner, Top) && Proper(env, rest, place)
    case Escape(c, rest) => Quotable(place) && c != '%' && Proper(env, rest, place)
    case Var(name, rest) => name != Done && Proper(env, name, Inside(Name, place.Top?)) && Proper(env, rest, place)
    case Invoke(fn, sep, args, rest) => ProperCall(env, fn, sep, args, place.Top?) && Proper(env, rest, place)
  }

  predicate ProperCall(env: Env, fn: CStr, sep: Char, args: Arguments, first: bool)
    decreases args, 1
  {
    ProperName(fn) && args != Arg(Done, NoArgs) && Separated(args, sep, Delims(env, fn))
    && ProperArgs(env, args, sep, Delims(env, fn), first)
  }

  /** A function's name is taken as it stands. */
  predicate ProperName(fn: string) {
    fn != "" && forall i :: 0 <= i < |fn| ==> Literal(fn[i], Inside(Name, true))
  }

  predicate Separated(args: Arguments, sep: char, delims: Stop) {
    args.Arg? && args.more.Arg? ==> sep != ')' && Stops(delims, sep)
  }

  predicate ProperArgs(env: Env, args: Arguments, sep: Char, delims: Stop, first: bool)
    decreases args, 0
  {
    match args
    case NoArgs => true
    case Arg(a, more) =>
      Proper(env, a, Inside(delims, first)) && (a.Lit? ==> !IsSpace(a.c)) && (sep == ' ' ==> a != Done)
      && ProperArgs(env, more, sep, delims, first)
  }

  // ---------------------------------------------------------------- the scanner on printed trees

  /** The scanner runs over a printed tree: inside parentheses anyway, and outside when the tree is
      proper for that stop set. */
  lemma {:induction false} ScanOver(env: Env, t: Template, place: Place, tail: CStr, level: nat, end: Stop)
    requires Proper(env, t, place) && !place.Top? && (level > 0 || (place.Inside? && place.stop == end))
    ensures Scan(Print(t) + tail, level, '\0', end) == Shift(|Print(t)|, Scan(tail, level, '\0', end))
    decreases t
  {
    hide Scan, Print, PrintArgs, Masked, ProperCall, Shift;
    PrintText(t, tail);
    var o := Scan(tail, level, '\0', end);
    ShiftNone(o);
    match t
    case Done =>
    case Lit(c, rest) =>
      ScanOver(env, rest, place, tail, level, end);
      ScanChar(c, Print(rest) + tail, level, end);
      ShiftTwice(1, |Print(rest)|, o);
    case Pair(c, rest) =>
      ScanOver(env, rest, place, tail, level, end);
      ScanChar(c, Print(rest) + tail, level, end);
      ScanChar('%', [c] + (Print(rest) + tail), level, end);
      ShiftTwice(1, |Print(rest)|, o);
      ShiftTwice(1, 1 + |Print(rest)|, o);
    case Group(inner, rest) =>
      ScanOver(env, rest, place, tail, level, end);
      ScanOver(env, inner, Grouped(place.first), ")" + (Print(rest) + tail), level + 1, end);
      ScanNested(Print(inner), Print(rest) + tail, level, end);
      ShiftTwice(2 + |Print(inner)|, |Print(rest)|, o);
    case Quoted(q, inner, rest) =>
      ScanOver(env, rest, place, tail, level, end);
      ScanQuoted(q, Print(inner), Print(rest) + tail, level, end);
      ShiftTwice(|Masked(q, Print(inner))| + 2, |Print(rest)|, o);
    case Escape(c, rest) =>
      ScanOver(env, rest, place, tail, level, end);
      ScanEscape(c, Print(rest) + tail, level, '\0', end);
      ShiftTwice(2, |Print(rest)|, o);
    case Var(name, rest) =>
      ScanOver(env, rest, place, tail, level, end);
      ScanOver(env, name, Inside(Name, false), ")" + (Print(rest) + tail), level + 1, end);
      ScanReference(Print(name), Print(rest) + tail, level, end);
      ShiftTwice(3 + |Print(name)|, |Print(rest)|, o);
    case Invoke(fn, sep, args, rest) =>
      ScanOver(env, rest, place, tail, level, end);
      ScanOverCall(env, fn, sep, args, false, Print(rest) + tail, level, end);
      ShiftTwice(3 + |fn + (" " + PrintArgs(args, sep))|, |Print(rest)|, o);
  }

  /** Printed trees with a text behind them. */
  lemma PrintText(t: Template, tail: CStr)
    ensures match t
            case Done => Print(t) + tail == tail && |Print(t)| == 0
            case Lit(c, rest) => Print(t) + tail == [c] + (Print(rest) + tail) && |Print(t)| == 1 + |Print(rest)|
            case Pair(c, rest) =>
              Print(t) + tail == ['%'] + ([c] + (Print(rest) + tail)) && |Print(t)| == 2 + |Print(rest)|
            case Group(inner, rest) =>
              Print(t) + tail == "(" + (Print(inner) + (")" + (Print(rest) + tail)))
              && |Print(t)| == 2 + |Print(inner)| + |Print(rest)|
            case Quoted(q, inner, rest) =>
              var m := Masked(q, Print(inner));
              Print(t) + tail == [q] + (m + ([q] + (Print(rest) + tail))) && |Print(t)| == 2 + |m| + |Print(rest)|
            case Escape(c, rest) =>
              Print(t) + tail == ['\\', c] + (Print(rest) + tail) && |Print(t)| == 2 + |Print(rest)|
            case Var(name, rest) =>
              Print(t) + tail == "%(" + (Print(name) + (")" + (Print(rest) + tail)))
              && |Print(t)| == 3 + |Print(name)| + |Print(rest)|
            case Invoke(fn, sep, args, rest) =>
              var x := fn + (" " + PrintArgs(args, sep));
              Print(t) + tail == "%(" + (x + (")" + (Print(rest) + tail))) && |Print(t)| == 3 + |x| + |Print(rest)|
  {
    hide PrintArgs, Masked;
    match t
    case Done =>
    case Lit(c, rest) =>
      Regroup([c], Print(rest), tail);
    case Pair(c, rest) =>
      Regroup(['%', c], Print(rest), tail);
      Regroup(['%'], [c], Print(rest) + tail);
    case Group(inner, rest) =>
      Around("(", Print(inner), Print(rest), tail);
    case Quoted(q, inner, rest) =>
      Regroup([q], Masked(q, Print(inner)) + ([q] + Print(rest)), tail);
      Between(Masked(q, Print(inner)), [q], Print(rest), tail);
    case Escape(c, rest) =>
      Regroup(['\\', c], Print(rest), tail);
    case Var(name, rest) =>
      Around("%(", Print(name), Print(rest), tail);
    case Invoke(fn, sep, args, rest) =>
      CallText(fn, PrintArgs(args, sep), Print(rest), tail);
  }

  /** The same for the text without quotes. */
  lemma PlainText(t: Template, tail: CStr)
    ensures match t
            case Done => Plain(t) + tail == tail
            case Lit(c, rest) => Plain(t) + tail == [c] + (Plain(rest) + tail)
            case Pair(c, rest) => Plain(t) + tail == ['%'] + ([c] + (Plain(rest) + tail))
            case Group(inner, rest) => Plain(t) + tail == "(" + (Plain(inner) + (")" + (Plain(rest) + tail)))
            case Quoted(q, inner, rest) => Plain(t) + tail == Print(inner) + (Plain(rest) + tail)
            case Escape(c, rest) => Plain(t) + tail == [c] + (Plain(rest) + tail)
            case Var(name, rest) => Plain(t) + tail == "%(" + (Print(name) + (")" + (Plain(rest) + tail)))
            case Invoke(fn, sep, args, rest) =>
              Plain(t) + tail == "%(" + ((fn + (" " + PrintArgs(args, sep))) + (")" + (Plain(rest) + tail)))
  {
    hide Print, PrintArgs;
    match t
    case Done =>
    case Lit(c, rest) =>
      Regroup([c], Plain(rest), tail);
    case Pair(c, rest) =>
      Regroup(['%', c], Plain(rest), tail);
      Regroup(['%'], [c], Plain(rest) + tail);
    case Group(inner, rest) =>
      Around("(", Plain(inner), Plain(rest), tail);
    case Quoted(q, inner, rest) =>
      Regroup(Print(inner), Plain(rest), tail);
    case Escape(c, rest) =>
      Regroup([c], Plain(rest), tail);
    case Var(name, rest) =>
      Around("%(", Print(name), Plain(rest), tail);
    case Invoke(fn, sep, args, rest) =>
      CallText(fn, PrintArgs(args, sep), Plain(rest), tail);
  }

  lemma Regroup(a: string, b: string, c: string)
    ensures (a + b) + c == a + (b + c)
  {
  }

  lemma Around(open: string, a: string, b: string, tail: string)
    ensures (open + (a + (")" + b))) + tail == open + (a + (")" + (b + tail)))
  {
    Regroup(open, a + (")" + b), tail);
    Between(a, ")", b, tail);
  }

  lemma {:induction false} ScanOverCall(env: Env, fn: CStr, sep: Char, args: Arguments, first: bool, after: CStr,
                                        level: nat, end: Stop)
    requires ProperCall(env, fn, sep, args, first)
    ensures var x := fn + (" " + PrintArgs(args, sep));
      Scan("%(" + (x + (")" + after)), level, '\0', end) == Shift(3 + |x|, Scan(after, level, '\0', end))
    decreases args, 1
  {
    hide Scan, ProperArgs, PrintArgs;
    var inner := PrintArgs(args, sep);
    var x: CStr := fn + (" " + inner);
    ScanOverArgs(env, args, sep, Delims(env, fn), first, ")" + after, level + 1, end);
    ScanChar(' ', inner + (")" + after), level + 1, end);
    ScanPlain(fn, [' '] + (inner + (")" + after)), level + 1, end);
    assert x + (")" + after) == fn + ([' '] + (inner + (")" + after)));
    ScanReference(x, after, level, end);
  }

  lemma CallPlain(fn: CStr, x: CStr, y: CStr)
    ensures "%(" + (fn + (" " + (x + (")" + y)))) == "%(" + ((fn + (" " + x)) + (")" + y))
  {
    Regroup(fn, " " + x, ")" + y);
    Regroup(" ", x, ")" + y);
  }

  lemma CallText(fn: CStr, x: CStr, y: CStr, tail: CStr)
    ensures "%(" + (fn + (" " + (x + (")" + y)))) + tail == "%(" + ((fn + (" " + x)) + (")" + (y + tail)))
    ensures |"%(" + (fn + (" " + (x + (")" + y))))| == 3 + |fn + (" " + x)| + |y|
  {
    var s := fn + (" " + (x + (")" + y)));
    assert s == (fn + (" " + x)) + (")" + y);
    Between(fn + (" " + x), ")", y, tail);
  }

  lemma {:induction false} ScanOverArgs(env: Env, args: Arguments, sep: Char, delims: Stop, first: bool, tail: CStr,
                                        level: nat, end: Stop)
    requires ProperArgs(env, args, sep, delims, first) && level > 0 && Separated(args, sep, delims)
    ensures Scan(PrintArgs(args, sep) + tail, level, '\0', end) ==
      Shift(|PrintArgs(args, sep)|, Scan(tail, level, '\0', end))
    decreases args, 0
  {
    hide Scan, Print, Proper;
    match args
    case NoArgs =>
      assert PrintArgs(args, sep) + tail == tail;
    case Arg(a, more) =>
      if more.NoArgs? {
        ScanOver(env, a, Inside(delims, first), tail, level, end);
      } else {
        var after: CStr := PrintArgs(more, sep) + tail;
        ScanOverArgs(env, more, sep, delims, first, tail, level, end);
        ScanChar(sep, after, level, end);
        ScanOver(env, a, Inside(delims, first), [sep] + after, level, end);
        Between(Print(a), [sep], PrintArgs(more, sep), tail);
      }
  }

  lemma Between(a: string, b: string, c: string, d: string)
    ensures (a + (b + c)) + d == a + (b + (c + d))
  {
  }

  // ---------------------------------------------------------------- what printed trees look like

  lemma PlainJoin(a: string, b: string)
    requires Unmarked(a) && Unmarked(b)
    ensures Unmarked(a + b)
  {
  }

  /** Printed trees inside references that are inside references have nothing to unquote. */
  lemma {:induction false} PrintUnmarked(env: Env, t: Template, place: Place)
    requires Proper(env, t, place) && !place.Top? && !place.first
    ensures Unmarked(Print(t))
    decreases t
  {
    match t
    case Done =>
    case Lit(c, rest) =>
      PrintUnmarked(env, rest, place);
    case Pair(c, rest) =>
      PrintUnmarked(env, rest, place);
    case Group(inner, rest) =>
      PrintUnmarked(env, inner, Grouped(false));
      PrintUnmarked(env, rest, place);
      PlainJoin(Print(inner), ")" + Print(rest));
    case Var(name, rest) =>
      PrintUnmarked(env, name, Inside(Name, false));
      PrintUnmarked(env, rest, place);
      PlainJoin(Print(name), ")" + Print(rest));
    case Invoke(fn, sep, args, rest) =>
      PrintUnmarked(env, rest, place);
      PrintUnmarkedArgs(env, args, sep, Delims(env, fn));
      PlainJoin(PrintArgs(args, sep), ")" + Print(rest));
      PlainJoin(fn, " " + (PrintArgs(args, sep) + (")" + Print(rest))));
  }

  lemma {:induction false} PrintUnmarkedArgs(env: Env, args: Arguments, sep: Char, delims: Stop)
    requires ProperArgs(env, args, sep, delims, false) && Separated(args, sep, delims)
    ensures Unmarked(PrintArgs(args, sep))
    decreases args
  {
    match args
    case NoArgs =>
    case Arg(a, more) =>
      PrintUnmarked(env, a, Inside(delims, false));
      if more.Arg? {
        PrintUnmarkedArgs(env, more, sep, delims);
        PlainJoin(Print(a), [sep] + PrintArgs(more, sep));
      }
  }

  lemma PrefixTwice(a: string, b: string, u: Unquoted)
    ensures Prefix(a, Prefix(b, u)) == Prefix(a + b, u)
  {
    assert a + (b + u.text) == a + b + u.text;
  }

  /** Unquoting takes away the quotes and escapes of the tree, and nothing else. */
  lemma {:induction false} UnquotePrint(env: Env, t: Template, place: Place, tail: CStr)
    requires Proper(env, t, place) && !place.Top?
    ensures Unquote(Print(t) + tail, '\0', "") == Prefix(Plain(t), Unquote(tail, '\0', ""))
    decreases t
  {
    hide Unquote, Prefix, Put, Print, PrintArgs, ProperCall, Masked;
    PrintText(t, tail);
    var u := Unquote(tail, '\0', "");
    match t
    case Done =>
      PrefixNone(u);
    case Lit(c, rest) =>
      UnquotePrint(env, rest, place, tail);
      UnquotePart([c], Print(rest) + tail, Plain(rest), u);
    case Pair(c, rest) =>
      UnquotePrint(env, rest, place, tail);
      UnquotePart(['%', c], Print(rest) + tail, Plain(rest), u);
      assert ['%'] + [c] == ['%', c];
      Regroup(['%'], [c], Print(rest) + tail);
    case Group(inner, rest) =>
      UnquotePrint(env, rest, place, tail);
      UnquotePart(")", Print(rest) + tail, Plain(rest), u);
      UnquotePrint(env, inner, Grouped(place.first), ")" + (Print(rest) + tail));
      PrefixTwice(Plain(inner), ")" + Plain(rest), u);
      UnquotePart("(", Print(inner) + (")" + (Print(rest) + tail)), Plain(inner) + (")" + Plain(rest)), u);
    case Quoted(q, inner, rest) =>
      UnquotePrint(env, rest, place, tail);
      UnquoteQuoted(q, Print(inner), Print(rest) + tail, "");
      PrefixTwice(Print(inner), Plain(rest), u);
    case Escape(c, rest) =>
      UnquotePrint(env, rest, place, tail);
      DequoteLaws.UnquoteEscape(c, Print(rest) + tail, '\0', "");
      PrefixFirst(c, Plain(rest), u);
    case Var(name, rest) =>
      UnquotePrint(env, rest, place, tail);
      PrintUnmarked(env, name, Inside(Name, false));
      UnquoteReference(Print(name), Print(rest) + tail, Plain(rest), u);
    case Invoke(fn, sep, args, rest) =>
      var x: CStr := fn + (" " + PrintArgs(args, sep));
      UnquotePrint(env, rest, place, tail);
      CallUnmarked(env, fn, sep, args);
      UnquoteReference(x, Print(rest) + tail, Plain(rest), u);
      CallPlain(fn, PrintArgs(args, sep), Plain(rest));
  }

  lemma UnquotePart(a: CStr, s: CStr, b: string, u: Unquoted)
    requires Unmarked(a) && Unquote(s, '\0', "") == Prefix(b, u)
    ensures Unquote(a + s, '\0', "") == Prefix(a + b, u)
  {
    hide Unquote;
    UnquotePlain(a, s, "");
    PrefixTwice(a, b, u);
  }

  lemma UnquoteReference(x: CStr, s: CStr, b: string, u: Unquoted)
    requires Unmarked(x) && Unquote(s, '\0', "") == Prefix(b, u)
    ensures Unquote("%(" + (x + (")" + s)), '\0', "") == Prefix("%(" + (x + (")" + b)), u)
  {
    hide Unquote;
    UnquotePart(")", s, b, u);
    UnquotePart(x, ")" + s, ")" + b, u);
    UnquotePart("%(", x + (")" + s), x + (")" + b), u);
  }

  lemma CallUnmarked(env: Env, fn: CStr, sep: Char, args: Arguments)
    requires ProperCall(env, fn, sep, args, false)
    ensures Unmarked(fn + (" " + PrintArgs(args, sep)))
  {
    PrintUnmarkedArgs(env, args, sep, Delims(env, fn));
    PlainJoin(fn, " " + PrintArgs(args, sep));
  }

  lemma DequotedPrint(env: Env, t: Template, place: Place)
    requires Proper(env, t, place) && !place.Top?
    ensures Dequoted(Print(t)) == Plain(t)
  {
    UnquotePrint(env, t, place, "");
    assert Print(t) + "" == Print(t) && Plain(t) + "" == Plain(t);
    UnquoteEnd("");
  }

  /** Outside references there is nothing to take away. */
  lemma {:induction false} PlainTop(env: Env, t: Template)
    requires Proper(env, t, Top)
    ensures Plain(t) == Print(t)
    decreases t
  {
    match t
    case Done =>
    case Lit(c, rest) =>
      PlainTop(env, rest);
    case Pair(c, rest) =>
      PlainTop(env, rest);
    case Group(inner, rest) =>
      PlainTop(env, inner);
      PlainTop(env, rest);
    case Var(name, rest) =>
      PlainTop(env, rest);
    case Invoke(fn, sep, args, rest) =>
      PlainTop(env, rest);
  }

  /** The first character of a printed tree inside a reference. */
  lemma PrintFirst(env: Env, t: Template, stop: Stop, first: bool)
    requires Proper(env, t, Inside(stop, first)) && t != Done
    ensures |Print(t)| > 0 && Print(t)[0] != ')' && (IsSpace(Print(t)[0]) ==>
      t.Lit? && t.c == Print(t)[0] && stop != Name)
  {
  }

  /** An argument list does not start with a blank, nor with a parenthesis of its own. */
  lemma ArgsFirst(env: Env, args: Arguments, sep: Char, delims: Stop, first: bool)
    requires ProperArgs(env, args, sep, delims, first) && Separated(args, sep, delims) && args.Arg?
    requires args != Arg(Done, NoArgs)
    requires delims.Args?
    ensures var p := PrintArgs(args, sep); |p| > 0 && p[0] != ')' && !IsSpace(p[0])
  {
    if args.a == Done {
      var p: CStr := [sep] + PrintArgs(args.more, sep);
      assert PrintArgs(args, sep) == "" + p == p;
    } else {
      PrintFirst(env, args.a, delims, first);
    }
  }

  lemma NoBlank(s: string)
    requires s != "" && !IsSpace(s[0])
    ensures SkipBlanks(s) == s
  {
  }

  // ---------------------------------------------------------------- the expander on printed trees

  lemma AppendTwice(u: Val, v: Outcome, o: Outcome)
    ensures Append(u, Append(v, o)) == Append(Append(u, v), o)
  {
    if u.Str? && v.Str? && o.Str? {
      assert u.s + (v.s + o.s) == u.s + v.s + o.s;
    }
  }

  lemma AppendEmpty(o: Outcome)
    ensures Append(Str(""), o) == o && Append(o, Str("")) == o
  {
    if o.Str? {
      assert "" + o.s == o.s + "" == o.s;
    }
  }

  lemma ExpandLiteral(env: Env, c: Char, s: CStr)
    requires c != '%'
    ensures Expand(env, [c] + s) == Append(Str([c]), Expand(env, s))
  {
    hide Any;
    var t: CStr := [c] + s;
    assert t[..1] == [c] && t[1..] == s;
  }

  lemma ExpandPair(env: Env, c: Char, s: CStr)
    requires c != '('
    ensures Expand(env, ['%'] + ([c] + s)) == Append(Str(['%', c]), Expand(env, s))
  {
    hide Any;
    var t: CStr := ['%'] + ([c] + s);
    assert t[..2] == ['%', c] && t[2..] == s;
  }

  lemma ExpandReference(env: Env, s: CStr)
    ensures var x := Any(env, s); Expand(env, "%(" + s) == Append(x.val, Expand(env, x.rest))
  {
    hide Any;
    var t: CStr := "%(" + s;
    assert t[2..] == s;
  }

  /** Expanding a printed tree is evaluating the tree, whatever follows it. */
  lemma {:induction false} ExpandOver(env: Env, t: Template, place: Place, tail: CStr)
    requires Proper(env, t, place)
    ensures Expand(env, Plain(t) + tail) == Append(Eval(env, t), Expand(env, tail))
    decreases t, 0
  {
    hide Expand, Any, Call, Gather, Variable, Applied, Print, Plain, Append;
    PlainText(t, tail);
    var after := Expand(env, tail);
    match t
    case Done =>
      AppendEmpty(after);
    case Lit(c, rest) =>
      ExpandOver(env, rest, place, tail);
      ExpandLiteral(env, c, Plain(rest) + tail);
      AppendTwice(Str([c]), Eval(env, rest), after);
    case Pair(c, rest) =>
      ExpandOver(env, rest, place, tail);
      ExpandPair(env, c, Plain(rest) + tail);
      AppendTwice(Str(['%', c]), Eval(env, rest), after);
    case Group(inner, rest) =>
      var u: CStr := ")" + (Plain(rest) + tail);
      ExpandOver(env, rest, place, tail);
      ExpandOver(env, inner, if place.Top? then Top else Grouped(place.first), u);
      ExpandLiteral(env, ')', Plain(rest) + tail);
      ExpandLiteral(env, '(', Plain(inner) + u);
      AppendGroup(Eval(env, inner), Eval(env, rest), after);
    case Quoted(q, inner, rest) =>
      PlainTop(env, inner);
      ExpandOver(env, rest, place, tail);
      ExpandOver(env, inner, Top, Plain(rest) + tail);
      AppendTwice(Eval(env, inner), Eval(env, rest), after);
    case Escape(c, rest) =>
      ExpandOver(env, rest, place, tail);
      ExpandLiteral(env, c, Plain(rest) + tail);
      AppendTwice(Str([c]), Eval(env, rest), after);
    case Var(name, rest) =>
      ExpandOver(env, rest, place, tail);
      ExpandPlain(env, name, Inside(Name, place.Top?));
      VariablePrint(env, name, place.Top?, Plain(rest) + tail);
      AppendTwice(Variable(env, Eval(env, name)), Eval(env, rest), after);
    case Invoke(fn, sep, args, rest) =>
      ExpandOver(env, rest, place, tail);
      CallPrint(env, fn, sep, args, place.Top?, Plain(rest) + tail);
      InvokePrint(env, fn, sep, args, place.Top?, Plain(rest) + tail);
      AppendTwice(Applied(env, fn, EvalArgs(env, args)), Eval(env, rest), after);
  }

  lemma AppendGroup(a: Outcome, b: Outcome, o: Outcome)
    ensures Append(Str("("), Append(a, Append(Str(")"), Append(b, o))))
      == Append(Append(Str("("), Append(a, Append(Str(")"), b))), o)
  {
    hide Append;
    AppendTwice(Str(")"), b, o);
    AppendTwice(a, Append(Str(")"), b), o);
    AppendTwice(Str("("), Append(a, Append(Str(")"), b)), o);
  }

  lemma ExpandPlain(env: Env, t: Template, place: Place)
    requires Proper(env, t, place)
    ensures Expand(env, Plain(t)) == Eval(env, t)
    decreases t, 1
  {
    ExpandOver(env, t, place, "");
    assert Plain(t) + "" == Plain(t);
    AppendEmpty(Eval(env, t));
  }

  /** Expanding what is printed is evaluating the tree. */
  lemma ExpandPrint(env: Env, t: Template)
    requires Proper(env, t, Top)
    ensures Expand(env, Print(t)) == Eval(env, t)
  {
    PlainTop(env, t);
    ExpandPlain(env, t, Top);
  }

  lemma VariablePrint(env: Env, name: Template, first: bool, after: CStr)
    requires name != Done && Proper(env, name, Inside(Name, first)) && Expand(env, Plain(name)) == Eval(env, name)
    ensures Expand(env, "%(" + (Print(name) + (")" + after))) ==
      Append(Variable(env, Eval(env, name)), Expand(env, after))
  {
    hide Scan, Variable, Any, Expand, Print, Plain, Eval, Proper;
    var p := Print(name);
    var s: CStr := p + (")" + after);
    ScanOver(env, name, Inside(Name, first), ")" + after, 0, Name);
    ScanHere(')', after, Name);
    PrintFirst(env, name, Name, first);
    DequotedPrint(env, name, Inside(Name, first));
    assert s[..|p|] == p && s[|p|] == ')' && s[|p| + 1..] == after && s[0] == p[0];
    AnyVariable(env, s, |p|);
    ExpandReference(env, s);
  }

  lemma AnyVariable(env: Env, s: CStr, n: nat)
    requires 0 < n < |s| && s[0] != ')' && !IsSpace(s[0]) && Scan(s, 0, '\0', Name) == Some(n) && s[n] == ')'
    ensures Any(env, s) == Expanded(Variable(env, Expand(env, Dequoted(s[..n]))), s[n + 1..])
  {
    hide Scan, Expand;
  }

  lemma AnyCall(env: Env, s: CStr, n: nat)
    requires 0 < n < |s| && s[0] != ')' && !IsSpace(s[0]) && Scan(s, 0, '\0', Name) == Some(n) && s[n] != ')'
    ensures Any(env, s) == Call(env, Dequoted(s[..n]), SkipBlanks(s[n + 1..]))
  {
    hide Scan, Call;
  }

  lemma InvokePrint(env: Env, fn: CStr, sep: Char, args: Arguments, first: bool, after: CStr)
    requires ProperCall(env, fn, sep, args, first)
    ensures var u: CStr := PrintArgs(args, sep) + (")" + after);
      var x, y := Call(env, fn, u), fn + (" " + PrintArgs(args, sep));
      Expand(env, "%(" + (y + (")" + after))) == Append(x.val, Expand(env, x.rest))
  {
    hide Scan, Any, Expand, Call, PrintArgs, ProperArgs, Separated;
    var inner := PrintArgs(args, sep);
    var u: CStr := inner + (")" + after);
    var s: CStr := fn + ([' '] + u);
    NameScanned(fn, u);
    InvokeText(fn, inner, after);
    CallStart(env, fn, sep, args, first, after);
    DequotedPlain(fn);
    AnyCall(env, s, |fn|);
    ExpandReference(env, s);
  }

  lemma InvokeText(fn: CStr, inner: CStr, after: CStr)
    requires fn != ""
    ensures var u: CStr := inner + (")" + after); var s: CStr := fn + ([' '] + u);
      s[0] == fn[0] && s[..|fn|] == fn && s[|fn|] == ' ' && s[|fn| + 1..] == u
      && (fn + (" " + inner)) + (")" + after) == s
  {
    Regroup(fn, " " + inner, ")" + after);
    Regroup(" ", inner, ")" + after);
  }

  lemma NameScanned(fn: CStr, u: CStr)
    requires ProperName(fn)
    ensures Scan(fn + ([' '] + u), 0, '\0', Name) == Some(|fn|) && fn[0] != ')' && !IsSpace(fn[0])
  {
    hide Scan;
    ScanPlain(fn, [' '] + u, 0, Name);
    ScanHere(' ', u, Name);
  }

  /** Nothing is skipped before the arguments, and they are read as such. */
  lemma CallStart(env: Env, fn: CStr, sep: Char, args: Arguments, first: bool, after: CStr)
    requires ProperCall(env, fn, sep, args, first)
    ensures var p: CStr := PrintArgs(args, sep); var u: CStr := p + (")" + after);
      SkipBlanks(u) == u && (u[0] == ')' <==> args.NoArgs?) && (args.NoArgs? ==> u[1..] == after)
  {
    hide SkipBlanks;
    var p: CStr := PrintArgs(args, sep);
    var u: CStr := p + (")" + after);
    if args.NoArgs? {
      assert u == ")" + after;
    } else {
      ArgsFirst(env, args, sep, Delims(env, fn), first);
      assert u[0] == p[0];
    }
    NoBlank(u);
  }

  lemma {:induction false} CallPrint(env: Env, fn: CStr, sep: Char, args: Arguments, first: bool, after: CStr)
    requires ProperCall(env, fn, sep, args, first)
    ensures var x := Call(env, fn, PrintArgs(args, sep) + (")" + after));
      x.val == Applied(env, fn, EvalArgs(env, args))
      && Append(x.val, Expand(env, x.rest)) == Append(x.val, Expand(env, after))
    decreases args, 1
  {
    hide Gather, PrintArgs, Apply, ProperArgs, Expand;
    CallStart(env, fn, sep, args, first, after);
    if args.Arg? {
      GatherPrint(env, args, sep, Delims(env, fn), first, after);
    }
  }

  lemma {:induction false} GatherPrint(env: Env, args: Arguments, sep: Char, delims: Stop, first: bool, after: CStr)
    requires args.Arg? && ProperArgs(env, args, sep, delims, first) && Separated(args, sep, delims)
    requires delims.Args? && args != Arg(Done, NoArgs)
    ensures Gather(env, delims, PrintArgs(args, sep) + (")" + after)) ==
      match EvalArgs(env, args) case None => Failed(Error) case Some(vs) => Gathered(vs, after)
    decreases args, 0
  {
    hide Gather, Expand, Scan, SkipBlanks, Argument, Print, PrintArgs, Eval, Proper, Stops;
    var a, more := args.a, args.more;
    var p := Print(a);
    var t: CStr := PrintArgs(args, sep) + (")" + after);
    GatherStart(env, args, sep, delims, first, after);
    ExpandPlain(env, a, Inside(delims, first));
    ArgumentIs(env, a, delims, first);
    EvalTame(env, a);
    GatherAt(env, delims, t, |p|);
    if more.Arg? {
      GatherRest(env, more, sep, delims, first, after);
    }
  }

  /** The arguments after the first; a single empty one counts here. */
  lemma {:induction false} GatherRest(env: Env, more: Arguments, sep: Char, delims: Stop, first: bool, after: CStr)
    requires more.Arg? && ProperArgs(env, more, sep, delims, first) && Separated(more, sep, delims) && delims.Args?
    ensures Gather(env, delims, PrintArgs(more, sep) + (")" + after)) ==
      match EvalArgs(env, more) case None => Failed(Error) case Some(vs) => Gathered(vs, after)
    decreases more, 1
  {
    hide Gather, PrintArgs, EvalArgs, ProperArgs, Separated;
    if more == Arg(Done, NoArgs) {
      GatherEmpty(env, delims, sep, after);
    } else {
      GatherPrint(env, more, sep, delims, first, after);
    }
  }

  lemma GatherEmpty(env: Env, delims: Stop, sep: Char, after: CStr)
    requires delims.Args?
    ensures Gather(env, delims, PrintArgs(Arg(Done, NoArgs), sep) + (")" + after)) == Gathered([""], after)
    ensures EvalArgs(env, Arg(Done, NoArgs)) == Some([""])
  {
    hide Scan, SkipBlanks, Gather;
    var t: CStr := ")" + after;
    assert PrintArgs(Arg(Done, NoArgs), sep) + t == t;
    ScanHere(')', after, delims);
    NoBlank(t);
    GatherAt(env, delims, t, 0);
    DequotedPlain("");
    assert t[..0] == "" && t[1..] == after && [""] + [] == [""];
  }

  /** Where the first argument ends, and what comes then. */
  lemma GatherStart(env: Env, args: Arguments, sep: Char, delims: Stop, first: bool, after: CStr)
    requires args.Arg? && ProperArgs(env, args, sep, delims, first) && Separated(args, sep, delims)
    requires delims.Args? && args != Arg(Done, NoArgs)
    ensures var p, more := Print(args.a), args.more; var t: CStr := PrintArgs(args, sep) + (")" + after);
      |p| < |t| && SkipBlanks(t) == t && Scan(t, 0, '\0', delims) == Some(|p|) && t[..|p|] == p
      && (t[|p|] == ')' <==> more.NoArgs?)
      && t[|p| + 1..] == if more.NoArgs? then after else PrintArgs(more, sep) + (")" + after)
  {
    hide Scan, SkipBlanks, Print, Proper, ProperArgs;
    var p, more := Print(args.a), args.more;
    var t: CStr := PrintArgs(args, sep) + (")" + after);
    var c: Char := if more.NoArgs? then ')' else sep;
    var u: CStr := if more.NoArgs? then after else PrintArgs(more, sep) + (")" + after);
    ArgsFirst(env, args, sep, delims, first);
    assert t[0] == PrintArgs(args, sep)[0];
    NoBlank(t);
    FirstScanned(env, args, sep, delims, first, c, u);
    if more.Arg? {
      Between(p, [sep], PrintArgs(more, sep), ")" + after);
    }
    assert t == p + ([c] + u);
  }

  lemma FirstScanned(env: Env, args: Arguments, sep: Char, delims: Stop, first: bool, c: Char, u: CStr)
    requires args.Arg? && ProperArgs(env, args, sep, delims, first) && Stops(delims, c)
    ensures Scan(Print(args.a) + ([c] + u), 0, '\0', delims) == Some(|Print(args.a)|)
  {
    hide Scan, Print, Proper;
    ScanOver(env, args.a, Inside(delims, first), [c] + u, 0, delims);
    ScanHere(c, u, delims);
  }

  lemma GatherAt(env: Env, delims: Stop, t: CStr, n: nat)
    requires n < |t| && SkipBlanks(t) == t && Scan(t, 0, '\0', delims) == Some(n)
    ensures var a := Argument(env, Dequoted(t[..n]));
      Gather(env, delims, t) ==
        if !a.Str? then Failed(a)
        else if t[n] == ')' then Gathered([a.s], t[n + 1..])
        else Following([a.s], Gather(env, delims, t[n + 1..]))
  {
    hide Scan, SkipBlanks, Argument;
  }

  /** Whether an argument is expanded or taken as it stands makes no difference. */
  lemma ArgumentIs(env: Env, a: Template, delims: Stop, first: bool)
    requires Proper(env, a, Inside(delims, first)) && Expand(env, Plain(a)) == Eval(env, a)
    ensures Argument(env, Dequoted(Print(a))) == Eval(env, a)
  {
    hide Expand, Eval, Proper, Print, Plain;
    DequotedPrint(env, a, Inside(delims, first));
    if !HasReference(Plain(a)) {
      NoReference(env, a, Inside(delims, first));
    }
  }

  lemma {:induction false} NoReferenceIn(x: string, y: string)
    requires !HasReference(x + y)
    ensures !HasReference(x) && !HasReference(y)
  {
    if |x| == 0 {
      assert x + y == y;
    } else {
      assert (x + y)[1..] == x[1..] + y;
      NoReferenceIn(x[1..], y);
    }
  }

  lemma ReferencePlain(t: Template)
    requires t.Var? || t.Invoke?
    ensures HasReference(Plain(t))
  {
    var s := Plain(t);
    assert s[0] == '%' && s[1] == '(';
  }

  lemma {:induction false} NoReference(env: Env, t: Template, place: Place)
    requires Proper(env, t, place) && !HasReference(Plain(t))
    ensures Eval(env, t) == Str(Plain(t))
    decreases t
  {
    hide HasReference, Literal, ProperCall, Print, PrintArgs, Variable, Applied, EvalArgs;
    match t
    case Done =>
    case Lit(c, rest) =>
      NoReferenceIn([c], Plain(rest));
      NoReference(env, rest, place);
    case Pair(c, rest) =>
      NoReferenceIn(['%', c], Plain(rest));
      NoReference(env, rest, place);
    case Group(inner, rest) =>
      NoReferenceIn("(", Plain(inner) + (")" + Plain(rest)));
      NoReferenceIn(Plain(inner), ")" + Plain(rest));
      NoReferenceIn(")", Plain(rest));
      NoReference(env, inner, if place.Top? then Top else Grouped(place.first));
      NoReference(env, rest, place);
    case Quoted(q, inner, rest) =>
      PlainTop(env, inner);
      NoReferenceIn(Print(inner), Plain(rest));
      NoReference(env, inner, Top);
      NoReference(env, rest, place);
    case Escape(c, rest) =>
      NoReferenceIn([c], Plain(rest));
      NoReference(env, rest, place);
    case Var(name, rest) =>
      ReferencePlain(t);
    case Invoke(fn, sep, args, rest) =>
      ReferencePlain(t);
  }

  /** A tree never leads the expander out of its string. */
  lemma {:induction false} EvalTame(env: Env, t: Template)
    ensures Eval(env, t) != Wild
    decreases t
  {
    match t
    case Done =>
    case Lit(c, rest) =>
      EvalTame(env, rest);
    case Pair(c, rest) =>
      EvalTame(env, rest);
    case Group(inner, rest) =>
      EvalTame(env, inner);
      EvalTame(env, rest);
    case Quoted(q, inner, rest) =>
      EvalTame(env, inner);
      EvalTame(env, rest);
    case Escape(c, rest) =>
      EvalTame(env, rest);
    case Var(name, rest) =>
      EvalTame(env, name);
      EvalTame(env, rest);
    case Invoke(fn, sep, args, rest) =>
      EvalTame(env, rest);
  }
}
