/** HXformat_aprintf (src/format.c): the mutually recursive expander with its cursor. */
module Format {
  import opened MapTypes
  import opened CString
  import opened Dequote
  import opened FormatSpec

  /** A copy of the text, unquoted in place. */
  method Meminit(s: CStr) returns (tmp: CStr)
    ensures tmp == Dequoted(s)
  {
    hide Unquote;
    ghost var text := Dequoted(s);
    var buf := new char[|s| + 1](i requires 0 <= i <= |s| => if i < |s| then s[i] else '\0');
    assert buf[0..|s|] == s;
    var next := DequoteInt(buf, 0, "", s);
    var n := 0;
    assert forall k :: 0 <= k < |text| ==> buf[k] == buf[0..|text|][k] == text[k];
    assert forall k :: 0 <= k < |text| ==> text[k] != '\0';
    while buf[n] != '\0'
      invariant n <= |text|
      decreases |text| - n
    {
      n := n + 1;
    }
    tmp := buf[..n];
  }

  /** One turn of the scanning loop of HXparse_dequote_fmt. */
  method ScanStep(s: CStr, i0: nat, level0: nat, quot0: char, end: Stop)
    returns (i: nat, level: nat, quot: char, stop: bool)
    requires i0 < |s|
    ensures match Next(s[i0..], level0, quot0, end)
            case Halt => stop && i == i0 && level == level0 && quot == quot0
            case Stuck => !stop && i == i0 && level == level0 && quot == quot0
            case Go(n, l, q) => !stop && i == i0 + n && level == l && quot == q
  {
    i, level, quot, stop := i0, level0, quot0, false;
    if quot == '\0' {
      if s[i] == '"' || s[i] == '\'' {
        quot, i := s[i], i + 1;
        return;
      }
      if s[i] == '\\' {
        if i + 1 < |s| {
          i := i + 2;
        }
        return;
      }
      if s[i] == '(' {
        level, i := level + 1, i + 1;
        return;
      }
      if level == 0 && Stops(end, s[i]) {
        stop := true;
        return;
      }
      if s[i] == ')' && level > 0 {
        level := level - 1;
      }
      i := i + 1;
      return;
    }
    if s[i] == quot {
      quot, i := '\0', i + 1;
      return;
    } else if s[i] == '\\' {
      i := i + 1;
      if i < |s| {
        i := i + 1;
      }
      return;
    }
    i := i + 1;
  }

  /** HXparse_dequote_fmt, for a text on which the scanner does not stand still. */
  method DequoteFmt(s: CStr, pos: nat, end: Stop) returns (tmp: CStr, i: nat)
    requires pos <= |s| && Scan(s[pos..], 0, '\0', end).Some?
    ensures Scan(s[pos..], 0, '\0', end) == Some(i - pos) && pos <= i <= |s| && tmp == Dequoted(s[pos..i])
    ensures i < |s| ==> Stops(end, s[i])
  {
    hide Scan, Dequoted, Stops, Next;
    var level: nat, quot := 0, '\0';
    i := pos;
    while i < |s|
      invariant pos <= i <= |s|
      invariant Shift(i - pos, Scan(s[i..], level, quot, end)) == Scan(s[pos..], 0, '\0', end)
    {
      var stop;
      ScanNext(s, i, level, quot, end);
      i, level, quot, stop := ScanStep(s, i, level, quot, end);
      if stop {
        break;
      }
    }
    ScanEnd(s, i, level, quot, end);
    tmp := Meminit(s[pos..i]);
  }

  /** The scanner at place `i`. */
  lemma ScanNext(s: CStr, i: nat, level: nat, quot: char, end: Stop)
    requires i < |s|
    ensures var m := Next(s[i..], level, quot, end);
      Scan(s[i..], level, quot, end) ==
        match m case Halt => Some(0) case Stuck => None case Go(n, l, q) => Shift(n, Scan(s[i + n..], l, q, end))
    ensures s[i..][0] == s[i] && (|s[i..]| > 1 <==> i + 1 < |s|)
  {
    hide Next;
    var m := Next(s[i..], level, quot, end);
    if m.Go? {
      assert s[i..][m.n..] == s[i + m.n..];
    }
  }

  lemma ScanEnd(s: CStr, i: nat, level: nat, quot: char, end: Stop)
    requires i <= |s|
    ensures i == |s| ==> Scan(s[i..], level, quot, end) == Some(0)
  {
  }

  /** HX_strchr0 */
  method StrChr0(s: CStr, pos: nat) returns (i: nat)
    requires pos <= |s|
    ensures pos <= i <= |s| && (i < |s| ==> s[i] == '%') && forall k :: pos <= k < i ==> s[k] != '%'
  {
    i := pos;
    while i < |s| && s[i] != '%'
      invariant pos <= i <= |s| && forall k :: pos <= k < i ==> s[k] != '%'
    {
      i := i + 1;
    }
  }

  /** HX_isspace skipping loop. */
  method SkipAt(s: CStr, pos: nat) returns (i: nat)
    requires pos <= |s|
    ensures pos <= i <= |s| && s[i..] == SkipBlanks(s[pos..])
    ensures pos < |s| && IsSpace(s[pos]) ==> i > pos
  {
    i := pos;
    while i < |s| && IsSpace(s[i])
      invariant pos <= i <= |s| && SkipBlanks(s[i..]) == SkipBlanks(s[pos..])
      invariant i == pos || IsSpace(s[pos])
    {
      assert s[i..][1..] == s[i + 1..];
      i := i + 1;
    }
  }

  lemma AppendText(a: string, b: string, o: Outcome)
    ensures Append(Str(a), Append(Str(b), o)) == Append(Str(a + b), o)
  {
    if o.Str? {
      assert a + (b + o.s) == a + b + o.s;
    }
  }

  lemma AppendNone(o: Outcome)
    ensures Append(Str(""), o) == o
  {
    if o.Str? {
      assert "" + o.s == o.s;
    }
  }

  lemma {:induction false} ExpandRun(env: Env, s: CStr, n: nat)
    requires n <= |s| && forall k :: 0 <= k < n ==> s[k] != '%'
    ensures Expand(env, s) == Append(Str(s[..n]), Expand(env, s[n..]))
  {
    hide Any;
    if n == 0 {
      assert s[0..] == s;
      AppendNone(Expand(env, s));
    } else {
      ExpandRun(env, s[1..], n - 1);
      assert s[1..][n - 1..] == s[n..] && s[..n] == s[..1] + s[1..][..n - 1];
      AppendText(s[..1], s[1..][..n - 1], Expand(env, s[n..]));
    }
  }

  /** `out` has been written, and the template from `fmt` on is still to come. */
  predicate Halfway(env: Env, template: CStr, out: string, fmt: nat)
    requires fmt <= |template|
  {
    Append(Str(out), Expand(env, template[fmt..])) == Expand(env, template)
  }

  lemma Start(env: Env, template: CStr)
    ensures Halfway(env, template, "", 0)
  {
    assert template[0..] == template;
    AppendNone(Expand(env, template));
  }

  /** The text before the next percent sign is copied. */
  lemma CopyRun(env: Env, template: CStr, out: string, fmt: nat, current: nat)
    requires fmt <= current <= |template| && Halfway(env, template, out, fmt)
    requires forall k :: fmt <= k < current ==> template[k] != '%'
    ensures Halfway(env, template, out + template[fmt..current], current)
  {
    hide Expand, Append;
    ghost var t: CStr, n := template[fmt..], current - fmt;
    assert t[..n] == template[fmt..current] && t[n..] == template[current..];
    ExpandRun(env, t, n);
    AppendText(out, t[..n], Expand(env, t[n..]));
  }

  lemma Finished(env: Env, template: CStr, out: string)
    requires Halfway(env, template, out, |template|)
    ensures Expand(env, template) == Str(out)
  {
    assert template[|template|..] == "" && out + "" == out;
  }

  /** A percent sign is not the last character; without a parenthesis it is copied with the next one. */
  lemma CopyPair(env: Env, template: CStr, out: string, i: nat)
    requires i < |template| && template[i] == '%' && Halfway(env, template, out, i) && Expand(env, template) != Wild
    ensures i + 1 < |template|
    ensures template[i + 1] != '(' ==> Halfway(env, template, out + template[i..i + 2], i + 2)
  {
    hide Any;
    var t: CStr := template[i..];
    assert t[0] == template[i] && (|t| > 1 ==> t[1] == template[i + 1]);
    if |t| > 1 && t[1] != '(' {
      assert t[..2] == template[i..i + 2] && t[2..] == template[i + 2..];
      AppendText(out, t[..2], Expand(env, t[2..]));
    }
  }

  /** A reference is replaced by its value. */
  lemma PutValue(env: Env, template: CStr, out: string, i: nat)
    requires i + 1 < |template| && template[i] == '%' && template[i + 1] == '(' && Halfway(env, template, out, i)
    ensures var x := Any(env, template[i + 2..]);
      match x.val
      case Wild => Expand(env, template) == Wild
      case Error => Expand(env, template) == Error
      case Nothing => Expand(env, template) == Append(Str(out), Expand(env, x.rest))
      case Str(s) => Expand(env, template) == Append(Str(out + s), Expand(env, x.rest))
  {
    hide Any;
    var t: CStr := template[i..];
    assert t[0] == template[i] && t[1] == template[i + 1] && t[2..] == template[i + 2..];
    var x := Any(env, t[2..]);
    if x.val.Str? {
      AppendText(out, x.val.s, Expand(env, x.rest));
    }
  }

  /** HXformat_aprintf, for templates that do not lead out of their string. */
  method Aprintf(env: Env, template: CStr) returns (r: Outcome)
    requires Expand(env, template) != Wild
    ensures r == Expand(env, template)
    decreases |template|, 0
  {
    hide Expand, Any, Append, Halfway;
    var out, fmt: nat := "", 0;
    Start(env, template);
    while true
      invariant fmt <= |template| && Halfway(env, template, out, fmt)
      decreases |template| - fmt
    {
      var current := StrChr0(template, fmt);
      CopyRun(env, template, out, fmt, current);
      out := out + template[fmt..current];
      if current == |template| {
        break;
      }
      CopyPair(env, template, out, current);
      if template[current + 1] != '(' {
        out := out + template[current..current + 2];
        fmt := current + 2;
        continue;
      }
      PutValue(env, template, out, current);
      ghost var x := Any(env, template[current + 2..]);
      var ex, next := Xany(env, template, current + 2);
      if ex == Error {
        return Error;
      }
      if ex.Str? {
        out := out + ex.s;
      }
      Onward(env, template, out, next);
      fmt := next;
    }
    Finished(env, template, out);
    r := Str(out);
  }

  lemma Onward(env: Env, template: CStr, out: string, next: nat)
    requires next <= |template| && Expand(env, template) == Append(Str(out), Expand(env, template[next..]))
    ensures Halfway(env, template, out, next)
  {
  }

  /** What Any decides, at the place where the name ends. */
  lemma AnyAt(env: Env, s: CStr)
    ensures var o, x := Scan(s, 0, '\0', Name), Any(env, s);
      if |s| > 0 && (s[0] == ')' || IsSpace(s[0])) then s[0] == ')' ==> x == Expanded(Nothing, s[1..])
      else if o == None then x.val == Wild
      else
        var n := o.value;
        if n == |s| then x.val == Error
        else if s[n] == ')' then x == Expanded(Variable(env, Expand(env, Dequoted(s[..n]))), s[n + 1..])
        else IsSpace(s[n]) && x == Call(env, Dequoted(s[..n]), SkipBlanks(s[n..]))
  {
    hide Expand, Call, Dequoted;
    ScanStops(s, 0, '\0', Name);
    var o := Scan(s, 0, '\0', Name);
    if o.Some? && o.value < |s| {
      assert s[o.value..][1..] == s[o.value + 1..];
    }
  }

  /** The same by places in the whole template. */
  lemma AnyHere(env: Env, s: CStr, pos: nat)
    requires pos <= |s|
    ensures var o, x := Scan(s[pos..], 0, '\0', Name), Any(env, s[pos..]);
      if pos < |s| && (s[pos] == ')' || IsSpace(s[pos])) then s[pos] == ')' ==> x == Expanded(Nothing, s[pos + 1..])
      else if o == None then x.val == Wild
      else
        var q := pos + o.value;
        if q == |s| then x.val == Error
        else if s[q] == ')' then x == Expanded(Variable(env, Expand(env, Dequoted(s[pos..q]))), s[q + 1..])
        else IsSpace(s[q]) && x == Call(env, Dequoted(s[pos..q]), SkipBlanks(s[q..]))
  {
    hide Expand, Call, Dequoted, Any, Scan, SkipBlanks, Variable;
    var t: CStr := s[pos..];
    AnyAt(env, t);
    assert |t| > 0 ==> t[0] == s[pos] && t[1..] == s[pos + 1..];
    var o := Scan(t, 0, '\0', Name);
    if o.Some? {
      var n, q := o.value, pos + o.value;
      assert t[..n] == s[pos..q] && t[n..] == s[q..];
      assert n < |t| ==> t[n] == s[q] && t[n + 1..] == s[q + 1..];
    }
  }

  /** What Any decides at a blank. */
  lemma AnyBlank(env: Env, s: CStr)
    requires |s| > 0 && IsSpace(s[0])
    ensures var u: CStr := SkipBlanks(s); var o, x := Scan(u, 0, '\0', CLOSE), Any(env, s);
      if o == None || o.value == |u| then x.val == Wild else x == Expanded(Nothing, u[o.value + 1..])
  {
    hide Scan, SkipBlanks;
  }

  /** The shortcut of HXformat2_xany for a blank after the opening parenthesis. */
  method XanyBlank(env: Env, s: CStr, pos: nat) returns (next: nat)
    requires pos < |s| && IsSpace(s[pos]) && Any(env, s[pos..]).val != Wild
    ensures pos < next <= |s| && Any(env, s[pos..]) == Expanded(Nothing, s[next..])
  {
    hide Any, Scan, Dequoted, SkipBlanks;
    AnyBlank(env, s[pos..]);
    var from := SkipAt(s, pos);
    var dropped;
    dropped, next := DequoteFmt(s, from, CLOSE);
    assert s[from..][next - from + 1..] == s[next + 1..];
    next := next + 1;
  }

  /** HXformat2_xany; `pos` is the cursor after "%(". */
  method Xany(env: Env, s: CStr, pos: nat) returns (v: Val, next: nat)
    requires pos <= |s| && Any(env, s[pos..]).val != Wild
    ensures v == Any(env, s[pos..]).val
    ensures v != Error ==> pos <= next <= |s| && s[next..] == Any(env, s[pos..]).rest
    decreases |s| - pos, 4
  {
    hide Any, Call, Expand, Scan, Dequoted;
    AnyHere(env, s, pos);
    if pos < |s| && s[pos] == ')' {
      return Nothing, pos + 1;
    } else if pos < |s| && IsSpace(s[pos]) {
      next := XanyBlank(env, s, pos);
      return Nothing, next;
    }
    var name, q := DequoteFmt(s, pos, Name);
    if q == |s| {
      return Error, q;
    }
    if s[q] == ')' {
      next := q + 1;
      var newName := Aprintf(env, name);
      if newName == Error || newName.s == "" {
        v := Error;
      } else if newName.s in env.vars {
        v := Str(env.vars[newName.s]);
      } else {
        v := Nothing;
      }
    } else {
      next := SkipAt(s, q);
      v, next := Xcall(env, name, s, next);
    }
  }

  lemma GatherAt(env: Env, delims: Stop, t: CStr)
    requires |t| > 0
    ensures var u: CStr := SkipBlanks(t); var o, g := Scan(u, 0, '\0', delims), Gather(env, delims, t);
      if o == None then g == Failed(Wild)
      else
        var n, a := o.value, Argument(env, Dequoted(u[..o.value]));
        if !a.Str? then g == Failed(a)
        else if n == |u| then g == Gathered([a.s], "")
        else if u[n] == ')' then g == Gathered([a.s], u[n + 1..])
        else g == Following([a.s], Gather(env, delims, u[n + 1..]))
  {
    hide Argument, Scan, SkipBlanks;
  }

  /** The same by places in the whole template, `sx` after the blanks. */
  lemma GatherHere(env: Env, delims: Stop, s: CStr, cur: nat, sx: nat)
    requires cur < |s| && cur <= sx <= |s| && s[sx..] == SkipBlanks(s[cur..])
    ensures var o, g := Scan(s[sx..], 0, '\0', delims), Gather(env, delims, s[cur..]);
      if o == None then g == Failed(Wild)
      else
        var q := sx + o.value;
        q <= |s|
        && var a := Argument(env, Dequoted(s[sx..q]));
        if !a.Str? then g == Failed(a)
        else if q == |s| then g == Gathered([a.s], "")
        else if s[q] == ')' then g == Gathered([a.s], s[q + 1..])
        else g == Following([a.s], Gather(env, delims, s[q + 1..]))
  {
    hide Argument, Scan, SkipBlanks, Gather, Following, Dequoted;
    var u: CStr := s[sx..];
    GatherAt(env, delims, s[cur..]);
    var o := Scan(u, 0, '\0', delims);
    if o.Some? {
      var n, q := o.value, sx + o.value;
      assert u[..n] == s[sx..q];
      assert n < |u| ==> u[n] == s[q] && u[n + 1..] == s[q + 1..];
    }
  }

  lemma FollowingTwice(a: seq<string>, b: seq<string>, g: Gathered)
    ensures Following(a, Following(b, g)) == Following(a + b, g)
    ensures Following(a, Gathered([], "")) == Gathered(a, "")
  {
    assert a + [] == a;
    if g.Gathered? {
      assert a + (b + g.args) == a + b + g.args;
    }
  }

  /** HXformat2_xcall; `pos` is the cursor at the first argument. */
  method Xcall(env: Env, name: string, s: CStr, pos: nat) returns (v: Val, next: nat)
    requires pos <= |s| && Call(env, name, s[pos..]).val != Wild
    ensures v == Call(env, name, s[pos..]).val
    ensures v != Error ==> pos <= next <= |s| && s[next..] == Call(env, name, s[pos..]).rest
    decreases |s| - pos, 3
  {
    hide Gather, Expand, Scan, SkipBlanks;
    ghost var t: CStr := s[pos..];
    assert |t| > 0 ==> t[0] == s[pos] && t[1..] == s[pos + 1..];
    var argv: Option<seq<string>> := Some([]);
    if pos < |s| && s[pos] == ')' {
      next := pos + 1;
    } else {
      argv, next := Gathering(env, Delims(env, name), s, pos);
    }
    v := if argv == None then Error else Apply(env, name, argv.value);
  }

  /** The argument loop of HXformat2_xcall. */
  method Gathering(env: Env, delims: Stop, s: CStr, pos: nat) returns (r: Option<seq<string>>, cur: nat)
    requires pos <= |s| && Gather(env, delims, s[pos..]) != Failed(Wild)
    ensures match Gather(env, delims, s[pos..])
            case Failed(v) => v == Error && r == None
            case Gathered(args, rest) => r == Some(args) && pos <= cur <= |s| && s[cur..] == rest
    decreases |s| - pos, 2
  {
    hide Gather, Expand, Scan, SkipBlanks, Dequoted;
    ghost var g := Gather(env, delims, s[pos..]);
    var argv: seq<string> := [];
    cur := pos;
    FollowingNone(g);
    while cur < |s|
      invariant pos <= cur <= |s| && Following(argv, Gather(env, delims, s[cur..])) == g
      decreases |s| - cur
    {
      var sx := SkipAt(s, cur);
      GatherHere(env, delims, s, cur, sx);
      var cut;
      cut, cur := DequoteFmt(s, sx, delims);
      var ret: string := cut;
      if HasReference(cut) {
        var ret2 := Aprintf(env, cut);
        if ret2 == Error {
          return None, cur;
        }
        ret := ret2.s;
      }
      FollowingTwice(argv, [ret], if cur < |s| then Gather(env, delims, s[cur + 1..]) else Failed(Error));
      argv := argv + [ret];
      if cur == |s| {
        return Some(argv), cur;
      }
      if s[cur] == ')' {
        return Some(argv), cur + 1;
      }
      cur := cur + 1;
    }
    assert s[cur..] == "";
    GatherEnd(env, delims);
    FollowingTwice(argv, [], Failed(Error));
    r := Some(argv);
  }

  lemma FollowingNone(g: Gathered)
    ensures Following([], g) == g
  {
    if g.Gathered? {
      assert [] + g.args == g.args;
    }
  }

  lemma GatherEnd(env: Env, delims: Stop)
    ensures Gather(env, delims, "") == Gathered([], "")
  {
  }
}
