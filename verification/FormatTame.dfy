/** A test on the text of a template that keeps the expander inside its string. */
module FormatTame {
  import opened CString
  import opened FormatSpec
  import opened FormatScan

  /** Characters at which some scanner may stop. */
  predicate MayStop(c: char) {
    c == ')' || c == ',' || IsSpace(c)
  }

  /** No quotes and backslashes, a character after every percent sign at which no scanner stops, and no
      blank right after an opening. */
  predicate Orderly(s: string) {
    (forall i :: 0 <= i < |s| ==> s[i] != '"' && s[i] != '\'' && s[i] != '\\')
    && (forall i :: 0 <= i < |s| && s[i] == '%' ==> i + 1 < |s| && !MayStop(s[i + 1]))
    && (forall i :: 0 <= i < |s| - 2 && s[i] == '%' && s[i + 1] == '(' ==> !IsSpace(s[i + 2]))
  }

  /** The same from the first reference on; before it, every percent sign has a character after it. */
  predicate Tame(s: string) {
    if |s| == 0 then true
    else if s[0] != '%' then Tame(s[1..])
    else |s| > 1 && if s[1] == '(' then Orderly(s) else Tame(s[2..])
  }

  lemma OrderlyRest(s: string, k: nat)
    requires Orderly(s) && k <= |s|
    ensures Orderly(s[k..])
  {
  }

  lemma OrderlyCut(s: string, n: nat)
    requires Orderly(s) && n <= |s| && (n < |s| ==> MayStop(s[n]))
    ensures Orderly(s[..n])
  {
  }

  /** The scanner comes to an end, and what it cuts out is orderly and has nothing to unquote. */
  lemma OrderlyScan(s: CStr, end: Stop)
    requires Orderly(s)
    ensures var o := Scan(s, 0, '\0', end); o.Some? && Dequoted(s[..o.value]) == s[..o.value] && Orderly(s[..o.value])
  {
    hide Scan, Dequoted;
    ScanStops(s, 0, '\0', end);
    var n := Scan(s, 0, '\0', end).value;
    OrderlyCut(s, n);
    DequotedPlain(s[..n]);
  }

  lemma OrderlyBlanks(s: CStr)
    requires Orderly(s)
    ensures Orderly(SkipBlanks(s))
  {
    SkipShorter(s);
    OrderlyRest(s, |s| - |SkipBlanks(s)|);
  }

  lemma {:induction false} OrderlyExpand(env: Env, s: CStr)
    requires Orderly(s)
    ensures Expand(env, s) != Wild
    decreases |s|, 0
  {
    hide Orderly, Any;
    if |s| > 0 {
      OrderlyFirst(s);
      OrderlyRest(s, 1);
      if s[0] != '%' {
        OrderlyExpand(env, s[1..]);
      } else {
        OrderlyRest(s, 2);
        if s[1] != '(' {
          OrderlyExpand(env, s[2..]);
        } else {
          OrderlyAny(env, s[2..]);
          OrderlyExpand(env, Any(env, s[2..]).rest);
        }
      }
    }
  }

  lemma OrderlyFirst(s: string)
    requires Orderly(s) && |s| > 0
    ensures s[0] == '%' ==> |s| > 1
    ensures s[0] == '%' && s[1] == '(' && |s| > 2 ==> !IsSpace(s[2])
  {
  }

  lemma {:induction false} OrderlyAny(env: Env, s: CStr)
    requires Orderly(s) && (|s| > 0 ==> !IsSpace(s[0]))
    ensures var x := Any(env, s); x.val != Wild && Orderly(x.rest)
    decreases |s|, 4
  {
    hide Orderly, Scan, Dequoted, Expand, Call, SkipBlanks;
    OrderlyScan(s, Name);
    OrderlyNone();
    var n := Scan(s, 0, '\0', Name).value;
    if |s| > 0 && s[0] == ')' {
      OrderlyRest(s, 1);
    } else if n < |s| {
      OrderlyRest(s, n + 1);
      if s[n] == ')' {
        OrderlyExpand(env, s[..n]);
      } else {
        SkipShorter(s[n + 1..]);
        OrderlyBlanks(s[n + 1..]);
        OrderlyCall(env, s[..n], SkipBlanks(s[n + 1..]));
      }
    }
  }

  lemma OrderlyNone()
    ensures Orderly("")
  {
  }

  lemma {:induction false} OrderlyCall(env: Env, fn: string, t: CStr)
    requires Orderly(t)
    ensures var x := Call(env, fn, t); x.val != Wild && Orderly(x.rest)
    decreases |t|, 3
  {
    hide Orderly, Gather;
    OrderlyNone();
    if |t| > 0 && t[0] == ')' {
      OrderlyRest(t, 1);
    } else {
      OrderlyGather(env, Delims(env, fn), t);
    }
  }

  lemma {:induction false} OrderlyGather(env: Env, delims: Stop, t: CStr)
    requires Orderly(t)
    ensures match Gather(env, delims, t) case Failed(v) => v != Wild case Gathered(_, rest) => Orderly(rest)
    decreases |t|, 2
  {
    hide Orderly, Scan, Dequoted, Expand, SkipBlanks;
    OrderlyNone();
    if |t| > 0 {
      SkipShorter(t);
      OrderlyBlanks(t);
      var u: CStr := SkipBlanks(t);
      OrderlyScan(u, delims);
      var n := Scan(u, 0, '\0', delims).value;
      OrderlyExpand(env, u[..n]);
      if n < |u| {
        OrderlyRest(u, n + 1);
        OrderlyGather(env, delims, u[n + 1..]);
      }
    }
  }

  /** Such a template never leads the expander out of its string, nor holds it. */
  lemma {:induction false} TameExpands(env: Env, s: CStr)
    requires Tame(s)
    ensures Expand(env, s) != Wild
    decreases |s|
  {
    hide Any, Orderly;
    if |s| > 0 {
      if s[0] != '%' {
        TameExpands(env, s[1..]);
      } else if s[1] == '(' {
        OrderlyExpand(env, s);
      } else {
        TameExpands(env, s[2..]);
      }
    }
  }
}
