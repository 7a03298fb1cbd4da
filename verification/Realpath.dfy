/** HX_realpath (src/io.c) for absolute paths with all its flags and an empty buffer. */
module Realpath {
  import opened CString
  import opened RealpathSpec

  const LINK_MAX: nat := 40

  lemma {:induction false} PartIs(s: CStr, n: nat)
    requires n <= |s| && '/' !in s[..n] && (n < |s| ==> s[n] == '/')
    ensures Part(s) == n
  {
    if n > 0 {
      assert s[0] == s[..n][0];
      assert s[1..][..n - 1] == s[..n][1..];
      PartIs(s[1..], n - 1);
    }
  }

  lemma CompsSlash(s: CStr)
    requires s != "" && s[0] == '/'
    ensures Comps(s) == Comps(s[1..])
  {
  }

  lemma CompsNone()
    ensures Comps("") == []
  {
  }

  /** The first part of a path, and the rest. */
  lemma CompsFirst(s: CStr, n: nat)
    requires 0 < n <= |s| && '/' !in s[..n] && (n < |s| ==> s[n] == '/')
    ensures Comps(s) == [s[..n]] + Comps(s[n..])
  {
    PartIs(s, n);
    assert s[0] == s[..n][0];
  }

  lemma {:induction false} CompsJoin(a: CStr, b: CStr)
    requires b == "" || b[0] == '/'
    ensures Comps(a + b) == Comps(a) + Comps(b)
    decreases |a|
  {
    hide Part, Comps;
    var s: CStr := a + b;
    if |a| == 0 {
      assert s == b;
      CompsNone();
    } else if a[0] == '/' {
      assert s[1..] == a[1..] + b;
      CompsSlash(a);
      CompsSlash(s);
      CompsJoin(a[1..], b);
    } else {
      var n := Part(a);
      PartClean(a);
      assert s[..n] == a[..n] && s[n..] == a[n..] + b;
      CompsFirst(a, n);
      CompsFirst(s, n);
      CompsJoin(a[n..], b);
    }
  }

  lemma {:induction false} CompsJoined(cs: seq<CStr>)
    requires Parts(cs)
    ensures Comps(Joined(cs)) == cs
  {
    if |cs| > 0 {
      var p, c := cs[..|cs| - 1], cs[|cs| - 1];
      CompsJoined(p);
      var tail: CStr := "/" + c;
      CompsJoin(Joined(p), tail);
      assert Joined(cs) == Joined(p) + tail;
      assert tail[1..] == c && c[..|c|] == c;
      CompsFirst(c, |c|);
      assert p + [c] == cs;
    }
  }

  /** struct HX_realpath_state, without the scratch buffers. */
  class State {
    const links: Oracle
    var dest: CStr
    var path: CStr
    var deref_count: nat

    constructor (links: Oracle, path: CStr)
      ensures this.links == links && this.path == path && dest == "" && deref_count == 0
    {
      this.links, this.path, dest, deref_count := links, path, "", 0;
    }

    /** The loops that go back to the last slash of `dest` and cut there. */
    method Strip(ghost cs: seq<CStr>)
      requires dest == Joined(cs) && Parts(cs)
      modifies this`dest
      ensures dest == Joined(Parent(cs))
    {
      var cptr := |dest|;
      while cptr > 0
        invariant 0 <= cptr <= |dest| && dest == Joined(cs)
        invariant '/' !in dest[cptr..]
      {
        cptr := cptr - 1;
        if dest[cptr] == '/' {
          LastSlash(cs, cptr);
          dest := dest[..cptr];
          return;
        }
      }
      if |cs| > 0 {
        HasSlash(cs);
      }
      dest := dest[..cptr];
    }
  }

  lemma LastSlash(cs: seq<CStr>, n: nat)
    requires Parts(cs) && n < |Joined(cs)| && Joined(cs)[n] == '/' && '/' !in Joined(cs)[n + 1..]
    ensures |cs| > 0 && Joined(cs)[..n] == Joined(Parent(cs))
  {
    var p, c := Parent(cs), cs[|cs| - 1];
    var s, k := Joined(cs), |Joined(Parent(cs))|;
    assert s == Joined(p) + "/" + c && s[k] == '/' && s[k + 1..] == c;
    forall i | k < i < |s|
      ensures s[i] != '/'
    {
      assert s[i] == c[i - k - 1];
    }
    forall i | n < i < |s|
      ensures s[i] != '/'
    {
      assert s[i] == s[n + 1..][i - n - 1];
    }
    assert s[..k] == Joined(p);
  }

  lemma HasSlash(cs: seq<CStr>)
    requires |cs| > 0
    ensures '/' in Joined(cs)
  {
    assert Joined(cs)[|Joined(Parent(cs))|] == '/';
  }

  /** The path a link is relative to. */
  ghost function Base(l: Link, cs: seq<CStr>): seq<CStr> {
    if l.Target? && |l.t| > 0 && l.t[0] == '/' then [] else cs
  }

  /** HX_readlink and HX_realpath_symres on the path so far: 1 if a link was followed and the path
      replaced, -EINVAL if it is none, another error otherwise. */
  method Symres(state: State, path: CStr, ghost cs: seq<CStr>, ghost c: CStr) returns (ret: int)
    requires state.dest == Joined(cs + [c]) && Parts(cs + [c]) && (path == "" || path[0] == '/')
    modifies state
    ensures var l := state.links(Joined(cs + [c]));
      match l
      case NotLink => ret == -EINVAL && state.dest == old(state.dest) && state.deref_count == old(state.deref_count)
      case Failure(e) => ret + e == 0
      case Target(t) =>
        state.deref_count == old(state.deref_count) + 1
        && if old(state.deref_count) >= LINK_MAX then ret == -ELOOP
           else ret == 1 && Comps(state.path) == Comps(t) + Comps(path) && state.dest == Joined(Base(l, cs))
  {
    match state.links(state.dest) {
      case NotLink =>
        ret := -EINVAL;
      case Failure(e) =>
        var errno: int := e;
        ret := -errno;
      case Target(t) =>
        state.deref_count := state.deref_count + 1;
        if state.deref_count > LINK_MAX {
          return -ELOOP;
        }
        if |t| > 0 && t[0] == '/' {
          state.dest := "";
        } else {
          state.Strip(cs + [c]);
          assert Parent(cs + [c]) == cs;
        }
        CompsJoin(t, path);
        state.path := t + path;
        ret := 1;
    }
  }

  /** What is still to come, with the links followed so far. */
  ghost function Rest(links: Oracle, cs: seq<CStr>, path: CStr, deref: nat): Result
    requires deref <= LINK_MAX
  {
    Then(Resolve(links, cs, Comps(path), LINK_MAX - deref), deref)
  }

  /** The part at the start of a path. */
  method PartAt(path: CStr) returns (n: nat)
    requires path != "" && path[0] != '/'
    ensures 0 < n <= |path| && '/' !in path[..n] && (n < |path| ==> path[n] == '/')
  {
    n := 0;
    while n < |path| && path[n] != '/'
      invariant n <= |path| && '/' !in path[..n]
    {
      n := n + 1;
    }
  }

  /** The tests for "." and ".." at the start of a path. */
  lemma Dots(path: CStr, n: nat)
    requires 0 < n <= |path| && '/' !in path[..n] && (n < |path| ==> path[n] == '/')
    ensures path[0] == '.' && (At(path, 1) == '/' || At(path, 1) == '\0') <==> path[..n] == "."
    ensures path[0] == '.' && (At(path, 1) == '/' || At(path, 1) == '\0') ==> n == 1
    ensures path[0] == '.' && At(path, 1) == '.' && (At(path, 2) == '/' || At(path, 2) == '\0') <==> path[..n] == ".."
    ensures path[0] == '.' && At(path, 1) == '.' && (At(path, 2) == '/' || At(path, 2) == '\0') ==> n == 2
    ensures path[0] == '.' && At(path, 1) == '.' ==> |path| >= 2
  {
    forall i | 0 <= i < n
      ensures path[i] != '/' && path[i] != '\0'
    {
      assert path[i] == path[..n][i];
    }
    if n == 1 {
      assert path[..n] == [path[0]];
    } else if n == 2 {
      assert path[..n] == [path[0], path[1]];
    }
  }

  /** What a part at the start of the path means for the rest. */
  lemma PartStep(links: Oracle, cs: seq<CStr>, path: CStr, n: nat, deref: nat)
    requires 0 < n <= |path| && '/' !in path[..n] && (n < |path| ==> path[n] == '/') && deref <= LINK_MAX
    ensures var c, rest, r := path[..n], path[n..], Rest(links, cs, path, deref);
      if c == "." then r == Rest(links, cs, rest, deref)
      else if c == ".." then r == Rest(links, Parent(cs), rest, deref)
      else ProperPart(c) && r == Followed(links, cs, c, rest, deref)
  {
    hide Resolve, Comps, Joined;
    CompsFirst(path, n);
    var c: CStr := path[..n];
    assert Comps(path)[0] == c && Comps(path)[1..] == Comps(path[n..]);
    Unroll(links, cs, Comps(path), LINK_MAX - deref);
  }

  /** The outcome after a proper part, by what readlink says. */
  ghost function Followed(links: Oracle, cs: seq<CStr>, c: CStr, rest: CStr, deref: nat): Result
    requires deref <= LINK_MAX
  {
    match links(Joined(cs + [c]))
    case NotLink => Rest(links, cs + [c], rest, deref)
    case Failure(e) => Err(e)
    case Target(t) =>
      if deref == LINK_MAX then Err(ELOOP)
      else Then(Resolve(links, if |t| > 0 && t[0] == '/' then [] else cs, Comps(t) + Comps(rest),
        LINK_MAX - deref - 1), deref + 1)
  }

  /** Where the walk stands after what readlink said, and what is still to come from there. */
  lemma Landing(links: Oracle, l: Link, cs: seq<CStr>, c: CStr, rest: CStr, deref: nat, next: CStr)
    requires l == links(Joined(cs + [c])) && deref <= LINK_MAX
    ensures l.NotLink? ==> Followed(links, cs, c, rest, deref) == Rest(links, cs + [c], rest, deref)
    ensures l.Failure? ==> Followed(links, cs, c, rest, deref) == Err(l.errno)
    ensures l.Target? && deref == LINK_MAX ==> Followed(links, cs, c, rest, deref) == Err(ELOOP)
    ensures l.Target? && deref < LINK_MAX && Comps(next) == Comps(l.t) + Comps(rest) ==>
      Followed(links, cs, c, rest, deref) == Rest(links, Base(l, cs), next, deref + 1)
  {
    hide Resolve, Comps, Joined;
  }

  lemma PartsMore(cs: seq<CStr>, c: CStr)
    requires Parts(cs) && ProperPart(c)
    ensures Parts(cs + [c]) && Parts([]) && Parent(cs + [c]) == cs
  {
  }

  /** The branch of HX_realpath that appends a part and looks whether it is a link. */
  method Append(state: State, path: CStr, n: nat, ghost cs: seq<CStr>)
    returns (ret: int, next: CStr, ghost cs': seq<CStr>)
    requires state.dest == Joined(cs) && Parts(cs) && state.deref_count <= LINK_MAX
    requires 0 < n <= |path| && (n < |path| ==> path[n] == '/') && ProperPart(path[..n])
    modifies state
    ensures var f := Followed(state.links, cs, path[..n], path[n..], old(state.deref_count));
      if ret == -EINVAL || ret > 0 then
        state.dest == Joined(cs') && Parts(cs') && state.deref_count <= LINK_MAX
        && Rest(state.links, cs', next, state.deref_count) == f
        && if ret > 0 then state.deref_count ==
          old(state.deref_count) + 1 else state.deref_count == old(state.deref_count) && next == path[n..]
      else f == Err(-ret)
  {
    hide Resolve, Comps, Joined, Parts, ProperPart, Parent, Rest, Followed;
    ghost var c: CStr := path[..n];
    next := path[n..];
    JoinedMore(cs, c);
    PartsMore(cs, c);
    state.dest := state.dest + "/" + path[..n];
    ghost var l := state.links(Joined(cs + [c]));
    ghost var rest := next;
    ret := Symres(state, next, cs, c);
    cs' := cs + [c];
    if ret > 0 {
      next := state.path;
      cs' := Base(l, cs);
    }
    Landing(state.links, l, cs, c, rest, old(state.deref_count), next);
  }

  /** HX_realpath */
  method RealPath(links: Oracle, path0: CStr) returns (ret: int, r: CStr)
    requires |path0| > 0 && path0[0] == '/'
    ensures match Resolve(links, [], Comps(path0), LINK_MAX)
            case Ok(cs, k) => ret == 1 && r == if cs == [] then "/" else Joined(cs)
            case Err(e) => ret == -e
  {
    hide Resolve, Comps, Joined, Part, Rest, Followed, At;
    JoinedMore([], "");
    var state := new State(links, path0);
    var path := path0;
    ghost var cs: seq<CStr> := [];
    r := "";
    RestStart(links, path0);
    while path != ""
      invariant state.links == links && state.dest == Joined(cs) && Parts(cs) && state.deref_count <= LINK_MAX
      invariant Rest(links, cs, path, state.deref_count) == Rest(links, [], path0, 0)
      decreases LINK_MAX - state.deref_count, |path|
    {
      if path[0] == '/' {
        RestSlash(links, cs, path, state.deref_count);
        path := path[1..];
        continue;
      }
      var n := PartAt(path);
      PartStep(links, cs, path, n, state.deref_count);
      Dots(path, n);
      if path[0] == '.' && (At(path, 1) == '/' || At(path, 1) == '\0') {
        path := path[1..];
        continue;
      } else if path[0] == '.' && At(path, 1) == '.' && (At(path, 2) == '/' || At(path, 2) == '\0') {
        state.Strip(cs);
        cs, path := Parent(cs), path[2..];
        continue;
      }
      var next;
      ret, next, cs := Append(state, path, n, cs);
      if ret != -EINVAL && ret <= 0 {
        return;
      }
      path := next;
    }
    RestEnd(links, cs, state.deref_count);
    JoinedMore(cs, "");
    if state.dest == "" {
      state.dest := "/";
    }
    r := state.dest;
    ret := 1;
  }

  lemma RestStart(links: Oracle, path: CStr)
    ensures Rest(links, [], path, 0) == Resolve(links, [], Comps(path), LINK_MAX)
  {
  }

  lemma RestSlash(links: Oracle, cs: seq<CStr>, path: CStr, deref: nat)
    requires path != "" && path[0] == '/' && deref <= LINK_MAX
    ensures Rest(links, cs, path, deref) == Rest(links, cs, path[1..], deref)
  {
    CompsSlash(path);
  }

  lemma RestEnd(links: Oracle, cs: seq<CStr>, deref: nat)
    requires deref <= LINK_MAX
    ensures Rest(links, cs, "", deref) == Ok(cs, deref)
  {
    CompsNone();
    Unroll(links, cs, [], LINK_MAX - deref);
  }

  /** The text of a resolved path. */
  function Text(cs: seq<CStr>): CStr {
    if cs == [] then "/" else Joined(cs)
  }

  lemma CompsText(cs: seq<CStr>)
    requires Parts(cs)
    ensures Comps(Text(cs)) == cs
  {
    if cs == [] {
      var root: CStr := "/";
      assert root[1..] == "";
    } else {
      CompsJoined(cs);
    }
  }

  lemma CleanParts(links: Oracle, cs: seq<CStr>)
    requires Clean(links, cs)
    ensures Parts(cs)
  {
  }

  lemma JoinedMore(cs: seq<CStr>, c: CStr)
    ensures Joined(cs + [c]) == Joined(cs) + "/" + c && Joined([]) == "" && (cs != [] ==> Joined(cs) != "")
  {
    assert (cs + [c])[..|cs|] == cs;
  }

  /** The result has no empty, "." or ".." part and no leading part that is a link, at most 40 links
      were followed, and resolving the result gives the result. */
  lemma Canonical(links: Oracle, path: CStr, cs: seq<CStr>, k: nat)
    requires Resolve(links, [], Comps(path), LINK_MAX) == Ok(cs, k)
    ensures Clean(links, cs) && k <= 40
    ensures Resolve(links, [], Comps(Text(cs)), LINK_MAX) == Ok(cs, 0)
  {
    hide Resolve, Comps, Joined;
    CompsAreParts(path);
    CleanNone(links);
    ResolveClean(links, [], Comps(path), LINK_MAX);
    Unroll(links, [], Comps(path), LINK_MAX);
    CompsText(cs);
    ResolveSelf(links, cs, 0, LINK_MAX);
    assert cs[..0] == [] && cs[0..] == cs;
  }

  /** Putting the resolved front in place of the front of a path changes nothing but the number of
      links followed. */
  lemma FrontReplaced(links: Oracle, front: CStr, back: CStr, d: seq<CStr>, k: nat, cs: seq<CStr>, n: nat)
    requires Resolve(links, [], Comps(front), LINK_MAX) == Ok(d, k)
    requires Resolve(links, [], Comps(front + "/" + back), LINK_MAX) == Ok(cs, n)
    ensures k <= n && Resolve(links, [], Comps(Text(d) + "/" + back), LINK_MAX) == Ok(cs, n - k)
  {
    hide Resolve, Comps, Clean, Joined;
    var tail: CStr := "/" + back;
    Canonical(links, front, d, k);
    CleanParts(links, d);
    CompsText(d);
    CompsJoin(front, tail);
    CompsJoin(Text(d), tail);
    assert front + "/" + back == front + tail && Text(d) + "/" + back == Text(d) + tail;
    ResolveFront(links, [], Comps(front), Comps(tail), LINK_MAX);
    ResolveFront(links, [], d, Comps(tail), LINK_MAX);
    BudgetEnough(links, d, Comps(tail), LINK_MAX - k, LINK_MAX);
  }

  lemma CompsOne(c: CStr)
    requires ProperPart(c)
    ensures Comps(c) == [c]
  {
    CompsNone();
    CompsFirst(c, |c|);
    assert c[..|c|] == c && c[|c|..] == "";
  }

  /** A link to itself, wherever it stands and whatever follows, is an error for every budget. */
  lemma {:induction false} SelfLoop(links: Oracle, dest: seq<CStr>, c: CStr, rest: seq<CStr>, budget: nat)
    requires ProperPart(c) && links(Joined(dest + [c])) == Target(c)
    ensures Resolve(links, dest, [c] + rest, budget) == Err(ELOOP)
    decreases budget
  {
    hide Resolve, Comps, Joined;
    var path := [c] + rest;
    Unroll(links, dest, path, budget);
    if budget > 0 {
      CompsOne(c);
      assert Comps(c) + path[1..] == path;
      SelfLoop(links, dest, c, rest, budget - 1);
    }
  }

  /** The same for a link that names itself from the root, in a resolved directory. */
  lemma {:induction false} SelfLoopFromRoot(links: Oracle, dest: seq<CStr>, c: CStr, rest: seq<CStr>, budget: nat)
    requires Clean(links, dest) && ProperPart(c) && links(Joined(dest + [c])) == Target(Joined(dest + [c]))
    ensures Resolve(links, dest, [c] + rest, budget) == Err(ELOOP)
    decreases budget
  {
    hide Resolve, Comps, Joined, Clean;
    var path := [c] + rest;
    Unroll(links, dest, path, budget);
    if budget > 0 {
      var t := Joined(dest + [c]);
      JoinedAbsolute(dest + [c]);
      CleanParts(links, dest);
      CompsJoined(dest + [c]);
      assert dest + [c] + path[1..] == dest + path;
      ResolveFront(links, [], dest, path, budget - 1);
      ResolveSelf(links, dest, 0, budget - 1);
      assert dest[..0] == [] && dest[0..] == dest;
      SelfLoopFromRoot(links, dest, c, rest, budget - 1);
    }
  }

  lemma {:induction false} JoinedAbsolute(cs: seq<CStr>)
    requires |cs| > 0
    ensures |Joined(cs)| > 0 && Joined(cs)[0] == '/'
  {
    if |cs| > 1 {
      JoinedAbsolute(cs[..|cs| - 1]);
    }
  }
}
