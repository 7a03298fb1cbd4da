/** Resolving a path component by component against a symbolic-link table (HX_realpath, src/io.c). */
module RealpathSpec {
  import opened CString

  const EINVAL: int := 22
  const ELOOP: int := 40

  /** What readlink says of a path: not a link (EINVAL), a target, or another error. */
  type Errno = e: int | e > 0 && e != EINVAL witness ELOOP
  datatype Link = NotLink | Target(t: CStr) | Failure(errno: Errno)
  type Oracle = CStr -> Link

  datatype Result = Ok(dest: seq<CStr>, links: nat) | Err(errno: int)

  /** The parts of a path between slashes, empty ones left out. */
  function Comps(s: CStr): seq<CStr>
    decreases |s|
  {
    if |s| == 0 then []
    else if s[0] == '/' then Comps(s[1..])
    else [s[..Part(s)]] + Comps(s[Part(s)..])
  }

  /** The length of the part at the start. */
  function Part(s: CStr): nat
    ensures Part(s) <= |s| && (|s| > 0 && s[0] != '/' ==> Part(s) > 0)
  {
    if |s| == 0 || s[0] == '/' then 0 else 1 + Part(s[1..])
  }

  function Joined(cs: seq<CStr>): CStr {
    if |cs| == 0 then "" else Joined(cs[..|cs| - 1]) + "/" + cs[|cs| - 1]
  }

  function Parent(cs: seq<CStr>): seq<CStr> {
    if |cs| == 0 then [] else cs[..|cs| - 1]
  }

  function More(r: Result): Result {
    match r case Ok(d, k) => Ok(d, k + 1) case Err(e) => Err(e)
  }

  /** Pathname resolution: `dest` is resolved, `path` is to come, `budget` more links may be followed. */
  function Resolve(links: Oracle, dest: seq<CStr>, path: seq<CStr>, budget: nat): (r: Result)
    ensures r.Ok? ==> r.links <= budget
    decreases budget, |path|
  {
    if |path| == 0 then Ok(dest, 0)
    else if path[0] == "." then Resolve(links, dest, path[1..], budget)
    else if path[0] == ".." then Resolve(links, Parent(dest), path[1..], budget)
    else
      match links(Joined(dest + [path[0]]))
      case NotLink => Resolve(links, dest + [path[0]], path[1..], budget)
      case Failure(e) => Err(e)
      case Target(t) =>
        if budget == 0 then Err(ELOOP)
        else More(Resolve(links, if |t| > 0 && t[0] == '/' then [] else dest, Comps(t) + path[1..], budget - 1))
  }

  predicate ProperPart(c: CStr) {
    c != "" && c != "." && c != ".." && '/' !in c
  }

  /** Resolved: proper parts only, and no leading part of it is a link. */
  ghost predicate Clean(links: Oracle, cs: seq<CStr>) {
    (forall i :: 0 <= i < |cs| ==> ProperPart(cs[i]))
    && (forall n :: 0 < n <= |cs| ==> Real(links, cs, n))
  }

  predicate Real(links: Oracle, cs: seq<CStr>, n: nat)
    requires n <= |cs|
  {
    links(Joined(cs[..n])) == NotLink
  }

  predicate Parts(cs: seq<CStr>) {
    forall i :: 0 <= i < |cs| ==> cs[i] != "" && '/' !in cs[i]
  }

  lemma {:induction false} PartClean(s: CStr)
    ensures '/' !in s[..Part(s)] && (Part(s) < |s| ==> s[Part(s)] == '/')
  {
    if |s| > 0 && s[0] != '/' {
      PartClean(s[1..]);
      assert s[..Part(s)] == [s[0]] + s[1..][..Part(s[1..])];
    }
  }

  lemma {:induction false} CompsAreParts(s: CStr)
    ensures Parts(Comps(s))
    decreases |s|
  {
    if |s| > 0 {
      if s[0] == '/' {
        CompsAreParts(s[1..]);
      } else {
        PartClean(s);
        CompsAreParts(s[Part(s)..]);
      }
    }
  }

  lemma CleanParent(links: Oracle, cs: seq<CStr>)
    requires Clean(links, cs)
    ensures Clean(links, Parent(cs))
  {
    var p := Parent(cs);
    forall n | 0 < n <= |p|
      ensures Real(links, p, n)
    {
      assert Real(links, cs, n) && p[..n] == cs[..n];
    }
  }

  lemma CleanMore(links: Oracle, cs: seq<CStr>, c: CStr)
    requires Clean(links, cs) && ProperPart(c) && links(Joined(cs + [c])) == NotLink
    ensures Clean(links, cs + [c])
  {
    var p := cs + [c];
    forall n | 0 < n <= |p|
      ensures Real(links, p, n)
    {
      if n <= |cs| {
        assert Real(links, cs, n) && p[..n] == cs[..n];
      } else {
        assert p[..n] == p;
      }
    }
  }

  /** A clean path resolves to itself without following a link. */
  lemma {:induction false} ResolveSelf(links: Oracle, cs: seq<CStr>, n: nat, budget: nat)
    requires Clean(links, cs) && n <= |cs|
    ensures Resolve(links, cs[..n], cs[n..], budget) == Ok(cs, 0)
    decreases |cs| - n
  {
    if n == |cs| {
      assert cs[..n] == cs;
    } else {
      assert cs[n..][0] == cs[n] && cs[n..][1..] == cs[n + 1..] && cs[..n] + [cs[n]] == cs[..n + 1];
      assert ProperPart(cs[n]) && Real(links, cs, n + 1);
      ResolveSelf(links, cs, n + 1, budget);
    }
  }

  function Then(r: Result, links: nat): Result {
    match r case Ok(d, k) => Ok(d, links + k) case Err(e) => Err(e)
  }

  /** One step of Resolve. */
  lemma Unroll(links: Oracle, dest: seq<CStr>, path: seq<CStr>, budget: nat)
    ensures Resolve(links, dest, path, budget) ==
      if |path| == 0 then Ok(dest, 0)
      else if path[0] == "." then Resolve(links, dest, path[1..], budget)
      else if path[0] == ".." then Resolve(links, Parent(dest), path[1..], budget)
      else match links(Joined(dest + [path[0]]))
        case NotLink => Resolve(links, dest + [path[0]], path[1..], budget)
        case Failure(e) => Err(e)
        case Target(t) =>
          if budget == 0 then Err(ELOOP)
          else More(Resolve(links, if |t| > 0 && t[0] == '/' then [] else dest, Comps(t) + path[1..], budget - 1))
    ensures Resolve(links, dest, path, budget).Ok? ==> Resolve(links, dest, path, budget).links <= budget
  {
  }

  /** Whatever the links are, cyclic or not: success means a clean result.  That no more links are
      followed than allowed is part of the contract of Resolve. */
  lemma {:induction false} ResolveClean(links: Oracle, dest: seq<CStr>, path: seq<CStr>, budget: nat)
    requires Clean(links, dest) && Parts(path)
    ensures var r := Resolve(links, dest, path, budget); r.Ok? ==> Clean(links, r.dest)
    decreases budget, |path|
  {
    hide Resolve, Clean;
    Unroll(links, dest, path, budget);
    if |path| > 0 {
      var rest := path[1..];
      assert Parts(rest);
      if path[0] == "." {
        ResolveClean(links, dest, rest, budget);
      } else if path[0] == ".." {
        CleanParent(links, dest);
        ResolveClean(links, Parent(dest), rest, budget);
      } else {
        match links(Joined(dest + [path[0]]))
        case NotLink =>
          CleanMore(links, dest, path[0]);
          ResolveClean(links, dest + [path[0]], rest, budget);
        case Failure(e) =>
        case Target(t) =>
          if budget > 0 {
            CompsAreParts(t);
            CleanNone(links);
            ResolveClean(links, if |t| > 0 && t[0] == '/' then [] else dest, Comps(t) + rest, budget - 1);
          }
      }
    }
  }

  lemma CleanNone(links: Oracle)
    ensures Clean(links, [])
  {
  }

  /** Resolving a path is resolving its front and then the rest from there. */
  lemma {:induction false} ResolveFront(links: Oracle, dest: seq<CStr>, front: seq<CStr>, back: seq<CStr>, budget: nat)
    ensures Resolve(links, dest, front + back, budget) ==
      match Resolve(links, dest, front, budget)
      case Err(e) => Err(e)
      case Ok(d, k) => Then(Resolve(links, d, back, budget - k), k)
    decreases budget, |front|
  {
    hide Resolve;
    Unroll(links, dest, front, budget);
    if |front| == 0 {
      assert front + back == back;
    } else {
      var all, rest := front + back, front[1..];
      assert all[1..] == rest + back && all[0] == front[0];
      Unroll(links, dest, all, budget);
      if front[0] == "." {
        ResolveFront(links, dest, rest, back, budget);
      } else if front[0] == ".." {
        ResolveFront(links, Parent(dest), rest, back, budget);
      } else {
        match links(Joined(dest + [front[0]]))
        case NotLink =>
          ResolveFront(links, dest + [front[0]], rest, back, budget);
        case Failure(e) =>
        case Target(t) =>
          if budget > 0 {
            assert Comps(t) + (rest + back) == Comps(t) + rest + back;
            ResolveFront(links, if |t| > 0 && t[0] == '/' then [] else dest, Comps(t) + rest, back, budget - 1);
          }
      }
    }
  }

  /** A larger budget changes no success. */
  lemma {:induction false} BudgetEnough(links: Oracle, dest: seq<CStr>, path: seq<CStr>, budget: nat, more: nat)
    requires Resolve(links, dest, path, budget).Ok? && budget <= more
    ensures Resolve(links, dest, path, more) == Resolve(links, dest, path, budget)
    decreases budget, |path|
  {
    if |path| > 0 {
      if path[0] == "." {
        BudgetEnough(links, dest, path[1..], budget, more);
      } else if path[0] == ".." {
        BudgetEnough(links, Parent(dest), path[1..], budget, more);
      } else {
        match links(Joined(dest + [path[0]]))
        case NotLink =>
          BudgetEnough(links, dest + [path[0]], path[1..], budget, more);
        case Failure(e) =>
        case Target(t) =>
          BudgetEnough(links, if |t| > 0 && t[0] == '/' then [] else dest, Comps(t) + path[1..], budget - 1, more - 1);
      }
    }
  }
}
