/** What HX_realpath makes of dots, slashes and chains of links. */
module RealpathLaws {
  import opened CString
  import opened RealpathSpec
  import opened Realpath

  /** The parts of a path: slashes separate them, and any number of slashes separates as one. */
  lemma CompsSplit(a: CStr, b: CStr)
    ensures Comps(a + "/" + b) == Comps(a) + Comps(b) && Comps("") == []
    ensures a != "" && '/' !in a ==> Comps(a) == [a]
  {
    hide Comps;
    var tail: CStr := "/" + b;
    assert a + "/" + b == a + tail && tail[1..] == b;
    CompsJoin(a, tail);
    CompsSlash(tail);
    CompsNone();
    if a != "" && '/' !in a {
      assert a[..|a|] == a && a[|a|..] == "";
      CompsFirst(a, |a|);
    }
  }

  // ---------------------------------------------------------------- without links

  /** What is left of a path when it is read from its end: "." goes, and ".." takes along the next part
      that would stay. */
  function Kept(path: seq<CStr>, skip: nat): seq<CStr> {
    if |path| == 0 then []
    else
      var front, c := path[..|path| - 1], path[|path| - 1];
      if c == "." then Kept(front, skip)
      else if c == ".." then Kept(front, skip + 1)
      else if skip > 0 then Kept(front, skip - 1)
      else Kept(front, 0) + [c]
  }

  function Up(cs: seq<CStr>, n: nat): seq<CStr> {
    if n == 0 then cs else Up(Parent(cs), n - 1)
  }

  /** A path through directories without links is cleaned by its text alone; ".." does not leave the root. */
  lemma Lexical(links: Oracle, path: seq<CStr>, budget: nat)
    requires forall p :: links(p) == NotLink
    ensures Resolve(links, [], path, budget) == Ok(Kept(path, 0), 0)
  {
    LexicalUp(links, path, budget, 0);
  }

  lemma {:induction false} LexicalUp(links: Oracle, path: seq<CStr>, budget: nat, n: nat)
    requires forall p :: links(p) == NotLink
    ensures var r := Resolve(links, [], path, budget); r.Ok? && r.links == 0 && Up(r.dest, n) == Kept(path, n)
    decreases |path|
  {
    hide Resolve, Joined;
    Unroll(links, [], path, budget);
    if |path| == 0 {
      UpRoot(n);
    } else {
      var front, c := path[..|path| - 1], path[|path| - 1];
      assert path == front + [c];
      LexicalUp(links, front, budget, if c == "." then n else if c == ".." then n + 1 else if n > 0 then n - 1 else 0);
      ResolveFront(links, [], front, [c], budget);
      var d := Resolve(links, [], front, budget).dest;
      Unroll(links, d, [c], budget);
      assert [c][1..] == [] && Parent(d + [c]) == d;
      Unroll(links, d, [], budget);
      Unroll(links, Parent(d), [], budget);
      Unroll(links, d + [c], [], budget);
    }
  }

  lemma {:induction false} UpRoot(n: nat)
    ensures Up([], n) == []
  {
    if n > 0 {
      UpRoot(n - 1);
    }
  }

  // ---------------------------------------------------------------- chains of links

  /** Every name of `cs` in the directory `dest` but the last is a link to the next one, by its name or by its
      absolute path; the last one is no link. */
  ghost predicate Chain(links: Oracle, dest: seq<CStr>, cs: seq<CStr>) {
    |cs| > 0 && (forall i :: 0 <= i < |cs| ==> ProperPart(cs[i]))
    && (forall i :: 0 <= i < |cs| - 1 ==> LeadsTo(links(Joined(dest + [cs[i]])), dest, cs[i + 1]))
    && links(Joined(dest + [cs[|cs| - 1]])) == NotLink
  }

  predicate LeadsTo(l: Link, dest: seq<CStr>, c: CStr) {
    l == Target(c) || l == Target(Joined(dest + [c]))
  }

  lemma {:induction false} Chained(links: Oracle, dest: seq<CStr>, cs: seq<CStr>, i: nat, budget: nat)
    requires Clean(links, dest) && Chain(links, dest, cs) && i < |cs|
    ensures Resolve(links, dest, [cs[i]], budget) ==
      if |cs| - 1 - i <= budget then Ok(dest + [cs[|cs| - 1]], |cs| - 1 - i) else Err(ELOOP)
    decreases |cs| - i
  {
    hide Resolve, Comps, Joined, Clean;
    var c := cs[i];
    assert ProperPart(c) && [c][1..] == [];
    Unroll(links, dest, [c], budget);
    if i == |cs| - 1 {
      Unroll(links, dest + [c], [], budget);
    } else {
      var l, next := links(Joined(dest + [c])), cs[i + 1];
      assert LeadsTo(l, dest, next) && ProperPart(next);
      if budget > 0 {
        Chained(links, dest, cs, i + 1, budget - 1);
        Follow(links, dest, next, l.t, budget - 1);
      }
    }
  }

  /** A link's target by its name or by its absolute path. */
  lemma Follow(links: Oracle, dest: seq<CStr>, c: CStr, t: CStr, budget: nat)
    requires Clean(links, dest) && ProperPart(c) && (t == c || t == Joined(dest + [c]))
    ensures Resolve(links, if |t| > 0 && t[0] == '/' then [] else dest, Comps(t) + [], budget) ==
      Resolve(links, dest, [c], budget)
  {
    hide Resolve, Comps, Joined, Clean;
    if t == c {
      CompsOne(c);
      assert [c] + [] == [c];
    } else {
      CleanParts(links, dest);
      JoinedAbsolute(dest + [c]);
      CompsJoined(dest + [c]);
      assert dest + [c] + [] == dest + [c];
      ResolveFront(links, [], dest, [c], budget);
      ResolveSelf(links, dest, 0, budget);
      assert dest[..0] == [] && dest[0..] == dest;
    }
  }

  /** A chain of links in a resolved directory: up to 40 are followed to its end, and with more the answer
      is -ELOOP (-40). */
  method FollowChain(links: Oracle, dest: seq<CStr>, cs: seq<CStr>) returns (ret: int, r: CStr)
    requires Clean(links, dest) && Chain(links, dest, cs)
    ensures |cs| - 1 <= 40 ==> ret == 1 && r == Joined(dest) + "/" + cs[|cs| - 1]
    ensures |cs| - 1 > 40 ==> ret == -40
  {
    hide Resolve, Comps, Joined, Clean;
    var path := Joined(dest + [cs[0]]);
    assert ProperPart(cs[0]);
    CleanParts(links, dest);
    JoinedAbsolute(dest + [cs[0]]);
    CompsJoined(dest + [cs[0]]);
    ResolveFront(links, [], dest, [cs[0]], LINK_MAX);
    ResolveSelf(links, dest, 0, LINK_MAX);
    assert dest[..0] == [] && dest[0..] == dest;
    Chained(links, dest, cs, 0, LINK_MAX);
    JoinedMore(dest, cs[|cs| - 1]);
    ret, r := RealPath(links, path);
  }

  /** What cannot be looked at is an error, whatever follows it. */
  lemma Broken(links: Oracle, dest: seq<CStr>, c: CStr, rest: seq<CStr>, e: Errno)
    requires Clean(links, dest) && ProperPart(c) && links(Joined(dest + [c])) == Failure(e)
    ensures Resolve(links, [], dest + ([c] + rest), 40) == Err(e)
  {
    hide Resolve, Clean, Joined;
    ResolveFront(links, [], dest, [c] + rest, 40);
    ResolveSelf(links, dest, 0, 40);
    assert dest[..0] == [] && dest[0..] == dest;
    Unroll(links, dest, [c] + rest, 40);
  }
}
