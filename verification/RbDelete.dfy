/** HXrbtree_dmov and HXrbtree_del_mm: rebalancing after a deletion. */
module RbDelete {
  import opened RbTheory
  import opened RbHeap

  /** The focus is one black node short; a red focus may have red children. */
  ghost predicate Deficit(c: Ctx, x: Tree) {
    NearOk(x) && CtxOk(c, BlackHeight(x) + 1)
  }

  /** The sibling that the source dereferences exists. */
  lemma SiblingExists(c: Ctx, x: Tree)
    requires Deficit(c, x) && c.Frame?
    ensures c.sib.Fork? && Ok(c.sib) && (!c.sib.Black() ==> !c.red && c.sib.l.Fork? && c.sib.r.Fork?)
  {
  }

  /** Case 2: a red sibling is rotated above the parent; the way to the focus grows by one. */
  ghost function Case2(c: Ctx): Ctx
    requires c.Frame? && c.sib.Fork?
  {
    Frame(c.node, true, c.dir, Child(c.sib, c.dir), Frame(c.sib.node, false, c.dir, Child(c.sib, !c.dir), c.up))
  }

  lemma Case2Ok(c: Ctx, x: Tree)
    requires Deficit(c, x) && c.Frame? && !c.sib.Black() && x.Black()
    ensures Deficit(Case2(c), x) && Case2(c).sib.Fork? && Case2(c).sib.Black()
  {
    assert CtxOk(c.up, BlackHeight(x) + 2);
  }

  /** Cases 3 and 4: the sibling turns red and the deficit moves up. */
  lemma Case3Ok(c: Ctx, x: Tree)
    requires Deficit(c, x) && c.Frame? && x.Black()
    requires c.sib.Fork? && c.sib.Black() && c.sib.l.Black() && c.sib.r.Black()
    ensures Deficit(c.up, Fill(c.(sib := c.sib.(red := true)), x))
  {
    assert Ok(c.sib.(red := true));
  }

  /** Case 5: the near red child is rotated above the sibling. */
  ghost function Case5(c: Ctx): Ctx
    requires c.Frame? && c.sib.Fork? && Child(c.sib, c.dir).Fork?
  {
    var r := Rotated(c.sib, c.dir);
    c.(sib := Mk(r.node, false, c.dir, Child(r, c.dir), Child(r, !c.dir).(red := true)))
  }

  lemma Case5Ok(c: Ctx, x: Tree)
    requires Deficit(c, x) && c.Frame? && c.sib.Fork? && c.sib.Black()
    requires !Child(c.sib, c.dir).Black() && Child(c.sib, !c.dir).Black()
    ensures Deficit(Case5(c), x) && Case5(c).sib.Fork? && Case5(c).sib.Black() && !Child(Case5(c).sib, !c.dir).Black()
  {
    var w, y, d := c.sib, Child(c.sib, c.dir), c.dir;
    assert Ok(w) && Ok(y);
    assert Ok(Mk(w.node, true, d, Child(y, !d), Child(w, !d)));
    assert Ok(Case5(c).sib);
  }

  /** Case 6: the sibling takes the parent's place and colour. */
  ghost function Case6(c: Ctx, x: Tree): Tree
    requires c.Frame? && c.sib.Fork? && Child(c.sib, !c.dir).Fork?
  {
    var d := !c.dir;
    Mk(c.sib.node, c.red, d, Child(c.sib, d).(red := false), Mk(c.node, false, d, Child(c.sib, c.dir), x))
  }

  lemma Case6Ok(c: Ctx, x: Tree)
    requires Deficit(c, x) && c.Frame? && x.Black() && c.sib.Fork? && c.sib.Black() && !Child(c.sib, !c.dir).Black()
    ensures var u := Case6(c, x); Ok(u) && CtxOk(c.up, BlackHeight(u)) && (c.up.Red() || c.up.Top? ==> u.Black())
  {
    assert Ok(Child(c.sib, !c.dir));
    assert Ok(Child(c.sib, !c.dir).(red := false));
    assert Ok(Mk(c.node, false, !c.dir, Child(c.sib, c.dir), x));
  }

  method DoCase2(p: RbNode, pd: bool, parent: RbNode, LR: bool, w: RbNode,
                 ghost all: set<RbNode>, ghost anchor: RbNode, ghost c: Ctx, ghost x: Tree)
    requires Zip(all, anchor, c, x) && c.Frame? && c.sib.Fork?
    requires p == Holder(c.up, anchor) && pd == Turn(c.up) && parent == c.node && LR == c.dir && w == c.sib.node
    modifies all`left, all`right, all`red, anchor`left, anchor`right
    ensures Zip(all, anchor, Case2(c), x)
  {
    hide Zip;
    ZipLook(all, anchor, c, x);
    ZipUp(all, anchor, c, x);
    ZipLook(all, anchor, c.up, Fill(c, x));
    ZipDown(all, anchor, c.up, Fill(c, x), !LR);
    ghost var cw := c.(dir := !LR, sib := x);
    Paint(w, false, all, anchor, cw, c.sib);
    ghost var w' := c.sib.(red := false);
    ZipUp(all, anchor, cw, w');
    Paint(parent, true, all, anchor, c.up, Fill(cw, w'));
    ghost var g := Fill(cw.(red := true), w');
    Rotate(p, pd, parent, !LR, w, all, anchor, c.up, g);
    ZipDown(all, anchor, c.up, Rotated(g, !LR), LR);
    ZipDown(all, anchor, Case2(c).up, Child(Rotated(g, !LR), LR), LR);
  }

  method DoCase3(w: RbNode, ghost all: set<RbNode>, ghost anchor: RbNode, ghost c: Ctx, ghost x: Tree)
    requires Zip(all, anchor, c, x) && c.Frame? && c.sib.Root() == w
    modifies w`red
    ensures Zip(all, anchor, c.up, Fill(c.(sib := c.sib.(red := true)), x))
  {
    hide Zip;
    ghost var cw := c.(dir := !c.dir, sib := x);
    ZipUp(all, anchor, c, x);
    ZipDown(all, anchor, c.up, Fill(c, x), !c.dir);
    Paint(w, true, all, anchor, cw, c.sib);
    ZipUp(all, anchor, cw, c.sib.(red := true));
  }

  method DoCase5(parent: RbNode, LR: bool, w: RbNode, y: RbNode,
                 ghost all: set<RbNode>, ghost anchor: RbNode, ghost c: Ctx, ghost x: Tree)
    requires Zip(all, anchor, c, x) && c.Frame? && c.sib.Fork? && Child(c.sib, c.dir).Fork?
    requires parent == c.node && LR == c.dir && w == c.sib.node && y == Child(c.sib, LR).node
    modifies all`left, all`right, all`red, anchor`left, anchor`right
    ensures Zip(all, anchor, Case5(c), x)
  {
    hide Zip;
    ZipLook(all, anchor, c, x);
    ZipUp(all, anchor, c, x);
    ZipDown(all, anchor, c.up, Fill(c, x), !LR);
    ghost var cw := c.(dir := !LR, sib := x);
    ghost var s := c.sib;
    ZipDown(all, anchor, cw, s, LR);
    ghost var cy := Frame(w, s.red, LR, Child(s, !LR), cw);
    ZipLook(all, anchor, cy, Child(s, LR));
    Paint(y, false, all, anchor, cy, Child(s, LR));
    ghost var y' := Child(s, LR).(red := false);
    ZipUp(all, anchor, cy, y');
    Paint(w, true, all, anchor, cw, Fill(cy, y'));
    ghost var s' := Fill(cy.(red := true), y');
    Rotate(parent, !LR, w, LR, y, all, anchor, cw, s');
    ZipUp(all, anchor, cw, Rotated(s', LR));
    ZipDown(all, anchor, c.up, Fill(cw, Rotated(s', LR)), LR);
  }

  method DoCase6(p: RbNode, pd: bool, parent: RbNode, LR: bool, w: RbNode, far: RbNode,
                 ghost all: set<RbNode>, ghost anchor: RbNode, ghost c: Ctx, ghost x: Tree)
    requires Zip(all, anchor, c, x) && c.Frame? && c.sib.Fork? && Child(c.sib, !c.dir).Fork?
    requires p == Holder(c.up, anchor) && pd == Turn(c.up) && parent == c.node && LR == c.dir
    requires w == c.sib.node && far == Child(c.sib, !LR).node
    modifies all`left, all`right, all`red, anchor`left, anchor`right
    ensures Zip(all, anchor, c.up, Case6(c, x))
  {
    hide Zip;
    ZipLook(all, anchor, c, x);
    ZipUp(all, anchor, c, x);
    ZipLook(all, anchor, c.up, Fill(c, x));
    ZipDown(all, anchor, c.up, Fill(c, x), !LR);
    ghost var cw := c.(dir := !LR, sib := x);
    ZipLook(all, anchor, cw, c.sib);
    Paint(w, parent.red, all, anchor, cw, c.sib);
    ghost var w1 := c.sib.(red := c.red);
    ZipUp(all, anchor, cw, w1);
    Paint(parent, false, all, anchor, c.up, Fill(cw, w1));
    cw := cw.(red := false);
    ZipDown(all, anchor, c.up, Fill(cw, w1), !LR);
    ZipDown(all, anchor, cw, w1, !LR);
    ghost var cf := Frame(w, c.red, !LR, Child(w1, LR), cw);
    Paint(far, false, all, anchor, cf, Child(w1, !LR));
    ghost var f' := Child(w1, !LR).(red := false);
    ZipUp(all, anchor, cf, f');
    ZipUp(all, anchor, cw, Fill(cf, f'));
    Rotate(p, pd, parent, !LR, w, all, anchor, c.up, Fill(cw, Fill(cf, f')));
  }

  lemma PaintedOk(c: Ctx, x: Tree)
    requires Deficit(c, x) && !x.Black()
    ensures var u := x.(red := false); Ok(u) && CtxOk(c, BlackHeight(u))
  {
  }

  lemma BlackOk(c: Ctx, x: Tree)
    requires Deficit(c, x) && x.Black() && c.Top?
    ensures Ok(x) && CtxOk(c, BlackHeight(x))
  {
  }

  /** Case 2 together with its bookkeeping in the arrays. */
  method Extend(path: array<RbNode>, dir: array<bool>, depth: nat, w: RbNode,
                ghost all: set<RbNode>, ghost anchor: RbNode, ghost c: Ctx, ghost x: Tree)
    requires 2 <= depth < path.Length && path.Length == dir.Length
    requires PathIs(path[..depth], dir[..depth], anchor, c)
    requires Zip(all, anchor, c, x) && c.sib.Fork? && w == c.sib.node
    modifies path, dir, all`left, all`right, all`red, anchor`left, anchor`right
    ensures Zip(all, anchor, Case2(c), x) && PathIs(path[..depth + 1], dir[..depth + 1], anchor, Case2(c))
  {
    hide Zip, PathIs, Holder, Turn;
    ghost var P, D := path[..], dir[..];
    assert P[..depth] == path[..depth] && D[..depth] == dir[..depth];
    PathStep(P, D, depth, anchor, c);
    var LR := dir[depth - 1];
    DoCase2(path[depth - 2], dir[depth - 2], path[depth - 1], LR, w, all, anchor, c, x);
    path[depth] := path[depth - 1];
    dir[depth] := LR;
    path[depth - 1] := w;
    assert path[..depth - 1] == P[..depth - 1] && dir[..depth - 1] == D[..depth - 1];
    PathPush(path[..], dir[..], depth - 1, anchor, Case2(c).up);
    PathPush(path[..], dir[..], depth, anchor, Case2(c));
  }

  /** Cases 5 and 6. */
  method Finish(p: RbNode, pd: bool, parent: RbNode, LR: bool, w0: RbNode,
                ghost all: set<RbNode>, ghost anchor: RbNode, ghost c: Ctx, ghost x: Tree)
    returns (ghost u: Tree)
    requires Zip(all, anchor, c, x) && Deficit(c, x) && x.Black() && c.Frame? && c.sib.Fork? && c.sib.Black()
    requires p == Holder(c.up, anchor) && pd == Turn(c.up) && parent == c.node && LR == c.dir && w0 == c.sib.node
    requires !(c.sib.l.Black() && c.sib.r.Black())
    modifies all`left, all`right, all`red, anchor`left, anchor`right
    ensures Zip(all, anchor, c.up, u) && Ok(u) && CtxOk(c.up, BlackHeight(u)) && (c.up.Red() || c.up.Top? ==> u.Black())
  {
    hide Zip, Ok, CtxOk, Holder, Turn, NearOk;
    var w := w0;
    ghost var c' := c;
    SibLook(all, anchor, c, x);
    var far := w.Sub(!LR);
    if far == null || !far.red {
      var y := w.Sub(LR);
      DoCase5(parent, LR, w, y, all, anchor, c, x);
      Case5Ok(c, x);
      w, c' := y, Case5(c);
      SibLook(all, anchor, c', x);
    }
    DoCase6(p, pd, parent, LR, w, w.Sub(!LR), all, anchor, c', x);
    Case6Ok(c', x);
    u := Case6(c', x);
  }

  /** The nephews' colours as the heap shows them. */
  lemma SibLook(all: set<RbNode>, anchor: RbNode, c: Ctx, x: Tree)
    requires Zip(all, anchor, c, x) && c.Frame? && c.sib.Fork?
    ensures forall d :: c.sib.node.Sub(d) == Child(c.sib, d).Root()
    ensures forall d :: Child(c.sib, d).Fork? ==> Child(c.sib, d).node.red == Child(c.sib, d).red
  {
    assert Rep(c.sib.node, c.sib);
    RepLooks(c.sib);
    RepLooks(c.sib.l);
    RepLooks(c.sib.r);
  }

  /** One pass of the loop below the root with a black focus: cases 2 to 6.  Either the deficit
      is gone, or it has moved up by one frame. */
  method Step(path: array<RbNode>, dir: array<bool>, depth0: nat,
              ghost all: set<RbNode>, ghost anchor: RbNode, ghost c0: Ctx, ghost x: Tree)
    returns (depth: nat, done: bool, ghost c: Ctx, ghost u: Tree)
    requires 2 <= depth0 < path.Length && path.Length == dir.Length
    requires PathIs(path[..depth0], dir[..depth0], anchor, c0) && c0.Frame?
    requires Zip(all, anchor, c0, x) && Deficit(c0, x) && x.Black()
    modifies path, dir, all`left, all`right, all`red, anchor`left, anchor`right
    ensures Zip(all, anchor, c, u)
    ensures if done then Ok(u) && CtxOk(c, BlackHeight(u)) && (c.Red() || c.Top? ==> u.Black()) else Deficit(c, u)
    ensures !done ==> 1 <= depth <= depth0 && PathIs(path[..depth], dir[..depth], anchor, c)
    ensures !done ==> !u.Black() || depth < depth0
  {
    hide Zip, PathIs, Ok, CtxOk, NearOk;
    depth, c := depth0, c0;
    SiblingExists(c, x);
    ZipLook(all, anchor, c, x);
    PathStep(path[..], dir[..], depth, anchor, c);
    var w := path[depth - 1].Sub(!dir[depth - 1]);
    if w.red {
      Extend(path, dir, depth, w, all, anchor, c, x);
      Case2Ok(c, x);
      depth, c := depth + 1, Case2(c);
      ZipLook(all, anchor, c, x);
      PathStep(path[..], dir[..], depth, anchor, c);
      w := path[depth - 1].Sub(!dir[depth - 1]);
    }
    depth, done, c, u := Settle(path, dir, depth, w, all, anchor, c, x);
  }

  /** Cases 3, 5 and 6: the sibling is black. */
  method Settle(path: array<RbNode>, dir: array<bool>, depth0: nat, w: RbNode,
                ghost all: set<RbNode>, ghost anchor: RbNode, ghost c0: Ctx, ghost x: Tree)
    returns (depth: nat, done: bool, ghost c: Ctx, ghost u: Tree)
    requires 2 <= depth0 <= path.Length && path.Length == dir.Length
    requires PathIs(path[..depth0], dir[..depth0], anchor, c0) && c0.Frame? && c0.sib.Fork? && c0.sib.Black()
    requires w == c0.sib.node && Zip(all, anchor, c0, x) && Deficit(c0, x) && x.Black()
    modifies all`left, all`right, all`red, anchor`left, anchor`right
    ensures Zip(all, anchor, c, u)
    ensures if done then Ok(u) && CtxOk(c, BlackHeight(u)) && (c.Red() || c.Top? ==> u.Black()) else Deficit(c, u)
    ensures !done ==> depth == depth0 - 1 && PathIs(path[..depth], dir[..depth], anchor, c)
    ensures !done && u.Black() ==> !c0.Red()
  {
    hide Zip, PathIs, Ok, CtxOk, NearOk;
    depth, c := depth0, c0;
    ZipLook(all, anchor, c, x);
    PathStep(path[..], dir[..], depth, anchor, c);
    SibLook(all, anchor, c, x);
    var LR := dir[depth - 1];
    if (w.Sub(LR) == null || !w.Sub(LR).red) && (w.Sub(!LR) == null || !w.Sub(!LR).red) {
      DoCase3(w, all, anchor, c, x);
      Case3Ok(c, x);
      depth, done := depth - 1, false;
      c, u := c.up, Fill(c.(sib := c.sib.(red := true)), x);
    } else {
      u := Finish(path[depth - 2], dir[depth - 2], path[depth - 1], LR, w, all, anchor, c, x);
      c, done := c.up, true;
    }
  }

  /** Restores the lost black node; the path may grow by one entry beyond `depth0`. */
  method Dmov(path: array<RbNode>, dir: array<bool>, depth0: nat,
              ghost all: set<RbNode>, ghost anchor: RbNode, ghost c0: Ctx, ghost x0: Tree)
    returns (ghost c: Ctx, ghost x: Tree)
    requires 1 <= depth0 < path.Length && path.Length == dir.Length
    requires PathIs(path[..depth0], dir[..depth0], anchor, c0)
    requires Zip(all, anchor, c0, x0) && Deficit(c0, x0)
    modifies path, dir, all`left, all`right, all`red, anchor`left, anchor`right
    ensures Zip(all, anchor, c, x) && Ok(x) && CtxOk(c, BlackHeight(x)) && (c.Red() || c.Top? ==> x.Black())
  {
    hide Zip, PathIs, Ok, CtxOk, NearOk;
    c, x := c0, x0;
    var depth, done := depth0, false;
    while !done
      invariant Zip(all, anchor, c, x)
      invariant if done then Ok(x) && CtxOk(c, BlackHeight(x)) && (c.Red() || c.Top? ==> x.Black()) else Deficit(c, x)
      invariant !done ==> 1 <= depth <= depth0 && PathIs(path[..depth], dir[..depth], anchor, c)
      decreases !done, if x.Black() then depth else 0
    {
      PathTop(path[..], dir[..], depth, anchor, c);
      ZipLook(all, anchor, c, x);
      var focus := path[depth - 1].Sub(dir[depth - 1]);
      if focus != null && focus.red {
        Paint(focus, false, all, anchor, c, x);
        PaintedOk(c, x);
        x, done := x.(red := false), true;
      } else if depth < 2 {
        BlackOk(c, x);
        done := true;
      } else {
        depth, done, c, x := Step(path, dir, depth, all, anchor, c, x);
      }
    }
  }
}
