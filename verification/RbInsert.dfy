/** HXrbtree_amov: rebalancing after an insertion. */
module RbInsert {
  import opened RbTheory
  import opened RbHeap

  /** The state in which rebalancing runs: the only possible defect is a red root of `t` under
      a red parent. */
  ghost predicate Pending(c: Ctx, t: Tree) {
    Ok(t) && !t.Black() && CtxOk(c, BlackHeight(t))
  }

  /** Case 3 on values: parent and uncle become black, the grandparent red. */
  ghost function Recoloured(c: Ctx, t: Tree): Tree
    requires c.Frame? && c.up.Frame? && c.up.sib.Fork?
  {
    Fill(c.up.(red := true, sib := c.up.sib.(red := false)), Fill(c.(red := false), t))
  }

  lemma RecolouredOk(c: Ctx, t: Tree)
    requires Pending(c, t) && c.Red() && !c.up.sib.Black()
    ensures Pending(c.up.up, Recoloured(c, t))
  {
    assert CtxOk(c.up, BlackHeight(t));
  }

  lemma RecolouredGrown(c: Ctx, t: Tree)
    requires c.Frame? && c.up.Frame? && c.up.sib.Fork?
    ensures Grown(Plug(c, t), Plug(c.up.up, Recoloured(c, t)))
  {
    GrownSelf(t);
    GrownSelf(c.sib);
    GrownSelf(c.up.sib);
    assert Grown(Fill(c, t), Fill(c.(red := false), t));
    assert Grown(c.up.sib, c.up.sib.(red := false));
    assert Plug(c, t) == Plug(c.up.up, Fill(c.up, Fill(c, t)));
    GrownPlug(c.up.up, Fill(c.up, Fill(c, t)), Recoloured(c, t));
  }

  /** Cases 4 and 5 on values. */
  ghost function Straight(c: Ctx, t: Tree): Tree
    requires t.Fork? && c.Frame? && c.up.Frame?
  {
    if c.dir != c.up.dir then Rotated(Fill(c, t), c.dir) else Fill(c, t)
  }

  ghost function Balanced(c: Ctx, t: Tree): Tree
    requires t.Fork? && c.Frame? && c.up.Frame?
  {
    var d := c.up.dir;
    var r := Rotated(Fill(c.up, Straight(c, t)), d);
    Mk(r.node, false, d, Child(r, d), Child(r, !d).(red := true))
  }

  lemma BalancedOk(c: Ctx, t: Tree)
    requires Pending(c, t) && c.Red() && c.up.sib.Black()
    ensures var u := Balanced(c, t); Ok(u) && u.Black() && CtxOk(c.up.up, BlackHeight(u))
  {
    assert CtxOk(c.up, BlackHeight(t));
  }

  /** Case 3: both the parent and the uncle are red; only colours change. */
  method Recolour(parent: RbNode, uncle: RbNode, grandp: RbNode,
                  ghost all: set<RbNode>, ghost anchor: RbNode, ghost c: Ctx, ghost t: Tree)
    requires Zip(all, anchor, c, t) && c.Frame? && c.up.Frame? && c.up.sib.Fork?
    requires parent == c.node && grandp == c.up.node && uncle == c.up.sib.node
    modifies {parent, uncle, grandp}`red
    ensures Zip(all, anchor, c.up.up, Recoloured(c, t))
  {
    hide Zip;
    ghost var g, d := c.up, c.up.dir;
    ghost var p := Fill(c.(red := false), t);
    ZipUp(all, anchor, c, t);
    Paint(parent, false, all, anchor, g, Fill(c, t));
    ZipUp(all, anchor, g, p);
    ZipDown(all, anchor, g.up, Fill(g, p), !d);
    Paint(uncle, false, all, anchor, g.(dir := !d, sib := p), g.sib);
    ZipUp(all, anchor, g.(dir := !d, sib := p), g.sib.(red := false));
    Paint(grandp, true, all, anchor, g.up, Fill(g.(dir := !d, sib := p), g.sib.(red := false)));
  }

  /** Cases 4 and 5: one or two rotations and a colour swap. */
  method Balance(p: RbNode, pd: bool, grandp: RbNode, LR: bool, parent: RbNode, d: bool,
                 ghost all: set<RbNode>, ghost anchor: RbNode, ghost c: Ctx, ghost t: Tree)
    requires Zip(all, anchor, c, t) && t.Fork? && c.Frame? && c.up.Frame?
    requires p == Holder(c.up.up, anchor) && pd == Turn(c.up.up)
    requires grandp == c.up.node && LR == c.up.dir && parent == c.node && d == c.dir
    modifies all`left, all`right, all`red, anchor`left, anchor`right
    ensures Zip(all, anchor, c.up.up, Balanced(c, t))
  {
    hide Zip;
    var top := Straighten(grandp, LR, parent, d, all, anchor, c, t);
    Raise(p, pd, grandp, LR, top, all, anchor, c.up, Straight(c, t));
  }

  /** The inner rotation of case 5, if the red pair is bent. */
  method Straighten(grandp: RbNode, LR: bool, parent: RbNode, d: bool,
                    ghost all: set<RbNode>, ghost anchor: RbNode, ghost c: Ctx, ghost t: Tree) returns (top: RbNode)
    requires Zip(all, anchor, c, t) && t.Fork? && c.Frame? && c.up.Frame?
    requires grandp == c.up.node && LR == c.up.dir && parent == c.node && d == c.dir
    modifies all`left, all`right, all`red, anchor`left, anchor`right
    ensures Zip(all, anchor, c.up, Straight(c, t)) && Straight(c, t).Root() == top
  {
    hide Zip;
    ZipUp(all, anchor, c, t);
    ZipLook(all, anchor, c.up, Fill(c, t));
    top := parent;
    if d != LR {
      top := parent.Sub(!LR);
      Rotate(grandp, LR, parent, d, top, all, anchor, c.up, Fill(c, t));
    }
  }

  /** The outer rotation of case 4, and the colours. */
  method Raise(p: RbNode, pd: bool, grandp: RbNode, LR: bool, top: RbNode,
               ghost all: set<RbNode>, ghost anchor: RbNode, ghost g: Ctx, ghost q: Tree)
    requires Zip(all, anchor, g, q) && q.Root() == top && g.Frame?
    requires p == Holder(g.up, anchor) && pd == Turn(g.up) && grandp == g.node && LR == g.dir
    modifies all`left, all`right, all`red, anchor`left, anchor`right
    ensures var r := Rotated(Fill(g, q), LR);
      Zip(all, anchor, g.up, Mk(r.node, false, LR, Child(r, LR), Child(r, !LR).(red := true)))
  {
    hide Zip;
    ZipUp(all, anchor, g, q);
    ZipLook(all, anchor, g.up, Fill(g, q));
    Rotate(p, pd, grandp, LR, top, all, anchor, g.up, Fill(g, q));
    ghost var r := Rotated(Fill(g, q), LR);
    ZipDown(all, anchor, g.up, r, !LR);
    Paint(grandp, true, all, anchor, Frame(r.node, r.red, !LR, Child(r, LR), g.up), Child(r, !LR));
    ZipUp(all, anchor, Frame(r.node, r.red, !LR, Child(r, LR), g.up), Child(r, !LR).(red := true));
    Paint(top, false, all, anchor, g.up, Mk(r.node, r.red, !LR, Child(r, !LR).(red := true), Child(r, LR)));
  }

  /** The loop test: path[depth-1] is red exactly when the innermost frame is. */
  lemma RedParent(path: seq<RbNode>, dir: seq<bool>, depth: nat,
                  all: set<RbNode>, anchor: RbNode, c: Ctx, t: Tree)
    requires 1 <= depth <= |path| == |dir| && PathIs(path[..depth], dir[..depth], anchor, c)
    requires Zip(all, anchor, c, t) && CtxOk(c, BlackHeight(t))
    ensures depth >= 3 && path[depth - 1].red <==> c.Red()
  {
    PathLen(path[..depth], dir[..depth], anchor, c);
    ZipLook(all, anchor, c, t);
  }

  /** One turn of the repair loop: recolours and goes two levels up, or rotates and is done. */
  method Repair(path: array<RbNode>, dir: array<bool>, depth: nat,
                ghost all: set<RbNode>, ghost anchor: RbNode, ghost c: Ctx, ghost t: Tree)
    returns (rotated: bool, ghost c': Ctx, ghost t': Tree)
    requires 3 <= depth <= path.Length == dir.Length && PathIs(path[..depth], dir[..depth], anchor, c)
    requires Zip(all, anchor, c, t) && Pending(c, t) && c.Red()
    modifies all`left, all`right, all`red, anchor`left, anchor`right
    ensures Zip(all, anchor, c', t') && Ok(t') && CtxOk(c', BlackHeight(t')) && t'.Fork?
    ensures if rotated then t'.Black() else Pending(c', t') && Grown(Plug(c, t), Plug(c', t'))
    ensures PathIs(path[..depth - 2], dir[..depth - 2], anchor, c')
  {
    hide Zip, PathIs, Grown, Ok, CtxOk, Holder, Turn, Plug;
    var LR := dir[depth - 2];
    var grandp, parent := path[depth - 2], path[depth - 1];
    PathStep(path[..], dir[..], depth, anchor, c);
    PathStep(path[..], dir[..], depth - 1, anchor, c.up);
    ZipUp(all, anchor, c, t);
    ZipLook(all, anchor, c.up, Fill(c, t));
    var uncle := grandp.Sub(!LR);
    if uncle != null && uncle.red {
      Recolour(parent, uncle, grandp, all, anchor, c, t);
      RecolouredOk(c, t);
      RecolouredGrown(c, t);
      rotated, c', t' := false, c.up.up, Recoloured(c, t);
    } else {
      Balance(path[depth - 3], dir[depth - 3], grandp, LR, parent, dir[depth - 1], all, anchor, c, t);
      BalancedOk(c, t);
      rotated, c', t' := true, c.up.up, Balanced(c, t);
    }
  }

  /** The repair loop.  `rotated` is what the source records by incrementing the transaction id. */
  method Amov(path: array<RbNode>, dir: array<bool>, depth0: nat,
              ghost all: set<RbNode>, ghost anchor: RbNode, ghost c0: Ctx, ghost t0: Tree)
    returns (rotated: bool, ghost c: Ctx, ghost t: Tree)
    requires 3 <= depth0 <= path.Length && path.Length == dir.Length
    requires PathIs(path[..depth0], dir[..depth0], anchor, c0)
    requires Zip(all, anchor, c0, t0) && Pending(c0, t0) && c0.Red()
    modifies all`left, all`right, all`red, anchor`left, anchor`right
    ensures Zip(all, anchor, c, t) && Ok(t) && CtxOk(c, BlackHeight(t)) && (c.Red() ==> t.Black()) && t.Fork?
    ensures !rotated ==> Grown(Plug(c0, t0), Plug(c, t))
  {
    hide Zip, PathIs, Grown, Ok, CtxOk, Holder, Turn, Plug;
    rotated, c, t := false, c0, t0;
    var depth := depth0;
    GrownSelf(Plug(c, t));
    while true
      invariant 3 <= depth <= depth0 && PathIs(path[..depth], dir[..depth], anchor, c)
      invariant Zip(all, anchor, c, t) && Pending(c, t) && c.Red()
      invariant !rotated && Grown(Plug(c0, t0), Plug(c, t))
      decreases depth
    {
      ghost var before := Plug(c, t);
      rotated, c, t := Repair(path, dir, depth, all, anchor, c, t);
      depth := depth - 2;
      if rotated {
        break;
      }
      GrownTrans(Plug(c0, t0), before, Plug(c, t));
      RedParent(path[..], dir[..], depth, all, anchor, c, t);
      if !(depth >= 3 && path[depth - 1].red) {
        break;
      }
    }
  }

  /** The new red node takes the place of the null pointer at the end of the descent. */
  method Attach(p: RbNode, pd: bool, node: RbNode, ghost all: set<RbNode>, ghost anchor: RbNode, ghost c: Ctx)
    requires Zip(all, anchor, c, Leaf) && p == Holder(c, anchor) && pd == Turn(c)
    requires node !in all && node != anchor && node.left == null && node.right == null && node.red
    requires Lo(c).Below(node.key) && Hi(c).Above(node.key)
    modifies p`left, p`right
    ensures Zip(all + {node}, anchor, c, Fork(node, true, Leaf, Leaf))
  {
    SetHole(p, pd, node, all, anchor, c, null);
    assert Between(Leaf, Lo(c), At(node.key)) && Between(Leaf, At(node.key), Hi(c));
    assert ZipOrdered(c, Fork(node, true, Leaf, Leaf));
  }

  /** Blackening the root completes the repair. */
  lemma RootBlack(c: Ctx, t: Tree)
    requires Ok(t) && CtxOk(c, BlackHeight(t)) && (c.Red() ==> t.Black()) && ZipOrdered(c, t) && t.Fork?
    ensures Plug(c, t).Fork? && RedBlack(Plug(c, t).(red := false))
  {
    if c.Frame? {
      PlugFork(c, t);
      PlugRedBlack(c, t);
    }
  }

  lemma {:induction false} PlugFork(c: Ctx, t: Tree)
    requires t.Fork?
    ensures Plug(c, t).Fork?
  {
    if c.Frame? {
      PlugFork(c.up, Fill(c, t));
    }
  }
}
