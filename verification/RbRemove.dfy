/** HXrbtree_del: taking a node out of the tree, with the successor splice of HXrbtree_del_mm. */
module RbRemove {
  import opened RbTheory
  import opened RbHeap

  /** Every turn of `rel` is a left turn. */
  ghost predicate Leftward(rel: Ctx) {
    rel.Frame? ==> !rel.dir && Leftward(rel.up)
  }

  lemma {:induction false} Widen(t: Tree, lo: Bound, hi: Bound, lo': Bound, hi': Bound)
    requires Between(t, lo, hi)
    requires lo == lo' || (lo.At? && lo'.Below(lo.key))
    requires hi == hi' || (hi.At? && hi'.Above(hi.key))
    ensures Between(t, lo', hi')
  {
    if t.Fork? {
      Widen(t.l, lo, At(t.node.key), lo', At(t.node.key));
      Widen(t.r, At(t.node.key), hi, At(t.node.key), hi');
    }
  }

  // ---------------------------------------------------------------- replacing the node of a frame

  /** The order around the hole when `io`, the in-order successor, takes the place of the node
      of the outermost frame `base`. */
  lemma {:induction false} SwapOrder(rel: Ctx, base: Ctx, io: RbNode)
    requires base.Frame? && base.dir && Leftward(rel) && CtxOrdered(App(rel, base))
    requires base.node.key < io.key && Hi(App(rel, base)).Above(io.key)
    ensures var c := App(rel, base.(node := io));
      CtxOrdered(c) && Lo(c) == At(io.key) && Hi(c) == Hi(App(rel, base))
    ensures Hi(base).Above(io.key) && Lo(App(rel, base)) == At(base.node.key)
  {
    if rel.Frame? {
      SwapOrder(rel.up, base, io);
    } else {
      Widen(base.sib, Lo(base.up), At(base.node.key), Lo(base.up), At(io.key));
    }
  }

  lemma {:induction false} SwapOk(rel: Ctx, base: Ctx, io: RbNode, h: nat)
    requires base.Frame? && CtxOk(App(rel, base), h)
    ensures var c := App(rel, base.(node := io)); CtxOk(c, h) && (c.Red() <==> App(rel, base).Red())
  {
    if rel.Frame? {
      SwapOk(rel.up, base, io, h + if rel.red then 0 else 1);
    }
  }

  lemma {:induction false} SwapPath(path: seq<RbNode>, dir: seq<bool>, anchor: RbNode, rel: Ctx, base: Ctx, io: RbNode)
    requires base.Frame? && PathIs(path, dir, anchor, App(rel, base))
    ensures var i := 1 + Len(base.up); i < |path| && PathIs(path[i := io], dir, anchor, App(rel, base.(node := io)))
  {
    var n, i := |path| - 1, 1 + Len(base.up);
    PathLen(path[..n], dir[..n], anchor, App(rel, base).up);
    if rel.Frame? {
      SwapPath(path[..n], dir[..n], anchor, rel.up, base, io);
      assert path[i := io][..n] == path[..n][i := io];
    } else {
      assert path[i := io][..n] == path[..n];
    }
  }

  lemma {:induction false} AppNodes(rel: Ctx, base: Ctx)
    ensures CtxNodes(App(rel, base)) == CtxNodes(rel) + CtxNodes(base)
  {
    if rel.Frame? {
      AppNodes(rel.up, base);
    }
  }

  /** A context made of two parts is linked exactly when both parts are. */
  lemma {:induction false} AppRep(rel: Ctx, base: Ctx, top: RbNode?, hole: RbNode?)
    requires base.Frame?
    ensures var m := base.node.Sub(base.dir);
      RepCtx(App(rel, base), top, hole) <==> RepCtx(rel, m, hole) && RepCtx(base, top, m)
  {
    if rel.Frame? {
      AppRep(rel.up, base, top, rel.node);
    }
  }

  /** All of `rel` hangs in the right subtree of the node of `base`. */
  lemma {:induction false} RelInside(rel: Ctx, base: Ctx)
    requires base.Frame? && base.dir && Leftward(rel) && CtxOrdered(App(rel, base))
    ensures forall n :: n in CtxNodes(rel) ==> base.node.key < n.key && Hi(base.up).Above(n.key)
    ensures Lo(App(rel, base)) == At(base.node.key)
    ensures Hi(App(rel, base)) == Hi(base.up) || (Hi(App(rel, base)).At? && Hi(base.up).Above(Hi(App(rel, base)).key))
    ensures CtxOrdered(base)
  {
    if rel.Frame? {
      RelInside(rel.up, base);
      NodesBetween(rel.sib, At(rel.node.key), Hi(App(rel.up, base)));
    }
  }

  // ---------------------------------------------------------------- pointer writes

  /** The focus loses its root `node`, one of whose subtrees is empty: the other one moves up. */
  method Bypass(p: RbNode, pd: bool, node: RbNode, d: bool,
                ghost all: set<RbNode>, ghost anchor: RbNode, ghost c: Ctx, ghost t: Tree)
    requires Zip(all, anchor, c, t) && t.Root() == node && Child(t, !d).Leaf?
    requires p == Holder(c, anchor) && pd == Turn(c)
    modifies p`left, p`right
    ensures Zip(all - {node}, anchor, c, Child(t, d))
  {
    hide Rep, RepCtx, Nodes, CtxNodes, ZipOrdered, Between, Holder, Turn;
    ghost var u := Child(t, d);
    BypassFacts(all, anchor, c, t, d);
    ZipLook(all, anchor, c, t);
    SetHole(p, pd, node.Sub(d), all, anchor, c, node);
  }

  lemma BypassFacts(all: set<RbNode>, anchor: RbNode, c: Ctx, t: Tree, d: bool)
    requires Zip(all, anchor, c, t) && t.Fork? && Child(t, !d).Leaf?
    ensures var u := Child(t, d);
      ZipOrdered(c, u) && CtxNodes(c) + Nodes(u) == all - {t.node} && Rep(t.node.Sub(d), u)
      && Holder(c, anchor) !in Nodes(u)
    ensures RepCtx(c, anchor.left, t.node)
  {
    var k := At(t.node.key);
    assert Rep(t.node.Sub(d), Child(t, d));
    NodesBetween(t, Lo(c), Hi(c));
    CtxOutside(c);
    if d {
      NodesBetween(t.r, k, Hi(c));
      Widen(t.r, k, Hi(c), Lo(c), Hi(c));
    } else {
      NodesBetween(t.l, Lo(c), k);
      Widen(t.l, Lo(c), k, Lo(c), Hi(c));
    }
    assert t.node !in CtxNodes(c) && t.node !in Nodes(Child(t, d));
    assert Nodes(t) == {t.node} + Nodes(Child(t, d));
  }

  /** The nodes written when `io` takes over lie outside everything that stays. */
  lemma TakeOverClear(all: set<RbNode>, anchor: RbNode, rel: Ctx, base: Ctx, x: Tree)
    requires base.Frame? && base.dir && Leftward(rel) && ZipOrdered(App(rel, base), x)
    requires CtxNodes(App(rel, base)) + Nodes(x) == all && anchor !in all
    ensures var p := Holder(base.up, anchor); p !in CtxNodes(rel) && p !in Nodes(base.sib) && p !in Nodes(x)
    ensures base.node !in CtxNodes(rel) && base.node !in Nodes(base.sib) && base.node !in Nodes(x)
    ensures base.node !in CtxNodes(base.up)
    ensures CtxNodes(rel) <= all && Nodes(base.sib) <= all && Nodes(x) <= all && base.node in all
    ensures CtxOrdered(base.up) && CtxNodes(base.up) <= all
    ensures var p := Holder(base.up, anchor); (p in all || p == anchor) && p != base.node
  {
    RelInside(rel, base);
    NodesBetween(base.sib, Lo(base.up), At(base.node.key));
    NodesBetween(x, Lo(App(rel, base)), Hi(App(rel, base)));
    CtxOutside(base.up);
    AppNodes(rel, base);
  }

  lemma TakeOverOrder(all: set<RbNode>, anchor: RbNode, rel: Ctx, base: Ctx, x: Tree, io: RbNode)
    requires base.Frame? && base.dir && Leftward(rel) && ZipOrdered(App(rel, base), x)
    requires CtxNodes(App(rel, base)) + Nodes(x) == all && anchor !in all && io !in all
    requires base.node.key < io.key && Hi(App(rel, base)).Above(io.key) && Between(x, At(io.key), Hi(App(rel, base)))
    ensures var c := App(rel, base.(node := io));
      ZipOrdered(c, x) && CtxNodes(c) + Nodes(x) == all - {base.node} + {io}
  {
    TakeOverClear(all, anchor, rel, base, x);
    SwapOrder(rel, base, io);
    AppNodes(rel, base);
    AppNodes(rel, base.(node := io));
    assert CtxNodes(base) == {base.node} + Nodes(base.sib) + CtxNodes(base.up);
    assert CtxNodes(base.(node := io)) == {io} + Nodes(base.sib) + CtxNodes(base.up);
  }

  lemma BaseRep(rel: Ctx, base: Ctx, top: RbNode?, hole: RbNode?)
    requires base.Frame? && base.dir
    ensures RepCtx(App(rel, base), top, hole) <==>
      RepCtx(rel, base.node.right, hole) && RepCtx(base.up, top, base.node) && Rep(base.node.left, base.sib)
      && base.node.red == base.red
  {
    AppRep(rel, base, top, hole);
  }

  lemma TopRep(top: RbNode?, hole: RbNode?)
    ensures RepCtx(Top, top, hole) <==> top == hole
  {
  }

  /** Everything known before `io` takes over: the parts that stay, clear of the nodes written,
      and the picture afterwards. */
  ghost predicate Ready(all: set<RbNode>, anchor: RbNode, rel: Ctx, base: Ctx, x: Tree, io: RbNode)
    requires base.Frame?
    reads anchor, base.node, CtxNodes(rel), Nodes(base.sib), CtxNodes(base.up)
  {
    var p, orig, c := Holder(base.up, anchor), base.node, App(rel, base.(node := io));
    && (p in all || p == anchor) && p != orig && orig in all
    && p !in CtxNodes(rel) && p !in Nodes(base.sib) && p !in Nodes(x)
    && orig !in CtxNodes(rel) && orig !in Nodes(base.sib) && orig !in Nodes(x) && orig !in CtxNodes(base.up)
    && CtxNodes(rel) <= all && Nodes(base.sib) <= all && Nodes(x) <= all && CtxNodes(base.up) <= all
    && ZipOrdered(c, x) && CtxNodes(c) + Nodes(x) == all - {orig} + {io} && CtxOrdered(base.up)
    && RepCtx(base.up, anchor.left, orig) && Rep(orig.left, base.sib) && orig.red == base.red
  }

  lemma IsReady(all: set<RbNode>, anchor: RbNode, rel: Ctx, base: Ctx, x: Tree, io: RbNode)
    requires base.Frame? && base.dir && Leftward(rel) && ZipOrdered(App(rel, base), x)
    requires CtxNodes(App(rel, base)) + Nodes(x) == all && anchor !in all && io !in all
    requires base.node.key < io.key && Hi(App(rel, base)).Above(io.key) && Between(x, At(io.key), Hi(App(rel, base)))
    requires RepCtx(base, anchor.left, base.node.right)
    ensures Ready(all, anchor, rel, base, x, io)
  {
    hide RepCtx, Rep, ZipOrdered, Nodes;
    TakeOverClear(all, anchor, rel, base, x);
    TakeOverOrder(all, anchor, rel, base, x, io);
    BaseRep(Top, base, anchor.left, base.node.right);
  }

  /** Children and colour of `orig` for `io`; `own` when it keeps its own right subtree. */
  method Inherit(io: RbNode, orig: RbNode, own: bool)
    requires io != orig
    modifies io`left, io`right, io`red, orig`red
    ensures io.left == orig.left && io.right == (if own then old(io.right) else orig.right)
    ensures io.red == old(orig.red) && orig.red == old(io.red)
  {
    io.left := orig.left;
    if !own {
      io.right := orig.right;
    }
    var color := io.red;
    io.red := orig.red;
    orig.red := color;
  }

  /** `io`, the detached in-order successor, takes the place, the children and the colour of the
      deleted node, which receives the colour of `io` in exchange. */
  method TakeOver(p: RbNode, pd: bool, orig: RbNode, io: RbNode,
                  ghost all: set<RbNode>, ghost anchor: RbNode, ghost rel: Ctx, ghost base: Ctx, ghost x: Tree)
    requires base.Frame? && base.dir && Leftward(rel) && Zip(all, anchor, App(rel, base), x)
    requires orig == base.node && p == Holder(base.up, anchor) && pd == Turn(base.up)
    requires io !in all && io != anchor && orig.key < io.key
    requires Between(x, At(io.key), Hi(App(rel, base))) && Hi(App(rel, base)).Above(io.key)
    modifies {p, io}`left, {p, io}`right, {io, orig}`red
    ensures Zip(all - {orig} + {io}, anchor, App(rel, base.(node := io)), x)
    ensures orig.red == old(io.red)
  {
    hide Rep, RepCtx, Nodes, CtxNodes, ZipOrdered, Between, Holder, Turn, App, CtxOrdered;
    AppRep(rel, base, anchor.left, x.Root());
    IsReady(all, anchor, rel, base, x, io);
    SetHole(p, pd, io, all, anchor, base.up, orig);
    Inherit(io, orig, false);
    BaseRep(rel, base.(node := io), anchor.left, x.Root());
  }

  lemma ChildReady(all: set<RbNode>, anchor: RbNode, base: Ctx, t: Tree)
    requires base.Frame? && base.dir && Zip(all, anchor, base, t) && t.Fork? && t.l.Leaf?
    ensures Ready(all - {t.node}, anchor, Top, base, t.r, t.node) && Rep(t.node.right, t.r)
    ensures t.node.right == t.r.Root() && all - {t.node} - {base.node} + {t.node} == all - {base.node}
    ensures t.node in all && anchor !in all
  {
    BypassFacts(all, anchor, base, t, true);
    IsReady(all - {t.node}, anchor, Top, base, t.r, t.node);
    RepLooks(t);
  }

  lemma ChildDone(all: set<RbNode>, anchor: RbNode, c: Ctx, x: Tree)
    requires CtxNodes(c) + Nodes(x) == all && anchor !in all && ZipOrdered(c, x)
    ensures RepCtx(c, anchor.left, x.Root()) && Rep(x.Root(), x) ==> Zip(all, anchor, c, x)
  {
  }

  /** The same when `io` is the right child itself: it keeps its own right subtree. */
  method TakeOverChild(p: RbNode, pd: bool, orig: RbNode, io: RbNode,
                       ghost all: set<RbNode>, ghost anchor: RbNode, ghost base: Ctx, ghost t: Tree)
    requires base.Frame? && base.dir && Zip(all, anchor, base, t) && t.Fork? && t.l.Leaf?
    requires orig == base.node && io == t.node && p == Holder(base.up, anchor) && pd == Turn(base.up)
    modifies {p, io}`left, {p, io}`right, {io, orig}`red
    ensures Zip(all - {orig}, anchor, base.(node := io), t.r)
    ensures orig.red == old(io.red)
  {
    hide Zip, Ok, Rep, RepCtx, Nodes, CtxNodes, ZipOrdered, Between, Holder, Turn, CtxOrdered;
    ChildReady(all, anchor, base, t);
    Inherit(io, orig, true);
    SetHole(p, pd, io, all, anchor, base.up, orig);
    TopRep(io.right, t.r.Root());
    BaseRep(Top, base.(node := io), anchor.left, t.r.Root());
    ChildDone(all - {orig}, anchor, base.(node := io), t.r);
  }

  /** The focus that replaces a removed node of colour `red`: one black node is missing when
      that colour is black. */
  ghost predicate Vacated(c: Ctx, x: Tree, red: bool) {
    Ok(x) && CtxOk(c, BlackHeight(x) + if red then 0 else 1) && (red ==> x.Black())
  }

  ghost predicate Focused(c: Ctx, t: Tree) {
    Ok(t) && CtxOk(c, BlackHeight(t)) && (c.Red() || c.Top? ==> t.Black())
  }

  lemma FocusDown(c: Ctx, t: Tree, d: bool)
    requires Focused(c, t) && t.Fork?
    ensures Focused(Frame(t.node, t.red, d, Child(t, !d), c), Child(t, d))
    ensures Height(Child(t, d)) < Height(t)
  {
  }

  lemma FocusVacated(c: Ctx, t: Tree, d: bool)
    requires Focused(c, t) && t.Fork? && Child(t, !d).Leaf?
    ensures Vacated(c, Child(t, d), t.red)
  {
  }

  lemma SwapVacated(rel: Ctx, base: Ctx, io: RbNode, x: Tree, red: bool)
    requires base.Frame? && Vacated(App(rel, base), x, red)
    ensures Vacated(App(rel, base.(node := io)), x, red)
  {
    SwapOk(rel, base, io, BlackHeight(x) + if red then 0 else 1);
  }

  /** Descends to the leftmost node below the right child, recording the way. */
  method Leftmost(path: array<RbNode>, dir: array<bool>, depth0: nat, io0: RbNode,
                  ghost all: set<RbNode>, ghost anchor: RbNode, ghost base: Ctx, ghost f0: Tree)
    returns (depth: nat, io_parent: RbNode, io: RbNode, ghost rel: Ctx, ghost f: Tree)
    requires path.Length == dir.Length && depth0 + Height(f0) <= path.Length
    requires base.Frame? && PathIs(path[..depth0], dir[..depth0], anchor, base)
    requires Zip(all, anchor, base, f0) && Focused(base, f0) && f0.Fork? && f0.l.Fork? && io0 == f0.node
    modifies path, dir
    ensures depth + Height(f) <= depth0 + Height(f0) && PathIs(path[..depth], dir[..depth], anchor, App(rel, base))
    ensures rel.Frame? && Leftward(rel) && Zip(all, anchor, App(rel, base), f) && Focused(App(rel, base), f)
    ensures f.Fork? && f.l.Leaf? && f.node == io && io_parent == rel.node
  {
    hide Zip, PathIs, Focused;
    depth, rel, f, io_parent, io := depth0, Top, f0, io0, io0;
    while true
      invariant f.Fork? && f.l.Fork? && io == f.node && Leftward(rel)
      invariant depth + Height(f) <= depth0 + Height(f0) && PathIs(path[..depth], dir[..depth], anchor, App(rel, base))
      invariant Zip(all, anchor, App(rel, base), f) && Focused(App(rel, base), f)
      decreases Height(f)
    {
      ghost var c := App(rel, base);
      FocusDown(c, f, false);
      io_parent := io;
      ZipDown(all, anchor, c, f, false);
      rel, f := Frame(io, f.red, false, f.r, rel), f.l;
      Record(path, dir, depth, io_parent, false, anchor, App(rel, base));
      ZipLook(all, anchor, App(rel, base), f);
      depth := depth + 1;
      io := io_parent.left;
      if io.left == null {
        break;
      }
    }
  }

  /** Between the detached successor and the rest: what TakeOver asks for. */
  lemma BypassBounds(all: set<RbNode>, anchor: RbNode, rel: Ctx, base: Ctx, f: Tree)
    requires base.Frame? && base.dir && Leftward(rel) && Zip(all, anchor, App(rel, base), f) && f.Fork?
    ensures var hi, io := Hi(App(rel, base)), f.node;
      base.node.key < io.key && hi.Above(io.key) && Between(f.r, At(io.key), hi) && io in all && io != anchor
      && all - {io} - {base.node} + {io} == all - {base.node}
  {
    RelInside(rel, base);
  }

  /** The successor replaces the deleted node in the recorded path. */
  method Rename(path: array<RbNode>, dir: array<bool>, depth: nat, spos: nat, io: RbNode,
                ghost anchor: RbNode, ghost rel: Ctx, ghost base: Ctx)
    requires depth <= path.Length && path.Length == dir.Length
    requires base.Frame? && PathIs(path[..depth], dir[..depth], anchor, App(rel, base)) && spos == 1 + Len(base.up)
    modifies path
    ensures PathIs(path[..depth], dir[..depth], anchor, App(rel, base.(node := io)))
  {
    SwapPath(path[..depth], dir[..depth], anchor, rel, base, io);
    ghost var P := path[..depth];
    path[spos] := io;
    assert path[..depth] == P[spos := io];
  }

  /** The right subtree's root is the successor. */
  method SpliceChild(path: array<RbNode>, dir: array<bool>, spos: nat, io: RbNode,
                     ghost all: set<RbNode>, ghost anchor: RbNode, ghost base: Ctx, ghost f: Tree)
    returns (ghost c: Ctx, ghost x: Tree)
    requires path.Length == dir.Length && 1 <= spos < path.Length
    requires base.Frame? && base.dir && spos == 1 + Len(base.up)
    requires PathIs(path[..spos + 1], dir[..spos + 1], anchor, base)
    requires Zip(all, anchor, base, f) && Focused(base, f) && f.Fork? && f.l.Leaf? && io == f.node
    modifies path, all`left, all`right, all`red, anchor`left, anchor`right
    ensures PathIs(path[..spos + 1], dir[..spos + 1], anchor, c)
    ensures Zip(all - {base.node}, anchor, c, x) && Vacated(c, x, base.node.red)
  {
    hide Zip, PathIs, Focused, Vacated, CtxNodes, Between;
    PathStep(path[..], dir[..], spos + 1, anchor, base);
    ZipLook(all, anchor, base, f);
    ZipUp(all, anchor, base, f);
    ZipLook(all, anchor, base.up, Fill(base, f));
    FocusVacated(base, f, true);
    TakeOverChild(path[spos - 1], dir[spos - 1], path[spos], io, all, anchor, base, f);
    SwapVacated(Top, base, io, f.r, f.red);
    Rename(path, dir, spos + 1, spos, io, anchor, Top, base);
    c, x := base.(node := io), f.r;
  }

  /** The successor is further down on the left. */
  method SpliceDeep(path: array<RbNode>, dir: array<bool>, spos: nat, io0: RbNode,
                    ghost all: set<RbNode>, ghost anchor: RbNode, ghost base: Ctx, ghost f0: Tree)
    returns (depth: nat, ghost c: Ctx, ghost x: Tree)
    requires path.Length == dir.Length && 1 <= spos && spos + 1 + Height(f0) <= path.Length
    requires base.Frame? && base.dir && spos == 1 + Len(base.up)
    requires PathIs(path[..spos + 1], dir[..spos + 1], anchor, base)
    requires Zip(all, anchor, base, f0) && Focused(base, f0) && f0.Fork? && f0.l.Fork? && io0 == f0.node
    modifies path, dir, all`left, all`right, all`red, anchor`left, anchor`right
    ensures depth <= spos + Height(f0) && PathIs(path[..depth], dir[..depth], anchor, c)
    ensures Zip(all - {base.node}, anchor, c, x) && Vacated(c, x, base.node.red)
  {
    hide Zip, PathIs, Focused, Vacated, CtxNodes, Between;
    PathStep(path[..], dir[..], spos + 1, anchor, base);
    var p, pd, orig := path[spos - 1], dir[spos - 1], path[spos];
    ZipUp(all, anchor, base, f0);
    ZipLook(all, anchor, base.up, Fill(base, f0));
    var io_parent, io;
    ghost var rel, f;
    depth, io_parent, io, rel, f := Leftmost(path, dir, spos + 1, io0, all, anchor, base, f0);
    SpliceAt(path, dir, depth, spos, p, pd, orig, io_parent, io, all, anchor, rel, base, f);
    c, x := App(rel, base.(node := io)), f.r;
  }

  /** The successor, found at the end of the path, leaves its place and takes the other one. */
  method SpliceAt(path: array<RbNode>, dir: array<bool>, depth: nat, spos: nat, p: RbNode, pd: bool, orig: RbNode,
                  io_parent: RbNode, io: RbNode,
                  ghost all: set<RbNode>, ghost anchor: RbNode, ghost rel: Ctx, ghost base: Ctx, ghost f: Tree)
    requires depth <= path.Length == dir.Length && PathIs(path[..depth], dir[..depth], anchor, App(rel, base))
    requires base.Frame? && base.dir && spos == 1 + Len(base.up) && orig == base.node && rel.Frame? && Leftward(rel)
    requires p == Holder(base.up, anchor) && pd == Turn(base.up) && (p in all || p == anchor) && orig in all
    requires Zip(all, anchor, App(rel, base), f) && Focused(App(rel, base), f)
    requires f.Fork? && f.l.Leaf? && f.node == io && io_parent == rel.node
    modifies path, all`left, all`right, all`red, anchor`left, anchor`right
    ensures var c := App(rel, base.(node := io));
      PathIs(path[..depth], dir[..depth], anchor, c) && Zip(all - {orig}, anchor, c, f.r) && Vacated(c, f.r, orig.red)
  {
    hide Zip, PathIs, Focused, Vacated, CtxNodes, Between;
    ghost var m := App(rel, base);
    ZipLook(all, anchor, m, f);
    FocusVacated(m, f, true);
    BypassBounds(all, anchor, rel, base, f);
    Bypass(io_parent, false, io, true, all, anchor, m, f);
    TakeOver(p, pd, orig, io, all - {io}, anchor, rel, base, f.r);
    SwapVacated(rel, base, io, f.r, f.red);
    Rename(path, dir, depth, spos, io, anchor, rel, base);
  }

  /** HXrbtree_del_mm: both subtrees exist; the in-order successor moves into the place of the
      deleted node at path[depth0]. */
  method DelMm(path: array<RbNode>, dir: array<bool>, depth0: nat,
               ghost all: set<RbNode>, ghost anchor: RbNode, ghost c: Ctx, ghost t: Tree)
    returns (depth: nat, ghost c': Ctx, ghost x: Tree)
    requires path.Length == dir.Length && depth0 + Height(t) <= path.Length
    requires PathIs(path[..depth0], dir[..depth0], anchor, c)
    requires Zip(all, anchor, c, t) && Focused(c, t) && t.Fork? && t.l.Fork? && t.r.Fork? && path[depth0] == t.node
    modifies path, dir, all`left, all`right, all`red, anchor`left, anchor`right
    ensures depth < depth0 + Height(t) && PathIs(path[..depth], dir[..depth], anchor, c')
    ensures Zip(all - {t.node}, anchor, c', x) && Vacated(c', x, t.node.red)
  {
    hide Zip, PathIs, Focused, Vacated;
    var orig := path[depth0];
    ghost var base := Frame(orig, t.red, true, t.l, c);
    PathLen(path[..depth0], dir[..depth0], anchor, c);
    ZipLook(all, anchor, c, t);
    FocusDown(c, t, true);
    Record(path, dir, depth0, orig, true, anchor, base);
    ZipDown(all, anchor, c, t, true);
    ZipLook(all, anchor, base, t.r);
    var io := orig.right;
    if io.left == null {
      c', x := SpliceChild(path, dir, depth0, io, all, anchor, base, t.r);
      depth := depth0 + 1;
    } else {
      depth, c', x := SpliceDeep(path, dir, depth0, io, all, anchor, base, t.r);
    }
  }
}
