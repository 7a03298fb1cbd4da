/** When the heap looks like a tree with a hole: the footprints, the representation predicates
    and the elementary writes of src/map.c. */
module RbHeap {
  import opened RbTheory

  ghost function Nodes(t: Tree): set<RbNode> {
    match t
    case Leaf => {}
    case Fork(node, _, l, r) => {node} + Nodes(l) + Nodes(r)
  }

  ghost function CtxNodes(c: Ctx): set<RbNode> {
    match c
    case Top => {}
    case Frame(node, _, _, sib, up) => {node} + Nodes(sib) + CtxNodes(up)
  }

  ghost predicate Rep(p: RbNode?, t: Tree)
    reads Nodes(t)`left, Nodes(t)`right, Nodes(t)`red
  {
    match t
    case Leaf => p == null
    case Fork(node, red, l, r) => p == node && node.red == red && Rep(node.left, l) && Rep(node.right, r)
  }

  /** The frames of `c` link `top` down to `hole`. */
  ghost predicate RepCtx(c: Ctx, top: RbNode?, hole: RbNode?)
    reads CtxNodes(c)`left, CtxNodes(c)`right, CtxNodes(c)`red
  {
    match c
    case Top => top == hole
    case Frame(node, red, dir, sib, up) =>
      node.red == red && node.Sub(dir) == hole && Rep(node.Sub(!dir), sib) && RepCtx(up, top, node)
  }

  /** The whole search tree under `anchor`, which stands for the root pointer's place, with the focus at
      `t`; `all` is its footprint.  That the nodes are distinct follows from the order. */
  ghost predicate Zip(all: set<RbNode>, anchor: RbNode, c: Ctx, t: Tree)
    reads anchor`left, all`left, all`right, all`red
  {
    CtxNodes(c) + Nodes(t) == all && anchor !in all && ZipOrdered(c, t)
    && RepCtx(c, anchor.left, t.Root()) && Rep(t.Root(), t)
  }

  ghost function Holder(c: Ctx, anchor: RbNode): RbNode {
    if c.Top? then anchor else c.node
  }

  ghost function Turn(c: Ctx): bool {
    c.Frame? && c.dir
  }

  /** path[] and dir[] up to the current depth spell out the context; entry 0 is the anchor. */
  ghost predicate PathIs(path: seq<RbNode>, dir: seq<bool>, anchor: RbNode, c: Ctx) {
    |path| == |dir| >= 1 && path[|path| - 1] == Holder(c, anchor) && dir[|dir| - 1] == Turn(c)
    && if c.Top? then |path| == 1 else PathIs(path[..|path| - 1], dir[..|dir| - 1], anchor, c.up)
  }

  lemma {:induction false} PathLen(path: seq<RbNode>, dir: seq<bool>, anchor: RbNode, c: Ctx)
    requires PathIs(path, dir, anchor, c)
    ensures |path| == 1 + Len(c)
  {
    if c.Frame? {
      PathLen(path[..|path| - 1], dir[..|dir| - 1], anchor, c.up);
    }
  }

  /** The last entries of the arrays, read through full-length snapshots. */
  lemma PathTop(path: seq<RbNode>, dir: seq<bool>, depth: nat, anchor: RbNode, c: Ctx)
    requires depth <= |path| == |dir| && PathIs(path[..depth], dir[..depth], anchor, c)
    ensures 1 <= depth && path[depth - 1] == Holder(c, anchor) && dir[depth - 1] == Turn(c)
    ensures c.Top? <==> depth == 1
  {
    PathLen(path[..depth], dir[..depth], anchor, c);
  }

  lemma PathStep(path: seq<RbNode>, dir: seq<bool>, depth: nat, anchor: RbNode, c: Ctx)
    requires 2 <= depth <= |path| == |dir| && PathIs(path[..depth], dir[..depth], anchor, c)
    ensures c.Frame? && path[depth - 1] == c.node && dir[depth - 1] == c.dir
    ensures path[depth - 2] == Holder(c.up, anchor) && dir[depth - 2] == Turn(c.up)
    ensures PathIs(path[..depth - 1], dir[..depth - 1], anchor, c.up)
  {
    assert path[..depth][..depth - 1] == path[..depth - 1] && dir[..depth][..depth - 1] == dir[..depth - 1];
  }

  lemma PathPush(path: seq<RbNode>, dir: seq<bool>, depth: nat, anchor: RbNode, c: Ctx)
    requires depth < |path| == |dir| && c.Frame? && PathIs(path[..depth], dir[..depth], anchor, c.up)
    requires path[depth] == c.node && dir[depth] == c.dir
    ensures PathIs(path[..depth + 1], dir[..depth + 1], anchor, c)
  {
    assert path[..depth + 1][..depth] == path[..depth] && dir[..depth + 1][..depth] == dir[..depth];
  }

  /** Records a node and the turn taken at it. */
  method Record(path: array<RbNode>, dir: array<bool>, depth: nat, node: RbNode, d: bool,
                ghost anchor: RbNode, ghost c: Ctx)
    requires depth < path.Length && path.Length == dir.Length
    requires c.Frame? && node == c.node && d == c.dir && PathIs(path[..depth], dir[..depth], anchor, c.up)
    modifies path, dir
    ensures PathIs(path[..depth + 1], dir[..depth + 1], anchor, c)
    ensures path[..depth] == old(path[..depth]) && dir[..depth] == old(dir[..depth]) && path[depth] == node
  {
    hide PathIs;
    ghost var P, D := path[..depth], dir[..depth];
    path[depth] := node;
    dir[depth] := d;
    assert path[..depth] == P && dir[..depth] == D;
    PathPush(path[..], dir[..], depth, anchor, c);
  }

  // ---------------------------------------------------------------- order gives distinctness

  lemma {:induction false} NodesBetween(t: Tree, lo: Bound, hi: Bound)
    requires Between(t, lo, hi)
    ensures forall n :: n in Nodes(t) ==> lo.Below(n.key) && hi.Above(n.key)
  {
    if t.Fork? {
      NodesBetween(t.l, lo, At(t.node.key));
      NodesBetween(t.r, At(t.node.key), hi);
    }
  }

  lemma {:induction false} KeysDistinct(t: Tree, lo: Bound, hi: Bound)
    requires Between(t, lo, hi)
    ensures forall n, m :: n in Nodes(t) && m in Nodes(t) && n.key == m.key ==> n == m
  {
    if t.Fork? {
      var k := At(t.node.key);
      KeysDistinct(t.l, lo, k);
      KeysDistinct(t.r, k, hi);
      NodesBetween(t.l, lo, k);
      NodesBetween(t.r, k, hi);
    }
  }

  /** No node of the context has a key inside the bounds of the hole. */
  lemma {:induction false} CtxOutside(c: Ctx)
    requires CtxOrdered(c)
    ensures forall n :: n in CtxNodes(c) ==> !(Lo(c).Below(n.key) && Hi(c).Above(n.key))
    ensures Lo(c).At? && Hi(c).At? ==> Lo(c).key < Hi(c).key
  {
    if c.Frame? {
      CtxOutside(c.up);
      if c.dir {
        NodesBetween(c.sib, Lo(c.up), At(c.node.key));
      } else {
        NodesBetween(c.sib, At(c.node.key), Hi(c.up));
      }
    }
  }

  lemma {:induction false} CountNodes(t: Tree, lo: Bound, hi: Bound)
    requires Between(t, lo, hi)
    ensures Count(t) == |Nodes(t)|
  {
    if t.Fork? {
      var k := At(t.node.key);
      CountNodes(t.l, lo, k);
      CountNodes(t.r, k, hi);
      NodesBetween(t.l, lo, k);
      NodesBetween(t.r, k, hi);
      assert Nodes(t.l) !! {t.node} + Nodes(t.r) && Nodes(t.r) !! {t.node};
    }
  }

  // ---------------------------------------------------------------- moving the focus

  lemma RepMk(node: RbNode, red: bool, d: bool, a: Tree, b: Tree)
    ensures Nodes(Mk(node, red, d, a, b)) == {node} + Nodes(a) + Nodes(b)
    ensures Rep(node, Mk(node, red, d, a, b)) <==> node.red == red && Rep(node.Sub(d), a) && Rep(node.Sub(!d), b)
  {
  }

  lemma ZipUp(all: set<RbNode>, anchor: RbNode, c: Ctx, t: Tree)
    requires c.Frame? && Zip(all, anchor, c, t)
    ensures Zip(all, anchor, c.up, Fill(c, t))
  {
    RepMk(c.node, c.red, c.dir, t, c.sib);
  }

  lemma ZipDown(all: set<RbNode>, anchor: RbNode, c: Ctx, t: Tree, d: bool)
    requires t.Fork? && Zip(all, anchor, c, t)
    ensures Zip(all, anchor, Frame(t.node, t.red, d, Child(t, !d), c), Child(t, d))
  {
    assert Rep(t.node.Sub(d), Child(t, d));
  }

  ghost predicate Looks(t: Tree)
    reads Nodes(t)`left, Nodes(t)`right, Nodes(t)`red
  {
    t.Fork? ==> t.node in Nodes(t) && t.node.red == t.red && t.node.left == t.l.Root() && t.node.right == t.r.Root()
  }

  lemma RepLooks(t: Tree)
    requires Rep(t.Root(), t)
    ensures Looks(t)
  {
    if t.Fork? {
      assert Rep(t.node.left, t.l) && Rep(t.node.right, t.r);
    }
  }

  /** What the pointers around the focus are. */
  lemma ZipLook(all: set<RbNode>, anchor: RbNode, c: Ctx, t: Tree)
    requires Zip(all, anchor, c, t)
    ensures Holder(c, anchor).Sub(Turn(c)) == t.Root()
    ensures c.Frame? ==> c.node in all && c.node.red == c.red && c.node.Sub(!c.dir) == c.sib.Root()
    ensures c.Frame? ==> Nodes(c.sib) <= all && Looks(c.sib)
    ensures Nodes(t) <= all && Looks(t)
  {
    RepLooks(t);
    if c.Frame? {
      RepLooks(c.sib);
    }
  }

  lemma {:induction false} PlugZip(all: set<RbNode>, anchor: RbNode, c: Ctx, t: Tree)
    requires Zip(all, anchor, c, t)
    ensures Zip(all, anchor, Top, Plug(c, t))
  {
    if c.Frame? {
      ZipUp(all, anchor, c, t);
      PlugZip(all, anchor, c.up, Fill(c, t));
    }
  }

  // ---------------------------------------------------------------- writes

  /** Colours a node. */
  method Paint(node: RbNode, red: bool, ghost all: set<RbNode>, ghost anchor: RbNode, ghost c: Ctx, ghost t: Tree)
    requires Zip(all, anchor, c, t) && t.Root() == node
    modifies node`red
    ensures Zip(all, anchor, c, t.(red := red))
  {
    NodesBetween(t.l, Lo(c), At(node.key));
    NodesBetween(t.r, At(node.key), Hi(c));
    CtxOutside(c);
    node.red := red;
  }

  /** Writes the pointer through which the focus hangs. */
  method SetHole(p: RbNode, d: bool, x: RbNode?, ghost all: set<RbNode>, ghost anchor: RbNode, ghost c: Ctx,
                 ghost was: RbNode?)
    requires CtxNodes(c) <= all && anchor !in all && CtxOrdered(c)
    requires p == Holder(c, anchor) && d == Turn(c)
    modifies p`left, p`right
    ensures old(RepCtx(c, anchor.left, was)) ==> RepCtx(c, anchor.left, x)
  {
    if c.Frame? && RepCtx(c, anchor.left, was) {
      NodesBetween(c.sib, if c.dir then Lo(c.up) else At(p.key), if c.dir then At(p.key) else Hi(c.up));
      CtxOutside(c.up);
      assert RepCtx(c.up, anchor.left, p) && Rep(p.Sub(!d), c.sib);
    }
    p.SetSub(d, x);
  }

  /** Lifts the child on side d above the root. */
  ghost function Rotated(t: Tree, d: bool): Tree
    requires t.Fork? && Child(t, d).Fork?
  {
    var y := Child(t, d);
    Mk(y.node, y.red, d, Child(y, d), Mk(t.node, t.red, d, Child(y, !d), Child(t, !d)))
  }

  lemma RotatedOrder(t: Tree, d: bool, lo: Bound, hi: Bound)
    requires t.Fork? && Child(t, d).Fork? && Between(t, lo, hi)
    ensures Between(Rotated(t, d), lo, hi)
    ensures t.node != Child(t, d).node
    ensures var o, m, s := Child(Child(t, d), d), Child(Child(t, d), !d), Child(t, !d);
      t.node !in Nodes(o) + Nodes(m) + Nodes(s) && Child(t, d).node !in Nodes(o) + Nodes(m) + Nodes(s)
    ensures var k := Child(t, d).node.key; lo.Below(k) && hi.Above(k)
  {
    var x, y := t.node.key, Child(t, d);
    if d {
      assert Between(y, At(x), hi);
      NodesBetween(y.r, At(y.node.key), hi);
      NodesBetween(y.l, At(x), At(y.node.key));
      NodesBetween(t.l, lo, At(x));
    } else {
      assert Between(y, lo, At(x));
      NodesBetween(y.l, lo, At(y.node.key));
      NodesBetween(y.r, At(y.node.key), At(x));
      NodesBetween(t.r, At(x), hi);
    }
  }

  /** The nodes written by a rotation lie outside every subtree that moves as a whole. */
  ghost predicate Clear(n: RbNode, t: Tree, d: bool)
    requires t.Fork? && Child(t, d).Fork?
  {
    n !in Nodes(Child(Child(t, d), d)) && n !in Nodes(Child(Child(t, d), !d)) && n !in Nodes(Child(t, !d))
  }

  lemma RotateClear(all: set<RbNode>, anchor: RbNode, c: Ctx, t: Tree, d: bool)
    requires Zip(all, anchor, c, t) && t.Fork? && Child(t, d).Fork?
    ensures Clear(t.node, t, d) && Clear(Child(t, d).node, t, d) && Clear(Holder(c, anchor), t, d)
    ensures t.node != Child(t, d).node && t.node in all && Child(t, d).node in all
    ensures Holder(c, anchor) !in Nodes(Rotated(t, d)) && Nodes(Rotated(t, d)) <= all
    ensures t.node !in CtxNodes(c) && Child(t, d).node !in CtxNodes(c)
    ensures var y := Child(t, d); Nodes(Child(t, !d)) <= all && Nodes(Child(y, d)) <= all && Nodes(Child(y, !d)) <= all
  {
    var y := Child(t, d);
    RotatedOrder(t, d, Lo(c), Hi(c));
    RepMk(t.node, t.red, d, y, Child(t, !d));
    RepMk(y.node, y.red, d, Child(y, d), Child(y, !d));
    NodesBetween(t, Lo(c), Hi(c));
    CtxOutside(c);
  }

  lemma RotateFacts(all: set<RbNode>, anchor: RbNode, c: Ctx, t: Tree, d: bool)
    requires Zip(all, anchor, c, t) && t.Fork? && Child(t, d).Fork?
    ensures var y := Child(t, d);
      t.node.Sub(d) == y.node && t.node.red == t.red && y.node.red == y.red && Rep(t.node.Sub(!d), Child(t, !d))
      && Rep(y.node.Sub(d), Child(y, d)) && Rep(y.node.Sub(!d), Child(y, !d))
    ensures RepCtx(c, anchor.left, t.node) && CtxOrdered(c) && CtxNodes(c) <= all && anchor !in all
    ensures ZipOrdered(c, Rotated(t, d)) && CtxNodes(c) + Nodes(Rotated(t, d)) == all
  {
    var y := Child(t, d);
    RotatedOrder(t, d, Lo(c), Hi(c));
    RepMk(t.node, t.red, d, y, Child(t, !d));
    RepMk(y.node, y.red, d, Child(y, d), Child(y, !d));
    RepMk(t.node, t.red, d, Child(y, !d), Child(t, !d));
    RepMk(y.node, y.red, d, Child(y, d), Child(Rotated(t, d), !d));
  }

  method Cross(x: RbNode, d: bool, y: RbNode)
    requires x != y
    modifies {x, y}`left, {x, y}`right
    ensures x.Sub(d) == old(y.Sub(!d)) && x.Sub(!d) == old(x.Sub(!d)) && y.Sub(!d) == x && y.Sub(d) == old(y.Sub(d))
  {
    x.SetSub(d, y.Sub(!d));
    y.SetSub(!d, x);
  }

  /** The first two pointer writes of a rotation. */
  method Relink(x: RbNode, d: bool, y: RbNode, ghost all: set<RbNode>, ghost anchor: RbNode, ghost c: Ctx,
                ghost t: Tree)
    requires Zip(all, anchor, c, t) && t.Fork? && Child(t, d).Fork?
    requires x == t.node && y == Child(t, d).node
    modifies {x, y}`left, {x, y}`right
    ensures RepCtx(c, anchor.left, x) && Rep(y, Rotated(t, d)) && anchor.left == old(anchor.left)
  {
    hide Mk, Rep, RepCtx, Nodes, CtxNodes, Holder, Turn, ZipOrdered;
    ghost var outer, mid, sib := Child(Child(t, d), d), Child(Child(t, d), !d), Child(t, !d);
    RotateFacts(all, anchor, c, t, d);
    RotateClear(all, anchor, c, t, d);
    Cross(x, d, y);
    RepMk(x, t.red, d, mid, sib);
    RepMk(y, Child(t, d).red, d, outer, Mk(x, t.red, d, mid, sib));
  }

  /** The three pointer writes of every rotation in src/map.c. */
  method Rotate(p: RbNode, pd: bool, x: RbNode, d: bool, y: RbNode,
                ghost all: set<RbNode>, ghost anchor: RbNode, ghost c: Ctx, ghost t: Tree)
    requires Zip(all, anchor, c, t) && t.Fork? && Child(t, d).Fork?
    requires p == Holder(c, anchor) && pd == Turn(c) && x == t.node && y == Child(t, d).node
    modifies {p, x, y}`left, {p, x, y}`right
    ensures Zip(all, anchor, c, Rotated(t, d))
  {
    hide Mk, Rep, RepCtx, Nodes, CtxNodes, Holder, Turn, ZipOrdered;
    RotateFacts(all, anchor, c, t, d);
    RotateClear(all, anchor, c, t, d);
    Relink(x, d, y, all, anchor, c, t);
    SetHole(p, pd, y, all, anchor, c, x);
  }
}
