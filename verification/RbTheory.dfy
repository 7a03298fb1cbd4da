/** Red-black trees as values: the ghost picture behind src/map.c.

    A `Tree` names the heap node at every position together with its colour; a `Ctx` is the
    zipper that the source keeps in its path[] and dir[] arrays. */
module RbTheory {

  /** struct HXrbnode: sub[0], sub[1], key, data, color. */
  class RbNode {
    var left: RbNode?
    var right: RbNode?
    var red: bool
    const key: int
    var data: int

    constructor (key: int, data: int)
      ensures this.key == key && this.data == data
      ensures left == null && right == null && red
    {
      this.key, this.data := key, data;
      left, right, red := null, null, true;
    }

    /** sub[d]; false is RBT_LEFT, true is RBT_RIGHT. */
    function Sub(d: bool): RbNode?
      reads this`left, this`right
    {
      if d then right else left
    }

    method SetSub(d: bool, n: RbNode?)
      modifies this`left, this`right
      ensures Sub(d) == n && Sub(!d) == old(Sub(!d))
    {
      if d {
        right := n;
      } else {
        left := n;
      }
    }
  }

  datatype Tree = Leaf | Fork(node: RbNode, red: bool, l: Tree, r: Tree)
  {
    ghost function Root(): RbNode? {
      if Leaf? then null else node
    }

    ghost predicate Black() {
      Leaf? || !red
    }
  }

  /** The way from the root to a hole, innermost frame first.  `dir` is the turn taken at
      `node`, `sib` the subtree on the other side. */
  datatype Ctx = Top | Frame(node: RbNode, red: bool, dir: bool, sib: Tree, up: Ctx)
  {
    ghost predicate Red() {
      Frame? && red
    }
  }

  /** A node with `a` on side `dir` and `b` on the other. */
  ghost function Mk(node: RbNode, red: bool, dir: bool, a: Tree, b: Tree): (t: Tree)
    ensures t.Fork? && t.node == node && t.red == red && Child(t, dir) == a && Child(t, !dir) == b
  {
    if dir then Fork(node, red, b, a) else Fork(node, red, a, b)
  }

  ghost function Child(t: Tree, dir: bool): Tree
    requires t.Fork?
  {
    if dir then t.r else t.l
  }

  /** The innermost frame closed over `t`. */
  ghost function Fill(c: Ctx, t: Tree): Tree
    requires c.Frame?
  {
    Mk(c.node, c.red, c.dir, t, c.sib)
  }

  ghost function Plug(c: Ctx, t: Tree): Tree {
    if c.Top? then t else Plug(c.up, Fill(c, t))
  }

  /** `rel` hung below `base`. */
  ghost function App(rel: Ctx, base: Ctx): Ctx {
    match rel
    case Top => base
    case Frame(node, red, dir, sib, up) => Frame(node, red, dir, sib, App(up, base))
  }

  // ---------------------------------------------------------------- search order

  datatype Bound = Open | At(key: int)
  {
    ghost predicate Below(k: int) {
      At? ==> key < k
    }

    ghost predicate Above(k: int) {
      At? ==> k < key
    }
  }

  /** A search tree with all keys strictly between the bounds. */
  ghost predicate Between(t: Tree, lo: Bound, hi: Bound) {
    t.Fork? ==>
      lo.Below(t.node.key) && hi.Above(t.node.key)
      && Between(t.l, lo, At(t.node.key)) && Between(t.r, At(t.node.key), hi)
  }

  /** The bounds that the turns of `c` put on the hole. */
  ghost function Lo(c: Ctx): Bound {
    if c.Top? then Open else if c.dir then At(c.node.key) else Lo(c.up)
  }

  ghost function Hi(c: Ctx): Bound {
    if c.Top? then Open else if c.dir then Hi(c.up) else At(c.node.key)
  }

  ghost predicate CtxOrdered(c: Ctx) {
    c.Frame? ==>
      CtxOrdered(c.up) && Lo(c.up).Below(c.node.key) && Hi(c.up).Above(c.node.key)
      && if c.dir then Between(c.sib, Lo(c.up), At(c.node.key)) else Between(c.sib, At(c.node.key), Hi(c.up))
  }

  ghost predicate ZipOrdered(c: Ctx, t: Tree) {
    CtxOrdered(c) && Between(t, Lo(c), Hi(c))
  }

  // ---------------------------------------------------------------- balance

  ghost function BlackHeight(t: Tree): nat {
    match t
    case Leaf => 0
    case Fork(_, red, l, _) => BlackHeight(l) + if red then 0 else 1
  }

  /** Equal black height on every path, and no red node with a red child. */
  ghost predicate Ok(t: Tree) {
    t.Fork? ==> Ok(t.l) && Ok(t.r) && BlackHeight(t.l) == BlackHeight(t.r) && (t.red ==> t.l.Black() && t.r.Black())
  }

  /** As `Ok`, except that a red root may have red children. */
  ghost predicate NearOk(t: Tree) {
    t.Fork? ==> Ok(t.l) && Ok(t.r) && BlackHeight(t.l) == BlackHeight(t.r)
  }

  /** The context is sound when the hole is filled by a tree of black height `h`; its
      outermost node is black. */
  ghost predicate CtxOk(c: Ctx, h: nat) {
    c.Frame? ==>
      Ok(c.sib) && BlackHeight(c.sib) == h && (c.red ==> c.sib.Black() && c.up.Frame? && !c.up.red)
      && CtxOk(c.up, h + if c.red then 0 else 1)
  }

  ghost predicate RedBlack(t: Tree) {
    Ok(t) && t.Black() && Between(t, Open, Open)
  }

  lemma {:induction false} PlugRedBlack(c: Ctx, t: Tree)
    requires Ok(t) && CtxOk(c, BlackHeight(t)) && (c.Red() || c.Top? ==> t.Black())
    requires ZipOrdered(c, t)
    ensures RedBlack(Plug(c, t))
  {
    if c.Frame? {
      PlugRedBlack(c.up, Fill(c, t));
    }
  }

  // ---------------------------------------------------------------- growth

  /** `u` has every node of `t` at the same place; colours may differ and leaves may have grown. */
  ghost predicate Grown(t: Tree, u: Tree) {
    t.Fork? ==> u.Fork? && u.node == t.node && Grown(t.l, u.l) && Grown(t.r, u.r)
  }

  lemma {:induction false} GrownSelf(t: Tree)
    ensures Grown(t, t)
  {
    if t.Fork? {
      GrownSelf(t.l);
      GrownSelf(t.r);
    }
  }

  lemma {:induction false} GrownTrans(t: Tree, u: Tree, v: Tree)
    requires Grown(t, u) && Grown(u, v)
    ensures Grown(t, v)
  {
    if t.Fork? {
      GrownTrans(t.l, u.l, v.l);
      GrownTrans(t.r, u.r, v.r);
    }
  }

  lemma {:induction false} GrownPlug(c: Ctx, t: Tree, u: Tree)
    requires Grown(t, u)
    ensures Grown(Plug(c, t), Plug(c, u))
  {
    if c.Frame? {
      GrownSelf(c.sib);
      GrownPlug(c.up, Fill(c, t), Fill(c, u));
    }
  }

  // ---------------------------------------------------------------- depth

  ghost function Height(t: Tree): nat {
    match t
    case Leaf => 0
    case Fork(_, _, l, r) => 1 + if Height(l) < Height(r) then Height(r) else Height(l)
  }

  ghost function Len(c: Ctx): nat {
    if c.Top? then 0 else 1 + Len(c.up)
  }

  ghost function Count(t: Tree): nat {
    if t.Leaf? then 0 else Count(t.l) + 1 + Count(t.r)
  }

  ghost function Pow2(n: nat): nat {
    if n == 0 then 1 else 2 * Pow2(n - 1)
  }

  lemma {:induction false} HeightBound(t: Tree)
    requires Ok(t)
    ensures Height(t) <= 2 * BlackHeight(t) + if t.Black() then 0 else 1
  {
    if t.Fork? {
      HeightBound(t.l);
      HeightBound(t.r);
    }
  }

  lemma {:induction false} SizeBound(t: Tree)
    requires Ok(t)
    ensures Count(t) >= Pow2(BlackHeight(t)) - 1
  {
    if t.Fork? {
      SizeBound(t.l);
      SizeBound(t.r);
    }
  }

  lemma {:induction false} Pow2Mono(a: nat, b: nat)
    requires a <= b
    ensures Pow2(a) <= Pow2(b)
    decreases b
  {
    if a < b {
      Pow2Mono(a, b - 1);
    }
  }

  lemma Pow2At24()
    ensures Pow2(24) == 0x100_0000
  {
    assert Pow2(8) == 0x100;
    assert Pow2(16) == 0x1_0000;
  }

  const MAXDEP: nat := 48
  const CAPACITY: nat := 0x100_0000 - 1

  /** With fewer than 2^24 - 1 items no path is longer than 46 nodes. */
  lemma DepthBound(t: Tree)
    requires RedBlack(t) && Count(t) < CAPACITY
    ensures Height(t) <= MAXDEP - 2
  {
    HeightBound(t);
    SizeBound(t);
    if BlackHeight(t) >= 24 {
      Pow2Mono(24, BlackHeight(t));
      Pow2At24();
    }
  }

  lemma {:induction false} PlugHeight(c: Ctx, t: Tree)
    ensures Len(c) + Height(t) <= Height(Plug(c, t))
  {
    if c.Frame? {
      PlugHeight(c.up, Fill(c, t));
    }
  }
}
