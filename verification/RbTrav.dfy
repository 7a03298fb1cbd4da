/** HXrbtrav: the ordered traverser of src/map.c. */
module RbTravTheory {
  import opened RbTheory
  import opened RbHeap

  /** The least node of `t` with a key above `k`. */
  ghost function Succ(t: Tree, k: int): RbNode? {
    if t.Leaf? then null
    else if k < t.node.key then
      var s := Succ(t.l, k);
      if s == null then t.node else s
    else Succ(t.r, k)
  }

  ghost function First(t: Tree): RbNode? {
    if t.Leaf? then null else if t.l.Leaf? then t.node else First(t.l)
  }

  lemma {:induction false} SuccLeast(t: Tree, lo: Bound, hi: Bound, k: int)
    requires Between(t, lo, hi)
    ensures var s := Succ(t, k);
      if s == null then forall n :: n in Nodes(t) ==> n.key <= k
      else s in Nodes(t) && k < s.key && forall n :: n in Nodes(t) && k < n.key ==> s.key <= n.key
  {
    if t.Fork? {
      var m := At(t.node.key);
      SuccLeast(t.l, lo, m, k);
      SuccLeast(t.r, m, hi, k);
      NodesBetween(t.l, lo, m);
      NodesBetween(t.r, m, hi);
    }
  }

  lemma {:induction false} FirstLeast(t: Tree, lo: Bound, hi: Bound)
    requires Between(t, lo, hi)
    ensures var s := First(t);
      if s == null then t.Leaf? else s in Nodes(t) && forall n :: n in Nodes(t) ==> s.key <= n.key
  {
    if t.Fork? {
      var m := At(t.node.key);
      FirstLeast(t.l, lo, m);
      NodesBetween(t.l, lo, m);
      NodesBetween(t.r, m, hi);
    }
  }

  /** The recorded way from the root of `t` to its subtree `s`.  Left turns are always recorded,
      right turns may have been left out. */
  ghost predicate OnPath(t: Tree, p: seq<RbNode?>, d: seq<bool>, s: Tree)
    requires |p| == |d|
  {
    (t == s && |p| == 0)
    || (t.Fork? && |p| > 0 && p[0] == t.node && OnPath(Child(t, d[0]), p[1..], d[1..], s))
    || (t.Fork? && OnPath(t.r, p, d, s))
  }

  lemma {:induction false} OnPathPush(t: Tree, p: seq<RbNode?>, d: seq<bool>, s: Tree, e: bool)
    requires |p| == |d| && OnPath(t, p, d, s) && s.Fork?
    ensures OnPath(t, p + [s.node], d + [e], Child(s, e))
  {
    if t == s && |p| == 0 {
      assert OnPath(Child(t, e), [], [], Child(s, e));
      assert (p + [s.node])[1..] == [] && (d + [e])[1..] == [];
    } else if |p| > 0 && p[0] == t.node && OnPath(Child(t, d[0]), p[1..], d[1..], s) {
      OnPathPush(Child(t, d[0]), p[1..], d[1..], s, e);
      assert (p + [s.node])[1..] == p[1..] + [s.node] && (d + [e])[1..] == d[1..] + [e];
    } else {
      OnPathPush(t.r, p, d, s, e);
    }
  }

  /** A right turn need not be recorded. */
  lemma {:induction false} OnPathSkip(t: Tree, p: seq<RbNode?>, d: seq<bool>, s: Tree)
    requires |p| == |d| && OnPath(t, p, d, s) && s.Fork?
    ensures OnPath(t, p, d, s.r)
  {
    if t == s && |p| == 0 {
      assert OnPath(t.r, p, d, s.r);
    } else if |p| > 0 && p[0] == t.node && OnPath(Child(t, d[0]), p[1..], d[1..], s) {
      OnPathSkip(Child(t, d[0]), p[1..], d[1..], s);
    } else {
      OnPathSkip(t.r, p, d, s);
    }
  }

  /** Every recorded entry is itself reached by the entries before it. */
  lemma {:induction false} OnPathPrefix(t: Tree, p: seq<RbNode?>, d: seq<bool>, s: Tree, j: nat) returns (u: Tree)
    requires |p| == |d| && j < |p| && OnPath(t, p, d, s)
    ensures u.Fork? && u.node == p[j] && OnPath(t, p[..j], d[..j], u)
  {
    if |p| > 0 && p[0] == t.node && OnPath(Child(t, d[0]), p[1..], d[1..], s) {
      if j == 0 {
        u := t;
      } else {
        u := OnPathPrefix(Child(t, d[0]), p[1..], d[1..], s, j - 1);
        assert p[..j][1..] == p[1..][..j - 1] && d[..j][1..] == d[1..][..j - 1];
      }
    } else {
      u := OnPathPrefix(t.r, p, d, s, j);
    }
  }

  lemma {:induction false} OnPathHeight(t: Tree, p: seq<RbNode?>, d: seq<bool>, s: Tree)
    requires |p| == |d| && OnPath(t, p, d, s)
    ensures |p| + Height(s) <= Height(t)
  {
    if t == s && |p| == 0 {
    } else if |p| > 0 && p[0] == t.node && OnPath(Child(t, d[0]), p[1..], d[1..], s) {
      OnPathHeight(Child(t, d[0]), p[1..], d[1..], s);
    } else {
      OnPathHeight(t.r, p, d, s);
    }
  }

  lemma {:induction false} OnPathRep(t: Tree, p: seq<RbNode?>, d: seq<bool>, s: Tree)
    requires |p| == |d| && OnPath(t, p, d, s) && Rep(t.Root(), t)
    ensures Rep(s.Root(), s) && Nodes(s) <= Nodes(t)
  {
    if t == s && |p| == 0 {
    } else {
      RepLooks(t);
      if |p| > 0 && p[0] == t.node && OnPath(Child(t, d[0]), p[1..], d[1..], s) {
        OnPathRep(Child(t, d[0]), p[1..], d[1..], s);
      } else {
        OnPathRep(t.r, p, d, s);
      }
    }
  }

  /** Growth and recolouring leave a recorded way valid. */
  lemma {:induction false} OnPathGrown(t: Tree, p: seq<RbNode?>, d: seq<bool>, s: Tree, u: Tree) returns (v: Tree)
    requires |p| == |d| && OnPath(t, p, d, s) && s.Fork? && Grown(t, u)
    ensures OnPath(u, p, d, v) && v.Fork? && v.node == s.node
  {
    if t == s && |p| == 0 {
      v := u;
    } else if |p| > 0 && p[0] == t.node && OnPath(Child(t, d[0]), p[1..], d[1..], s) {
      v := OnPathGrown(Child(t, d[0]), p[1..], d[1..], s, Child(u, d[0]));
    } else {
      v := OnPathGrown(t.r, p, d, s, u.r);
    }
  }

  ghost predicate AllRight(d: seq<bool>, from: nat)
  {
    forall i :: from <= i < |d| ==> d[i]
  }

  /** Inside the subtree `s` the search for a successor is local; otherwise the successor is the
      last node left by a left turn. */
  lemma {:induction false} SuccVia(t: Tree, p: seq<RbNode?>, d: seq<bool>, s: Tree, lo: Bound, hi: Bound, j: nat,
                                   k: int)
    requires |p| == |d| && OnPath(t, p, d, s) && Between(t, lo, hi) && j <= |p| && AllRight(d, j)
    requires (j > 0 ==> !d[j - 1])
    requires s.Fork? && s.node.key == k
    ensures Succ(t, k) == if Succ(s, k) != null then Succ(s, k) else if j > 0 then p[j - 1] else null
    ensures lo.Below(k) && hi.Above(k) && (j > 0 ==> p[j - 1] != null)
  {
    if t == s && |p| == 0 {
    } else {
      var m := At(t.node.key);
      if |p| > 0 && p[0] == t.node && OnPath(Child(t, d[0]), p[1..], d[1..], s) {
        if d[0] {
          SuccVia(t.r, p[1..], d[1..], s, m, hi, if j > 0 then j - 1 else 0, k);
        } else {
          SuccVia(t.l, p[1..], d[1..], s, lo, m, j - 1, k);
        }
      } else {
        SuccVia(t.r, p, d, s, m, hi, j, k);
      }
    }
  }
}

module RbTrav {
  import opened MapTypes
  import opened RbTheory
  import opened RbHeap
  import opened RbMap
  import opened RbTravTheory

  /** What a traversal step returns: the least node after the last key returned, or the least
      node of all when a traversal begins. */
  ghost function NextNode(t: Tree, last: Option<int>): RbNode? {
    match last
    case None => First(t)
    case Some(k) => Succ(t, k)
  }

  /** `cur` is the root of the subtree `s`, and the first `depth` entries lead there. */
  ghost predicate Here(path: seq<RbNode?>, dir: seq<bool>, depth: nat, t: Tree, s: Tree, cur: RbNode?)
    requires |path| == |dir|
  {
    depth < |path| && path[depth] == cur && s.Root() == cur && OnPath(t, path[..depth], dir[..depth], s)
  }

  ghost predicate TreeOk(nodes: set<RbNode>, anchor: RbNode, t: Tree)
    reads anchor`left, nodes`left, nodes`right, nodes`red
  {
    Zip(nodes, anchor, Top, t) && RedBlack(t) && |nodes| < CAPACITY
  }

  /** struct HXrbtrav. */
  class Traverser {
    var tid: nat
    var current: RbNode?
    var checkpoint: int
    const tree: RbTree
    const path: array<RbNode?>
    const dir: array<bool>
    var depth: nat
    ghost var seen: nat     // the tree's epoch when `tid` was copied
    ghost var base: Tree    // the tree at that time
    ghost var sub: Tree     // its subtree below `current`

    ghost predicate Valid()
      reads this, path, dir
    {
      path.Length == dir.Length == MAXDEP
      && (current != null ==>
        tid == (1 + seen) % UINT_MOD && checkpoint == current.key && Here(path[..], dir[..], depth, base, sub, current))
    }

    /** The traverser has not fallen behind, or can tell that it has. */
    ghost predicate Follows(t: Tree, epoch: nat)
      reads this
    {
      seen <= epoch && (current != null && seen == epoch ==> Grown(base, t))
    }

    ghost function Last(): Option<int>
      reads this
    {
      if current == null then None else Some(checkpoint)
    }

    /** HXrbtrav_init */
    constructor (btree: RbTree)
      ensures tree == btree && Valid() && Last() == None && seen == 0 && fresh(path) && fresh(dir)
    {
      tid, current, checkpoint, depth := 0, null, 0, 0;
      tree := btree;
      path := new RbNode?[MAXDEP];
      dir := new bool[MAXDEP];
      seen, base, sub := 0, Leaf, Leaf;
    }

    /** HXrbtree_traverse.  The transaction id is a 32-bit counter: it tells a stale record from
        a fresh one as long as it has not wrapped around completely in between. */
    method Traverse() returns (node: RbNode?)
      requires Valid() && tree.Valid() && Follows(tree.tree, tree.epoch) && tree.epoch - seen < UINT_MOD
      modifies this, path, dir
      ensures node == NextNode(tree.tree, old(Last()))
      ensures Valid() && Follows(tree.tree, tree.epoch) && seen == tree.epoch
      ensures Last() == if node == null then None else Some(node.key)
    {
      ghost var t, u := tree.tree, Leaf;
      hide Sound, Grown, Succ, First, Here;
      var n, d;
      if tid != tree.tid || current == null {
        n, d, u := Rewalk(path, dir, current == null, checkpoint, tree.anchor.left, tree.nodes, tree.anchor, t,
                          tree.model, tree.items);
      } else {
        SameEpoch(tid, seen, tree.epoch);
        n, d, u := Next(path, dir, depth, current, tree.nodes, tree.anchor, t, tree.model, tree.items, base, sub);
      }
      Settle(n, d, tree.tid, tree.epoch, t, u);
      node := n;
    }

    method Settle(n: RbNode?, d: nat, id: nat, ghost epoch: nat, ghost t: Tree, ghost u: Tree)
      requires path.Length == dir.Length == MAXDEP && id == (1 + epoch) % UINT_MOD
      requires n != null ==> Here(path[..], dir[..], d, t, u, n)
      modifies this
      ensures Valid() && Follows(t, epoch) && seen == epoch && Last() == if n == null then None else Some(n.key)
    {
      GrownSelf(t);
      current, depth, tid := n, d, id;
      seen, base, sub := epoch, t, u;
      if n != null {
        checkpoint := n.key;
      }
    }
  }

  /** HXrbtrav_rewalk */
  method Rewalk(path: array<RbNode?>, dir: array<bool>, begin: bool, checkpoint: int, root: RbNode?,
                ghost nodes: set<RbNode>, ghost anchor: RbNode, ghost t: Tree, ghost m: map<int, int>, ghost items: nat)
    returns (node: RbNode?, depth: nat, ghost u: Tree)
    requires Sound(nodes, anchor, t, m, items) && path.Length == dir.Length == MAXDEP && root == anchor.left
    modifies path, dir
    ensures node == NextNode(t, if begin then None else Some(checkpoint))
    ensures node != null ==> Here(path[..], dir[..], depth, t, u, node)
  {
    TreeIsOk(nodes, anchor, t, m, items);
    if begin {
      node, depth, u := RewalkFirst(path, dir, root, nodes, anchor, t);
    } else {
      node, depth, u := RewalkAfter(path, dir, checkpoint, root, nodes, anchor, t);
    }
  }

  /** HXrbtrav_next with a record made when the tree was `base`. */
  method Next(path: array<RbNode?>, dir: array<bool>, depth0: nat, current: RbNode,
              ghost nodes: set<RbNode>, ghost anchor: RbNode, ghost t: Tree, ghost m: map<int, int>, ghost items: nat,
              ghost base: Tree, ghost sub: Tree)
    returns (node: RbNode?, depth: nat, ghost u: Tree)
    requires Sound(nodes, anchor, t, m, items) && path.Length == dir.Length == MAXDEP
    requires Here(path[..], dir[..], depth0, base, sub, current) && Grown(base, t)
    modifies path, dir
    ensures node == NextNode(t, Some(current.key))
    ensures node != null ==> Here(path[..], dir[..], depth, t, u, node)
  {
    TreeIsOk(nodes, anchor, t, m, items);
    ghost var s := HereGrown(base, path[..], dir[..], depth0, sub, current, t);
    node, depth, u := Advance(path, dir, depth0, current, nodes, anchor, t, s);
  }

  lemma TreeIsOk(nodes: set<RbNode>, anchor: RbNode, t: Tree, m: map<int, int>, items: nat)
    requires Sound(nodes, anchor, t, m, items)
    ensures TreeOk(nodes, anchor, t) && t.Root() == anchor.left
  {
  }

  lemma HereGrown(t: Tree, path: seq<RbNode?>, dir: seq<bool>, depth: nat, s: Tree, cur: RbNode, u: Tree)
    returns (v: Tree)
    requires |path| == |dir| && Here(path, dir, depth, t, s, cur) && Grown(t, u)
    ensures Here(path, dir, depth, u, v, cur)
  {
    v := OnPathGrown(t, path[..depth], dir[..depth], s, u);
  }

  lemma SameEpoch(tid: nat, seen: nat, epoch: nat)
    requires seen <= epoch && epoch - seen < UINT_MOD && (1 + seen) % UINT_MOD == (1 + epoch) % UINT_MOD
    ensures seen == epoch
  {
  }

  lemma {:induction false} SuccBelow(t: Tree, k: int, hi: Bound)
    requires Between(t, At(k), hi)
    ensures Succ(t, k) == First(t)
  {
    if t.Fork? {
      SuccBelow(t.l, k, At(t.node.key));
    }
  }

  lemma {:induction false} OnPathBetween(t: Tree, p: seq<RbNode?>, d: seq<bool>, s: Tree, lo: Bound, hi: Bound)
    returns (lo': Bound, hi': Bound)
    requires |p| == |d| && OnPath(t, p, d, s) && Between(t, lo, hi)
    ensures Between(s, lo', hi')
  {
    lo', hi' := lo, hi;
    if !(t == s && |p| == 0) {
      var m := At(t.node.key);
      if |p| > 0 && p[0] == t.node && OnPath(Child(t, d[0]), p[1..], d[1..], s) {
        lo', hi' := OnPathBetween(Child(t, d[0]), p[1..], d[1..], s, if d[0] then m else lo, if d[0] then hi else m);
      } else {
        lo', hi' := OnPathBetween(t.r, p, d, s, m, hi);
      }
    }
  }

  lemma {:induction false} LastLeft(d: seq<bool>) returns (j: nat)
    ensures j <= |d| && AllRight(d, j) && (j > 0 ==> !d[j - 1])
  {
    j := |d|;
    while j > 0 && d[j - 1]
      invariant j <= |d| && AllRight(d, j)
    {
      j := j - 1;
    }
  }

  lemma DownIs(t: Tree, p: seq<RbNode?>, d: seq<bool>, s: Tree)
    requires |p| == |d| && OnPath(t, p, d, s) && Between(t, Open, Open) && s.Fork? && s.r.Fork?
    ensures Succ(t, s.node.key) == First(s.r) && First(s.r) != null
  {
    var k := s.node.key;
    var j := LastLeft(d);
    SuccVia(t, p, d, s, Open, Open, j, k);
    var lo, hi := OnPathBetween(t, p, d, s, Open, Open);
    SuccBelow(s.r, k, hi);
    FirstLeast(s.r, At(k), hi);
  }

  lemma UpIs(t: Tree, p: seq<RbNode?>, d: seq<bool>, s: Tree, j: nat)
    requires |p| == |d| && OnPath(t, p, d, s) && Between(t, Open, Open) && s.Fork? && s.r.Leaf?
    requires j <= |d| && AllRight(d, j) && (j > 0 ==> !d[j - 1])
    ensures Succ(t, s.node.key) == if j > 0 then p[j - 1] else null
  {
    SuccVia(t, p, d, s, Open, Open, j, s.node.key);
  }

  /** The pointers below the current node. */
  lemma Reach(nodes: set<RbNode>, anchor: RbNode, t: Tree, p: seq<RbNode?>, d: seq<bool>, s: Tree)
    requires |p| == |d| && TreeOk(nodes, anchor, t) && OnPath(t, p, d, s)
    ensures Rep(s.Root(), s) && Looks(s) && Nodes(s) <= nodes && |p| + Height(s) <= MAXDEP - 2
  {
    OnPathRep(t, p, d, s);
    OnPathHeight(t, p, d, s);
    RepLooks(s);
    CountNodes(t, Open, Open);
    DepthBound(t);
  }

  /** Walks to the leftmost node below, recording a left turn at each node on the way. */
  method WalkLeft(path: array<RbNode?>, dir: array<bool>, depth0: nat, node0: RbNode?, ghost t: Tree, ghost s0: Tree)
    returns (depth: nat, ghost s: Tree)
    requires path.Length == dir.Length && depth0 + Height(s0) <= path.Length
    requires node0 == s0.Root() && Rep(node0, s0) && OnPath(t, path[..depth0], dir[..depth0], s0)
    modifies path, dir
    ensures s0.Leaf? ==> depth == depth0
    ensures s0.Fork? ==> depth0 < depth <= depth0 + Height(s0) && s.Fork? && s.l.Leaf? && s.node == First(s0)
    ensures s0.Fork? ==> path[depth - 1] == s.node && OnPath(t, path[..depth - 1], dir[..depth - 1], s)
  {
    hide OnPath, First, Height, Rep;
    depth, s := depth0, s0;
    var node := node0;
    ghost var rest := s0;
    while node != null
      invariant node == rest.Root() && Rep(node, rest) && depth + Height(rest) <= depth0 + Height(s0)
      invariant OnPath(t, path[..depth], dir[..depth], rest) && (rest.Fork? ==> First(rest) == First(s0))
      invariant depth0 <= depth && ((rest == s0 && depth == depth0) || depth0 < depth)
      invariant depth0 < depth ==> s.Fork? && s.l == rest && path[depth - 1] == s.node && First(s) == First(s0)
      invariant depth0 < depth ==> OnPath(t, path[..depth - 1], dir[..depth - 1], s)
      decreases rest
    {
      LeftChild(rest);
      OnPathPush(t, path[..depth], dir[..depth], rest, false);
      ghost var P, D := path[..depth], dir[..depth];
      path[depth] := node;
      dir[depth] := false;
      assert path[..depth] == P && dir[..depth] == D;
      assert path[..depth + 1] == P + [node] && dir[..depth + 1] == D + [false];
      s, rest := rest, rest.l;
      node := node.left;
      depth := depth + 1;
    }
    if s.Fork? {
      LeftEnd(s);
    }
  }

  lemma LeftChild(t: Tree)
    requires t.Fork? && Rep(t.node, t)
    ensures Height(t) > 0 && t.node.left == t.l.Root() && Rep(t.node.left, t.l) && Height(t.l) < Height(t)
    ensures t.l.Fork? ==> First(t.l) == First(t)
  {
  }

  lemma LeftEnd(t: Tree)
    requires t.Fork?
    ensures t.l.Leaf? ==> First(t) == t.node
  {
  }

  /** With a right subtree, the successor is the leftmost node of it. */
  method StepDown(path: array<RbNode?>, dir: array<bool>, depth0: nat, current: RbNode, ghost t: Tree, ghost s: Tree)
    returns (depth: nat, ghost u: Tree)
    requires path.Length == dir.Length && depth0 + Height(s) <= path.Length
    requires current == s.Root() && path[depth0] == current && Rep(current, s)
    requires OnPath(t, path[..depth0], dir[..depth0], s)
    requires s.r.Fork?
    modifies path, dir
    ensures depth < depth0 + Height(s) && u.Fork? && u.node == First(s.r) && path[depth] == u.node
    ensures OnPath(t, path[..depth], dir[..depth], u)
  {
    OnPathPush(t, path[..depth0], dir[..depth0], s, true);
    ghost var P, D := path[..depth0], dir[..depth0];
    dir[depth0] := true;
    assert path[..depth0 + 1] == P + [current] && dir[..depth0 + 1] == D + [true];
    RepLooks(s);
    depth, u := WalkLeft(path, dir, depth0 + 1, current.right, t, s.r);
    depth := depth - 1;
  }

  /** No right child: back to the last node left by a left turn, if there is one. */
  method StepUp(path: array<RbNode?>, dir: array<bool>, depth0: nat, ghost t: Tree, ghost s: Tree)
    returns (node: RbNode?, depth: nat, ghost u: Tree)
    requires depth0 <= path.Length && path.Length == dir.Length
    requires OnPath(t, path[..depth0], dir[..depth0], s) && s.Fork?
    ensures depth <= depth0
    ensures node != null ==> depth < depth0 && AllRight(dir[..depth0], depth + 1) && !dir[depth] && path[depth] == node
    ensures node != null ==> u.Root() == node && OnPath(t, path[..depth], dir[..depth], u)
    ensures node == null ==> AllRight(dir[..depth0], 0)
  {
    depth, u := depth0, s;
    if depth == 0 {
      return null, depth, u;
    } else if !dir[depth - 1] {
      depth := depth - 1;
    } else {
      while true
        invariant depth <= depth0 && AllRight(dir[..depth0], depth)
        decreases depth
      {
        if depth == 0 {
          return null, depth, u;
        }
        if !dir[depth - 1] {
          break;
        }
        depth := depth - 1;
      }
      depth := depth - 1;
    }
    node := path[depth];
    u := OnPathPrefix(t, path[..depth0], dir[..depth0], s, depth);
    assert path[..depth0][..depth] == path[..depth] && dir[..depth0][..depth] == dir[..depth];
  }

  /** HXrbtrav_next on the present tree. */
  method Advance(path: array<RbNode?>, dir: array<bool>, depth0: nat, current: RbNode,
              ghost nodes: set<RbNode>, ghost anchor: RbNode, ghost t: Tree, ghost s: Tree)
    returns (node: RbNode?, depth: nat, ghost u: Tree)
    requires TreeOk(nodes, anchor, t) && path.Length == dir.Length == MAXDEP
    requires Here(path[..], dir[..], depth0, t, s, current)
    modifies path, dir
    ensures node == Succ(t, current.key)
    ensures node != null ==> Here(path[..], dir[..], depth, t, u, node)
  {
    ghost var P, D := path[..], dir[..];
    assert P[..depth0] == path[..depth0] && D[..depth0] == dir[..depth0];
    Reach(nodes, anchor, t, P[..depth0], D[..depth0], s);
    assert Between(t, Open, Open);
    hide TreeOk, OnPath, Between, Rep, Succ, First, Nodes;
    if current.right != null {
      DownIs(t, P[..depth0], D[..depth0], s);
      depth, u := StepDown(path, dir, depth0, current, t, s);
      node := path[depth];
    } else {
      node, depth, u := StepUp(path, dir, depth0, t, s);
      UpIs(t, P[..depth0], D[..depth0], s, if node == null then 0 else depth + 1);
    }
    assert path[..][..depth] == path[..depth] && dir[..][..depth] == dir[..depth];
  }

  /** The state of the search in HXrbtrav_rewalk: two records of the way to `s`, the second one
      of left turns only, and what the successor of `k` is in terms of them. */
  ghost predicate Searching(path: seq<RbNode?>, dir: seq<bool>, left: seq<RbNode?>, leftDir: seq<bool>, t: Tree,
                            s: Tree, k: int)
    requires |path| == |dir| && |left| == |leftDir|
  {
    OnPath(t, path, dir, s) && OnPath(t, left, leftDir, s) && (|left| > 0 ==> left[|left| - 1] != null)
    && Succ(t, k) == if Succ(s, k) != null then Succ(s, k) else if |left| > 0 then left[|left| - 1] else null
  }

  lemma SearchTurn(path: seq<RbNode?>, dir: seq<bool>, left: seq<RbNode?>, leftDir: seq<bool>, t: Tree, s: Tree, k: int)
    requires |path| == |dir| && |left| == |leftDir| && s.Fork? && k != s.node.key
    requires Searching(path, dir, left, leftDir, t, s, k)
    ensures k > s.node.key ==> Searching(path + [s.node], dir + [true], left, leftDir, t, s.r, k)
    ensures k < s.node.key ==> Searching(path + [s.node], dir + [false], left + [s.node], leftDir + [false], t, s.l, k)
  {
    if k > s.node.key {
      OnPathPush(t, path, dir, s, true);
      OnPathSkip(t, left, leftDir, s);
    } else {
      OnPathPush(t, path, dir, s, false);
      OnPathPush(t, left, leftDir, s, false);
    }
  }

  method Put<T>(a: array<T>, i: nat, x: T)
    requires i < a.Length
    modifies a
    ensures a[..i] == old(a[..i]) && a[i] == x && a[..i + 1] == old(a[..i]) + [x]
  {
    a[i] := x;
  }

  lemma RepChild(t: Tree, d: bool)
    requires t.Fork? && Rep(t.node, t)
    ensures Rep(t.node.Sub(d), Child(t, d)) && t.node.Sub(d) == Child(t, d).Root() && Nodes(Child(t, d)) <= Nodes(t)
  {
    RepLooks(t);
  }

  lemma SearchStart(t: Tree, k: int)
    ensures Searching([], [], [], [], t, t, k)
  {
  }

  /** One turn of the search: the full record takes every turn, the second one left turns only. */
  method Turn(path: array<RbNode?>, dir: array<bool>, newpath: array<RbNode?>, newdir: array<bool>,
              depth0: nat, newdepth0: nat, node: RbNode, k: int, ghost t: Tree, ghost s: Tree)
    returns (depth: nat, newdepth: nat)
    requires path.Length == dir.Length == newpath.Length == newdir.Length && path != newpath && dir != newdir
    requires newdepth0 <= depth0 < path.Length && s.Root() == node && k != node.key
    requires Searching(path[..depth0], dir[..depth0], newpath[..newdepth0], newdir[..newdepth0], t, s, k)
    modifies path, dir, newpath, newdir
    ensures newdepth <= depth == depth0 + 1
    ensures Searching(path[..depth], dir[..depth], newpath[..newdepth], newdir[..newdepth], t, Child(s, k > node.key),
      k)
  {
    SearchTurn(path[..depth0], dir[..depth0], newpath[..newdepth0], newdir[..newdepth0], t, s, k);
    hide Searching;
    depth, newdepth := depth0, newdepth0;
    Put(newpath, newdepth, node);
    Put(path, depth, node);
    var res := k > node.key;
    Put(dir, depth, res);
    depth := depth + 1;
    if !res {
      Put(newdir, newdepth, false);
      newdepth := newdepth + 1;
    }
  }

  /** The search of HXrbtrav_rewalk for the node last visited. */
  method Search(path: array<RbNode?>, dir: array<bool>, newpath: array<RbNode?>, newdir: array<bool>, k: int,
                root: RbNode?,
                ghost nodes: set<RbNode>, ghost anchor: RbNode, ghost t: Tree)
    returns (found: bool, depth: nat, newdepth: nat, ghost s: Tree)
    requires path.Length == dir.Length == newpath.Length == newdir.Length == MAXDEP && path != newpath && dir != newdir
    requires TreeOk(nodes, anchor, t) && root == t.Root()
    modifies path, dir, newpath, newdir
    ensures newdepth <= depth <= MAXDEP
    ensures Searching(path[..depth], dir[..depth], newpath[..newdepth], newdir[..newdepth], t, s, k)
    ensures if found then s.Fork? && s.node.key == k && depth < MAXDEP && path[depth] == s.node else s.Leaf?
  {
    hide TreeOk, OnPath, Between, Succ, Searching, Rep, Nodes;
    var node := root;
    depth, newdepth, found, s := 0, 0, false, t;
    Reach(nodes, anchor, t, [], [], t);
    SearchStart(t, k);
    assert path[..0] == [] && dir[..0] == [] && newpath[..0] == [] && newdir[..0] == [];
    while node != null
      invariant newdepth <= depth && depth + Height(s) <= MAXDEP - 2 && node == s.Root() && Rep(node, s)
      invariant Nodes(s) <= nodes
      invariant Searching(path[..depth], dir[..depth], newpath[..newdepth], newdir[..newdepth], t, s, k)
      decreases s
    {
      label Step:
      if k == node.key {
        newpath[newdepth], path[depth] := node, node;
        assert path[..depth] == old@Step(path[..depth]) && newpath[..newdepth] == old@Step(newpath[..newdepth]);
        found := true;
        break;
      }
      var res := k > node.key;
      RepChild(s, res);
      depth, newdepth := Turn(path, dir, newpath, newdir, depth, newdepth, node, k, t, s);
      s := Child(s, res);
      node := node.Sub(res);
    }
  }

  lemma FromLeft(t: Tree, path: seq<RbNode?>, dir: seq<bool>, left: seq<RbNode?>, leftDir: seq<bool>, s: Tree, k: int)
    returns (u: Tree)
    requires |path| == |dir| && |left| == |leftDir| && s.Leaf? && Searching(path, dir, left, leftDir, t, s, k)
    ensures Succ(t, k) == if |left| > 0 then left[|left| - 1] else null
    ensures var n := |left| - 1; n >= 0 ==>
      left[n] != null && u.Root() == left[n] && OnPath(t, left[..n], leftDir[..n], u)
  {
    u := t;
    if |left| > 0 {
      u := OnPathPrefix(t, left, leftDir, s, |left| - 1);
    }
  }

  /** memcpy of the shortened record over the full one */
  method CopyOver(path: array<RbNode?>, dir: array<bool>, newpath: array<RbNode?>, newdir: array<bool>)
    requires path.Length == dir.Length == newpath.Length == newdir.Length && path != newpath && dir != newdir
    modifies path, dir
    ensures path[..] == newpath[..] && dir[..] == newdir[..]
  {
    forall i | 0 <= i < path.Length {
      path[i] := newpath[i];
    }
    forall i | 0 <= i < dir.Length {
      dir[i] := newdir[i];
    }
  }

  /** HXrbtrav_rewalk at the start of a traversal: the smallest element. */
  method RewalkFirst(path: array<RbNode?>, dir: array<bool>, root: RbNode?,
                     ghost nodes: set<RbNode>, ghost anchor: RbNode, ghost t: Tree)
    returns (node: RbNode?, depth: nat, ghost u: Tree)
    requires TreeOk(nodes, anchor, t) && path.Length == dir.Length == MAXDEP && root == t.Root()
    modifies path, dir
    ensures node == First(t)
    ensures node != null ==> Here(path[..], dir[..], depth, t, u, node)
  {
    Reach(nodes, anchor, t, [], [], t);
    assert path[..0] == [] && dir[..0] == [];
    depth, u := WalkLeft(path, dir, 0, root, t, t);
    if depth == 0 {
      node := null;
    } else {
      depth := depth - 1;
      node := path[depth];
      assert path[..][..depth] == path[..depth] && dir[..][..depth] == dir[..depth];
    }
  }

  /** HXrbtrav_rewalk when the record may be stale: continue after the last key returned. */
  method RewalkAfter(path: array<RbNode?>, dir: array<bool>, k: int, root: RbNode?,
                     ghost nodes: set<RbNode>, ghost anchor: RbNode, ghost t: Tree)
    returns (node: RbNode?, depth: nat, ghost u: Tree)
    requires TreeOk(nodes, anchor, t) && path.Length == dir.Length == MAXDEP && root == t.Root()
    modifies path, dir
    ensures node == Succ(t, k)
    ensures node != null ==> Here(path[..], dir[..], depth, t, u, node)
  {
    hide TreeOk, OnPath, Succ;
    var newpath, newdir := new RbNode?[MAXDEP], new bool[MAXDEP](_ => false);
    var found, newdepth;
    ghost var s;
    found, depth, newdepth, s := Search(path, dir, newpath, newdir, k, root, nodes, anchor, t);
    if found {
      assert path[..][..depth] == path[..depth] && dir[..][..depth] == dir[..depth];
      node, depth, u := Advance(path, dir, depth, path[depth], nodes, anchor, t, s);
    } else {
      u := FromLeft(t, path[..depth], dir[..depth], newpath[..newdepth], newdir[..newdepth], s, k);
      CopyOver(path, dir, newpath, newdir);
      depth := newdepth;
      if depth == 0 {
        node := null;
      } else {
        depth := depth - 1;
        node := path[depth];
        assert newpath[..newdepth][..depth] == path[..][..depth] && newdir[..newdepth][..depth] == dir[..][..depth];
      }
    }
  }
}
