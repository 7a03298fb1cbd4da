/** HXrbtree: the ordered map of src/map.c, proved against a finite map. */
module RbMap {
  import opened MapTypes
  import opened RbTheory
  import opened RbHeap
  import opened RbInsert
  import opened RbDelete
  import opened RbRemove

  /** The nodes carry exactly the bindings of `m`. */
  ghost predicate Models(nodes: set<RbNode>, m: map<int, int>)
    reads nodes`data
  {
    |m| == |nodes|
    && (forall n :: n in nodes ==> n.key in m && m[n.key] == n.data)
    && (forall k :: k in m ==> Carries(nodes, k))
  }

  ghost predicate Carries(nodes: set<RbNode>, k: int) {
    exists n :: n in nodes && n.key == k
  }

  ghost predicate Sound(nodes: set<RbNode>, anchor: RbNode, tree: Tree, m: map<int, int>, items: nat)
    reads anchor`left, nodes`left, nodes`right, nodes`red, nodes`data
  {
    Zip(nodes, anchor, Top, tree) && RedBlack(tree) && Models(nodes, m) && items == |nodes| < CAPACITY
  }

  /** struct HXrbtree; `anchor` is the pseudo-node whose sub[0] aliases the root pointer. */
  class RbTree {
    const anchor: RbNode
    var items: nat
    var noReplace: bool
    var tid: nat
    ghost var epoch: nat
    ghost var tree: Tree
    ghost var nodes: set<RbNode>
    ghost var model: map<int, int>

    ghost predicate Valid()
      reads this, anchor, nodes
    {
      Sound(nodes, anchor, tree, model, items) && tid == (1 + epoch) % UINT_MOD
    }

    constructor (flags: bool)
      ensures Valid() && model == map[] && fresh(anchor) && nodes == {} && noReplace == flags && epoch == 0
    {
      anchor := new RbNode(0, 0);
      items, noReplace, tid, epoch := 0, flags, 1, 0;
      tree, nodes, model := Leaf, {}, map[];
    }

    /** HXrbtree_find */
    method Find(key: int) returns (node: RbNode?)
      requires Valid()
      ensures node == null <==> key !in model
      ensures node != null ==> node in nodes && node.key == key && node.data == model[key]
    {
      node := anchor.left;
      ghost var c, t := Top, tree;
      hide CtxOk, Ok, PathIs, Between, Models, CtxNodes;
      while node != null
        invariant Zip(nodes, anchor, c, t) && node == t.Root()
        invariant Lo(c).Below(key) && Hi(c).Above(key)
        decreases t
      {
        ZipLook(nodes, anchor, c, t);
        if key == node.key {
          Hit(nodes, model, node);
          return;
        }
        var res := key > node.key;
        ZipDown(nodes, anchor, c, t, res);
        c, t := Frame(t.node, t.red, res, Child(t, !res), c), Child(t, res);
        node := node.Sub(res);
      }
      Miss(nodes, anchor, c, model, key);
    }

    /** HXrbtree_replace, with the flag test as the source has it. */
    method Replace(node: RbNode, value: int) returns (ret: int)
      requires Valid() && node in nodes
      modifies this`model, nodes`data
      ensures Valid()
      ensures !noReplace ==> ret == -EEXIST && model == old(model) && node.data == old(node.data)
      ensures noReplace ==> ret == 1 && model == old(model)[node.key := value]
      ensures forall n :: n in nodes && n != node ==> n.data == old(n.data)
    {
      hide Sound;
      if !noReplace {
        ret := -EEXIST;
      } else {
        Overwrite(node, value, nodes, anchor, tree, model, items);
        model := model[node.key := value];
        ret := 1;
      }
    }

    /** Records an insertion or a deletion. */
    method Count(items': nat, tid': nat, ghost epoch': nat, ghost tree': Tree, ghost nodes': set<RbNode>,
                 ghost m: map<int, int>)
      modifies this`items, this`tid, this`epoch, this`tree, this`nodes, this`model
      ensures items == items' && tid == tid' && epoch == epoch' && tree == tree' && nodes == nodes' && model == m
    {
      items, tid, epoch, tree, nodes, model := items', tid', epoch', tree', nodes', m;
    }

    /** HXrbtree_add; `alloc` tells whether the node can be allocated. */
    method Add(key: int, value: int, alloc: bool) returns (ret: int)
      requires Valid() && (key in model || !alloc || items + 1 < CAPACITY)
      modifies this`items, this`tid, this`epoch, this`tree, this`nodes, this`model, anchor, nodes
      ensures Valid() && fresh(nodes - old(nodes))
      ensures key in old(model) && !noReplace ==> ret == -EEXIST && model == old(model)
      ensures key in old(model) && noReplace ==> ret == 1 && model == old(model)[key := value]
      ensures key in old(model) || !alloc ==>
        nodes == old(nodes) && tree == old(tree) && epoch == old(epoch) && items == old(items)
      ensures key !in old(model) && !alloc ==> ret == -ENOMEM && model == old(model)
      ensures key !in old(model) && alloc ==> ret == 1 && model == old(model)[key := value] && items == old(items) + 1
      ensures epoch == old(epoch) + 1 || (epoch == old(epoch) && Grown(old(tree), tree))
    {
      hide Sound, Zip, PathIs, Grown, RedBlack, Plug, Focused, Models, Ok, CtxOk, Between, CtxNodes, Nodes, Lo, Hi;
      var path, dir := new RbNode[MAXDEP](_ => anchor), new bool[MAXDEP];
      var node, depth;
      ghost var c, t;
      GrownSelf(tree);
      node, depth, c, t := Descend(anchor, key, path, dir, nodes, tree, model, items);
      if node != null {
        ret := Replace(node, value);
      } else if !alloc {
        ret := -ENOMEM;
      } else {
        Enter(key, value, path, dir, depth, c);
        ret := 1;
      }
    }

    /** The second half of HXrbtree_add: a new node below the place where the descent has ended. */
    method Enter(key: int, value: int, path: array<RbNode>, dir: array<bool>, depth: nat, ghost c: Ctx)
      requires Valid() && items + 1 < CAPACITY && key !in model
      requires Zip(nodes, anchor, c, Leaf) && Focused(c, Leaf) && Plug(c, Leaf) == tree
      requires depth < path.Length && path.Length == dir.Length && PathIs(path[..depth], dir[..depth], anchor, c)
      requires Lo(c).Below(key) && Hi(c).Above(key)
      modifies this`items, this`tid, this`epoch, this`tree, this`nodes, this`model, anchor, nodes
      ensures Valid() && fresh(nodes - old(nodes)) && model == old(model)[key := value] && items == old(items) + 1
      ensures epoch == old(epoch) + 1 || (epoch == old(epoch) && Grown(old(tree), tree))
    {
      hide Sound, Zip, PathIs, Grown, RedBlack, Plug, Focused, Models, Ok, CtxOk, Between, CtxNodes, Nodes, Lo, Hi;
      var nu := new RbNode(key, value);
      var rotated;
      ghost var r;
      rotated, r := Place(anchor, nu, path, dir, depth, nodes, tree, model, items, c);
      NextTid(tid, epoch);
      Count(items + 1, if rotated then (tid + 1) % UINT_MOD else tid, if rotated then epoch + 1 else epoch,
            r, nodes + {nu}, model[key := value]);
    }

    /** HXrbtree_del */
    method Del(key: int) returns (item: Option<int>)
      requires Valid()
      modifies this`items, this`tid, this`epoch, this`tree, this`nodes, this`model, anchor, nodes
      ensures Valid() && nodes <= old(nodes)
      ensures key !in old(model) ==>
        item == None && model == old(model) && epoch == old(epoch) && tree == old(tree) && items == old(items)
      ensures key in old(model) ==> item == Some(old(model)[key]) && model == old(model) - {key}
      ensures key in old(model) ==> items == old(items) - 1 && epoch == old(epoch) + 1
    {
      hide Sound, Zip, PathIs, Grown, RedBlack, Plug, Focused, Models, Ok, CtxOk, Between, CtxNodes, Nodes, Lo, Hi;
      if anchor.left == null {
        Empty(nodes, anchor, tree, model, items);
        return None;
      }
      var path, dir := new RbNode[MAXDEP](_ => anchor), new bool[MAXDEP];
      var node, depth;
      ghost var c, t;
      node, depth, c, t := Descend(anchor, key, path, dir, nodes, tree, model, items);
      if node == null {
        return None;
      }
      item := Some(node.data);
      ghost var r := Remove(anchor, node, path, dir, depth, nodes, tree, model, items, c, t);
      NextTid(tid, epoch);
      Count(items - 1, (tid + 1) % UINT_MOD, epoch + 1, r, nodes - {node}, model - {key});
    }
  }

  /** The write of HXrbtree_replace. */
  method Overwrite(node: RbNode, value: int, ghost nodes: set<RbNode>, ghost anchor: RbNode, ghost t: Tree,
                   ghost m: map<int, int>, ghost items: nat)
    requires Sound(nodes, anchor, t, m, items) && node in nodes
    modifies node`data
    ensures node.data == value && Sound(nodes, anchor, t, m[node.key := value], items)
  {
    KeysDistinct(t, Open, Open);
    hide Zip, RedBlack;
    node.data := value;
  }

  /** Links a fresh node below path[depth-1] and repairs the colours; `rotated` asks for a new
      transaction id. */
  method Insert(anchor: RbNode, node: RbNode, path: array<RbNode>, dir: array<bool>, depth: nat,
                ghost nodes: set<RbNode>, ghost c0: Ctx)
    returns (rotated: bool, ghost tree: Tree)
    requires Zip(nodes, anchor, c0, Leaf) && Focused(c0, Leaf)
    requires depth < path.Length && path.Length == dir.Length && PathIs(path[..depth], dir[..depth], anchor, c0)
    requires node !in nodes && node != anchor && node.left == null && node.right == null && node.red
    requires Lo(c0).Below(node.key) && Hi(c0).Above(node.key)
    modifies nodes`left, nodes`right, nodes`red, node`left, node`right, node`red, anchor`left, anchor`right
    ensures Zip(nodes + {node}, anchor, Top, tree) && RedBlack(tree)
    ensures !rotated ==> Grown(Plug(c0, Leaf), tree)
  {
    hide Zip, PathIs, Grown, Ok, CtxOk, Between, RedBlack, Plug;
    rotated := false;
    ghost var all, c, t := nodes + {node}, c0, Fork(node, true, Leaf, Leaf);
    PathTop(path[..], dir[..], depth, anchor, c0);
    ZipLook(nodes, anchor, c0, Leaf);
    Attach(path[depth - 1], dir[depth - 1], node, nodes, anchor, c0);
    Attached(c0, node);
    ZipLook(all, anchor, c, t);
    RedParent(path[..], dir[..], depth, all, anchor, c, t);
    if depth >= 3 && path[depth - 1].red {
      rotated, c, t := Amov(path, dir, depth, all, anchor, c, t);
    }
    tree := Blacken(anchor, all, c, t);
    if !rotated {
      GrownTrans(Plug(c0, Leaf), Plug(c0, Fork(node, true, Leaf, Leaf)), Plug(c, t));
      GrownTrans(Plug(c0, Leaf), Plug(c, t), tree);
    }
  }

  /** The root is made black after an insertion. */
  method Blacken(anchor: RbNode, ghost nodes: set<RbNode>, ghost c: Ctx, ghost t: Tree) returns (ghost tree: Tree)
    requires Zip(nodes, anchor, c, t) && Ok(t) && CtxOk(c, BlackHeight(t)) && (c.Red() ==> t.Black()) && t.Fork?
    modifies nodes`red
    ensures Zip(nodes, anchor, Top, tree) && RedBlack(tree)
    ensures Grown(Plug(c, t), tree)
  {
    PlugZip(nodes, anchor, c, t);
    RootBlack(c, t);
    ghost var r := Plug(c, t);
    GrownSelf(r);
    hide Zip, Grown, Ok, CtxOk, Between, RedBlack, Plug;
    ZipLook(nodes, anchor, Top, r);
    Paint(anchor.left, false, nodes, anchor, Top, r);
    tree := r.(red := false);
  }

  /** Takes `node`, found by the descent, out of the tree and repairs the balance. */
  method Unlink(anchor: RbNode, node: RbNode, path: array<RbNode>, dir: array<bool>, depth0: nat,
                ghost nodes: set<RbNode>, ghost c0: Ctx, ghost t0: Tree)
    returns (ghost tree: Tree)
    requires Zip(nodes, anchor, c0, t0) && Focused(c0, t0) && t0.Root() == node
    requires path.Length == dir.Length == MAXDEP && depth0 + Height(t0) < MAXDEP
    requires PathIs(path[..depth0], dir[..depth0], anchor, c0)
    modifies path, dir, nodes`left, nodes`right, nodes`red, anchor`left, anchor`right
    ensures Zip(nodes - {node}, anchor, Top, tree) && RedBlack(tree)
  {
    hide Zip, PathIs, Ok, CtxOk, Between, RedBlack, Plug, Focused, Vacated;
    var depth := depth0;
    ghost var c, x;
    PathTop(path[..], dir[..], depth, anchor, c0);
    ZipLook(nodes, anchor, c0, t0);
    path[depth] := node;
    if node.right == null {
      FocusVacated(c0, t0, false);
      Bypass(path[depth - 1], dir[depth - 1], node, false, nodes, anchor, c0, t0);
      c, x := c0, t0.l;
    } else if node.left == null {
      FocusVacated(c0, t0, true);
      Bypass(path[depth - 1], dir[depth - 1], node, true, nodes, anchor, c0, t0);
      c, x := c0, t0.r;
    } else {
      depth, c, x := DelMm(path, dir, depth, nodes, anchor, c0, t0);
    }
    VacatedNext(c, x, node.red);
    PathTop(path[..], dir[..], depth, anchor, c);
    if !node.red {
      c, x := Dmov(path, dir, depth, nodes - {node}, anchor, c, x);
    }
    Close(nodes - {node}, anchor, c, x);
    tree := Plug(c, x);
  }

  /** Unlink in terms of the abstract state. */
  method Remove(anchor: RbNode, node: RbNode, path: array<RbNode>, dir: array<bool>, depth: nat,
                ghost nodes: set<RbNode>, ghost tree: Tree, ghost m: map<int, int>, ghost items: nat,
                ghost c: Ctx, ghost t: Tree)
    returns (ghost r: Tree)
    requires Sound(nodes, anchor, tree, m, items) && node in nodes
    requires Zip(nodes, anchor, c, t) && Focused(c, t) && t.Root() == node
    requires path.Length == dir.Length == MAXDEP && depth + Height(t) < MAXDEP
    requires PathIs(path[..depth], dir[..depth], anchor, c)
    modifies path, dir, nodes`left, nodes`right, nodes`red, anchor`left, anchor`right
    ensures 1 <= items && Sound(nodes - {node}, anchor, r, m - {node.key}, items - 1)
  {
    hide Sound, Zip, PathIs, RedBlack, Focused, Models, Ok, CtxOk, Between;
    SoundRemove(nodes, anchor, tree, m, items, node);
    r := Unlink(anchor, node, path, dir, depth, nodes, c, t);
    SoundAgain(nodes - {node}, anchor, r, m - {node.key}, items - 1);
  }

  /** Insert in terms of the abstract state. */
  method Place(anchor: RbNode, node: RbNode, path: array<RbNode>, dir: array<bool>, depth: nat,
               ghost nodes: set<RbNode>, ghost tree: Tree, ghost m: map<int, int>, ghost items: nat, ghost c: Ctx)
    returns (rotated: bool, ghost r: Tree)
    requires Sound(nodes, anchor, tree, m, items) && items + 1 < CAPACITY && node.key !in m
    requires Zip(nodes, anchor, c, Leaf) && Focused(c, Leaf) && Plug(c, Leaf) == tree
    requires depth < path.Length && path.Length == dir.Length && PathIs(path[..depth], dir[..depth], anchor, c)
    requires node != anchor && node.left == null && node.right == null && node.red
    requires Lo(c).Below(node.key) && Hi(c).Above(node.key)
    modifies nodes`left, nodes`right, nodes`red, node`left, node`right, node`red, anchor`left, anchor`right
    ensures Sound(nodes + {node}, anchor, r, m[node.key := node.data], items + 1)
    ensures !rotated ==> Grown(tree, r)
  {
    hide Sound, Zip, PathIs, Grown, RedBlack, Plug, Focused, Models, Ok, CtxOk, Between, Lo, Hi;
    SoundAdd(nodes, anchor, tree, m, items, node);
    rotated, r := Insert(anchor, node, path, dir, depth, nodes, c);
    SoundAgain(nodes + {node}, anchor, r, m[node.key := node.data], items + 1);
  }

  lemma SoundAdd(nodes: set<RbNode>, anchor: RbNode, t: Tree, m: map<int, int>, items: nat, node: RbNode)
    requires Sound(nodes, anchor, t, m, items) && node.key !in m
    ensures node !in nodes && Models(nodes + {node}, m[node.key := node.data]) && items + 1 == |nodes + {node}|
  {
    hide Zip, RedBlack;
    ModelsAdd(nodes, m, node);
  }

  lemma ModelsAdd(nodes: set<RbNode>, m: map<int, int>, node: RbNode)
    requires Models(nodes, m) && node.key !in m
    ensures node !in nodes && Models(nodes + {node}, m[node.key := node.data])
  {
    var m' := m[node.key := node.data];
    assert m'.Keys == m.Keys + {node.key};
    forall k | k in m.Keys + {node.key}
      ensures Carries(nodes + {node}, k)
    {
      if k in m {
        assert Carries(nodes, k);
      } else {
        assert node in nodes + {node} && node.key == k;
      }
    }
  }

  lemma SoundRemove(nodes: set<RbNode>, anchor: RbNode, t: Tree, m: map<int, int>, items: nat, node: RbNode)
    requires Sound(nodes, anchor, t, m, items) && node in nodes
    ensures Models(nodes - {node}, m - {node.key}) && 1 <= items && items - 1 == |nodes - {node}| < CAPACITY
  {
    KeysDistinct(t, Open, Open);
    forall k | k in m - {node.key}
      ensures Carries(nodes - {node}, k)
    {
      assert Carries(nodes, k);
    }
  }

  lemma SoundAgain(nodes: set<RbNode>, anchor: RbNode, t: Tree, m: map<int, int>, items: nat)
    requires Zip(nodes, anchor, Top, t) && RedBlack(t) && Models(nodes, m) && items == |nodes| < CAPACITY
    ensures Sound(nodes, anchor, t, m, items)
  {
  }

  /** A sound zipper is a sound tree. */
  lemma Close(all: set<RbNode>, anchor: RbNode, c: Ctx, t: Tree)
    requires Zip(all, anchor, c, t) && Ok(t) && CtxOk(c, BlackHeight(t)) && (c.Red() || c.Top? ==> t.Black())
    ensures Zip(all, anchor, Top, Plug(c, t)) && RedBlack(Plug(c, t))
  {
    PlugZip(all, anchor, c, t);
    PlugRedBlack(c, t);
  }

  /** Removing a red node needs no repair, removing a black one leaves a deficit. */
  lemma VacatedNext(c: Ctx, x: Tree, red: bool)
    requires Vacated(c, x, red)
    ensures if red then Ok(x) && CtxOk(c, BlackHeight(x)) && x.Black() else Deficit(c, x)
  {
  }

  lemma Start(path: seq<RbNode>, dir: seq<bool>, anchor: RbNode, nodes: set<RbNode>, t: Tree)
    requires |path| == |dir| >= 1 && path[0] == anchor && !dir[0]
    requires Zip(nodes, anchor, Top, t) && RedBlack(t) && |nodes| < CAPACITY
    ensures PathIs(path[..1], dir[..1], anchor, Top) && Focused(Top, t) && t.Root() == anchor.left
    ensures Height(t) <= MAXDEP - 2 && Plug(Top, t) == t && Lo(Top) == Open && Hi(Top) == Open
  {
    CountNodes(t, Open, Open);
    DepthBound(t);
  }

  /** One step of the descent, to the side on which `key` must be. */
  lemma Deeper(nodes: set<RbNode>, anchor: RbNode, c: Ctx, t: Tree, key: int, tree: Tree)
    requires Zip(nodes, anchor, c, t) && Focused(c, t) && Plug(c, t) == tree && Lo(c).Below(key) && Hi(c).Above(key)
    requires t.Fork? && key != t.node.key
    ensures var res := key > t.node.key; var c', t' := Frame(t.node, t.red, res, Child(t, !res), c), Child(t, res);
      Zip(nodes, anchor, c', t') && Focused(c', t') && Plug(c', t') == tree && Lo(c').Below(key) && Hi(c').Above(key)
      && t.node.Sub(res) == t'.Root() && t' < t
  {
    var res := key > t.node.key;
    ZipLook(nodes, anchor, c, t);
    FocusDown(c, t, res);
    ZipDown(nodes, anchor, c, t, res);
  }

  /** The descent shared by insertion and deletion: path[] and dir[] record the way. */
  method Descend(anchor: RbNode, key: int, path: array<RbNode>, dir: array<bool>,
                 ghost nodes: set<RbNode>, ghost tree: Tree, ghost m: map<int, int>, ghost items: nat)
    returns (node: RbNode?, depth: nat, ghost c: Ctx, ghost t: Tree)
    requires Sound(nodes, anchor, tree, m, items) && path.Length == dir.Length == MAXDEP
    modifies path, dir
    ensures depth + Height(t) < MAXDEP && PathIs(path[..depth], dir[..depth], anchor, c)
    ensures Zip(nodes, anchor, c, t) && Focused(c, t) && Plug(c, t) == tree && node == t.Root()
    ensures Lo(c).Below(key) && Hi(c).Above(key)
    ensures node != null ==> node in nodes && node.key == key
    ensures node == null <==> key !in m
    ensures node != null ==> m[key] == node.data
  {
    hide CtxOk, Ok, PathIs, Between, CtxNodes, Nodes, Zip, Focused, RedBlack, Models, Lo, Hi, Plug, Height;
    path[0] := anchor;
    dir[0] := false;
    depth, node, c, t := 1, anchor.left, Top, tree;
    Start(path[..], dir[..], anchor, nodes, tree);
    while node != null
      invariant depth <= MAXDEP && PathIs(path[..depth], dir[..depth], anchor, c)
      invariant Zip(nodes, anchor, c, t) && Focused(c, t) && Plug(c, t) == tree && node == t.Root()
      invariant Lo(c).Below(key) && Hi(c).Above(key)
      decreases t
    {
      Room(path[..depth], dir[..depth], anchor, c, t);
      ZipLook(nodes, anchor, c, t);
      if key == node.key {
        Found(nodes, anchor, c, t, m, key);
        return;
      }
      var res := key > node.key;
      Deeper(nodes, anchor, c, t, key, tree);
      c, t := Frame(t.node, t.red, res, Child(t, !res), c), Child(t, res);
      Record(path, dir, depth, node, res, anchor, c);
      depth := depth + 1;
      node := node.Sub(res);
    }
    Room(path[..depth], dir[..depth], anchor, c, t);
    Found(nodes, anchor, c, t, m, key);
  }

  /** However far the descent has come, the rest of the tree still fits into the arrays. */
  lemma Room(path: seq<RbNode>, dir: seq<bool>, anchor: RbNode, c: Ctx, t: Tree)
    requires PathIs(path, dir, anchor, c) && Height(Plug(c, t)) <= MAXDEP - 2
    ensures |path| + Height(t) < MAXDEP && (t.Fork? ==> Height(t) > 0)
  {
    PathLen(path, dir, anchor, c);
    PlugHeight(c, t);
  }

  lemma Attached(c: Ctx, node: RbNode)
    requires Focused(c, Leaf)
    ensures var t := Fork(node, true, Leaf, Leaf);
      Pending(c, t) && Grown(Plug(c, Leaf), Plug(c, t)) && Grown(Plug(c, t), Plug(c, t))
  {
    GrownPlug(c, Leaf, Fork(node, true, Leaf, Leaf));
    GrownSelf(Plug(c, Fork(node, true, Leaf, Leaf)));
  }

  lemma Hit(nodes: set<RbNode>, m: map<int, int>, node: RbNode)
    requires Models(nodes, m) && node in nodes
    ensures node.key in m && m[node.key] == node.data
  {
  }

  lemma Empty(nodes: set<RbNode>, anchor: RbNode, t: Tree, m: map<int, int>, items: nat)
    requires Sound(nodes, anchor, t, m, items) && anchor.left == null
    ensures m == map[]
  {
    assert t.Leaf?;
    assert forall k :: k in m ==> false;
  }

  lemma Found(nodes: set<RbNode>, anchor: RbNode, c: Ctx, t: Tree, m: map<int, int>, key: int)
    requires Zip(nodes, anchor, c, t) && Models(nodes, m) && Lo(c).Below(key) && Hi(c).Above(key)
    requires t.Fork? ==> t.node in nodes && t.node.key == key
    ensures key in m <==> t.Fork?
    ensures t.Fork? ==> m[key] == t.node.data
  {
    if t.Leaf? {
      Miss(nodes, anchor, c, m, key);
    }
  }

  /** A descent that ends at a null pointer shows that the key is absent. */
  lemma Miss(nodes: set<RbNode>, anchor: RbNode, c: Ctx, m: map<int, int>, key: int)
    requires Zip(nodes, anchor, c, Leaf) && Models(nodes, m) && Lo(c).Below(key) && Hi(c).Above(key)
    ensures key !in m
  {
    CtxOutside(c);
  }
}
