/** HXrbtree_keysvalues (src/map.c): the bindings of a tree in an array, in key order. */
module RbKeys {
  import opened RbTheory
  import opened RbHeap
  import opened RbMap

  /** The nodes from left to right. */
  ghost function Flat(t: Tree): seq<RbNode> {
    if t.Leaf? then [] else Flat(t.l) + [t.node] + Flat(t.r)
  }

  lemma {:induction false} FlatSorted(t: Tree, lo: Bound, hi: Bound)
    requires Between(t, lo, hi)
    ensures forall i :: 0 <= i < |Flat(t)| ==> lo.Below(Flat(t)[i].key) && hi.Above(Flat(t)[i].key)
    ensures forall i, j :: 0 <= i < j < |Flat(t)| ==> Flat(t)[i].key < Flat(t)[j].key
  {
    if t.Fork? {
      FlatSorted(t.l, lo, At(t.node.key));
      FlatSorted(t.r, At(t.node.key), hi);
    }
  }

  ghost predicate SameNodes(f: seq<RbNode>, nodes: set<RbNode>) {
    (forall x :: x in f ==> x in nodes) && (forall x :: x in nodes ==> x in f)
  }

  lemma {:induction false} FlatNodes(t: Tree)
    ensures SameNodes(Flat(t), Nodes(t))
    ensures |Flat(t)| == Count(t)
  {
    if t.Fork? {
      FlatNodes(t.l);
      FlatNodes(t.r);
    }
  }

  /** The array holds the nodes `f` from `pos` on. */
  ghost predicate Lists(arr: array<(int, int)>, pos: nat, f: seq<RbNode>)
    reads arr, f`data
  {
    pos + |f| <= arr.Length && forall k :: 0 <= k < |f| ==> arr[pos + k] == (f[k].key, f[k].data)
  }

  ghost predicate Stands(all: set<RbNode>, p: RbNode?, t: Tree)
    reads all`left, all`right, all`red
  {
    Nodes(t) <= all && Rep(p, t)
  }

  lemma StandsFork(all: set<RbNode>, node: RbNode, t: Tree)
    requires Stands(all, node, t)
    ensures t.Fork? && t.node == node && Stands(all, node.left, t.l) && Stands(all, node.right, t.r)
  {
  }

  /** HXrbtree_keysvalues */
  method Collect(node: RbNode, arr: array<(int, int)>, pos: nat, ghost all: set<RbNode>, ghost t: Tree)
    returns (next: nat)
    requires Stands(all, node, t) && pos + |Flat(t)| <= arr.Length
    modifies arr
    ensures next == pos + |Flat(t)| && Lists(arr, pos, Flat(t))
    ensures forall k :: 0 <= k < pos || next <= k < arr.Length ==> arr[k] == old(arr[k])
    decreases t, 0
  {
    hide Stands, Lists;
    StandsFork(all, node, t);
    ghost var l, r := Flat(t.l), Flat(t.r);
    next := pos;
    ListsNone(arr, pos);
    if node.left != null {
      next := Collect(node.left, arr, next, all, t.l);
    } else {
      RepNull(all, t.l);
    }
    next := Write(arr, node, pos, next, l);
    if node.right != null {
      next := CollectMore(node.right, arr, pos, next, all, t.r, l + [node]);
    } else {
      RepNull(all, t.r);
      assert l + [node] + [] == l + [node];
    }
  }

  lemma RepNull(all: set<RbNode>, t: Tree)
    requires Stands(all, null, t)
    ensures Flat(t) == []
  {
  }

  lemma ListsNone(arr: array<(int, int)>, pos: nat)
    ensures pos <= arr.Length ==> Lists(arr, pos, [])
  {
  }

  /** Writes one binding and advances. */
  method Write(arr: array<(int, int)>, node: RbNode, ghost pos: nat, at: nat, ghost f: seq<RbNode>) returns (next: nat)
    requires Lists(arr, pos, f) && at == pos + |f| < arr.Length
    modifies arr
    ensures next == at + 1 && Lists(arr, pos, f + [node])
    ensures forall k :: 0 <= k < arr.Length && k != at ==> arr[k] == old(arr[k])
  {
    arr[at] := (node.key, node.data);
    next := at + 1;
  }

  /** The right subtree goes behind what is there. */
  method CollectMore(node: RbNode, arr: array<(int, int)>, ghost pos: nat, at: nat, ghost all: set<RbNode>,
                     ghost t: Tree, ghost f: seq<RbNode>)
    returns (next: nat)
    requires Stands(all, node, t) && Lists(arr, pos, f) && at == pos + |f| && at + |Flat(t)| <= arr.Length
    modifies arr
    ensures next == at + |Flat(t)| && Lists(arr, pos, f + Flat(t))
    ensures forall k :: 0 <= k < at || next <= k < arr.Length ==> arr[k] == old(arr[k])
    decreases t, 1
  {
    next := Collect(node, arr, at, all, t);
    ghost var g := f + Flat(t);
    forall k | 0 <= k < |g|
      ensures arr[pos + k] == (g[k].key, g[k].data)
    {
      if k >= |f| {
        assert arr[at + (k - |f|)] == (Flat(t)[k - |f|].key, Flat(t)[k - |f|].data);
      }
    }
  }

  /** What a listing of a sound tree is. */
  lemma Listed(arr: array<(int, int)>, nodes: set<RbNode>, anchor: RbNode, t: Tree, m: map<int, int>, items: nat)
    requires Sound(nodes, anchor, t, m, items) && arr.Length == items && Lists(arr, 0, Flat(t))
    ensures |Flat(t)| == items
    ensures forall i, j :: 0 <= i < j < arr.Length ==> arr[i].0 < arr[j].0
    ensures forall i :: 0 <= i < arr.Length ==> arr[i].0 in m && m[arr[i].0] == arr[i].1
    ensures forall k :: k in m ==> exists i :: 0 <= i < arr.Length && arr[i].0 == k
  {
    hide Sound, Flat, Zip, RedBlack, Carries;
    SoundSorted(nodes, anchor, t, m, items);
    SoundFlat(nodes, anchor, t, m, items);
    ListedFlat(arr, Flat(t), m);
  }

  lemma SoundSorted(nodes: set<RbNode>, anchor: RbNode, t: Tree, m: map<int, int>, items: nat)
    requires Sound(nodes, anchor, t, m, items)
    ensures forall i, j :: 0 <= i < j < |Flat(t)| ==> Flat(t)[i].key < Flat(t)[j].key
  {
    FlatSorted(t, Open, Open);
  }

  lemma ListedFlat(arr: array<(int, int)>, f: seq<RbNode>, m: map<int, int>)
    requires arr.Length == |f| && Lists(arr, 0, f) && Carries(f, m) && forall i, j :: 0 <= i < j < |f| ==>
      f[i].key < f[j].key
    ensures forall i, j :: 0 <= i < j < arr.Length ==> arr[i].0 < arr[j].0
    ensures forall i :: 0 <= i < arr.Length ==> arr[i].0 in m && m[arr[i].0] == arr[i].1
    ensures forall k :: k in m ==> exists i :: 0 <= i < arr.Length && arr[i].0 == k
  {
    forall i | 0 <= i < |f|
      ensures arr[i] == (f[i].key, f[i].data)
    {
      assert arr[0 + i] == (f[i].key, f[i].data);
    }
    forall k | k in m
      ensures exists i :: 0 <= i < arr.Length && arr[i].0 == k
    {
      var i :| 0 <= i < |f| && f[i].key == k;
      assert arr[i].0 == k;
    }
  }

  lemma SoundFlat(nodes: set<RbNode>, anchor: RbNode, t: Tree, m: map<int, int>, items: nat)
    requires Sound(nodes, anchor, t, m, items)
    ensures |Flat(t)| == items && Carries(Flat(t), m)
  {
    FlatNodes(t);
    CountNodes(t, Open, Open);
    assert Nodes(t) == nodes;
    FlatModels(Flat(t), nodes, m);
  }

  lemma FlatModels(f: seq<RbNode>, nodes: set<RbNode>, m: map<int, int>)
    requires Models(nodes, m) && SameNodes(f, nodes)
    ensures Carries(f, m)
  {
    forall k | k in m
      ensures exists i :: 0 <= i < |f| && f[i].key == k
    {
      var x :| x in nodes && x.key == k;
      var i :| 0 <= i < |f| && f[i] == x;
    }
    assert forall i :: 0 <= i < |f| ==> f[i] in f;
  }

  /** The nodes of `f` have the bindings of `m`. */
  ghost predicate Carries(f: seq<RbNode>, m: map<int, int>)
    reads f`data
  {
    (forall i :: 0 <= i < |f| ==> f[i].key in m && m[f[i].key] == f[i].data)
    && (forall k :: k in m ==> exists i :: 0 <= i < |f| && f[i].key == k)
  }

  /** HXmap_keysvalues on a tree that is not empty. */
  method KeysValues(btree: RbTree) returns (arr: array<(int, int)>)
    requires btree.Valid() && btree.model != map[]
    ensures fresh(arr) && arr.Length == btree.items
    ensures forall i, j :: 0 <= i < j < arr.Length ==> arr[i].0 < arr[j].0
    ensures forall i :: 0 <= i < arr.Length ==> arr[i].0 in btree.model && btree.model[arr[i].0] == arr[i].1
    ensures forall k :: k in btree.model ==> exists i :: 0 <= i < arr.Length && arr[i].0 == k
  {
    hide Sound, Stands, Flat, Lists;
    NotEmpty(btree);
    arr := new (int, int)[btree.items];
    var n := Collect(btree.anchor.left, arr, 0, btree.nodes, btree.tree);
    Listed(arr, btree.nodes, btree.anchor, btree.tree, btree.model, btree.items);
  }

  lemma NotEmpty(btree: RbTree)
    requires btree.Valid() && btree.model != map[]
    ensures btree.tree.Fork? && btree.anchor.left != null && Stands(btree.nodes, btree.anchor.left, btree.tree)
    ensures |Flat(btree.tree)| == btree.items
  {
    FlatNodes(btree.tree);
    CountNodes(btree.tree, Open, Open);
    var k :| k in btree.model;
  }
}
