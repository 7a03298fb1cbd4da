/** Whole runs: any interleaving of insertions, deletions and traversal steps on one tree and
    one traverser, against a finite map and the last key returned. */
module RbSession {
  import opened MapTypes
  import opened RbTheory
  import opened RbMap
  import opened RbTravTheory
  import opened RbTrav

  /** `nodeOk` tells whether the node of an addition can be allocated. */
  datatype Op = Add(key: int, value: int, nodeOk: bool) | Del(key: int) | Traverse
  datatype Event = Added(ret: int) | Deleted(item: Option<int>) | Visited(key: Option<int>)

  predicate Above(last: Option<int>, k: int) {
    last == None || last.value < k
  }

  /** `r` is the least key of `m` after `last`, if there is one. */
  ghost predicate IsNext(m: map<int, int>, last: Option<int>, r: Option<int>) {
    match r
    case None => forall k :: k in m ==> !Above(last, k)
    case Some(key) => key in m && Above(last, key) && forall k :: k in m && Above(last, k) ==> key <= k
  }

  function Updated(m: map<int, int>, op: Op, replace: bool): map<int, int> {
    match op
    case Add(k, v, nodeOk) => if (if k in m then replace else nodeOk) then m[k := v] else m
    case Del(k) => m - {k}
    case Traverse => m
  }

  ghost predicate EventOk(m: map<int, int>, last: Option<int>, op: Op, replace: bool, e: Event) {
    match op
    case Add(k, v, nodeOk) => e ==
      Added(if k in m then (if replace then 1 else -EEXIST) else if nodeOk then 1 else -ENOMEM)
    case Del(k) => e == Deleted(if k in m then Some(m[k]) else None)
    case Traverse => e.Visited? && IsNext(m, last, e.key)
  }

  function NewLast(last: Option<int>, e: Event): Option<int> {
    if e.Visited? then e.key else last
  }

  /** A script that the structures can carry: the map never reaches the size for which path[] is
      made, and `gap`, the changes since the last traversal step, stays within the transaction id. */
  predicate Fits(ops: seq<Op>, m: map<int, int>, replace: bool, gap: nat) {
    |ops| > 0 ==>
      (ops[0].Add? && ops[0].nodeOk ==> ops[0].key in m || |m| + 1 < CAPACITY)
      && (ops[0].Traverse? ==> gap < UINT_MOD)
      && Fits(ops[1..], Updated(m, ops[0], replace), replace, if ops[0].Traverse? then 0 else gap + 1)
  }

  /** The log is what a finite map and a cursor would produce. */
  ghost predicate Accepted(ops: seq<Op>, log: seq<Event>, m: map<int, int>, last: Option<int>, replace: bool) {
    |log| == |ops|
    && (|ops| > 0 ==>
      EventOk(m, last, ops[0], replace, log[0])
      && Accepted(ops[1..], log[1..], Updated(m, ops[0], replace), NewLast(last, log[0]), replace))
  }

  lemma NextIsLeast(nodes: set<RbNode>, anchor: RbNode, t: Tree, m: map<int, int>, items: nat, last: Option<int>)
    requires Sound(nodes, anchor, t, m, items)
    ensures var n := NextNode(t, last); IsNext(m, last, if n == null then None else Some(n.key))
  {
    match last
    case None => FirstLeast(t, Open, Open);
    case Some(k) => SuccLeast(t, Open, Open, k);
  }

  /** What every step keeps. */
  ghost predicate Ready(tree: RbTree, trav: Traverser)
    reads tree, tree.anchor, tree.nodes, trav, trav.path, trav.dir
  {
    tree.Valid() && trav.Valid() && trav.tree == tree && trav.Follows(tree.tree, tree.epoch)
  }

  method DoAdd(tree: RbTree, trav: Traverser, k: int, v: int, nodeOk: bool) returns (ret: int)
    requires Ready(tree, trav) && (nodeOk ==> k in tree.model || tree.items + 1 < CAPACITY)
    modifies tree`items, tree`tid, tree`epoch, tree`tree, tree`nodes, tree`model, tree.anchor, tree.nodes
    ensures Ready(tree, trav) && fresh(tree.nodes - old(tree.nodes))
    ensures old(tree.epoch) <= tree.epoch <= old(tree.epoch) + 1
    ensures EventOk(old(tree.model), trav.Last(), Add(k, v, nodeOk), tree.noReplace, Added(ret))
    ensures tree.model == Updated(old(tree.model), Add(k, v, nodeOk), tree.noReplace)
  {
    hide Sound, Grown, Here;
    ret := tree.Add(k, v, nodeOk);
    if trav.seen == tree.epoch && trav.current != null {
      GrownTrans(trav.base, old(tree.tree), tree.tree);
    }
  }

  method DoDel(tree: RbTree, trav: Traverser, k: int) returns (item: Option<int>)
    requires Ready(tree, trav)
    modifies tree`items, tree`tid, tree`epoch, tree`tree, tree`nodes, tree`model, tree.anchor, tree.nodes
    ensures Ready(tree, trav) && fresh(tree.nodes - old(tree.nodes))
    ensures old(tree.epoch) <= tree.epoch <= old(tree.epoch) + 1
    ensures item == (if k in old(tree.model) then Some(old(tree.model)[k]) else None)
    ensures tree.model == old(tree.model) - {k}
  {
    hide Sound, Grown, Here;
    item := tree.Del(k);
  }

  method DoTraverse(tree: RbTree, trav: Traverser) returns (key: Option<int>)
    requires Ready(tree, trav) && tree.epoch - trav.seen < UINT_MOD
    modifies trav, trav.path, trav.dir
    ensures Ready(tree, trav) && trav.seen == tree.epoch
    ensures IsNext(tree.model, old(trav.Last()), key) && trav.Last() == key
  {
    hide Sound, Grown, Here, IsNext;
    NextIsLeast(tree.nodes, tree.anchor, tree.tree, tree.model, tree.items, trav.Last());
    var node := trav.Traverse();
    key := if node == null then None else Some(node.key);
  }

  lemma SizeKnown(tree: RbTree)
    requires tree.Valid()
    ensures tree.items == |tree.model|
  {
  }

  method Do(tree: RbTree, trav: Traverser, op: Op) returns (e: Event)
    requires Ready(tree, trav) && 0 <= tree.epoch - trav.seen
    requires op.Add? && op.nodeOk ==> op.key in tree.model || |tree.model| + 1 < CAPACITY
    requires op.Traverse? ==> tree.epoch - trav.seen < UINT_MOD
    modifies tree, tree.anchor, tree.nodes, trav, trav.path, trav.dir
    ensures Ready(tree, trav) && fresh(tree.nodes - old(tree.nodes))
    ensures 0 <= tree.epoch - trav.seen <= if op.Traverse? then 0 else old(tree.epoch - trav.seen) + 1
    ensures EventOk(old(tree.model), old(trav.Last()), op, tree.noReplace, e) && tree.noReplace == old(tree.noReplace)
    ensures tree.model == Updated(old(tree.model), op, tree.noReplace) && trav.Last() == NewLast(old(trav.Last()), e)
  {
    hide IsNext, Sound, Grown, Here;
    SizeKnown(tree);
    match op
    case Add(k, v, nodeOk) =>
      var ret := DoAdd(tree, trav, k, v, nodeOk);
      e := Added(ret);
    case Del(k) =>
      var item := DoDel(tree, trav, k);
      e := Deleted(item);
    case Traverse =>
      var key := DoTraverse(tree, trav);
      e := Visited(key);
  }

  /** Runs a script on the real structures. */
  method Run(tree: RbTree, trav: Traverser, ops: seq<Op>, ghost gap: nat) returns (log: seq<Event>)
    requires Ready(tree, trav) && 0 <= tree.epoch - trav.seen <= gap && Fits(ops, tree.model, tree.noReplace, gap)
    modifies tree, tree.anchor, tree.nodes, trav, trav.path, trav.dir
    ensures Ready(tree, trav)
    ensures Accepted(ops, log, old(tree.model), old(trav.Last()), old(tree.noReplace))
    decreases |ops|
  {
    hide Ready, EventOk;
    if |ops| == 0 {
      return [];
    }
    var e := Do(tree, trav, ops[0]);
    var rest := Run(tree, trav, ops[1..], if ops[0].Traverse? then 0 else gap + 1);
    log := [e] + rest;
  }

  /** Between two restarts the keys returned increase. */
  lemma {:induction false} Increasing(ops: seq<Op>, log: seq<Event>, m: map<int, int>, last: Option<int>,
                                      replace: bool, j: nat)
    requires Accepted(ops, log, m, last, replace) && j < |log| && log[j].Visited? && log[j].key.Some?
    requires forall i :: 0 <= i < j ==> log[i] != Visited(None)
    ensures Above(last, log[j].key.value)
    ensures forall i :: 0 <= i < j && log[i].Visited? ==> log[i].key.value < log[j].key.value
  {
    if j > 0 {
      assert log[1..][j - 1] == log[j];
      assert forall i :: 0 <= i < j - 1 ==> log[1..][i] == log[i + 1];
      Increasing(ops[1..], log[1..], Updated(m, ops[0], replace), NewLast(last, log[0]), replace, j - 1);
      forall i | 0 <= i < j && log[i].Visited?
        ensures log[i].key.value < log[j].key.value
      {
        if i > 0 {
          assert log[1..][i - 1] == log[i];
        }
      }
    }
  }

  /** A key that is present and never deleted is returned before the traversal ends. */
  lemma {:induction false} VisitsAll(ops: seq<Op>, log: seq<Event>, m: map<int, int>, last: Option<int>,
                                     replace: bool, k: int, end: nat)
    returns (i: nat)
    requires Accepted(ops, log, m, last, replace) && end < |log| && log[end] == Visited(None)
    requires k in m && Above(last, k) && Del(k) !in ops[..end]
    ensures i < end && log[i] == Visited(Some(k))
    decreases end
  {
    if end == 0 || log[0] == Visited(Some(k)) {
      i := 0;
    } else {
      assert ops[1..][..end - 1] == ops[..end][1..];
      assert log[1..][end - 1] == log[end];
      assert log[0] != Visited(None);
      i := VisitsAll(ops[1..], log[1..], Updated(m, ops[0], replace), NewLast(last, log[0]), replace, k, end - 1);
      i := i + 1;
    }
  }
}
