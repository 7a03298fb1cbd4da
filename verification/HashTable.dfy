/** Bucket arrays: one circular list per bucket. */
module HashTable {
  import opened HashList

  ghost predicate InRange(rings: seq<seq<Link>>, all: set<Link>) {
    forall i, x :: 0 <= i < |rings| && x in rings[i] ==> x in all
  }

  /** bk_array[i] heads the list rings[i]; the lists are disjoint because every link knows its head. */
  ghost predicate Table(bk: seq<Link>, rings: seq<seq<Link>>, all: set<Link>)
    reads all`next, all`prev, all`owner
  {
    |bk| == |rings| && InRange(rings, all)
    && (forall i :: 0 <= i < |rings| ==> Ring(rings[i]) && rings[i][0] == bk[i])
    && (forall i, j :: 0 <= i < j < |bk| ==> bk[i] != bk[j])
  }

  ghost function Members(r: seq<Link>): seq<Link> {
    if |r| == 0 then [] else r[1..]
  }

  /** Every node is a member of exactly the list its key hashes to. */
  ghost predicate Placed(rings: seq<seq<Link>>, nodes: set<Link>, hash: int -> nat) {
    |rings| > 0
    && (forall i, x :: 0 <= i < |rings| && x in Members(rings[i]) ==> x in nodes && hash(x.key) % |rings| == i)
    && (forall x :: x in nodes ==> x in Members(rings[hash(x.key) % |rings|]))
  }

  method Put(bk: seq<Link>, b: nat, drop: Link, ghost rings: seq<seq<Link>>, ghost all: set<Link>)
    returns (ghost rings': seq<seq<Link>>)
    requires b < |bk| && Table(bk, rings, all) && drop in all && drop.owner == null
    modifies rings[b]`next, rings[b]`prev, drop`next, drop`prev, drop`owner
    ensures rings' == rings[b := rings[b] + [drop]] && Table(bk, rings', all)
  {
    AddTail(bk[b], drop, rings[b]);
    rings' := rings[b := rings[b] + [drop]];
  }

  ghost function Without(r: seq<Link>, k: nat): seq<Link>
    requires k < |r|
  {
    r[..k] + r[k + 1..]
  }

  method Take(bk: seq<Link>, ghost b: nat, drop: Link, ghost k: nat, ghost rings: seq<seq<Link>>, ghost all: set<Link>)
    returns (ghost rings': seq<seq<Link>>)
    requires b < |bk| && Table(bk, rings, all) && 0 < k < |rings[b]| && rings[b][k] == drop
    modifies rings[b]`next, rings[b]`prev, drop`owner
    ensures rings' == rings[b := Without(rings[b], k)] && Table(bk, rings', all)
    ensures drop.owner == null
  {
    Delete(drop, rings[b], k);
    rings' := rings[b := Without(rings[b], k)];
  }

  lemma PlacedAdd(rings: seq<seq<Link>>, nodes: set<Link>, hash: int -> nat, drop: Link, b: nat)
    requires Placed(rings, nodes, hash) && b == hash(drop.key) % |rings| && |rings[b]| > 0
    ensures Placed(rings[b := rings[b] + [drop]], nodes + {drop}, hash)
  {
    hide Members;
    MembersAdd(rings[b], drop);
  }

  ghost predicate Gains(r: seq<Link>, r0: seq<Link>, drop: Link) {
    && (forall x :: x in Members(r) ==> x in Members(r0) || x == drop)
    && (forall x :: x in Members(r0) ==> x in Members(r))
    && drop in Members(r)
  }

  lemma MembersAdd(r: seq<Link>, drop: Link)
    requires |r| > 0
    ensures Gains(r + [drop], r, drop)
  {
    assert Members(r + [drop]) == Members(r) + [drop];
  }

  ghost predicate Lacks(r: seq<Link>, r0: seq<Link>, drop: Link) {
    && drop !in Members(r)
    && (forall x :: x in Members(r) ==> x in Members(r0))
    && (forall x :: x in Members(r0) && x != drop ==> x in Members(r))
  }

  lemma WithoutMembers(r: seq<Link>, k: nat)
    requires 0 < k < |r| && Ring(r)
    ensures Lacks(Without(r, k), r, r[k])
  {
    var w := Without(r, k);
    forall x | x in Members(r) && x != r[k]
      ensures x in Members(w)
    {
      var i :| 0 <= i < |r| - 1 && r[1..][i] == x;
      assert x == if i + 1 < k then w[1..][i] else w[1..][i - 1];
    }
    forall x | x in Members(w)
      ensures x in Members(r) && x != r[k]
    {
      var i :| 0 <= i < |w| - 1 && w[1..][i] == x;
      assert x == if i + 1 < k then r[1..][i] else r[1..][i + 1];
    }
  }

  lemma PlacedRemove(rings: seq<seq<Link>>, nodes: set<Link>, hash: int -> nat, b: nat, k: nat)
    requires Placed(rings, nodes, hash) && b < |rings| && 0 < k < |rings[b]| && Ring(rings[b])
    ensures Placed(rings[b := Without(rings[b], k)], nodes - {rings[b][k]}, hash)
    ensures rings[b][k] in nodes
  {
    var drop := rings[b][k];
    WithoutMembers(rings[b], k);
    assert drop == Members(rings[b])[k - 1];
    PlacedLess(rings, nodes, hash, b, drop, Without(rings[b], k));
  }

  lemma PlacedLess(rings: seq<seq<Link>>, nodes: set<Link>, hash: int -> nat, b: nat, drop: Link, r: seq<Link>)
    requires Placed(rings, nodes, hash) && b < |rings| && drop in Members(rings[b])
    requires Lacks(r, rings[b], drop)
    ensures Placed(rings[b := r], nodes - {drop}, hash)
  {
    hide Members;
    assert hash(drop.key) % |rings| == b;
    var rings' := rings[b := r];
    forall i, x | 0 <= i < |rings'| && x in Members(rings'[i])
      ensures x in nodes - {drop} && hash(x.key) % |rings| == i
    {
      assert rings'[i] == if i == b then r else rings[i];
      assert x in Members(rings[i]);
    }
    forall x | x in nodes - {drop}
      ensures x in Members(rings[b := r][hash(x.key) % |rings|])
    {
      assert x in Members(rings[hash(x.key) % |rings|]);
    }
  }

  ghost predicate Foreign(bk: seq<Link>, bk': seq<Link>) {
    forall i, j :: 0 <= i < |bk| && 0 <= j < |bk'| ==> bk[i] != bk'[j]
  }

  /** The state of a rehash: the nodes in `rest` are still in the old table, the others already
      in the new one. */
  ghost predicate Moving(old_bk: seq<Link>, new_bk: seq<Link>, hash: int -> nat, all: set<Link>, nodes: set<Link>,
                         old_rings: seq<seq<Link>>, rings: seq<seq<Link>>, rest: set<Link>)
    reads all`next, all`prev, all`owner
  {
    Table(old_bk, old_rings, all) && Placed(old_rings, rest, hash) && rest <= nodes
    && Table(new_bk, rings, all) && Placed(rings, nodes - rest, hash) && Foreign(old_bk, new_bk)
  }

  /** Work on one table leaves the other one alone: their lists have different heads. */
  method Unhook(old_bk: seq<Link>, ghost new_bk: seq<Link>, ghost i: nat, drop: Link, ghost all: set<Link>,
                ghost old_rings: seq<seq<Link>>, ghost rings: seq<seq<Link>>)
    returns (ghost r: seq<seq<Link>>)
    requires Table(old_bk, old_rings, all) && Table(new_bk, rings, all) && Foreign(old_bk, new_bk)
    requires i < |old_bk| && |old_rings[i]| > 1 && drop == old_rings[i][1]
    modifies all`next, all`prev, all`owner
    ensures r == old_rings[i := Without(old_rings[i], 1)] && Table(old_bk, r, all) && Table(new_bk, rings, all)
    ensures drop.owner == null && drop in all
  {
    r := Take(old_bk, i, drop, 1, old_rings, all);
  }

  method Hook(ghost old_bk: seq<Link>, new_bk: seq<Link>, b: nat, drop: Link, ghost all: set<Link>,
              ghost old_rings: seq<seq<Link>>, ghost rings: seq<seq<Link>>)
    returns (ghost r: seq<seq<Link>>)
    requires Table(old_bk, old_rings, all) && Table(new_bk, rings, all) && Foreign(old_bk, new_bk)
    requires b < |new_bk| && drop in all && drop.owner == null
    modifies all`next, all`prev, all`owner
    ensures r == rings[b := rings[b] + [drop]] && Table(old_bk, old_rings, all) && Table(new_bk, r, all)
  {
    r := Put(new_bk, b, drop, rings, all);
  }

  lemma RelinkPlaced(old_bk: seq<Link>, new_bk: seq<Link>, i: nat, drop: Link, hash: int -> nat, all: set<Link>,
                     nodes: set<Link>,
                     old_rings: seq<seq<Link>>, rings: seq<seq<Link>>, rest: set<Link>)
    requires Moving(old_bk, new_bk, hash, all, nodes, old_rings, rings, rest)
    requires i < |old_bk| && |old_rings[i]| > 1 && drop == old_rings[i][1]
    ensures drop in rest && Placed(old_rings[i := Without(old_rings[i], 1)], rest - {drop}, hash)
    ensures |rings| == |new_bk| > 0
    ensures var b := hash(drop.key) % |new_bk|; Placed(rings[b := rings[b] + [drop]], nodes - (rest - {drop}), hash)
  {
    hide Moving, Placed, Ring, Without;
    RelinkRings(old_bk, new_bk, i, drop, hash, all, nodes, old_rings, rings, rest);
    PlacedRemove(old_rings, rest, hash, i, 1);
    PlacedAdd(rings, nodes - rest, hash, drop, hash(drop.key) % |new_bk|);
    assert nodes - rest + {drop} == nodes - (rest - {drop});
  }

  lemma RelinkRings(old_bk: seq<Link>, new_bk: seq<Link>, i: nat, drop: Link, hash: int -> nat, all: set<Link>,
                    nodes: set<Link>,
                    old_rings: seq<seq<Link>>, rings: seq<seq<Link>>, rest: set<Link>)
    requires Moving(old_bk, new_bk, hash, all, nodes, old_rings, rings, rest) && i < |old_bk|
    ensures Placed(old_rings, rest, hash) && Placed(rings, nodes - rest, hash) && rest <= nodes
    ensures |old_rings| == |old_bk| && |rings| == |new_bk| > 0 && Ring(old_rings[i])
    ensures |rings[hash(drop.key) % |new_bk|]| > 0
  {
    assert Ring(rings[hash(drop.key) % |new_bk|]);
  }

  /** One node leaves the old table and joins the new one. */
  method Relink(old_bk: seq<Link>, new_bk: seq<Link>, i: nat, drop: Link, hash: int -> nat, ghost all: set<Link>,
                ghost nodes: set<Link>,
                ghost old_rings: seq<seq<Link>>, ghost rings: seq<seq<Link>>, ghost rest: set<Link>)
    returns (ghost r: seq<seq<Link>>, ghost r': seq<seq<Link>>)
    requires Moving(old_bk, new_bk, hash, all, nodes, old_rings, rings, rest)
    requires i < |old_bk| && |old_rings[i]| > 1 && drop == old_rings[i][1]
    modifies all`next, all`prev, all`owner
    ensures r == old_rings[i := Without(old_rings[i], 1)] && drop in rest
    ensures Moving(old_bk, new_bk, hash, all, nodes, r, r', rest - {drop})
  {
    var bk_idx := hash(drop.key) % |new_bk|;
    RelinkPlaced(old_bk, new_bk, i, drop, hash, all, nodes, old_rings, rings, rest);
    hide Placed, Table, Foreign, Ring, Without;
    r := Unhook(old_bk, new_bk, i, drop, all, old_rings, rings);
    r' := Hook(old_bk, new_bk, bk_idx, drop, all, r, rings);
  }

  /** The first members of a list, as the pointers show them. */
  lemma FirstTwo(bk: seq<Link>, rings: seq<seq<Link>>, all: set<Link>, i: nat)
    requires Table(bk, rings, all) && i < |bk|
    ensures |rings| == |bk|
    ensures var r := rings[i]; |r| > 0 && r[0] == bk[i] && bk[i] in all
    ensures var r := rings[i]; bk[i].next == if |r| > 1 then r[1] else r[0]
    ensures var r := rings[i]; |r| > 1 ==> r[1] != bk[i] && r[1].next == (if |r| > 2 then r[2] else r[0])
  {
    var r := rings[i];
    if |r| > 1 {
      assert r[0].next == r[0 + 1];
      if |r| > 2 {
        assert r[1].next == r[1 + 1];
      }
    }
  }

  lemma AllEmpty(rings: seq<seq<Link>>, rest: set<Link>, hash: int -> nat)
    requires Placed(rings, rest, hash) && forall j :: 0 <= j < |rings| ==> |rings[j]| == 1
    ensures rest == {}
  {
    assert forall x :: x in rest ==> x in Members(rings[hash(x.key) % |rings|]);
  }

  function FirstOf(r: seq<Link>): Link
    requires |r| > 0
  {
    if |r| > 1 then r[1] else r[0]
  }

  /** One turn of HXlist_for_each_entry_safe in HXumap_move: the successor was fetched beforehand. */
  method MoveNode(old_bk: seq<Link>, new_bk: seq<Link>, i: nat, drop: Link, dnext: Link, hash: int -> nat,
                  ghost all: set<Link>, ghost nodes: set<Link>,
                  ghost old_rings: seq<seq<Link>>, ghost rings: seq<seq<Link>>, ghost rest: set<Link>)
    returns (drop': Link, dnext': Link, ghost r: seq<seq<Link>>, ghost r': seq<seq<Link>>)
    requires Moving(old_bk, new_bk, hash, all, nodes, old_rings, rings, rest) && i < |old_bk| && |old_rings| == |old_bk|
    requires |old_rings[i]| > 1 && drop == old_rings[i][1] && dnext == drop.next
    modifies all`next, all`prev, all`owner
    ensures |r| == |old_rings| && drop in rest && Moving(old_bk, new_bk, hash, all, nodes, r, r', rest - {drop})
    ensures |r[i]| == |old_rings[i]| - 1 && r[i][0] == old_bk[i] && drop' == FirstOf(r[i]) && dnext' == drop'.next
    ensures |r[i]| > 1 ==> r[i][1] != old_bk[i]
    ensures forall j :: 0 <= j < |r| && j != i ==> r[j] == old_rings[j]
  {
    MovingFirst(old_bk, new_bk, hash, all, nodes, old_rings, rings, rest, i);
    hide Moving, Table, Placed, Ring;
    r, r' := Relink(old_bk, new_bk, i, drop, hash, all, nodes, old_rings, rings, rest);
    MovingFirst(old_bk, new_bk, hash, all, nodes, r, r', rest - {drop}, i);
    drop' := dnext;
    dnext' := dnext.next;
  }

  /** The inner loop of HXumap_move: one bucket is emptied. */
  method MoveBucket(old_bk: seq<Link>, new_bk: seq<Link>, i: nat, hash: int -> nat, ghost all: set<Link>,
                    ghost nodes: set<Link>,
                    ghost old_rings0: seq<seq<Link>>, ghost rings0: seq<seq<Link>>, ghost rest0: set<Link>)
    returns (ghost old_rings: seq<seq<Link>>, ghost rings: seq<seq<Link>>, ghost rest: set<Link>, ghost moves: nat)
    requires Moving(old_bk, new_bk, hash, all, nodes, old_rings0, rings0, rest0) && i < |old_bk|
    modifies all`next, all`prev, all`owner
    ensures Moving(old_bk, new_bk, hash, all, nodes, old_rings, rings, rest)
    ensures |old_rings| == |old_rings0| && |old_rings[i]| == 1 && |rest| + moves == |rest0|
    ensures forall j :: 0 <= j < |old_rings| && j != i ==> old_rings[j] == old_rings0[j]
  {
    old_rings, rings, rest, moves := old_rings0, rings0, rest0, 0;
    MovingFirst(old_bk, new_bk, hash, all, nodes, old_rings, rings, rest, i);
    hide Moving, Table, Placed, Ring;
    var drop: Link := old_bk[i].next;
    var dnext: Link := drop.next;
    while drop != old_bk[i]
      invariant Moving(old_bk, new_bk, hash, all, nodes, old_rings, rings, rest)
      invariant |old_rings| == |old_rings0| == |old_bk| && |rest| + moves == |rest0|
      invariant forall j :: 0 <= j < |old_rings| && j != i ==> old_rings[j] == old_rings0[j]
      invariant |old_rings[i]| > 0 && old_rings[i][0] == old_bk[i] && drop == FirstOf(old_rings[i])
      invariant dnext == drop.next
      invariant |old_rings[i]| > 1 ==> old_rings[i][1] != old_bk[i]
      decreases |old_rings[i]|
    {
      ghost var moved := drop;
      drop, dnext, old_rings, rings := MoveNode(old_bk, new_bk, i, drop, dnext, hash, all, nodes, old_rings, rings,
                                                rest);
      rest, moves := rest - {moved}, moves + 1;
    }
  }

  /** HXumap_move: every node is unlinked from its old list and appended to its new one, once. */
  method Move(old_bk: seq<Link>, new_bk: seq<Link>, hash: int -> nat, ghost nodes: set<Link>, ghost all: set<Link>,
              ghost rings0: seq<seq<Link>>, ghost empty: seq<seq<Link>>)
    returns (ghost rings: seq<seq<Link>>, ghost moves: nat)
    requires Moving(old_bk, new_bk, hash, all, nodes, rings0, empty, nodes)
    modifies all`next, all`prev, all`owner
    ensures Table(new_bk, rings, all) && Placed(rings, nodes, hash) && moves == |nodes|
  {
    assert |rings0| == |old_bk|;
    hide Moving, Table, Placed, Ring;
    rings, moves := empty, 0;
    ghost var old_rings, rest, n := rings0, nodes, 0;
    for i := 0 to |old_bk|
      invariant Moving(old_bk, new_bk, hash, all, nodes, old_rings, rings, rest)
      invariant |old_rings| == |old_bk| && |rest| + moves == |nodes|
      invariant forall j :: 0 <= j < i ==> |old_rings[j]| == 1
    {
      old_rings, rings, rest, n := MoveBucket(old_bk, new_bk, i, hash, all, nodes, old_rings, rings, rest);
      moves := moves + n;
    }
    AllMoved(old_bk, new_bk, hash, all, nodes, old_rings, rings, rest);
  }

  lemma AllMoved(old_bk: seq<Link>, new_bk: seq<Link>, hash: int -> nat, all: set<Link>, nodes: set<Link>,
                 old_rings: seq<seq<Link>>, rings: seq<seq<Link>>, rest: set<Link>)
    requires Moving(old_bk, new_bk, hash, all, nodes, old_rings, rings, rest)
    requires forall j :: 0 <= j < |old_rings| ==> |old_rings[j]| == 1
    ensures rest == {} && Table(new_bk, rings, all) && Placed(rings, nodes, hash)
  {
    AllEmpty(old_rings, rest, hash);
    assert nodes - rest == nodes;
  }

  lemma MovingFirst(old_bk: seq<Link>, new_bk: seq<Link>, hash: int -> nat, all: set<Link>, nodes: set<Link>,
                    old_rings: seq<seq<Link>>, rings: seq<seq<Link>>, rest: set<Link>, i: nat)
    requires Moving(old_bk, new_bk, hash, all, nodes, old_rings, rings, rest) && i < |old_bk|
    ensures |old_rings| == |old_bk|
    ensures var r := old_rings[i]; |r| > 0 && r[0] == old_bk[i] && old_bk[i].next == (if |r| > 1 then r[1] else r[0])
    ensures var r := old_rings[i]; |r| > 1 ==> r[1] != old_bk[i] && r[1].next == (if |r| > 2 then r[2] else r[0])
  {
    FirstTwo(old_bk, old_rings, all, i);
  }
}
