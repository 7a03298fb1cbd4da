/** Searching, filling, emptying and rebuilding the bucket array of a HXumap (src/map.c). */
module HashStore {
  import opened HashList
  import opened HashTable

  /** The nodes carry exactly the bindings of `m`, one node for a key. */
  ghost predicate Models(nodes: set<Link>, m: map<int, int>)
    reads nodes`data
  {
    |m| == |nodes|
    && (forall x :: x in nodes ==> x.key in m && m[x.key] == x.data)
    && (forall x, y :: x in nodes && y in nodes && x.key == y.key ==> x == y)
    && (forall k :: k in m ==> exists x :: x in nodes && x.key == k)
  }

  ghost predicate Sound(bk: seq<Link>, rings: seq<seq<Link>>, all: set<Link>, nodes: set<Link>, hash: int -> nat,
                        m: map<int, int>)
    reads all`next, all`prev, all`owner, nodes`data
  {
    |bk| == |rings| > 0 && Table(bk, rings, all) && Placed(rings, nodes, hash) && nodes <= all && Models(nodes, m)
  }

  /** HXumap_find: one bucket is searched. */
  method Scan(head: Link, key: int, ghost r: seq<Link>) returns (drop: Link?, ghost k: nat)
    requires Ring(r) && r[0] == head
    ensures drop == null ==> forall j :: 0 < j < |r| ==> r[j].key != key
    ensures drop != null ==> 0 < k < |r| && r[k] == drop && drop.key == key
  {
    drop, k := head.next, 1;
    while drop != head
      invariant 0 < k <= |r| && drop == if k < |r| then r[k] else head
      invariant forall j :: 0 < j < k ==> r[j].key != key
      decreases |r| - k
    {
      if key == drop.key {
        return;
      }
      assert k + 1 < |r| ==> r[k].next == r[k + 1];
      drop, k := drop.next, k + 1;
    }
    drop := null;
  }

  lemma Hit(bk: seq<Link>, rings: seq<seq<Link>>, all: set<Link>, nodes: set<Link>, hash: int -> nat,
            m: map<int, int>, b: nat, k: nat)
    requires Sound(bk, rings, all, nodes, hash, m) && b < |bk| && 0 < k < |rings[b]|
    ensures rings[b][k] in nodes && rings[b][k].key in m && m[rings[b][k].key] == rings[b][k].data
  {
    assert Members(rings[b])[k - 1] == rings[b][k];
  }

  lemma Miss(bk: seq<Link>, rings: seq<seq<Link>>, all: set<Link>, nodes: set<Link>, hash: int -> nat,
             m: map<int, int>, key: int)
    requires Sound(bk, rings, all, nodes, hash, m)
    requires var r := rings[hash(key) % |bk|]; forall j :: 0 < j < |r| ==> r[j].key != key
    ensures key !in m
  {
    forall x | x in nodes && hash(x.key) % |bk| == hash(key) % |bk|
      ensures x.key != key
    {
      var r := rings[hash(key) % |bk|];
      var j :| 0 <= j < |Members(r)| && Members(r)[j] == x;
      assert r[j + 1] == x;
    }
  }

  method Lookup(bk: seq<Link>, hash: int -> nat, key: int, ghost rings: seq<seq<Link>>, ghost all: set<Link>,
                ghost nodes: set<Link>, ghost m: map<int, int>)
    returns (drop: Link?, ghost b: nat, ghost k: nat)
    requires Sound(bk, rings, all, nodes, hash, m)
    ensures drop == null <==> key !in m
    ensures drop != null ==> drop in nodes && drop.key == key && drop.data == m[key]
    ensures drop != null ==> b < |bk| == |rings| && 0 < k < |rings[b]| && rings[b][k] == drop
  {
    var bk_idx := hash(key) % |bk|;
    b := bk_idx;
    drop, k := Scan(bk[bk_idx], key, rings[bk_idx]);
    hide Table, Placed, Models, Ring;
    if drop == null {
      Miss(bk, rings, all, nodes, hash, m, key);
    } else {
      Hit(bk, rings, all, nodes, hash, m, b, k);
    }
  }

  lemma ModelsAdd(nodes: set<Link>, m: map<int, int>, nu: Link)
    requires Models(nodes, m) && nu.key !in m
    ensures nu !in nodes && Models(nodes + {nu}, m[nu.key := nu.data])
  {
  }

  lemma ModelsRemove(nodes: set<Link>, m: map<int, int>, drop: Link)
    requires Models(nodes, m) && drop in nodes
    ensures Models(nodes - {drop}, m - {drop.key})
  {
    forall k | k in m - {drop.key}
      ensures exists x :: x in nodes - {drop} && x.key == k
    {
      var x :| x in nodes && x.key == k;
    }
  }

  lemma TableWider(bk: seq<Link>, rings: seq<seq<Link>>, all: set<Link>, wider: set<Link>)
    requires Table(bk, rings, all) && all <= wider
    ensures Table(bk, rings, wider)
  {
  }

  lemma AttachReady(bk: seq<Link>, rings: seq<seq<Link>>, all: set<Link>, nodes: set<Link>, hash: int -> nat,
                    m: map<int, int>, drop: Link)
    requires Sound(bk, rings, all, nodes, hash, m) && drop.key !in m
    ensures |bk| == |rings| > 0 && Table(bk, rings, all + {drop})
    ensures var b := hash(drop.key) % |rings|;
      Placed(rings[b := rings[b] + [drop]], nodes + {drop}, hash) && forall x :: x in rings[b] ==> x in all
    ensures Models(nodes + {drop}, m[drop.key := drop.data]) && nodes + {drop} <= all + {drop}
  {
    var b := hash(drop.key) % |rings|;
    assert Ring(rings[b]);
    PlacedAdd(rings, nodes, hash, drop, b);
    ModelsAdd(nodes, m, drop);
    TableWider(bk, rings, all, all + {drop});
  }

  lemma DetachReady(bk: seq<Link>, rings: seq<seq<Link>>, all: set<Link>, nodes: set<Link>, hash: int -> nat,
                    m: map<int, int>, drop: Link, b: nat, k: nat)
    requires Sound(bk, rings, all, nodes, hash, m) && b < |bk| && 0 < k < |rings[b]| && rings[b][k] == drop
    ensures |bk| == |rings| && Table(bk, rings, all) && (forall x :: x in rings[b] ==> x in all) && drop in nodes
    ensures nodes <= all
    ensures Placed(rings[b := Without(rings[b], k)], nodes - {drop}, hash) && Models(nodes - {drop}, m - {drop.key})
  {
    assert Ring(rings[b]);
    hide Table, Ring;
    PlacedRemove(rings, nodes, hash, b, k);
    hide Placed;
    ModelsRemove(nodes, m, drop);
  }

  lemma SizeKnown(bk: seq<Link>, rings: seq<seq<Link>>, all: set<Link>, nodes: set<Link>, hash: int -> nat,
                  m: map<int, int>)
    requires Sound(bk, rings, all, nodes, hash, m)
    ensures |bk| == |rings| > 0 && nodes <= all
  {
  }

  lemma SoundAgain(bk: seq<Link>, rings: seq<seq<Link>>, all: set<Link>, nodes: set<Link>, hash: int -> nat,
                   m: map<int, int>)
    requires |bk| > 0 && Table(bk, rings, all) && Placed(rings, nodes, hash) && nodes <= all && Models(nodes, m)
    ensures Sound(bk, rings, all, nodes, hash, m)
  {
  }

  /** One more node at the end of the list that `key` hashes to. */
  ghost predicate Appended(r: seq<seq<Link>>, r': seq<seq<Link>>, hash: int -> nat, key: int) {
    |r'| == |r| > 0
    && var b := hash(key) % |r|;
       |r'[b]| == |r[b]| + 1 && r' == r[b := r[b] + [r'[b][|r[b]|]]] && r'[b][|r[b]|].key == key
  }

  /** The new node of HXumap_add goes to the end of its bucket. */
  method Attach(bk: seq<Link>, hash: int -> nat, key: int, value: int,
                ghost rings: seq<seq<Link>>, ghost all: set<Link>, ghost nodes: set<Link>, ghost m: map<int, int>)
    returns (ghost r: seq<seq<Link>>, ghost all': set<Link>, ghost nodes': set<Link>)
    requires Sound(bk, rings, all, nodes, hash, m) && key !in m
    modifies all`next, all`prev, all`owner
    ensures Appended(rings, r, hash, key) && fresh(all' - all) && |nodes'| == |nodes| + 1
    ensures Sound(bk, r, all', nodes', hash, m[key := value])
  {
    hide Table, Placed, Models, Ring, Sound;
    SizeKnown(bk, rings, all, nodes, hash, m);
    var drop := new Link(key, value);
    drop.Init(false);
    all', nodes' := all + {drop}, nodes + {drop};
    AttachReady(bk, rings, all, nodes, hash, m, drop);
    var bk_idx := hash(key) % |bk|;
    r := Put(bk, bk_idx, drop, rings, all');
    SoundAgain(bk, r, all', nodes', hash, m[key := value]);
  }

  /** HXlist_del on a found node. */
  method Detach(bk: seq<Link>, hash: int -> nat, drop: Link, ghost b: nat, ghost k: nat,
                ghost rings: seq<seq<Link>>, ghost all: set<Link>, ghost nodes: set<Link>, ghost m: map<int, int>)
    returns (ghost r: seq<seq<Link>>, ghost nodes': set<Link>)
    requires Sound(bk, rings, all, nodes, hash, m) && b < |bk| && 0 < k < |rings[b]| && rings[b][k] == drop
    modifies all`next, all`prev, all`owner
    ensures |nodes'| == |nodes| - 1
    ensures Sound(bk, r, all, nodes', hash, m - {drop.key})
  {
    hide Table, Placed, Models, Ring, Sound, Without;
    DetachReady(bk, rings, all, nodes, hash, m, drop, b, k);
    nodes' := nodes - {drop};
    assert nodes' <= all;
    r := Take(bk, b, drop, k, rings, all);
    assert Table(bk, r, all) && Placed(r, nodes', hash);
    assert Models(nodes', m - {drop.key});
    SoundAgain(bk, r, all, nodes', hash, m - {drop.key});
  }

  /** The write of HXumap_replace. */
  method Overwrite(bk: seq<Link>, hash: int -> nat, drop: Link, value: int,
                   ghost rings: seq<seq<Link>>, ghost all: set<Link>, ghost nodes: set<Link>, ghost m: map<int, int>)
    requires Sound(bk, rings, all, nodes, hash, m) && drop in nodes
    modifies drop`data
    ensures drop.data == value && Sound(bk, rings, all, nodes, hash, m[drop.key := value])
  {
    hide Table, Placed, Ring;
    drop.data := value;
  }

  /** The first loop of HXumap_layout: every bucket of the new array starts empty. */
  method Allocate(bk_number: nat) returns (bk_array: seq<Link>, ghost rings: seq<seq<Link>>, ghost heads: set<Link>)
    ensures |bk_array| == |rings| == bk_number && fresh(heads) && Table(bk_array, rings, heads)
    ensures forall i :: 0 <= i < bk_number ==> rings[i] == [bk_array[i]] && bk_array[i] in heads
  {
    bk_array, rings, heads := [], [], {};
    for i := 0 to bk_number
      invariant |bk_array| == |rings| == i && fresh(heads) && Table(bk_array, rings, heads)
      invariant forall j :: 0 <= j < i ==> rings[j] == [bk_array[j]] && bk_array[j] in heads
    {
      var head := new Link(0, 0);
      head.Init(true);
      TableMore(bk_array, rings, heads, head);
      bk_array, rings, heads := bk_array + [head], rings + [[head]], heads + {head};
    }
  }

  lemma TableMore(bk: seq<Link>, rings: seq<seq<Link>>, heads: set<Link>, head: Link)
    requires Table(bk, rings, heads) && head !in heads && head.next == head && head.prev == head && head.owner == head
    ensures Table(bk + [head], rings + [[head]], heads + {head})
  {
    TableWider(bk, rings, heads, heads + {head});
  }

  lemma StartMoving(old_bk: seq<Link>, bk: seq<Link>, hash: int -> nat, all: set<Link>, heads: set<Link>,
                    nodes: set<Link>,
                    old_rings: seq<seq<Link>>, rings: seq<seq<Link>>, m: map<int, int>)
    requires Sound(old_bk, old_rings, all, nodes, hash, m) && Table(bk, rings, heads) && all !! heads && |rings| > 0
    requires forall i :: 0 <= i < |rings| ==> rings[i] == [bk[i]] && bk[i] in heads
    ensures Moving(old_bk, bk, hash, all + heads, nodes, old_rings, rings, nodes)
  {
    TableWider(old_bk, old_rings, all, all + heads);
    TableWider(bk, rings, heads, all + heads);
    assert Placed(rings, nodes - nodes, hash) by {
      assert forall i :: 0 <= i < |rings| ==> Members(rings[i]) == [];
    }
    assert Foreign(old_bk, bk) by {
      assert forall i :: 0 <= i < |old_bk| ==> old_bk[i] == old_rings[i][0] && old_rings[i][0] in old_rings[i];
    }
  }

  /** A new array of `bk_number` buckets takes over all nodes of the old one. */
  method Rehash(old_bk: seq<Link>, bk_number: nat, hash: int -> nat,
                ghost old_rings: seq<seq<Link>>, ghost all: set<Link>, ghost nodes: set<Link>, ghost m: map<int, int>)
    returns (bk_array: seq<Link>, ghost rings: seq<seq<Link>>, ghost heads: set<Link>, ghost moves: nat)
    requires Sound(old_bk, old_rings, all, nodes, hash, m) && bk_number > 0
    modifies all`next, all`prev, all`owner
    ensures |bk_array| == bk_number && fresh(heads) && moves == |nodes|
    ensures Sound(bk_array, rings, all + heads, nodes, hash, m)
  {
    hide Table, Placed, Models, Ring, Moving;
    bk_array, rings, heads := Allocate(bk_number);
    StartMoving(old_bk, bk_array, hash, all, heads, nodes, old_rings, rings, m);
    rings, moves := Move(old_bk, bk_array, hash, nodes, all + heads, old_rings, rings);
    SameLength(bk_array, rings, all + heads);
  }

  /** A bucket array that exists, or none yet. */
  ghost predicate Laid(bk: seq<Link>, rings: seq<seq<Link>>, all: set<Link>, nodes: set<Link>, hash: int -> nat,
                       m: map<int, int>)
    reads all`next, all`prev, all`owner, nodes`data
  {
    if bk == [] then nodes == {} && m == map[] else Sound(bk, rings, all, nodes, hash, m)
  }

  lemma FirstSound(bk: seq<Link>, rings: seq<seq<Link>>, heads: set<Link>, all: set<Link>, hash: int -> nat)
    requires |bk| == |rings| > 0 && Table(bk, rings, heads)
    requires forall i :: 0 <= i < |rings| ==> rings[i] == [bk[i]]
    ensures Sound(bk, rings, all + heads, {}, hash, map[])
  {
    TableWider(bk, rings, heads, all + heads);
    assert forall i :: 0 <= i < |rings| ==> Members(rings[i]) == [];
  }

  /** HXumap_layout without the bookkeeping. */
  method Rebuild(old_bk: seq<Link>, bk_number: nat, hash: int -> nat,
                 ghost old_rings: seq<seq<Link>>, ghost all: set<Link>, ghost nodes: set<Link>, ghost m: map<int, int>)
    returns (bk_array: seq<Link>, ghost rings: seq<seq<Link>>, ghost heads: set<Link>, ghost moves: nat)
    requires Laid(old_bk, old_rings, all, nodes, hash, m) && bk_number > 0
    modifies all`next, all`prev, all`owner
    ensures |bk_array| == bk_number && fresh(heads) && moves == |nodes|
    ensures Sound(bk_array, rings, all + heads, nodes, hash, m)
  {
    hide Table, Placed, Models, Ring, Sound;
    if old_bk == [] {
      bk_array, rings, heads := Allocate(bk_number);
      FirstSound(bk_array, rings, heads, all, hash);
      moves := 0;
    } else {
      bk_array, rings, heads, moves := Rehash(old_bk, bk_number, hash, old_rings, all, nodes, m);
    }
  }

  lemma SameLength(bk: seq<Link>, rings: seq<seq<Link>>, all: set<Link>)
    requires Table(bk, rings, all)
    ensures |bk| == |rings|
  {
  }
}
