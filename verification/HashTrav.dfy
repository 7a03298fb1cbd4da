/** HXumap_traverse: walking a hash map that changes underneath. */
module HashTrav {
  import opened MapTypes
  import opened HashList
  import opened HashTable
  import opened HashStore
  import opened HashMap

  /** The link at place `p` of a list, where the place after the last is the head again. */
  ghost function Entry(r: seq<Link>, p: nat): Link
    requires |r| > 0
  {
    if p < |r| then r[p] else r[0]
  }

  ghost predicate HasKey(r: seq<Link>, lo: nat, hi: nat, key: int) {
    exists j :: lo <= j < hi && j < |r| && r[j].key == key
  }

  /** Where a traverser is and what it has done: `seen` is the epoch of its tid, `pos` the place of
      `head` in bucket `b`; `done` has the keys returned, `must` those present when it was made, at
      epoch `birth` and generation `born`, and never deleted since, `missed` those passed by. */
  datatype View = View(head: Link?, b: nat, pos: nat, seen: nat, birth: nat, born: nat,
                       done: set<int>, must: set<int>, missed: set<int>)

  /** The traverser has noticed every change of the map. */
  predicate Current(v: View, epoch: nat) {
    v.head != null && v.seen == epoch
  }

  /** What is known of a traverser. */
  ghost predicate Track(rings: seq<seq<Link>>, hash: int -> nat, m: map<int, int>, epoch: nat, gen: nat, v: View) {
    |rings| > 0 && v.birth <= v.seen <= epoch && v.born <= gen && (epoch == v.birth ==> gen == v.born && v.missed == {})
    && (v.head == null ==> v.b == v.pos == 0 && v.done == {} && v.missed == {})
    && (Current(v, epoch) ==> v.b < |rings| && 0 < v.pos < |rings[v.b]| && v.head == rings[v.b][v.pos])
    && (gen == v.born ==> Kept(rings, hash, m, epoch, v))
  }

  /** Without a relayout: the keys returned and the keys missed lie behind, the others ahead. */
  ghost predicate Kept(rings: seq<seq<Link>>, hash: int -> nat, m: map<int, int>, epoch: nat, v: View)
    requires |rings| > 0
  {
    v.b < |rings| && (v.head != null ==> v.b == hash(v.head.key) % |rings|)
    && (forall k :: k in v.done ==> Behind(rings, hash, v.b, v.pos, v.seen == epoch, k))
    && (forall k :: k in v.missed ==> hash(k) % |rings| < v.b && k !in v.done)
    && (forall k :: k in v.must ==>
          k in m && (k in v.done || k in v.missed || Ahead(rings, hash, v.b, v.pos + 1, Current(v, epoch), k)))
  }

  /** The traverser will not come by `k` again. */
  ghost predicate Behind(rings: seq<seq<Link>>, hash: int -> nat, b: nat, pos: nat, current: bool, k: int)
    requires 0 < |rings|
  {
    var i := hash(k) % |rings|;
    i < b || (i == b && (current ==> HasKey(rings[i], 1, pos + 1, k)))
  }

  /** The traverser may still come by `k`: its bucket is later, or the current one, and then its place
      there is later if `sure`. */
  ghost predicate Ahead(rings: seq<seq<Link>>, hash: int -> nat, b: nat, p: nat, sure: bool, k: int)
    requires 0 < |rings|
  {
    var i := hash(k) % |rings|;
    b < i || (i == b && (sure ==> HasKey(rings[i], p, |rings[i]|, k)))
  }

  /** The keys that are lost when a traverser notices a change: those not yet returned that wait in its
      own bucket. */
  ghost function Lost(buckets: nat, hash: int -> nat, epoch: nat, v: View): set<int> {
    set k | k in v.must - v.done && v.head != null && v.seen != epoch && buckets > 0 && hash(k) % buckets == v.b
  }

  /** Nothing lies between place (b0, p0) and the later place (b, p). */
  ghost predicate Skipped(rings: seq<seq<Link>>, b0: nat, p0: nat, b: nat, p: nat)
    requires b0 < |rings|
  {
    b0 <= b <= |rings|
    && (b == b0 ==> p == p0)
    && (b > b0 ==> p == 1 && p0 == |rings[b0]|)
    && (forall i :: b0 < i < b ==> |rings[i]| == 1)
  }

  /** The loop of HXumap_traverse: empty buckets are passed over. */
  method Seek(bk_array: seq<Link>, b0: nat, head0: Link, ghost p0: nat, ghost rings: seq<seq<Link>>,
              ghost all: set<Link>)
    returns (head: Link, b: nat, ghost p: nat)
    requires Table(bk_array, rings, all) && b0 < |bk_array| == |rings| && 0 < p0 <= |rings[b0]|
    requires head0 == Entry(rings[b0], p0)
    ensures Skipped(rings, b0, p0, b, p)
    ensures b < |rings| ==> 0 < p < |rings[b]| && head == rings[b][p]
  {
    head, b, p := head0, b0, p0;
    while head == bk_array[b]
      invariant b < |rings| && 0 < p <= |rings[b]| && head == Entry(rings[b], p) && Skipped(rings, b0, p0, b, p)
      decreases |bk_array| - b
    {
      b, p := b + 1, 1;
      if b >= |bk_array| {
        return;
      }
      FirstTwo(bk_array, rings, all, b);
      head := bk_array[b].next;
    }
  }

  /** struct HXumap_trav. */
  class Traverser {
    const hmap: Umap
    var head: Link?
    var bk_current: nat
    var tid: nat
    ghost var pos: nat
    ghost var seen: nat
    ghost var birth: nat
    ghost var born: nat
    ghost var done: set<int>
    ghost var must: set<int>
    ghost var missed: set<int>
    ghost var ended: bool

    ghost function Now(): View
      reads this
    {
      View(head, bk_current, pos, seen, birth, born, done, must, missed)
    }

    ghost predicate Follows()
      reads this, hmap
    {
      tid == (1 + seen) % UINT_MOD && Track(hmap.rings, hmap.hash, hmap.model, hmap.epoch, hmap.gen, Now())
    }

    /** HXumap_travinit */
    constructor (umap: Umap)
      requires umap.Valid()
      ensures hmap == umap && Follows() && done == missed == {} && must == umap.model.Keys && !ended
      ensures birth == seen == umap.epoch && born == umap.gen && head == null
    {
      hide Sound, Sized, Charged, Track;
      hmap, head, bk_current, tid, pos := umap, null, 0, umap.tid, 0;
      seen, birth, born, ended := umap.epoch, umap.epoch, umap.gen, false;
      done, must, missed := {}, umap.model.Keys, {};
      Begin(umap.bk_array, umap.rings, umap.all, umap.nodes, umap.hash, umap.model, umap.epoch, umap.gen);
    }

    /** A deleted key is no longer one that must be returned. */
    ghost method Forget(k: int)
      modifies this`must
      ensures must == old(must) - {k}
    {
      must := must - {k};
    }

    /** HXumap_traverse.  The keys lost are those not yet returned in the current bucket when a stale
        tid is noticed; every other one is returned before NULL, and none twice. */
    method Traverse() returns (drop: Link?)
      requires hmap.Valid() && Follows() && !ended && hmap.epoch - seen < UINT_MOD
      modifies this
      ensures ended == (drop == null) && seen >= old(seen) && birth == old(birth) && born == old(born)
      ensures must == old(must) && missed == old(missed) + old(Lost(|hmap.rings|, hmap.hash, hmap.epoch, Now()))
      ensures drop != null ==> Follows() && drop in hmap.nodes && done == old(done) + {drop.key} && head == drop
      ensures drop != null ==> seen == if old(head) == null then old(seen) else hmap.epoch
      ensures drop != null && hmap.gen == born ==> drop.key !in old(done) + missed
      ensures drop == null ==> done == old(done) && seen == old(seen)
      ensures drop == null && hmap.gen == born ==> must <= done + missed && done !! missed
      ensures hmap.epoch == birth ==> missed == {}
    {
      hide Sound, Sized, Charged, Track, Table, Lost, From;
      ghost var v := Now();
      Place(hmap.bk_array, hmap.rings, hmap.all, hmap.nodes, hmap.hash, hmap.model, hmap.epoch, hmap.gen, v);
      var next;
      ghost var p0, s;
      next, p0, s := Leave();
      missed := missed + Lost(|hmap.rings|, hmap.hash, hmap.epoch, v);
      if next == null {
        ended := true;
        return null;
      }
      drop := Proceed(next, p0, s, v);
    }

    /** The loop over empty buckets, and what it comes to. */
    method Proceed(next0: Link, ghost p0: nat, ghost s: nat, ghost v: View) returns (drop: Link?)
      requires hmap.Valid() && Track(hmap.rings, hmap.hash, hmap.model, hmap.epoch, hmap.gen, v) && !ended
      requires Now() == v.(missed := v.missed + Lost(|hmap.rings|, hmap.hash, hmap.epoch, v))
      requires |hmap.rings| == |hmap.bk_array| && bk_current < |hmap.bk_array| && From(hmap.rings, hmap.epoch, v, p0)
      requires 0 < p0 <= |hmap.rings[bk_current]| && next0 == Entry(hmap.rings[bk_current], p0)
      requires tid == (1 + s) % UINT_MOD && s == if head == null then seen else hmap.epoch
      modifies this`head, this`bk_current, this`pos, this`seen, this`done, this`ended
      ensures ended == (drop == null)
      ensures drop == null ==> seen == v.seen && done == v.done
      ensures drop == null && hmap.gen == born ==> must <= done + missed && done !! missed
      ensures drop != null ==> Follows() && drop in hmap.nodes && head == drop
      ensures drop != null ==> seen == s && done == v.done + {drop.key}
      ensures drop != null && hmap.gen == born ==> drop.key !in v.done + missed
    {
      hide Sound, Sized, Charged, Track, Skipped, Table, Lost, From;
      Known(hmap.bk_array, hmap.rings, hmap.all, hmap.nodes, hmap.hash, hmap.model);
      var next, b;
      ghost var p;
      next, b, p := Seek(hmap.bk_array, bk_current, next0, p0, hmap.rings, hmap.all);
      if b >= |hmap.bk_array| {
        Finish(hmap.bk_array, hmap.rings, hmap.all, hmap.nodes, hmap.hash, hmap.model, hmap.epoch, hmap.gen, v,
               p0, b, p);
        head, bk_current, ended := next, b, true;
        return null;
      }
      Arrive(hmap.bk_array, hmap.rings, hmap.all, hmap.nodes, hmap.hash, hmap.model, hmap.epoch, hmap.gen, v, p0, b, p);
      Settle(next, b, p, s);
      drop := next;
    }

    /** The three ways on: from the first head, from the end of the current bucket after a change, and
        from the current node. */
    method Leave() returns (next: Link?, ghost p0: nat, ghost s: nat)
      requires hmap.Valid() && Follows() && hmap.epoch - seen < UINT_MOD
      modifies this`tid
      ensures |hmap.rings| == |hmap.bk_array| && Table(hmap.bk_array, hmap.rings, hmap.all)
      ensures next == null ==> bk_current >= |hmap.bk_array|
      ensures next != null ==> bk_current < |hmap.bk_array| && From(hmap.rings, hmap.epoch, Now(), p0)
      ensures next != null ==> 0 < p0 <= |hmap.rings[bk_current]| && next == Entry(hmap.rings[bk_current], p0)
      ensures next != null ==> tid == (1 + s) % UINT_MOD && s == if head == null then seen else hmap.epoch
    {
      hide Sound, Sized, Charged, Track, Table, Lost;
      p0, s := pos + 1, seen;
      SameEpoch(tid, seen, hmap.tid, hmap.epoch);
      Place(hmap.bk_array, hmap.rings, hmap.all, hmap.nodes, hmap.hash, hmap.model, hmap.epoch, hmap.gen, Now());
      Known(hmap.bk_array, hmap.rings, hmap.all, hmap.nodes, hmap.hash, hmap.model);
      if head == null {
        next := hmap.bk_array[bk_current].next;
      } else if tid != hmap.tid {
        if bk_current >= |hmap.bk_array| {
          return null, 0, seen;
        }
        next, p0, s := hmap.bk_array[bk_current], |hmap.rings[bk_current]|, hmap.epoch;
        tid := hmap.tid;
      } else {
        next := head.next;
      }
    }

    method Settle(next: Link, b: nat, ghost p: nat, ghost s: nat)
      modifies this`head, this`bk_current, this`pos, this`seen, this`done
      ensures Now() == old(Now()).(head := next, b := b, pos := p, seen := s, done := old(done) + {next.key})
    {
      head, bk_current, pos, seen, done := next, b, p, s, done + {next.key};
    }
  }

  /** Places where the search for the next node may start. */
  ghost predicate From(rings: seq<seq<Link>>, epoch: nat, v: View, p0: nat) {
    if v.head != null && v.seen != epoch then v.b < |rings| && p0 == |rings[v.b]| else p0 == v.pos + 1
  }

  /** The traverser at its next node. */
  ghost function Moved(rings: seq<seq<Link>>, hash: int -> nat, epoch: nat, v: View, b: nat, p: nat): View
    requires b < |rings| && p < |rings[b]|
  {
    var x := rings[b][p];
    v.(head := x, b := b, pos := p, seen := if v.head == null then v.seen else epoch,
       done := v.done + {x.key}, missed := v.missed + Lost(|rings|, hash, epoch, v))
  }

  lemma Arrive(bk: seq<Link>, rings: seq<seq<Link>>, all: set<Link>, nodes: set<Link>, hash: int -> nat,
               m: map<int, int>, epoch: nat, gen: nat, v: View, p0: nat, b: nat, p: nat)
    requires Sound(bk, rings, all, nodes, hash, m) && Track(rings, hash, m, epoch, gen, v)
    requires From(rings, epoch, v, p0) && v.b < |rings| && Skipped(rings, v.b, p0, b, p)
    requires b < |rings| && 0 < p < |rings[b]|
    ensures var x, v' := rings[b][p], Moved(rings, hash, epoch, v, b, p);
      x in nodes && Track(rings, hash, m, epoch, gen, v') && (gen == v.born ==> x.key !in v.done + v'.missed)
      && (epoch == v.birth ==> v'.missed == {})
  {
    hide Sound, Kept;
    var x, v' := rings[b][p], Moved(rings, hash, epoch, v, b, p);
    AtPlace(bk, rings, all, nodes, hash, m, b, p);
    if gen == v.born {
      ArriveNew(bk, rings, all, nodes, hash, m, epoch, v, p0, b, p);
      ArriveAhead(bk, rings, all, nodes, hash, m, epoch, v, p0, b, p);
      KeptAgain(rings, hash, m, epoch, v');
    }
  }

  /** What Kept asks for, part by part. */
  ghost predicate DoneOk(rings: seq<seq<Link>>, hash: int -> nat, epoch: nat, v: View) {
    |rings| > 0 && v.b < |rings| && (v.head != null ==> v.b == hash(v.head.key) % |rings|)
    && (forall k :: k in v.done ==> Behind(rings, hash, v.b, v.pos, v.seen == epoch, k))
    && (forall k :: k in v.missed ==> hash(k) % |rings| < v.b && k !in v.done)
  }

  ghost predicate MustOk(rings: seq<seq<Link>>, hash: int -> nat, m: map<int, int>, epoch: nat, v: View) {
    |rings| > 0
    && forall k :: k in v.must ==>
         k in m && (k in v.done || k in v.missed || Ahead(rings, hash, v.b, v.pos + 1, Current(v, epoch), k))
  }

  lemma KeptAgain(rings: seq<seq<Link>>, hash: int -> nat, m: map<int, int>, epoch: nat, v: View)
    requires DoneOk(rings, hash, epoch, v) && MustOk(rings, hash, m, epoch, v)
    ensures Kept(rings, hash, m, epoch, v)
  {
  }

  lemma AtPlace(bk: seq<Link>, rings: seq<seq<Link>>, all: set<Link>, nodes: set<Link>, hash: int -> nat,
                m: map<int, int>, b: nat, p: nat)
    requires Sound(bk, rings, all, nodes, hash, m) && b < |rings| && 0 < p < |rings[b]|
    ensures rings[b][p] in nodes && hash(rings[b][p].key) % |rings| == b
  {
    Hit(bk, rings, all, nodes, hash, m, b, p);
    assert Members(rings[b])[p - 1] == rings[b][p];
  }

  lemma ArriveNew(bk: seq<Link>, rings: seq<seq<Link>>, all: set<Link>, nodes: set<Link>, hash: int -> nat,
                  m: map<int, int>, epoch: nat, v: View, p0: nat, b: nat, p: nat)
    requires Sound(bk, rings, all, nodes, hash, m) && (v.head == null ==> v.b == v.pos == 0 && v.done == v.missed == {})
    requires |rings| > 0 && Kept(rings, hash, m, epoch, v) && From(rings, epoch, v, p0) && Skipped(rings, v.b, p0, b, p)
    requires b < |rings| && 0 < p < |rings[b]| && hash(rings[b][p].key) % |rings| == b
    ensures rings[b][p].key !in v.done && DoneOk(rings, hash, epoch, Moved(rings, hash, epoch, v, b, p))
  {
    hide Sound, Skipped;
    var x := rings[b][p];
    Later(rings, v.b, p0, b, p);
    assert HasKey(rings[b], 1, p + 1, x.key);
    DistinctKeys(bk, rings, all, nodes, hash, m, b, p);
    forall k | k in v.done
      ensures Behind(rings, hash, b, p, true, k) && k != x.key
    {
      var i := hash(k) % |rings|;
      if i == b {
        assert b == v.b && v.seen == epoch && HasKey(rings[b], 1, v.pos + 1, k);
      }
    }
  }

  lemma Later(rings: seq<seq<Link>>, b0: nat, p0: nat, b: nat, p: nat)
    requires b0 < |rings| && Skipped(rings, b0, p0, b, p)
    ensures b0 <= b && (b == b0 ==> p == p0)
    ensures b < |rings| && p < |rings[b]| && p0 == |rings[b0]| ==> b0 < b
  {
  }

  lemma DistinctKeys(bk: seq<Link>, rings: seq<seq<Link>>, all: set<Link>, nodes: set<Link>, hash: int -> nat,
                     m: map<int, int>, b: nat, p: nat)
    requires Sound(bk, rings, all, nodes, hash, m) && b < |rings| && 0 < p < |rings[b]|
    ensures forall j :: 0 < j < p ==> rings[b][j].key != rings[b][p].key
  {
    forall j | 0 < j < p
      ensures rings[b][j].key != rings[b][p].key
    {
      Hit(bk, rings, all, nodes, hash, m, b, j);
      Hit(bk, rings, all, nodes, hash, m, b, p);
      assert Ring(rings[b]);
    }
  }

  /** A key that must come is returned, missed, or lies at or behind the place reached. */
  lemma Waits(bk: seq<Link>, rings: seq<seq<Link>>, all: set<Link>, nodes: set<Link>, hash: int -> nat,
              m: map<int, int>, epoch: nat, v: View, p0: nat, b: nat, p: nat, k: int)
    requires Sound(bk, rings, all, nodes, hash, m) && (v.head == null ==> v.b == v.pos == 0)
    requires |rings| > 0 && Kept(rings, hash, m, epoch, v) && From(rings, epoch, v, p0) && Skipped(rings, v.b, p0, b, p)
    requires k in v.must && k !in v.done && k !in v.missed && k !in Lost(|rings|, hash, epoch, v)
    ensures k in m && var i := hash(k) % |rings|; b <= i && (i == b ==> HasKey(rings[i], p, |rings[i]|, k))
  {
    hide Sound;
    Locate(bk, rings, all, nodes, hash, m, k);
    var i := hash(k) % |rings|;
    assert Ahead(rings, hash, v.b, v.pos + 1, Current(v, epoch), k);
    var j :| 1 <= j < |rings[i]| && rings[i][j].key == k && (i == v.b && Current(v, epoch) ==> j >= v.pos + 1);
  }

  lemma ArriveAhead(bk: seq<Link>, rings: seq<seq<Link>>, all: set<Link>, nodes: set<Link>, hash: int -> nat,
                    m: map<int, int>, epoch: nat, v: View, p0: nat, b: nat, p: nat)
    requires Sound(bk, rings, all, nodes, hash, m) && (v.head == null ==> v.b == v.pos == 0)
    requires |rings| > 0 && Kept(rings, hash, m, epoch, v) && From(rings, epoch, v, p0) && Skipped(rings, v.b, p0, b, p)
    requires b < |rings| && 0 < p < |rings[b]|
    ensures MustOk(rings, hash, m, epoch, Moved(rings, hash, epoch, v, b, p))
  {
    hide Sound, Skipped, Lost;
    var x, v' := rings[b][p], Moved(rings, hash, epoch, v, b, p);
    forall k | k in v.must
      ensures k in m && (k in v'.done || k in v'.missed || Ahead(rings, hash, b, p + 1, true, k))
    {
      if k !in v'.done && k !in v'.missed {
        Waits(bk, rings, all, nodes, hash, m, epoch, v, p0, b, p, k);
        var i := hash(k) % |rings|;
        if i == b {
          var j :| p <= j < |rings[i]| && rings[i][j].key == k;
        }
      }
    }
  }

  lemma Finish(bk: seq<Link>, rings: seq<seq<Link>>, all: set<Link>, nodes: set<Link>, hash: int -> nat,
               m: map<int, int>, epoch: nat, gen: nat, v: View, p0: nat, b: nat, p: nat)
    requires Sound(bk, rings, all, nodes, hash, m) && Track(rings, hash, m, epoch, gen, v)
    requires From(rings, epoch, v, p0) && v.b < |rings| && Skipped(rings, v.b, p0, b, p) && b == |rings|
    ensures var missed := v.missed + Lost(|rings|, hash, epoch, v);
      gen == v.born ==> v.must <= v.done + missed && v.done !! missed
  {
    hide Sound, Skipped;
    if gen == v.born {
      forall k | k in v.must
        ensures k in v.done || k in v.missed || k in Lost(|rings|, hash, epoch, v)
      {
        if k !in v.done && k !in v.missed && k !in Lost(|rings|, hash, epoch, v) {
          Waits(bk, rings, all, nodes, hash, m, epoch, v, p0, b, p, k);
        }
      }
      forall k | k in v.done
        ensures k !in v.missed + Lost(|rings|, hash, epoch, v)
      {
        assert k in v.missed ==> k !in v.done;
      }
    }
  }

  /** Where the pointers of a traverser lead. */
  lemma Place(bk: seq<Link>, rings: seq<seq<Link>>, all: set<Link>, nodes: set<Link>, hash: int -> nat,
              m: map<int, int>, epoch: nat, gen: nat, v: View)
    requires Sound(bk, rings, all, nodes, hash, m) && Track(rings, hash, m, epoch, gen, v)
    ensures |bk| == |rings| && v.birth <= v.seen <= epoch && (gen == v.born ==> v.b < |rings|)
    ensures epoch == v.birth ==> v.missed == Lost(|rings|, hash, epoch, v) == {}
    ensures v.head == null ==> v.b == v.pos == 0 && 0 < |bk| && |rings[0]| > 0 && bk[0] in all
    ensures v.head == null ==> bk[0].next == Entry(rings[0], 1)
    ensures Current(v, epoch) ==> v.b < |bk| && 0 < v.pos < |rings[v.b]| && v.head in all
    ensures Current(v, epoch) ==> v.head.next == Entry(rings[v.b], v.pos + 1)
    ensures v.b < |bk| ==> |rings[v.b]| > 0 && bk[v.b] == Entry(rings[v.b], |rings[v.b]|)
  {
    assert forall i :: 0 <= i < |bk| ==> Ring(rings[i]) && rings[i][0] == bk[i] && rings[i][0] in all;
    if v.head == null {
      FirstTwo(bk, rings, all, 0);
    } else if v.seen == epoch {
      var r := rings[v.b];
      assert v.pos + 1 < |r| ==> r[v.pos].next == r[v.pos + 1];
    }
  }

  lemma Known(bk: seq<Link>, rings: seq<seq<Link>>, all: set<Link>, nodes: set<Link>, hash: int -> nat,
              m: map<int, int>)
    requires Sound(bk, rings, all, nodes, hash, m)
    ensures Table(bk, rings, all) && |bk| == |rings| > 0
  {
  }

  lemma SameEpoch(tid: nat, seen: nat, now: nat, epoch: nat)
    requires tid == (1 + seen) % UINT_MOD && now == (1 + epoch) % UINT_MOD && epoch - seen < UINT_MOD
    ensures seen <= epoch ==> (tid == now <==> seen == epoch)
  {
  }

  lemma Begin(bk: seq<Link>, rings: seq<seq<Link>>, all: set<Link>, nodes: set<Link>, hash: int -> nat,
              m: map<int, int>, epoch: nat, gen: nat)
    requires Sound(bk, rings, all, nodes, hash, m)
    ensures Track(rings, hash, m, epoch, gen, View(null, 0, 0, epoch, epoch, gen, {}, m.Keys, {}))
  {
  }

  lemma Locate(bk: seq<Link>, rings: seq<seq<Link>>, all: set<Link>, nodes: set<Link>, hash: int -> nat,
               m: map<int, int>, k: int)
    requires Sound(bk, rings, all, nodes, hash, m) && k in m
    ensures |rings| > 0 && var r := rings[hash(k) % |rings|]; HasKey(r, 1, |r|, k)
  {
    var x :| x in nodes && x.key == k;
    var r := rings[hash(k) % |rings|];
    var j :| 0 <= j < |Members(r)| && Members(r)[j] == x;
    assert r[j + 1] == x;
  }
}
