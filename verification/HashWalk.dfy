/** A traversal of a hash map from its start, in terms of the script and the log alone. */
module HashWalk {
  import opened MapTypes
  import opened HashList
  import opened HashStore
  import opened HashLoad
  import opened HashMap
  import opened HashTrav
  import opened HashSession

  /** The log shows that `k` was returned. */
  ghost predicate Shown(log: seq<Event>, k: int) {
    exists i :: 0 <= i < |log| && log[i] == Visited(Some(k))
  }

  lemma {:induction false} ShownIs(log: seq<Event>, k: int)
    ensures Shown(log, k) <==> k in Keys(log)
  {
    if k in Keys(log) {
      var i := KeysReturned(log, k);
    }
    if Shown(log, k) {
      var i :| 0 <= i < |log| && log[i] == Visited(Some(k));
      KeyOf(log, k, i);
    }
  }

  lemma {:induction false} KeysReturned(log: seq<Event>, k: int) returns (i: nat)
    requires k in Keys(log)
    ensures i < |log| && log[i] == Visited(Some(k))
  {
    if k in Returned(log[0]) {
      i := 0;
    } else {
      i := KeysReturned(log[1..], k);
      i := i + 1;
    }
  }

  lemma {:induction false} KeyOf(log: seq<Event>, k: int, i: nat)
    requires i < |log| && log[i] == Visited(Some(k))
    ensures k in Keys(log)
  {
    if i > 0 {
      KeyOf(log[1..], k, i - 1);
    }
  }

  /** No deletion has found its key. */
  predicate NoneDeleted(log: seq<Event>) {
    forall e :: e in log ==> e.Deleted? ==> e.item == None
  }

  /** Then nothing is missed. */
  lemma {:induction false} NothingMissed(ops: seq<Op>, log: seq<Event>, hash: int -> nat, n: nat, last: Option<int>,
                                         done: set<int>, must: set<int>)
    requires NoneDeleted(log)
    ensures MissedBy(ops, log, hash, n, last, false, done, must) == {}
    decreases |log|
  {
    if |log| > 0 && |ops| > 0 {
      assert log[0] in log && forall e :: e in log[1..] ==> e in log;
      NothingMissed(ops[1..], log[1..], hash, n, NewLast(last, log[0]), done + Returned(log[0]), must - Gone(ops[0]));
    }
  }

  lemma {:induction false} NoDelLog(ops: seq<Op>, log: seq<Event>, m: map<int, int>, noReplace: bool)
    requires NoDel(ops) && Accepted(ops, log, m, noReplace)
    ensures NoneDeleted(log)
    decreases |log|
  {
    if |log| > 0 {
      assert ops[0] in ops && forall op :: op in ops[1..] ==> op in ops;
      NoDelLog(ops[1..], log[1..], Updated(m, ops[0], log[0]), noReplace);
      assert log == [log[0]] + log[1..];
    }
  }

  /** What is missed waited, undeleted and not yet returned, in the bucket of a key that had been returned,
      and some deletion had found its key before. */
  lemma {:induction false} MissedWhere(ops: seq<Op>, log: seq<Event>, hash: int -> nat, n: nat, last: Option<int>,
                                       stale: bool, done: set<int>, must: set<int>, k: int)
    returns (t: nat, r: Option<int>)
    requires k in MissedBy(ops, log, hash, n, last, stale, done, must)
    ensures t < |log| && log[t].Visited? && k in must && k !in done && !Shown(log[..t], k)
    ensures r.Some? && n > 0 && hash(k) % n == hash(r.value) % n && (r == last || Shown(log[..t], r.value))
    ensures stale || !NoneDeleted(log[..t])
    decreases |log|
  {
    var e := log[0];
    if e.Visited? && k in LostNow(n, hash, last, stale, done, must) {
      t, r := 0, last;
    } else {
      t, r := MissedWhere(ops[1..], log[1..], hash, n, NewLast(last, e), StaleAfter(last, stale, e), done + Returned(e),
                          must - Gone(ops[0]), k);
      t := t + 1;
      Prefix(log, t);
      ShownFirst(e, log[1..][..t - 1], k);
      ShownFirst(e, log[1..][..t - 1], r.value);
    }
  }

  lemma Prefix(log: seq<Event>, t: nat)
    requires 0 < t <= |log|
    ensures log[..t] == [log[0]] + log[1..][..t - 1]
    ensures NoneDeleted(log[..t]) ==>
      NoneDeleted(log[1..][..t - 1]) && !(log[0].Deleted? && log[0].item.Some?)
  {
    assert forall e :: e in log[1..][..t - 1] ==> e in log[..t];
    assert log[..t][0] == log[0];
  }

  lemma ShownFirst(e: Event, log: seq<Event>, k: int)
    ensures Shown([e] + log, k) <==> e == Visited(Some(k)) || Shown(log, k)
  {
    if Shown(log, k) {
      var i :| 0 <= i < |log| && log[i] == Visited(Some(k));
      assert ([e] + log)[i + 1] == Visited(Some(k));
    }
    if e == Visited(Some(k)) {
      assert ([e] + log)[0] == Visited(Some(k));
    }
  }

  /** The keys that are there from the beginning and are not deleted are returned exactly unless they are
      missed. */
  ghost predicate Complete(ops: seq<Op>, log: seq<Event>, hash: int -> nat, n: nat, must: set<int>)
    requires |log| <= |ops|
  {
    forall k :: k in must && k !in Erased(ops[..|log|]) ==>
      (Shown(log, k) <==> k !in MissedBy(ops, log, hash, n, None, false, {}, must))
  }

  /** A traverser is made, and a script is run until it ends or the traverser returns NULL. */
  method Walk(hmap: Umap, ops: seq<Op>) returns (log: seq<Event>)
    requires hmap.Valid() && hmap.nodes <= hmap.all && Fits(ops, false, 0)
    modifies hmap, hmap.all, hmap.nodes
    ensures hmap.Valid() && Accepted(ops, log, old(hmap.model), old(hmap.noReplace)) && |log| <= |ops|
    ensures hmap.gen == old(hmap.gen) ==> Once(log, {})
    ensures hmap.gen == old(hmap.gen) && Ended(log) ==>
      Complete(ops, log, hmap.hash, |hmap.rings|, old(hmap.model.Keys))
    ensures hmap.gen == old(hmap.gen) && Ended(log) && NoneDeleted(log) ==>
      forall k :: k in old(hmap.model) && k !in Erased(ops[..|log|]) ==> Shown(log, k)
    ensures hmap.gen == old(hmap.gen) && Ended(log) && NoDel(ops) ==>
      forall k :: k in old(hmap.model) ==> Shown(log, k)
  {
    hide Sound, Sized, Charged, Track, Accepted, Keys, Once, Erased, MissedBy, Shown, NoDel, NoneDeleted;
    var trav := new Traverser(hmap);
    ghost var m, gen := hmap.model, hmap.gen;
    log := Run(hmap, trav, ops, 0);
    LogFits(ops, log, m, hmap.noReplace);
    if hmap.gen == gen && trav.ended {
      WalkComplete(ops, log, hmap.hash, |hmap.rings|, m, hmap.noReplace, trav.done, trav.missed);
    }
  }

  lemma LogFits(ops: seq<Op>, log: seq<Event>, m: map<int, int>, noReplace: bool)
    requires Accepted(ops, log, m, noReplace)
    ensures |log| <= |ops|
  {
  }

  lemma WalkComplete(ops: seq<Op>, log: seq<Event>, hash: int -> nat, n: nat, m: map<int, int>, noReplace: bool,
                     done: set<int>, missed: set<int>)
    requires Accepted(ops, log, m, noReplace) && |log| <= |ops|
    requires done == {} + Keys(log) && missed == {} + MissedBy(ops, log, hash, n, None, false, {}, m.Keys)
    requires m.Keys - Erased(ops[..|log|]) <= done + missed && done !! missed
    ensures Complete(ops, log, hash, n, m.Keys)
    ensures NoneDeleted(log) ==> forall k :: k in m && k !in Erased(ops[..|log|]) ==> Shown(log, k)
    ensures NoDel(ops) ==> forall k :: k in m ==> Shown(log, k)
  {
    hide Accepted, Keys, Erased, MissedBy, Shown, NoDel, NoneDeleted;
    forall k | k in m && k !in Erased(ops[..|log|])
      ensures Shown(log, k) <==> k !in missed
    {
      ShownIs(log, k);
    }
    if NoDel(ops) {
      NoDelLog(ops, log, m, noReplace);
      NothingErased(ops, |log|);
    }
    if NoneDeleted(log) {
      NothingMissed(ops, log, hash, n, None, {}, m.Keys);
    }
  }

  lemma {:induction false} NothingErased(ops: seq<Op>, n: nat)
    requires NoDel(ops) && n <= |ops|
    ensures Erased(ops[..n]) == {}
  {
    if n > 0 {
      assert ops[0] in ops && ops[..n][1..] == ops[1..][..n - 1] && forall op :: op in ops[1..] ==> op in ops;
      NothingErased(ops[1..], n - 1);
    }
  }

  lemma Buckets(hmap: Umap)
    requires hmap.Valid()
    ensures |hmap.rings| == PRIMES[hmap.power]
  {
  }

  method TwoKeys(hash: int -> nat, a: int, b: int) returns (hmap: Umap)
    requires a != b
    ensures hmap.Valid() && hmap.hash == hash && hmap.model == map[a := 0, b := 0] && hmap.power == 0 == hmap.min_load
    ensures fresh(hmap) && fresh(hmap.all) && hmap.nodes <= hmap.all && |hmap.rings| == 23
  {
    hide Sound, Sized, Charged, Appended, MaxLoad;
    hmap := NewMap(false, hash);
    FirstLoad();
    Counts(hmap);
    var ret := hmap.Add(a, 0, true, true);
    Counts(hmap);
    ret := hmap.Add(b, 0, true, true);
    Counts(hmap);
    Buckets(hmap);
  }

  /** A key that stays in the map all the time and is never returned: of any two keys that share one of
      the 23 buckets of a new map, the traverser passes by the second one when the first one returned
      is deleted. */
  method SkippedKey(hash: int -> nat, a: int, b: int) returns (hmap: Umap, trav: Traverser, kept: int)
    requires a != b && hash(a) % 23 == hash(b) % 23
    ensures hmap.Valid() && trav.hmap == hmap && trav.ended && hmap.gen == trav.born
    ensures kept in hmap.model && kept in trav.must && kept !in trav.done
  {
    hide Sound, Sized, Charged, Track;
    hmap := TwoKeys(hash, a, b);
    trav := new Traverser(hmap);
    Bindings(hmap);
    assert a in trav.must && Lost(|hmap.rings|, hmap.hash, hmap.epoch, trav.Now()) == {};
    var drop := trav.Traverse();
    InBucket(hmap.bk_array, hmap.rings, hmap.all, hmap.nodes, hash, hmap.model, hmap.epoch, hmap.gen, trav.Now(), drop);
    kept := if drop.key == a then b else a;
    var last := SkipRest(hmap, trav, drop.key, kept);
  }

  /** The second half: `first` has been returned, and `kept` waits in the same bucket. */
  method SkipRest(hmap: Umap, trav: Traverser, first: int, kept: int) returns (last: Link?)
    requires Ready(hmap, trav) && !trav.ended && trav.seen == hmap.epoch && trav.born == hmap.gen && trav.head != null
    requires first != kept && hmap.model.Keys == {first, kept} && trav.done == {first} && kept in trav.must
    requires hmap.power == 0 && |hmap.rings| > 0 && hmap.hash(kept) % |hmap.rings| == trav.bk_current
    modifies hmap, hmap.all, hmap.nodes, trav
    ensures hmap.Valid() && trav.ended && hmap.gen == trav.born == old(trav.born)
    ensures kept in hmap.model && kept in trav.must && kept !in trav.done
  {
    hide Sound, Sized, Charged, Track;
    Counts(hmap);
    var e := DoDel(hmap, trav, first, true);
    Counts(hmap);
    Bindings(hmap);
    assert kept in Lost(|hmap.rings|, hmap.hash, hmap.epoch, trav.Now());
    last := trav.Traverse();
  }

  lemma FirstLoad()
    ensures MaxLoad(0) == 16
  {
  }

  lemma InBucket(bk: seq<Link>, rings: seq<seq<Link>>, all: set<Link>, nodes: set<Link>, hash: int -> nat,
                 m: map<int, int>, epoch: nat, gen: nat, v: View, drop: Link)
    requires Sound(bk, rings, all, nodes, hash, m) && Track(rings, hash, m, epoch, gen, v) && Current(v, epoch)
    requires v.head == drop
    ensures |rings| > 0 && hash(drop.key) % |rings| == v.b
  {
    AtPlace(bk, rings, all, nodes, hash, m, v.b, v.pos);
  }
}
