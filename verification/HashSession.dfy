/** Whole runs on a hash map and one traverser: any interleaving of additions, deletions and
    traversal steps, with any allocation failing, up to the traverser's first NULL. */
module HashSession {
  import opened MapTypes
  import opened HashList
  import opened HashStore
  import opened HashLoad
  import opened HashMap
  import opened HashTrav

  datatype Op = Add(key: int, value: int, layoutOk: bool, nodeOk: bool) | Del(key: int, layoutOk: bool) | Traverse
  datatype Event = Added(ret: int) | Deleted(item: Option<int>) | Visited(key: Option<int>)

  /** The finite map after an operation that ended with `e`. */
  function Updated(m: map<int, int>, op: Op, e: Event): map<int, int> {
    match op
    case Add(k, v, _, _) => if e == Added(1) then m[k := v] else m
    case Del(k, _) => m - {k}
    case Traverse => m
  }

  /** What a finite map allows as the outcome.  A failed allocation may or may not matter. */
  ghost predicate EventOk(m: map<int, int>, op: Op, noReplace: bool, e: Event) {
    match op
    case Add(k, v, layoutOk, nodeOk) =>
      if k in m then e == Added(if noReplace then -EEXIST else 1)
      else (e == Added(1) && nodeOk) || (e == Added(-ENOMEM) && !(layoutOk && nodeOk))
    case Del(k, _) => e == Deleted(if k in m then Some(m[k]) else None)
    case Traverse => e.Visited? && (e.key.Some? ==> e.key.value in m)
  }

  ghost predicate Accepted(ops: seq<Op>, log: seq<Event>, m: map<int, int>, noReplace: bool) {
    |log| <= |ops|
    && (|log| > 0 ==> EventOk(m, ops[0], noReplace, log[0]) && Accepted(ops[1..], log[1..], Updated(m, ops[0],
      log[0]), noReplace))
  }

  function Returned(e: Event): set<int> {
    if e.Visited? && e.key.Some? then {e.key.value} else {}
  }

  /** The keys a run has returned. */
  function Keys(log: seq<Event>): set<int> {
    if |log| == 0 then {} else Returned(log[0]) + Keys(log[1..])
  }

  /** No key is returned twice, nor one of `done`. */
  ghost predicate Once(log: seq<Event>, done: set<int>) {
    |log| > 0 ==> Returned(log[0]) !! done && Once(log[1..], done + Returned(log[0]))
  }

  /** The key a traverser stands at. */
  function LastKey(head: Link?): Option<int> {
    if head == null then None else Some(head.key)
  }

  /** What a traversal step loses: when the map has changed in a way that the traverser has not noticed,
      the keys not yet returned in the bucket, one of `n`, of the last key returned. */
  function LostNow(n: nat, hash: int -> nat, last: Option<int>, stale: bool, done: set<int>, must: set<int>): set<int> {
    set k | k in must - done && stale && last.Some? && n > 0 && hash(k) % n == hash(last.value) % n
  }

  function NewLast(last: Option<int>, e: Event): Option<int> {
    if e.Visited? && e.key.Some? then e.key else last
  }

  /** The first step of a traverser does not look at the transaction id. */
  predicate StaleAfter(last: Option<int>, stale: bool, e: Event) {
    if e.Visited? then stale && last.None? else stale || (e.Deleted? && e.item.Some?)
  }

  /** The keys of `must` that a run without a relayout passes by, from its script and its log. */
  function MissedBy(ops: seq<Op>, log: seq<Event>, hash: int -> nat, n: nat, last: Option<int>, stale: bool,
                    done: set<int>, must: set<int>): set<int>
  {
    if |log| == 0 || |ops| == 0 then {}
    else
      var e := log[0];
      (if e.Visited? then LostNow(n, hash, last, stale, done, must) else {})
      + MissedBy(ops[1..], log[1..], hash, n, NewLast(last, e), StaleAfter(last, stale, e), done + Returned(e),
                 must - Gone(ops[0]))
  }

  ghost predicate Ready(hmap: Umap, trav: Traverser)
    reads hmap, hmap.all, hmap.nodes, trav
  {
    hmap.Valid() && trav.hmap == hmap && trav.Follows()
  }

  /** An addition without a relayout leaves the traverser where it is. */
  lemma TrackAdd(rings: seq<seq<Link>>, r: seq<seq<Link>>, hash: int -> nat, m: map<int, int>, m': map<int, int>,
                 epoch: nat, gen: nat, v: View, key: int)
    requires Track(rings, hash, m, epoch, gen, v)
    requires (r == rings || Appended(rings, r, hash, key)) && m.Keys <= m'.Keys
    ensures Track(r, hash, m', epoch, gen, v)
  {
    assert |r| == |rings|;
    forall i | 0 <= i < |r|
      ensures |rings[i]| <= |r[i]| && r[i][..|rings[i]|] == rings[i]
    {
    }
    if gen == v.born {
      KeptAdd(rings, r, hash, m, m', epoch, v);
    }
    if Current(v, epoch) {
      assert r[v.b][v.pos] == r[v.b][..|rings[v.b]|][v.pos];
    }
  }

  lemma KeptAdd(rings: seq<seq<Link>>, r: seq<seq<Link>>, hash: int -> nat, m: map<int, int>, m': map<int, int>,
                epoch: nat, v: View)
    requires |r| == |rings| > 0 && Kept(rings, hash, m, epoch, v) && m.Keys <= m'.Keys
    requires forall i :: 0 <= i < |r| ==> |rings[i]| <= |r[i]| && r[i][..|rings[i]|] == rings[i]
    ensures Kept(r, hash, m', epoch, v)
  {
    forall k | k in v.done
      ensures Behind(r, hash, v.b, v.pos, v.seen == epoch, k)
    {
      assert Behind(rings, hash, v.b, v.pos, v.seen == epoch, k);
      var i := hash(k) % |r|;
      if i == v.b && v.seen == epoch {
        var j :| 1 <= j < v.pos + 1 && j < |rings[i]| && rings[i][j].key == k;
        assert r[i][j] == r[i][..|rings[i]|][j];
      }
    }
    forall k | k in v.must && k !in v.done && k !in v.missed
      ensures Ahead(r, hash, v.b, v.pos + 1, Current(v, epoch), k)
    {
      assert Ahead(rings, hash, v.b, v.pos + 1, Current(v, epoch), k);
      var i := hash(k) % |r|;
      if i == v.b && Current(v, epoch) {
        var j :| v.pos + 1 <= j < |rings[i]| && rings[i][j].key == k;
        assert r[i][j] == r[i][..|rings[i]|][j];
      }
    }
  }

  /** After a change of tid the place in the current bucket is open; the deleted key is given up. */
  lemma TrackLate(rings: seq<seq<Link>>, r: seq<seq<Link>>, hash: int -> nat, m: map<int, int>, m': map<int, int>,
                  epoch: nat, epoch': nat, gen: nat, gen': nat, v: View, key: int)
    requires Track(rings, hash, m, epoch, gen, v) && m.Keys - {key} <= m'.Keys
    requires epoch < epoch' && gen <= gen' && |r| > 0 && (gen == gen' ==> |r| == |rings|)
    ensures Track(r, hash, m', epoch', gen', v.(must := v.must - {key}))
  {
    var v' := v.(must := v.must - {key});
    if gen' == v.born {
      forall k | k in v'.done
        ensures Behind(r, hash, v'.b, v'.pos, false, k)
      {
        assert Behind(rings, hash, v.b, v.pos, v.seen == epoch, k);
      }
      forall k | k in v'.must && k !in v'.done && k !in v'.missed
        ensures Ahead(r, hash, v'.b, v'.pos + 1, false, k)
      {
        assert Ahead(rings, hash, v.b, v.pos + 1, Current(v, epoch), k);
      }
    }
  }

  /** An addition with a relayout leaves nothing to be kept. */
  lemma TrackMoved(rings: seq<seq<Link>>, r: seq<seq<Link>>, hash: int -> nat, m: map<int, int>, m': map<int, int>,
                   epoch: nat, epoch': nat, gen: nat, gen': nat, v: View)
    requires Track(rings, hash, m, epoch, gen, v) && epoch < epoch' && gen < gen' && |r| > 0
    ensures Track(r, hash, m', epoch', gen', v)
  {
  }

  /** Nothing happens to the traverser when an absent key is deleted. */
  lemma TrackSame(rings: seq<seq<Link>>, hash: int -> nat, m: map<int, int>, epoch: nat, gen: nat, v: View, key: int)
    requires Track(rings, hash, m, epoch, gen, v)
    ensures Track(rings, hash, m, epoch, gen, v.(must := v.must - {key}))
  {
  }

  /** A map and its traverser as a run sees them; `minOk` says that the lower load limit is kept. */
  datatype State = State(model: map<int, int>, noReplace: bool, gen: nat, epoch: nat, ops: nat, n: nat, minOk: bool,
                         birth: nat, born: nat, last: Option<int>, stale: bool, ended: bool,
                         done: set<int>, must: set<int>, missed: set<int>)

  ghost function StateOf(hmap: Umap, trav: Traverser): State
    reads hmap, trav
  {
    State(hmap.model, hmap.noReplace, hmap.gen, hmap.epoch, hmap.ops, |hmap.rings|, hmap.min_load <= hmap.items,
          trav.birth, trav.born, LastKey(trav.head), trav.seen != hmap.epoch, trav.ended,
          trav.done, trav.must, trav.missed)
  }

  /** What holds of the beginning and the end of a step as well as of a whole run. */
  ghost predicate Goes(s: State, s': State) {
    s'.noReplace == s.noReplace && s'.birth == s.birth && s'.born == s.born
    && 0 <= s'.gen - s.gen <= s'.epoch - s.epoch && (s'.gen == s.gen ==> s'.n == s.n)
    && (s'.ended && s'.gen == s.born ==> s'.must <= s'.done + s'.missed && s'.done !! s'.missed)
    && (s'.ended && s'.epoch == s.birth ==> s'.missed == {})
  }

  /** One operation and its event. */
  ghost predicate Stepped(op: Op, e: Event, hash: int -> nat, s: State, s': State) {
    Goes(s, s') && EventOk(s.model, op, s.noReplace, e) && s'.model == Updated(s.model, op, e) && s'.ops <= s.ops + 1
    && s'.ended == (e == Visited(None)) && (!op.Del? ==> s'.epoch - s.epoch == s'.gen - s.gen)
    && (LayoutOk(op) && s.minOk ==> s'.minOk)
    && s'.must == s.must - Gone(op) && s'.done == s.done + Returned(e)
    && (s'.gen == s.born ==>
          Returned(e) !! s.done
          && s'.missed == s.missed + if !e.Visited? then {} else LostNow(s'.n, hash, s.last, s.stale, s.done, s.must))
    && (!s'.ended ==> s'.last == NewLast(s.last, e) && (s'.gen == s.gen ==> s'.stale == StaleAfter(s.last, s.stale, e)))
  }

  /** A script and its log. */
  ghost predicate Ran(ops: seq<Op>, log: seq<Event>, hash: int -> nat, s: State, s': State) {
    Goes(s, s') && Accepted(ops, log, s.model, s.noReplace) && s'.ops <= s.ops + |ops|
    && (|log| < |ops| ==> s'.ended) && s'.ended == Ended(log) && (NoDel(ops) ==> s'.epoch - s.epoch == s'.gen - s.gen)
    && (AllLayoutsOk(ops) && s.minOk ==> s'.minOk)
    && s'.must == s.must - Erased(ops[..|log|]) && s'.done == s.done + Keys(log)
    && (s'.gen == s.born ==>
          Once(log, s.done)
          && s'.missed == s.missed + MissedBy(ops, log, hash, s'.n, s.last, s.stale, s.done, s.must))
  }

  lemma RanNothing(hash: int -> nat, s: State)
    requires !s.ended
    ensures Ran([], [], hash, s, s)
  {
  }

  /** A step that ends the traversal. */
  lemma RanOnce(ops: seq<Op>, e: Event, hash: int -> nat, s: State, s': State)
    requires |ops| > 0 && s'.ended && Stepped(ops[0], e, hash, s, s')
    ensures Ran(ops, [e], hash, s, s')
  {
    hide LostNow, EventOk, LayoutOk, Updated, NewLast, StaleAfter, Returned, Gone, AllLayoutsOk, NoDel, Ended;
    var none: seq<Event> := [];
    AcceptedMore(ops, e, none, s.model, s.noReplace);
    KeysMore(ops, e, none, s.done);
    AllMore(ops, e, none);
    MissedMore(ops, e, none, hash, s'.n, s.last, s.stale, s.done, s.must);
    assert [e] + none == [e] && ops[1..][..0] == [];
  }

  /** A step and the run that follows it. */
  lemma RanMore(ops: seq<Op>, e: Event, log: seq<Event>, hash: int -> nat, s: State, s1: State, s': State)
    requires |ops| > 0 && Stepped(ops[0], e, hash, s, s1) && !s1.ended && s.born <= s.gen
    requires Ran(ops[1..], log, hash, s1, s')
    ensures Ran(ops, [e] + log, hash, s, s')
  {
    hide LostNow, EventOk, LayoutOk, Updated, Once, Erased, Keys, NewLast, StaleAfter, Accepted, MissedBy;
    hide Returned, Gone, AllLayoutsOk, NoDel, Ended;
    AcceptedMore(ops, e, log, s.model, s.noReplace);
    KeysMore(ops, e, log, s.done);
    AllMore(ops, e, log);
    MissedMore(ops, e, log, hash, s'.n, s.last, s.stale, s.done, s.must);
  }

  lemma AcceptedMore(ops: seq<Op>, e: Event, log: seq<Event>, m: map<int, int>, noReplace: bool)
    requires |ops| > 0 && EventOk(m, ops[0], noReplace, e)
    requires Accepted(ops[1..], log, Updated(m, ops[0], e), noReplace)
    ensures |log| < |ops| && Accepted(ops, [e] + log, m, noReplace)
  {
    assert ([e] + log)[1..] == log;
  }

  lemma KeysMore(ops: seq<Op>, e: Event, log: seq<Event>, done: set<int>)
    requires |ops| > |log|
    ensures Keys([e] + log) == Returned(e) + Keys(log)
    ensures Once([e] + log, done) == (Returned(e) !! done && Once(log, done + Returned(e)))
    ensures Erased(ops[..|[e] + log|]) == Gone(ops[0]) + Erased(ops[1..][..|log|])
  {
    assert ([e] + log)[1..] == log;
    assert ops[..|log| + 1][1..] == ops[1..][..|log|];
  }

  lemma AllMore(ops: seq<Op>, e: Event, log: seq<Event>)
    requires |ops| > 0
    ensures AllLayoutsOk(ops) ==> LayoutOk(ops[0]) && AllLayoutsOk(ops[1..])
    ensures NoDel(ops) ==> !ops[0].Del? && NoDel(ops[1..])
    ensures Ended([e] + log) == if |log| == 0 then e == Visited(None) else Ended(log)
    ensures !Ended([])
  {
    assert forall op :: op in ops[1..] ==> op in ops;
  }

  lemma MissedMore(ops: seq<Op>, e: Event, log: seq<Event>, hash: int -> nat, n: nat, last: Option<int>, stale: bool,
                   done: set<int>, must: set<int>)
    requires |ops| > 0
    ensures MissedBy(ops, [e] + log, hash, n, last, stale, done, must) ==
      (if !e.Visited? then {} else LostNow(n, hash, last, stale, done, must))
      + MissedBy(ops[1..], log, hash, n, NewLast(last, e), StaleAfter(last, stale, e), done + Returned(e),
                 must - Gone(ops[0]))
  {
    hide LostNow, NewLast, StaleAfter, Returned, Gone;
    assert ([e] + log)[1..] == log;
  }

  /** The traverser has returned NULL. */
  predicate Ended(log: seq<Event>) {
    |log| > 0 && log[|log| - 1] == Visited(None)
  }

  predicate NoDel(ops: seq<Op>) {
    forall op :: op in ops ==> !op.Del?
  }

  lemma AddStepped(op: Op, e: Event, hash: int -> nat, s: State, s': State)
    requires op.Add? && e.Added? && !s.ended && EventOk(s.model, op, s.noReplace, e)
    requires s' == s.(model := Updated(s.model, op, e), gen := s'.gen, epoch := s'.epoch, ops := s'.ops, n := s'.n,
                      minOk := s'.minOk, stale := s'.stale)
    requires 0 <= s'.gen - s.gen == s'.epoch - s.epoch && s'.ops <= s.ops + 1 && (s.minOk ==> s'.minOk)
    requires s'.gen == s.gen ==> s'.n == s.n && s'.stale == s.stale
    ensures Stepped(op, e, hash, s, s')
  {
    hide EventOk, Updated, LostNow;
  }

  lemma DelStepped(op: Op, e: Event, hash: int -> nat, s: State, s': State)
    requires op.Del? && e.Deleted? && !s.ended && EventOk(s.model, op, s.noReplace, e)
    requires s' == s.(model := Updated(s.model, op, e), gen := s'.gen, epoch := s'.epoch, ops := s'.ops, n := s'.n,
                      minOk := s'.minOk, stale := s'.stale, must := s.must - {op.key})
    requires 0 <= s'.gen - s.gen <= s'.epoch - s.epoch && s'.ops <= s.ops + 1 && (op.layoutOk && s.minOk ==> s'.minOk)
    requires s'.gen == s.gen ==> s'.n == s.n
    requires s'.stale == (s.stale || e.item.Some?)
    ensures Stepped(op, e, hash, s, s')
  {
    hide EventOk, Updated, LostNow;
  }

  method DoAdd(hmap: Umap, trav: Traverser, k: int, v: int, layoutOk: bool, nodeOk: bool) returns (e: Event)
    requires Ready(hmap, trav) && !trav.ended
    modifies hmap, hmap.all, hmap.nodes
    ensures Ready(hmap, trav) && fresh(hmap.all - old(hmap.all)) && hmap.epoch - old(hmap.epoch) <= 1
    ensures e.Added?
    ensures Stepped(Add(k, v, layoutOk, nodeOk), e, hmap.hash, old(StateOf(hmap, trav)), StateOf(hmap, trav))
  {
    hide Sound, Sized, Charged, Track, Appended, Stepped;
    Behold(hmap, trav);
    Counts(hmap);
    ghost var s := StateOf(hmap, trav);
    ghost var rings, m, epoch, gen := hmap.rings, hmap.model, hmap.epoch, hmap.gen;
    var ret := hmap.Add(k, v, layoutOk, nodeOk);
    e := Added(ret);
    Counts(hmap);
    if hmap.gen == gen {
      TrackAdd(rings, hmap.rings, hmap.hash, m, hmap.model, epoch, gen, trav.Now(), k);
    } else {
      TrackMoved(rings, hmap.rings, hmap.hash, m, hmap.model, epoch, hmap.epoch, gen, hmap.gen, trav.Now());
    }
    AddStepped(Add(k, v, layoutOk, nodeOk), e, hmap.hash, s, StateOf(hmap, trav));
  }

  lemma Counts(hmap: Umap)
    requires hmap.Valid()
    ensures |hmap.rings| == |hmap.bk_array| > 0 && hmap.nodes <= hmap.all
  {
  }

  method DoDel(hmap: Umap, trav: Traverser, k: int, layoutOk: bool) returns (e: Event)
    requires Ready(hmap, trav) && !trav.ended
    modifies hmap, hmap.all, hmap.nodes, trav`must
    ensures Ready(hmap, trav) && fresh(hmap.all - old(hmap.all)) && hmap.epoch - old(hmap.epoch) <= 2
    ensures old(hmap.power) == 0 ==> hmap.gen == old(hmap.gen)
    ensures hmap.model == old(hmap.model) - {k} && trav.must == old(trav.must) - {k}
    ensures k in old(hmap.model) ==> hmap.epoch > old(hmap.epoch)
    ensures hmap.gen == old(hmap.gen) ==> |hmap.rings| == old(|hmap.rings|)
    ensures e.Deleted? && Stepped(Del(k, layoutOk), e, hmap.hash, old(StateOf(hmap, trav)), StateOf(hmap, trav))
  {
    hide Sound, Sized, Charged, Track, Stepped;
    Behold(hmap, trav);
    Counts(hmap);
    ghost var s := StateOf(hmap, trav);
    ghost var rings, m, epoch, gen, v := hmap.rings, hmap.model, hmap.epoch, hmap.gen, trav.Now();
    var item := hmap.Del(k, layoutOk);
    e := Deleted(item);
    Counts(hmap);
    if k in m {
      TrackLate(rings, hmap.rings, hmap.hash, m, hmap.model, epoch, hmap.epoch, gen, hmap.gen, v, k);
    } else {
      TrackSame(rings, hmap.hash, m, epoch, gen, v, k);
    }
    trav.Forget(k);
    DelStepped(Del(k, layoutOk), e, hmap.hash, s, StateOf(hmap, trav));
  }

  method DoTraverse(hmap: Umap, trav: Traverser) returns (e: Event)
    requires Ready(hmap, trav) && !trav.ended && hmap.epoch - trav.seen < UINT_MOD
    modifies trav
    ensures !trav.ended ==> Ready(hmap, trav) && trav.head != null
    ensures e.Visited? && Stepped(Traverse, e, hmap.hash, old(StateOf(hmap, trav)), StateOf(hmap, trav))
    ensures trav.seen == if old(trav.head) == null || trav.ended then old(trav.seen) else hmap.epoch
  {
    hide Sound, Sized, Charged, Track, Lost, LostNow;
    Behold(hmap, trav);
    Bindings(hmap);
    LostIs(hmap.rings, hmap.hash, hmap.model, hmap.epoch, hmap.gen, trav.Now());
    var drop := trav.Traverse();
    e := Visited(if drop == null then None else Some(drop.key));
  }

  /** The loss in terms of the keys. */
  lemma LostIs(rings: seq<seq<Link>>, hash: int -> nat, m: map<int, int>, epoch: nat, gen: nat, v: View)
    requires Track(rings, hash, m, epoch, gen, v)
    ensures gen == v.born ==>
      Lost(|rings|, hash, epoch, v) == LostNow(|rings|, hash, LastKey(v.head), v.seen != epoch, v.done, v.must)
  {
  }

  lemma Bindings(hmap: Umap)
    requires hmap.Valid()
    ensures forall x :: x in hmap.nodes ==> x.key in hmap.model
  {
  }

  /** The keys a script deletes. */
  function Erased(ops: seq<Op>): set<int> {
    if |ops| == 0 then {} else Gone(ops[0]) + Erased(ops[1..])
  }

  function Gone(op: Op): set<int> {
    if op.Del? then {op.key} else {}
  }

  predicate LayoutOk(op: Op) {
    op.Traverse? || op.layoutOk
  }

  /** One operation of a script. */
  method Step(hmap: Umap, trav: Traverser, op: Op) returns (e: Event)
    requires Ready(hmap, trav) && !trav.ended && (op.Traverse? ==> hmap.epoch - trav.seen < UINT_MOD)
    modifies hmap, hmap.all, hmap.nodes, trav
    ensures hmap.Valid() && fresh(hmap.all - old(hmap.all)) && (!trav.ended ==> Ready(hmap, trav))
    ensures trav.ended == (e == Visited(None))
    ensures trav.seen == if op.Traverse? && old(trav.head) != null && !trav.ended then hmap.epoch else old(trav.seen)
    ensures hmap.epoch - old(hmap.epoch) <= if op.Traverse? then 0 else 2
    ensures !trav.ended ==> (trav.head != null) == (op.Traverse? || old(trav.head) != null)
    ensures Stepped(op, e, hmap.hash, old(StateOf(hmap, trav)), StateOf(hmap, trav))
  {
    hide Ready, Sound, Sized, Charged, Stepped;
    Behold(hmap, trav);
    match op {
      case Add(k, v, layoutOk, nodeOk) =>
        e := DoAdd(hmap, trav, k, v, layoutOk, nodeOk);
        Behold(hmap, trav);
      case Del(k, layoutOk) =>
        e := DoDel(hmap, trav, k, layoutOk);
        Behold(hmap, trav);
      case Traverse =>
        e := DoTraverse(hmap, trav);
    }
    StepEnds(op, e, hmap.hash, old(StateOf(hmap, trav)), StateOf(hmap, trav));
  }

  lemma StepEnds(op: Op, e: Event, hash: int -> nat, s: State, s': State)
    requires Stepped(op, e, hash, s, s')
    ensures s'.ended == (e == Visited(None))
  {
  }

  /** Runs a script until it ends or the traverser returns NULL. */
  method RunOn(hmap: Umap, trav: Traverser, ops: seq<Op>, ghost gap: nat) returns (log: seq<Event>)
    requires Ready(hmap, trav) && !trav.ended && hmap.epoch - trav.seen <= gap && Fits(ops, trav.head != null, gap)
    modifies hmap, hmap.all, hmap.nodes, trav
    ensures hmap.Valid() && fresh(hmap.all - old(hmap.all))
    ensures Ran(ops, log, hmap.hash, old(StateOf(hmap, trav)), StateOf(hmap, trav))
    decreases |ops|
  {
    hide Ready, Sound, Sized, Charged, Stepped, Ran;
    Behold(hmap, trav);
    ghost var s := StateOf(hmap, trav);
    if |ops| == 0 {
      RanNothing(hmap.hash, s);
      return [];
    }
    ghost var started := trav.head != null;
    var e := Step(hmap, trav, ops[0]);
    ghost var s1 := StateOf(hmap, trav);
    if e == Visited(None) {
      RanOnce(ops, e, hmap.hash, s, s1);
      return [e];
    }
    Behold(hmap, trav);
    log := RunOn(hmap, trav, ops[1..], if !ops[0].Traverse? then gap + 2 else if started then 0 else gap);
    RanMore(ops, e, log, hmap.hash, s, s1, StateOf(hmap, trav));
    log := [e] + log;
  }

  /** What a run comes to. */
  method Run(hmap: Umap, trav: Traverser, ops: seq<Op>, ghost gap: nat) returns (log: seq<Event>)
    requires Ready(hmap, trav) && !trav.ended && hmap.epoch - trav.seen <= gap && Fits(ops, trav.head != null, gap)
    modifies hmap, hmap.all, hmap.nodes, trav
    ensures hmap.Valid() && fresh(hmap.all - old(hmap.all)) && hmap.noReplace == old(hmap.noReplace)
    ensures Accepted(ops, log, old(hmap.model), hmap.noReplace) && (|log| < |ops| ==> trav.ended)
    ensures trav.birth == old(trav.birth) && trav.born == old(trav.born) && trav.ended == Ended(log)
    ensures trav.must == old(trav.must) - Erased(ops[..|log|]) && trav.done == old(trav.done) + Keys(log)
    ensures hmap.gen == trav.born ==> Once(log, old(trav.done))
    ensures trav.ended && hmap.gen == trav.born ==> trav.must <= trav.done + trav.missed && trav.done !! trav.missed
    ensures hmap.gen == trav.born ==>
      trav.missed == old(trav.missed)
        + MissedBy(ops, log, hmap.hash, |hmap.rings|, LastKey(old(trav.head)), old(trav.seen != hmap.epoch),
                   old(trav.done), old(trav.must))
    ensures trav.ended && hmap.epoch == trav.birth ==> trav.missed == {}
    ensures NoDel(ops) ==> hmap.epoch - old(hmap.epoch) == hmap.gen - old(hmap.gen)
    ensures 0 <= hmap.gen - old(hmap.gen) <= hmap.epoch - old(hmap.epoch) && hmap.ops <= old(hmap.ops) + |ops|
    ensures hmap.work <= 4 * hmap.ops && (hmap.power < TOP ==> hmap.items <= hmap.max_load)
    ensures AllLayoutsOk(ops) && old(hmap.min_load <= hmap.items) ==> hmap.min_load <= hmap.items
  {
    hide Ready, Sound, Sized, Charged, Accepted, Keys, Once, Erased, AllLayoutsOk, NoDel, Ended, MissedBy, LastKey;
    log := RunOn(hmap, trav, ops, gap);
    Bounds(hmap);
  }

  /** A script in which fewer than 2^32 changes pass between two looks at the transaction id; `gap`
      bounds those so far.  The first step of a traverser does not look at it. */
  predicate Fits(ops: seq<Op>, started: bool, gap: nat) {
    |ops| > 0 ==>
      if ops[0].Traverse? then gap < UINT_MOD && Fits(ops[1..], true, if started then 0 else gap)
      else Fits(ops[1..], started, gap + 2)
  }

  predicate AllLayoutsOk(ops: seq<Op>) {
    forall op :: op in ops ==> LayoutOk(op)
  }

  lemma Bounds(hmap: Umap)
    requires hmap.Valid()
    ensures hmap.work <= 4 * hmap.ops && (hmap.power < TOP ==> hmap.items <= hmap.max_load)
  {
  }

  /** What Once says about a log. */
  lemma {:induction false} OnceDistinct(log: seq<Event>, done: set<int>, i: nat, j: nat)
    requires Once(log, done) && i < j < |log| && log[i].Visited? && log[i].key.Some?
    ensures log[j] != log[i]
    ensures log[i].key.value !in done
  {
    if i == 0 {
      NotAgain(log[1..], done + Returned(log[0]), log[0].key.value, j - 1);
    } else {
      OnceDistinct(log[1..], done + Returned(log[0]), i - 1, j - 1);
    }
  }

  lemma {:induction false} NotAgain(log: seq<Event>, done: set<int>, k: int, j: nat)
    requires Once(log, done) && k in done && j < |log|
    ensures log[j] != Visited(Some(k))
  {
    if j > 0 {
      NotAgain(log[1..], done + Returned(log[0]), k, j - 1);
    }
  }

  lemma Behold(hmap: Umap, trav: Traverser)
    requires Ready(hmap, trav)
    ensures hmap.Valid() && hmap.nodes <= hmap.all && trav.hmap == hmap && trav.seen <= hmap.epoch
    ensures trav.born <= hmap.gen && trav.birth <= trav.seen
  {
  }
}
