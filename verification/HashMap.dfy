/** HXumap: the hash map of src/map.c, proved against a finite map. */
module HashMap {
  import opened MapTypes
  import opened HashList
  import opened HashLoad
  import opened HashStore

  /** The limits belong to the table size, and the table is not overfull unless it is the largest. */
  ghost predicate Sized(buckets: nat, power: nat, min_load: nat, max_load: nat, items: nat) {
    power <= TOP && buckets == PRIMES[power] && min_load == MinLoad(power) && max_load == MaxLoad(power)
    && (power < TOP ==> items <= max_load)
  }

  /** Relinking has cost at most four moves an operation, less the credit in hand. */
  ghost predicate Charged(power: nat, items: nat, work: nat, ops: nat) {
    power <= TOP && work + Potential(power, items) <= 4 * ops
  }

  lemma ChargeStep(power: nat, items: nat, work: nat, ops: nat)
    requires Charged(power, items, work, ops)
    ensures Charged(power, items, work, ops + 1) && Charged(power, items + 1, work, ops + 1)
    ensures items > 0 ==> Charged(power, items - 1, work, ops + 1)
  {
    StepPaid(power, items);
    if items > 0 {
      StepPaid(power, items - 1);
    }
  }

  lemma GrowOk(buckets: nat, power: nat, min_load: nat, max_load: nat, items: nat, work: nat, ops: nat)
    requires Sized(buckets, power, min_load, max_load, items) && Charged(power, items, work, ops)
    requires items >= max_load && power < TOP
    ensures Charged(power + 1, items, work + items, ops) && items + 1 <= MaxLoad(power + 1)
    ensures MinLoad(power + 1) <= items
  {
    GrowPaid(power);
    Limits(power);
  }

  lemma ShrinkOk(buckets: nat, power: nat, min_load: nat, max_load: nat, items: nat, work: nat, ops: nat)
    requires Sized(buckets, power, min_load, max_load, items) && Charged(power, items, work, ops)
    requires items < min_load && power > 0
    ensures Charged(power - 1, items, work + items, ops) && items + 1 <= MaxLoad(power - 1)
    ensures MinLoad(power - 1) < min_load
  {
    ShrinkPaid(power, items);
    Limits(power - 1);
  }

  lemma SizedAgain(buckets: nat, power: nat, min_load: nat, max_load: nat, items: nat)
    requires power <= TOP && buckets == PRIMES[power] && min_load == MinLoad(power) && max_load == MaxLoad(power)
    requires power < TOP ==> items <= max_load
    ensures Sized(buckets, power, min_load, max_load, items)
  {
  }

  /** struct HXumap.  `epoch` counts the changes of `tid` without wrap-around, `gen` the relayouts,
      `ops` the additions and deletions, and `work` the nodes relinked so far. */
  class Umap {
    var bk_array: seq<Link>
    var power: nat
    var min_load: nat
    var max_load: nat
    var tid: nat
    var items: nat
    var noReplace: bool
    const hash: int -> nat
    ghost var rings: seq<seq<Link>>
    ghost var all: set<Link>
    ghost var nodes: set<Link>
    ghost var model: map<int, int>
    ghost var epoch: nat
    ghost var gen: nat
    ghost var ops: nat
    ghost var work: nat

    ghost predicate Valid()
      reads this, all, nodes
    {
      Sound(bk_array, rings, all, nodes, hash, model) && items == |nodes| && tid == (1 + epoch) % UINT_MOD
      && Sized(|bk_array|, power, min_load, max_load, items) && Charged(power, items, work, ops)
    }

    /** The calloc'ed state in which HXhashmap_init4 calls HXumap_layout. */
    ghost predicate Blank()
      reads this
    {
      bk_array == [] && rings == [] && all == {} && nodes == {} && model == map[] && items == 0 && tid == 1
      && epoch == 0 && gen == 0 && ops == 0 && work == 0
    }

    constructor (flags: bool, hash: int -> nat)
      ensures Blank() && noReplace == flags && this.hash == hash && power == 0
    {
      bk_array, power, min_load, max_load, tid, items := [], 0, 0, 0, 1, 0;
      noReplace, this.hash := flags, hash;
      rings, all, nodes, model := [], {}, {}, map[];
      epoch, gen, ops, work := 0, 0, 0, 0;
    }

    lemma Known()
      requires Valid()
      ensures bk_array != [] && Laid(bk_array, rings, all, nodes, hash, model) && power <= TOP
      ensures (power < TOP ==> items <= max_load) && (power == 0 ==> min_load == 0)
    {
    }

    /** The last part of HXumap_layout. */
    method Install(bk: seq<Link>, new_power: nat, ghost r: seq<seq<Link>>, ghost heads: set<Link>, ghost moves: nat)
      requires new_power <= TOP && tid == (1 + epoch) % UINT_MOD
      modifies this`bk_array, this`power, this`min_load, this`max_load, this`tid, this`rings
      modifies this`all, this`epoch, this`gen, this`work
      ensures tid == (1 + epoch) % UINT_MOD && epoch == old(epoch) + if old(bk_array) == [] then 0 else 1
      ensures power == new_power && min_load == MinLoad(power) && max_load == MaxLoad(power)
      ensures bk_array == bk && rings == r && all == old(all) + heads && gen == old(gen) + 1
      ensures work == old(work) + moves
    {
      hide MinLoad, MaxLoad;
      if bk_array != [] {
        tid, epoch := (tid + 1) % UINT_MOD, epoch + 1;
      }
      power, min_load, max_load := new_power, MinLoad(new_power), MaxLoad(new_power);
      bk_array, rings, all, gen, work := bk, r, all + heads, gen + 1, work + moves;
    }

    /** HXumap_layout; `alloc` tells whether the bucket array can be allocated. */
    method Layout(new_power: nat, alloc: bool) returns (ret: int)
      requires Laid(bk_array, rings, all, nodes, hash, model)
      requires new_power <= TOP && tid == (1 + epoch) % UINT_MOD
      modifies this`bk_array, this`power, this`min_load, this`max_load, this`tid, this`rings
      modifies this`all, this`epoch, this`gen, this`work
      modifies all`next, all`prev, all`owner
      ensures tid == (1 + epoch) % UINT_MOD && ret == if alloc then 1 else -ENOMEM
      ensures alloc ==> Sound(bk_array, rings, all, nodes, hash, model) && fresh(all - old(all))
      ensures alloc ==> power == new_power && |bk_array| == PRIMES[power]
      ensures alloc ==> min_load == MinLoad(power) && max_load == MaxLoad(power)
      ensures alloc ==> work == old(work) + |nodes| && gen == old(gen) + 1 && epoch == old(epoch) + if old(bk_array) ==
        [] then 0 else 1
      ensures !alloc ==> unchanged(this) && unchanged(old(all))
    {
      hide Laid, Sound, MinLoad, MaxLoad;
      if !alloc {
        return -ENOMEM;
      }
      PrimePositive(new_power);
      var bk;
      ghost var r, heads, moves;
      bk, r, heads, moves := Rebuild(bk_array, PRIMES[new_power], hash, rings, all, nodes, model);
      Install(bk, new_power, r, heads, moves);
      ret := 1;
    }

    /** Whether HXumap_add resizes the table before it adds a node. */
    predicate Due()
      reads this
    {
      (items >= max_load && power < TOP) || (items < min_load && power > 0)
    }

    /** The resizing part of HXumap_add. */
    method Prepare(layoutOk: bool) returns (ret: int)
      requires Valid()
      modifies this`bk_array, this`power, this`min_load, this`max_load, this`tid, this`rings
      modifies this`all, this`epoch, this`gen, this`work
      modifies all`next, all`prev, all`owner
      ensures Valid() && fresh(all - old(all)) && ret == if old(Due()) && !layoutOk then -ENOMEM else 1
      ensures ret == 1 && power < TOP ==> items < max_load
      ensures old(min_load <= items) ==> min_load <= items && power >= old(power)
      ensures if old(Due()) && layoutOk then gen == old(gen) + 1 && epoch == old(epoch) + 1 else unchanged(this)
    {
      hide Sound, Sized, Charged, MinLoad, MaxLoad;
      ret := 1;
      Known();
      if items >= max_load && power < TOP {
        GrowOk(|bk_array|, power, min_load, max_load, items, work, ops);
        ret := Layout(power + 1, layoutOk);
        if ret == 1 {
          SizedAgain(|bk_array|, power, min_load, max_load, items);
        }
      } else if items < min_load && power > 0 {
        ShrinkOk(|bk_array|, power, min_load, max_load, items, work, ops);
        ret := Layout(power - 1, layoutOk);
        if ret == 1 {
          SizedAgain(|bk_array|, power, min_load, max_load, items);
        }
      }
    }

    /** HXumap_find */
    method Find(key: int) returns (drop: Link?)
      requires Valid()
      ensures drop == null <==> key !in model
      ensures drop != null ==> drop in nodes && drop.key == key && drop.data == model[key]
    {
      ghost var b, k;
      drop, b, k := Lookup(bk_array, hash, key, rings, all, nodes, model);
    }

    /** HXumap_replace */
    method Replace(drop: Link, value: int) returns (ret: int)
      requires Valid() && drop in nodes
      modifies this`model, this`ops, nodes`data
      ensures Valid() && ops == old(ops) + 1
      ensures noReplace ==> ret == -EEXIST && model == old(model) && drop.data == old(drop.data)
      ensures !noReplace ==> ret == 1 && model == old(model)[drop.key := value]
      ensures forall x :: x in nodes && x != drop ==> x.data == old(x.data)
    {
      hide Sound, Sized, Charged;
      Tick();
      if noReplace {
        ret := -EEXIST;
      } else {
        Overwrite(bk_array, hash, drop, value, rings, all, nodes, model);
        model := model[drop.key := value];
        ret := 1;
      }
    }

    /** Records an addition. */
    method CountAdd(ghost r: seq<seq<Link>>, ghost all': set<Link>, ghost nodes': set<Link>, ghost m: map<int, int>)
      modifies this`rings, this`all, this`nodes, this`model, this`items, this`ops
      ensures items == old(items) + 1 && ops == old(ops) + 1 && rings == r && all == all' && nodes == nodes'
      ensures model == m
    {
      items, ops, rings, all, nodes, model := items + 1, ops + 1, r, all', nodes', m;
    }

    /** Records a deletion. */
    method CountDel(ghost r: seq<seq<Link>>, ghost nodes': set<Link>, ghost m: map<int, int>)
      requires items > 0 && tid == (1 + epoch) % UINT_MOD
      modifies this`rings, this`nodes, this`model, this`items, this`ops, this`tid, this`epoch
      ensures items == old(items) - 1 && ops == old(ops) + 1 && rings == r && nodes == nodes' && model == m
      ensures tid == (1 + epoch) % UINT_MOD && epoch == old(epoch) + 1
    {
      tid, epoch := (tid + 1) % UINT_MOD, epoch + 1;
      items, ops, rings, nodes, model := items - 1, ops + 1, r, nodes', m;
    }

    /** The last part of HXumap_add: there is room for one more node. */
    method Store(key: int, value: int)
      requires Valid() && key !in model && (power < TOP ==> items < max_load)
      modifies this`rings, this`all, this`nodes, this`model, this`items, this`ops, all`next, all`prev, all`owner
      ensures Valid() && fresh(all - old(all)) && items == old(items) + 1 && ops == old(ops) + 1
      ensures model == old(model)[key := value] && Appended(old(rings), rings, hash, key)
    {
      hide Sound, Sized, Charged, Appended, Models;
      ChargeStep(power, items, work, ops);
      StoreSized(|bk_array|, power, min_load, max_load, items);
      ghost var r, all', nodes';
      r, all', nodes' := Attach(bk_array, hash, key, value, rings, all, nodes, model);
      CountAdd(r, all', nodes', model[key := value]);
    }

    /** HXumap_add; `nodeOk` tells whether the node can be allocated. */
    method Add(key: int, value: int, layoutOk: bool, nodeOk: bool) returns (ret: int)
      requires Valid()
      modifies this`bk_array, this`power, this`min_load, this`max_load, this`tid, this`rings
      modifies this`all, this`epoch, this`gen, this`work
      modifies this`nodes, this`model, this`items, this`ops, all, nodes
      ensures Valid() && fresh(all - old(all)) && ops == old(ops) + 1
      ensures key in old(model) && noReplace ==> ret == -EEXIST && model == old(model)
      ensures key in old(model) && !noReplace ==> ret == 1 && model == old(model)[key := value]
      ensures key !in old(model) ==> ret == if (old(Due()) && !layoutOk) || !nodeOk then -ENOMEM else 1
      ensures key !in old(model) ==> model == if ret == 1 then old(model)[key := value] else old(model)
      ensures old(min_load <= items) ==> min_load <= items && power >= old(power)
      ensures gen == old(gen) + epoch - old(epoch) && 0 <= epoch - old(epoch) <= 1
      ensures items == old(items) + if key !in old(model) && ret == 1 then 1 else 0
      ensures gen == old(gen) ==> power == old(power) && min_load == old(min_load) && max_load == old(max_load)
      ensures gen != old(gen) <==> key !in old(model) && old(Due()) && layoutOk
      ensures gen == old(gen) ==> bk_array == old(bk_array)
      ensures gen == old(gen) ==> rings == old(rings) || Appended(old(rings), rings, hash, key)
    {
      hide Sound, Sized, Charged, Appended;
      var drop := Find(key);
      if drop != null {
        ret := Replace(drop, value);
        return;
      }
      ret := Prepare(layoutOk);
      if ret <= 0 || !nodeOk {
        ret := -ENOMEM;
        Tick();
        return;
      }
      Store(key, value);
    }

    /** Counts an operation that leaves the table as it is. */
    ghost method Tick()
      requires Valid()
      modifies this`ops
      ensures Valid() && ops == old(ops) + 1
    {
      hide Sound, Sized, Charged;
      ChargeStep(power, items, work, ops);
      ops := ops + 1;
    }

    /** The first part of HXumap_del. */
    method Drop(drop: Link, ghost b: nat, ghost k: nat)
      requires Valid() && b < |bk_array| == |rings| && 0 < k < |rings[b]| && rings[b][k] == drop && drop in nodes
      modifies this`rings, this`nodes, this`model, this`items, this`ops, this`tid, this`epoch
      modifies all`next, all`prev, all`owner
      ensures Valid() && items == old(items) - 1 && ops == old(ops) + 1 && epoch == old(epoch) + 1
      ensures model == old(model) - {drop.key}
    {
      hide Sound, Sized, Charged;
      ChargeStep(power, items, work, ops);
      DropSized(|bk_array|, power, min_load, max_load, items);
      ghost var r, nodes';
      r, nodes' := Detach(bk_array, hash, drop, b, k, rings, all, nodes, model);
      CountDel(r, nodes', model - {drop.key});
    }

    /** HXumap_del */
    method Del(key: int, layoutOk: bool) returns (item: Option<int>)
      requires Valid()
      modifies this`bk_array, this`power, this`min_load, this`max_load, this`tid, this`rings
      modifies this`all, this`epoch, this`gen, this`work
      modifies this`nodes, this`model, this`items, this`ops, all, nodes
      ensures Valid() && fresh(all - old(all)) && ops == old(ops) + 1
      ensures key !in old(model) ==>
        item == None && model == old(model) && rings == old(rings) && bk_array == old(bk_array)
      ensures key !in old(model) ==> epoch == old(epoch) && gen == old(gen)
      ensures key in old(model) ==>
        item == Some(old(model)[key]) && model == old(model) - {key} && items == old(items) - 1
      ensures key in old(model) ==> epoch == old(epoch) + 1 + gen - old(gen)
      ensures var shrinks := key in old(model) && old(items - 1 < min_load && power > 0) && layoutOk;
        gen == old(gen) + if shrinks then 1 else 0
      ensures old(min_load <= items) && layoutOk ==> min_load <= items
      ensures gen == old(gen) ==> bk_array == old(bk_array)
    {
      hide Sound, Sized, Charged, MinLoad, MaxLoad;
      var drop;
      ghost var b, k;
      Known();
      drop, b, k := Lookup(bk_array, hash, key, rings, all, nodes, model);
      if drop == null {
        Tick();
        return None;
      }
      Drop(drop, b, k);
      if items < min_load && power > 0 {
        Known();
        ShrinkOk(|bk_array|, power, min_load, max_load, items, work, ops);
        var ret := Layout(power - 1, layoutOk);
        if ret == 1 {
          SizedAgain(|bk_array|, power, min_load, max_load, items);
        }
      }
      item := Some(drop.data);
    }
  }

  lemma NewOk()
    ensures Sized(PRIMES[0], 0, MinLoad(0), MaxLoad(0), 0) && Charged(0, 0, 0, 0) && MinLoad(0) == 0
  {
  }

  /** HXhashmap_init4, after the calloc of the map itself. */
  method NewMap(flags: bool, hash: int -> nat) returns (hmap: Umap)
    ensures fresh(hmap) && hmap.Valid() && fresh(hmap.all) && hmap.hash == hash && hmap.noReplace == flags
    ensures hmap.model == map[] && hmap.items == 0 && hmap.ops == 0 && hmap.min_load == 0
    ensures hmap.power == 0 && hmap.max_load == MaxLoad(0)
  {
    hide Sound, Sized, Charged, MinLoad, MaxLoad;
    NewOk();
    hmap := new Umap(flags, hash);
    var ret := hmap.Layout(0, true);
  }

  /** HXhashmap_init4 when the bucket array cannot be allocated: the clean-up with HXumap_free then
      goes through the buckets of a size of which there is none. */
  method FailedNewMap(flags: bool, hash: int -> nat) returns (hmap: Umap, ret: int)
    ensures ret == -ENOMEM && hmap.power <= TOP && |hmap.bk_array| == 0 < PRIMES[hmap.power]
  {
    hmap := new Umap(flags, hash);
    ret := hmap.Layout(0, false);
    PrimePositive(0);
  }

  lemma StoreSized(buckets: nat, power: nat, min_load: nat, max_load: nat, items: nat)
    requires Sized(buckets, power, min_load, max_load, items) && (power < TOP ==> items < max_load)
    ensures Sized(buckets, power, min_load, max_load, items + 1)
  {
  }

  lemma DropSized(buckets: nat, power: nat, min_load: nat, max_load: nat, items: nat)
    requires Sized(buckets, power, min_load, max_load, items) && items > 0
    ensures Sized(buckets, power, min_load, max_load, items - 1)
  {
  }
}
