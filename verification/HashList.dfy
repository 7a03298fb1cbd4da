/** The circular doubly-linked lists of include/libHX/list.h. */
module HashList {

  /** struct HXlist_head; a list member also carries the key and data of its HXumap_node. */
  class Link {
    var next: Link?
    var prev: Link?
    const key: int
    var data: int
    ghost var owner: Link?   // the head of the list this link is on, if any

    constructor (key: int, data: int)
      ensures this.key == key && this.data == data && owner == null
    {
      this.key, this.data := key, data;
      next, prev, owner := null, null, null;
    }

    /** HXlist_init; a link that will be a list head owns itself. */
    method Init(ghost head: bool)
      modifies this`next, this`prev, this`owner
      ensures next == this && prev == this && owner == if head then this else null
    {
      next, prev := this, this;
      owner := if head then this else null;
    }
  }

  /** `r` is a list: its head first, then the members in order. */
  ghost predicate Ring(r: seq<Link>)
    reads r`next, r`prev, r`owner
  {
    |r| > 0
    && (forall i :: 0 <= i < |r| ==> r[i].owner == r[0])
    && (forall i, j :: 0 <= i < j < |r| ==> r[i] != r[j])
    && (forall i :: 0 <= i < |r| - 1 ==> r[i].next == r[i + 1] && r[i + 1].prev == r[i])
    && r[|r| - 1].next == r[0] && r[0].prev == r[|r| - 1]
  }

  /** __HXlist_add */
  method AddBetween(nu: Link, prev: Link, next: Link)
    requires nu != prev && nu != next
    modifies nu`next, nu`prev, next`prev, prev`next
    ensures nu.prev == prev && nu.next == next && next.prev == nu && prev.next == nu
  {
    nu.next := next;
    nu.prev := prev;
    next.prev := nu;
    prev.next := nu;
  }

  /** HXlist_add_tail */
  method AddTail(head: Link, entry: Link, ghost r: seq<Link>)
    requires Ring(r) && r[0] == head && entry !in r
    modifies r`next, r`prev, entry`next, entry`prev, entry`owner
    ensures Ring(r + [entry])
  {
    AddBetween(entry, head.prev, head);
    entry.owner := head;
  }

  /** HXlist_del */
  method Delete(entry: Link, ghost r: seq<Link>, ghost k: nat)
    requires Ring(r) && 0 < k < |r| && r[k] == entry
    modifies r`next, r`prev, entry`owner
    ensures Ring(r[..k] + r[k + 1..])
    ensures entry.next == null && entry.prev == null && entry.owner == null
  {
    ghost var after := if k + 1 < |r| then r[k + 1] else r[0];
    assert r[k - 1].next == r[k] && r[k].prev == r[k - 1];
    assert r[k].next == after;
    entry.prev.next := entry.next;
    entry.next.prev := entry.prev;
    entry.next := null;
    entry.prev := null;
    entry.owner := null;
  }
}
