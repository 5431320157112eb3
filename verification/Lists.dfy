/** zeos/include/list.h: intrusive circular doubly linked lists, as sequences. */
module Lists {

  /**
   `slot` is the task slot that the entry is part of, as list_head_to_task_struct finds it, or -1 for a list's
   head.
  */
  class ListHead {
    const slot: int
    var next: ListHead?
    var prev: ListHead?

    constructor (slot: int)
      ensures this.slot == slot && next == null && prev == null
    {
      this.slot := slot;
      next, prev := null, null;
    }
  }

  ghost function After(head: ListHead, q: seq<ListHead>, i: int): ListHead
    requires -1 <= i < |q|
  {
    if i + 1 < |q| then q[i + 1] else head
  }

  ghost function Before(head: ListHead, q: seq<ListHead>, i: int): ListHead
    requires 0 <= i <= |q|
  {
    if i > 0 then q[i - 1] else head
  }

  /** Following `next` from the head meets exactly `q` and comes back; `prev` goes the other way. */
  ghost predicate Ring(head: ListHead, q: seq<ListHead>)
    reads head, q
  {
    && head !in q
    && (forall i, j :: 0 <= i < j < |q| ==> q[i] != q[j])
    && head.next == After(head, q, -1) && head.prev == Before(head, q, |q|)
    && forall i :: 0 <= i < |q| ==> q[i].next == After(head, q, i) && q[i].prev == Before(head, q, i)
  }

  type Lists = map<ListHead, seq<ListHead>>

  /** Several rings over one pool of nodes, no node in two of them and no head in any. */
  ghost predicate Pool(lists: Lists, pool: set<ListHead>)
    reads pool
  {
    && (forall h :: h in lists ==> h in pool && (forall n :: n in lists[h] ==> n in pool) && Ring(h, lists[h]))
    && Apart(lists)
  }

  ghost predicate Apart(lists: Lists) {
    && (forall h, g :: h in lists && g in lists ==> h !in lists[g])
    && (forall h, g, n :: h in lists && g in lists && h != g && n in lists[h] ==> n !in lists[g])
  }

  ghost predicate Unlisted(lists: Lists, node: ListHead) {
    node !in lists && forall h :: h in lists ==> node !in lists[h]
  }

  /** INIT_LIST_HEAD makes an empty list beside the others. */
  method Init(list: ListHead, ghost lists: Lists, ghost pool: set<ListHead>)
    requires Pool(lists, pool) && Unlisted(lists, list)
    modifies list
    ensures Pool(lists[list := []], pool + {list})
  {
    list.next := list;
    list.prev := list;
  }

  /** __list_add */
  method Link(node: ListHead, prev: ListHead, next: ListHead)
    modifies node, prev, next
    requires node != prev && node != next
    ensures next.prev == node && node.next == next && node.prev == prev && prev.next == node
    ensures prev != next ==> next.next == old(next.next) && prev.prev == old(prev.prev)
  {
    next.prev := node;
    node.next := next;
    node.prev := prev;
    prev.next := node;
  }

  /** list_add_tail appends to one list and leaves every other list as it was. */
  method AddTail(node: ListHead, head: ListHead, ghost lists: Lists, ghost pool: set<ListHead>)
    requires Pool(lists, pool) && head in lists && Unlisted(lists, node)
    modifies node, head, head.prev
    ensures Pool(lists[head := lists[head] + [node]], pool + {node})
  {
    hide Ring, Apart;
    AddInPool(lists, pool, head, node);
    LinkLast(node, head, lists[head]);
  }

  method LinkLast(node: ListHead, head: ListHead, ghost q: seq<ListHead>)
    requires Ring(head, q) && node != head && node !in q
    modifies node, head, head.prev
    ensures Ring(head, q + [node])
  {
    Link(node, head.prev, head);
    ghost var r := q + [node];
    forall i | 0 <= i < |r| ensures r[i].next == After(head, r, i) && r[i].prev == Before(head, r, i) {
      if i < |q| {
        assert r[i] == q[i];
        assert old(q[i].next) == After(head, q, i) && old(q[i].prev) == Before(head, q, i);
      }
    }
  }

  lemma LastInRing(head: ListHead, q: seq<ListHead>)
    requires Ring(head, q)
    ensures head !in q && head.next != null && head.prev != null
    ensures head.prev == head || head.prev in q
    ensures head.next == head || head.next in q
  {
  }

  /** list_add prepends. */
  method Add(node: ListHead, head: ListHead, ghost lists: Lists, ghost pool: set<ListHead>)
    requires Pool(lists, pool) && head in lists && Unlisted(lists, node)
    modifies node, head, head.next
    ensures Pool(lists[head := [node] + lists[head]], pool + {node})
  {
    hide Ring, Apart;
    AddInPool(lists, pool, head, node);
    LinkFirst(node, head, lists[head]);
  }

  lemma AddInPool(lists: Lists, pool: set<ListHead>, head: ListHead, node: ListHead)
    requires Pool(lists, pool) && head in lists && Unlisted(lists, node)
    ensures var q := lists[head];
            && Ring(head, q) && Apart(lists[head := q + [node]]) && Apart(lists[head := [node] + q])
            && head.next != null && head.prev != null
            && forall h :: h in lists && h != head ==>
                 && head.next != h && head.prev != h && head != h && node != h
                 && head !in lists[h] && node !in lists[h] && head.next !in lists[h] && head.prev !in lists[h]
  {
    var q := lists[head];
    assert Ring(head, q);
    LastInRing(head, q);
    hide Ring;
    assert forall n :: n in q + [node] ==> n in q || n == node;
    assert forall n :: n in [node] + q ==> n in q || n == node;
    ApartUpdate(lists, head, q + [node], node);
    ApartUpdate(lists, head, [node] + q, node);
  }

  method LinkFirst(node: ListHead, head: ListHead, ghost q: seq<ListHead>)
    requires Ring(head, q) && node != head && node !in q
    modifies node, head, head.next
    ensures Ring(head, [node] + q)
  {
    Link(node, head, head.next);
    ghost var r := [node] + q;
    assert forall i :: 0 <= i < |q| ==> r[i + 1] == q[i];
    forall i | 0 <= i < |r| ensures r[i].next == After(head, r, i) && r[i].prev == Before(head, r, i) {
      if i > 0 {
        assert r[i] == q[i - 1];
        assert old(q[i - 1].next) == After(head, q, i - 1) && old(q[i - 1].prev) == Before(head, q, i - 1);
      }
    }
    assert forall i, j :: 0 <= i < j < |r| ==> r[i] != r[j];
  }

  /** list_del takes the entry out of whichever list it is in, without being told its head. */
  method Del(entry: ListHead, ghost head: ListHead, ghost k: nat, ghost lists: Lists, ghost pool: set<ListHead>)
    requires Pool(lists, pool) && head in lists && k < |lists[head]| && lists[head][k] == entry
    modifies entry, entry.prev, entry.next
    ensures Pool(lists[head := Without(lists[head], k)], pool)
    ensures Unlisted(lists[head := Without(lists[head], k)], entry)
    ensures entry.next == null && entry.prev == null
  {
    hide Ring, Without, Apart;
    DelInPool(lists, pool, head, k);
    Cut(entry, head, k, lists[head]);
  }

  lemma DelInPool(lists: Lists, pool: set<ListHead>, head: ListHead, k: nat)
    requires Pool(lists, pool) && head in lists && k < |lists[head]|
    ensures var q := lists[head];
            var entry := q[k];
            && Ring(head, q) && Apart(lists[head := Without(q, k)])
            && Unlisted(lists[head := Without(q, k)], entry)
            && (forall n :: n in Without(q, k) ==> n in pool)
            && entry.next != null && entry.prev != null
            && forall h :: h in lists && h != head ==>
                 && entry != h && entry.next != h && entry.prev != h
                 && entry !in lists[h] && entry.next !in lists[h] && entry.prev !in lists[h]
  {
    var q := lists[head];
    assert Ring(head, q) && q[k] in q;
    NeighboursInRing(head, q, k);
    WithoutShape(q, k);
    ApartUpdate(lists, head, Without(q, k), q[k]);
    hide Ring, Without;
  }

  /** The writes of list_del, in the one ring that they touch. */
  method Cut(entry: ListHead, ghost head: ListHead, ghost k: nat, ghost q: seq<ListHead>)
    requires Ring(head, q) && k < |q| && q[k] == entry
    modifies entry, entry.prev, entry.next
    ensures Ring(head, Without(q, k)) && entry !in Without(q, k)
    ensures entry.next == null && entry.prev == null
  {
    hide Without;
    var prev, next := entry.prev, entry.next;
    assert prev == Before(head, q, k) && next == After(head, q, k);
    EndsWithout(head, q, k);
    next.prev := prev;
    prev.next := next;
    entry.next := null;
    entry.prev := null;
    ghost var r := Without(q, k);
    WithoutShape(q, k);
    forall i | 0 <= i < |r| ensures r[i].next == After(head, r, i) && r[i].prev == Before(head, r, i) {
      var j := if i < k then i else i + 1;
      assert r[i] == q[j] && q[j] != entry;
      assert old(q[j].next) == After(head, q, j) && old(q[j].prev) == Before(head, q, j);
      AfterWithout(head, q, k, i, j);
    }
  }

  /** The neighbours in the shorter list, in terms of the longer one. */
  lemma AfterWithout(head: ListHead, q: seq<ListHead>, k: nat, i: nat, j: nat)
    requires k < |q| && i < |q| - 1 && j == if i < k then i else i + 1
    ensures |Without(q, k)| == |q| - 1
    ensures After(head, Without(q, k), i) == if j + 1 == k then After(head, q, k) else After(head, q, j)
    ensures Before(head, Without(q, k), i) == if j == k + 1 then Before(head, q, k) else Before(head, q, j)
  {
  }

  lemma EndsWithout(head: ListHead, q: seq<ListHead>, k: nat)
    requires k < |q|
    ensures After(head, Without(q, k), -1) == if k == 0 then After(head, q, 0) else q[0]
    ensures Before(head, Without(q, k), |Without(q, k)|) == if k == |q| - 1 then Before(head, q, k) else q[|q| - 1]
  {
  }

  lemma WithoutShape(q: seq<ListHead>, k: nat)
    requires k < |q| && forall i, j :: 0 <= i < j < |q| ==> q[i] != q[j]
    ensures var r := Without(q, k);
            && |r| == |q| - 1 && (forall i :: 0 <= i < |r| ==> r[i] == q[if i < k then i else i + 1])
            && (forall i, j :: 0 <= i < j < |r| ==> r[i] != r[j])
            && (forall n :: n in r ==> n in q) && q[k] !in r
  {
  }

  ghost function Without(q: seq<ListHead>, k: nat): seq<ListHead>
    requires k < |q|
  {
    q[..k] + q[k + 1..]
  }

  lemma NeighboursInRing(head: ListHead, q: seq<ListHead>, k: nat)
    requires Ring(head, q) && k < |q|
    ensures q[k].next == head || q[k].next in q
    ensures q[k].prev == head || q[k].prev in q
  {
  }

  /** A list may exchange nodes with `node`, which is in no other list. */
  lemma ApartUpdate(lists: Lists, head: ListHead, q: seq<ListHead>, node: ListHead)
    requires Apart(lists) && head in lists && node !in lists
    requires forall n :: n in q ==> n in lists[head] || n == node
    requires forall h :: h in lists && h != head ==> node !in lists[h]
    ensures Apart(lists[head := q])
  {
  }

  /** list_empty */
  method Empty(head: ListHead, ghost lists: Lists, ghost pool: set<ListHead>) returns (empty: bool)
    requires Pool(lists, pool) && head in lists
    ensures empty <==> lists[head] == []
  {
    assert Ring(head, lists[head]);
    empty := head.next == head;
  }

  /** The scheduler's test list_first == list_last holds exactly when at most one task is queued. */
  method FirstIsLast(head: ListHead, ghost lists: Lists, ghost pool: set<ListHead>) returns (same: bool)
    requires Pool(lists, pool) && head in lists
    ensures same <==> |lists[head]| <= 1
  {
    assert Ring(head, lists[head]);
    same := head.next == head.prev;
  }

  /** A ring determines its sequence. */
  lemma {:induction false} RingIsUnique(head: ListHead, q: seq<ListHead>, r: seq<ListHead>, i: nat)
    requires Ring(head, q) && Ring(head, r) && i <= |q|
    ensures i <= |r| && forall j :: 0 <= j < i ==> q[j] == r[j]
  {
    if i > 0 {
      RingIsUnique(head, q, r, i - 1);
      RingNext(head, q, i - 1);
      if i <= |r| {
        RingNext(head, r, i - 1);
      } else {
        RingEnd(head, r);
      }
      hide Ring;
    }
  }

  lemma RingNext(head: ListHead, q: seq<ListHead>, i: nat)
    requires Ring(head, q) && i < |q|
    ensures q[i] == (if i == 0 then head else q[i - 1]).next && q[i] != head
  {
  }

  lemma RingEnd(head: ListHead, q: seq<ListHead>)
    requires Ring(head, q)
    ensures (if q == [] then head else q[|q| - 1]).next == head
  {
  }
}
