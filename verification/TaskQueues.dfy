/**
 The scheduler's queues of task slots, threaded through the list entries of the tasks: what SchedSpec says of sequences
 of slots is what the pointer operations of Lists do (zeos/devices.c block_into_kbd and unblock_and_enqueque).
 */
module TaskQueues {
  import opened Lists
  import SchedSpec

  /** Each task slot has its own list entry. */
  ghost predicate Entries(entry: seq<ListHead>, q: seq<int>) {
    && (forall i, j :: 0 <= i < j < |entry| ==> entry[i] != entry[j])
    && (forall i :: 0 <= i < |q| ==> 0 <= q[i] < |entry|)
  }

  /** The list entries of the tasks of q, in order. */
  ghost function Threaded(entry: seq<ListHead>, q: seq<int>): (r: seq<ListHead>)
    requires Entries(entry, q)
    ensures |r| == |q| && forall i :: 0 <= i < |q| ==> r[i] == entry[q[i]]
  {
    seq(|q|, i requires 0 <= i < |q| => entry[q[i]])
  }

  /** Taking the task at place k out of a queue in which it is nowhere else. */
  lemma {:induction false} RemoveAt(q: seq<int>, k: nat)
    requires k < |q| && forall i :: 0 <= i < k ==> q[i] != q[k]
    ensures SchedSpec.Remove(q, q[k]) == q[..k] + q[k + 1..]
  {
    if k > 0 {
      RemoveAt(q[1..], k - 1);
      RemoveLater(q, q[k]);
      hide SchedSpec.Remove;
      assert [q[0]] + (q[1..][..k - 1] + q[1..][k..]) == q[..k] + q[k + 1..];
    }
  }

  lemma RemoveLater(q: seq<int>, x: int)
    requires q != [] && q[0] != x
    ensures SchedSpec.Remove(q, x) == [q[0]] + SchedSpec.Remove(q[1..], x)
  {
  }

  /** Removing a task from a queue of slots is list_del of its entry; appending one is list_add_tail. */
  lemma ThreadedRemove(entry: seq<ListHead>, q: seq<int>, k: nat)
    requires Entries(entry, q) && k < |q| && forall i :: 0 <= i < k ==> q[i] != q[k]
    ensures Entries(entry, SchedSpec.Remove(q, q[k]))
    ensures Threaded(entry, SchedSpec.Remove(q, q[k])) == Without(Threaded(entry, q), k)
  {
    hide SchedSpec.Remove;
    RemoveAt(q, k);
    ThreadedWithout(entry, q, k);
  }

  lemma ThreadedWithout(entry: seq<ListHead>, q: seq<int>, k: nat)
    requires Entries(entry, q) && k < |q|
    ensures Entries(entry, q[..k] + q[k + 1..])
    ensures Threaded(entry, q[..k] + q[k + 1..]) == Without(Threaded(entry, q), k)
  {
    var r := q[..k] + q[k + 1..];
    assert forall i :: 0 <= i < |r| ==> r[i] == q[if i < k then i else i + 1];
    assert Threaded(entry, r) == Without(Threaded(entry, q), k);
  }

  lemma InThreaded(entry: seq<ListHead>, q: seq<int>, t: nat)
    requires Entries(entry, q) && t < |entry|
    ensures entry[t] in Threaded(entry, q) <==> t in q
  {
    if t in q {
      var k :| 0 <= k < |q| && q[k] == t;
      assert Threaded(entry, q)[k] == entry[t];
    }
  }

  lemma ThreadedPush(entry: seq<ListHead>, q: seq<int>, t: int)
    requires Entries(entry, q) && 0 <= t < |entry|
    ensures Entries(entry, q + [t]) && Threaded(entry, q + [t]) == Threaded(entry, q) + [entry[t]]
  {
    assert Threaded(entry, q + [t]) == Threaded(entry, q) + [entry[t]];
  }

  lemma ThreadedPushFirst(entry: seq<ListHead>, q: seq<int>, t: int)
    requires Entries(entry, q) && 0 <= t < |entry|
    ensures Entries(entry, [t] + q) && Threaded(entry, [t] + q) == [entry[t]] + Threaded(entry, q)
  {
    assert forall i :: 0 <= i < |[t] + q| ==> ([t] + q)[i] == if i == 0 then t else q[i - 1];
    assert Threaded(entry, [t] + q) == [entry[t]] + Threaded(entry, q);
  }

  /** list_del and list_add_tail: a task moves from one queue to the end of another, and no other queue changes. */
  method Move(task: ListHead, to: ListHead, ghost from: ListHead, ghost k: nat, ghost lists: Lists,
              ghost pool: set<ListHead>)
    requires Pool(lists, pool) && from in lists && to in lists && from != to && k < |lists[from]|
             && lists[from][k] == task
    modifies task, task.prev, task.next, to, to.prev
    ensures Pool(lists[from := Without(lists[from], k)][to := lists[to] + [task]], pool)
  {
    hide Ring, Without, Apart;
    DelInPool(lists, pool, from, k);
    LastInRing(to, lists[to]) by { assert Ring(to, lists[to]); }
    Del(task, from, k, lists, pool);
    AddTail(task, to, lists[from := Without(lists[from], k)], pool);
    assert pool + {task} == pool;
  }

  /** block_into_kbd, and unblock_and_enqueque the other way: slot t leaves one queue of slots and joins the other. */
  method MoveTask(t: int, task: ListHead, to: ListHead, ghost from: ListHead, ghost entry: seq<ListHead>,
                  ghost source: seq<int>, ghost target: seq<int>, ghost k: nat, ghost lists: Lists,
                  ghost pool: set<ListHead>)
    requires Pool(lists, pool) && from in lists && to in lists && from != to
    requires Entries(entry, source) && Entries(entry, target)
    requires lists[from] == Threaded(entry, source) && lists[to] == Threaded(entry, target)
    requires k < |source| && source[k] == t && task == entry[t]
    modifies task, task.prev, task.next, to, to.prev
    ensures Entries(entry, SchedSpec.Remove(source, t)) && Entries(entry, target + [t])
    ensures Pool(lists[from := Threaded(entry, SchedSpec.Remove(source, t))][to := Threaded(entry, target + [t])], pool)
  {
    hide Pool, SchedSpec.Remove;
    NowhereElse(entry, source, k, from, lists, pool);
    ThreadedRemove(entry, source, k);
    ThreadedPush(entry, target, t);
    Move(task, to, from, k, lists, pool);
  }

  /** A ring meets no entry twice, so no task is queued twice. */
  lemma NowhereElse(entry: seq<ListHead>, q: seq<int>, k: nat, head: ListHead, lists: Lists, pool: set<ListHead>)
    requires Pool(lists, pool) && head in lists && Entries(entry, q) && lists[head] == Threaded(entry, q) && k < |q|
    ensures forall i :: 0 <= i < k ==> q[i] != q[k]
  {
    assert Ring(head, lists[head]);
  }

  ghost predicate Unqueued(queued: seq<seq<int>>, t: int) {
    forall j :: 0 <= j < |queued| ==> t !in queued[j]
  }

  /** The lists are those of the heads, and each threads one queue. */
  ghost predicate Threads(entry: seq<ListHead>, heads: seq<ListHead>, lists: Lists, queued: seq<seq<int>>) {
    && |queued| == |heads| && (forall h :: h in lists ==> h in heads)
    && (forall i :: 0 <= i < |queued| ==> ThreadsOne(entry, heads[i], lists, queued[i]))
  }

  ghost predicate ThreadsOne(entry: seq<ListHead>, head: ListHead, lists: Lists, q: seq<int>) {
    Entries(entry, q) && head in lists && lists[head] == Threaded(entry, q)
  }

  lemma Rethread(entry: seq<ListHead>, heads: seq<ListHead>, lists: Lists, queued: seq<seq<int>>, i: nat, q: seq<int>)
    requires Threads(entry, heads, lists, queued) && i < |queued| && Entries(entry, q)
    requires forall j, k :: 0 <= j < k < |heads| ==> heads[j] != heads[k]
    ensures Threads(entry, heads, lists[heads[i] := Threaded(entry, q)], queued[i := q])
  {
    hide Threaded, Entries;
    var lists', queued' := lists[heads[i] := Threaded(entry, q)], queued[i := q];
    forall j | 0 <= j < |queued'| ensures ThreadsOne(entry, heads[j], lists', queued'[j]) {
      assert ThreadsOne(entry, heads[j], lists, queued[j]);
    }
  }

  lemma UnlistedIsUnqueued(entry: seq<ListHead>, heads: seq<ListHead>, lists: Lists, queued: seq<seq<int>>, t: nat)
    requires Threads(entry, heads, lists, queued) && t < |entry| && Unlisted(lists, entry[t])
    ensures Unqueued(queued, t)
  {
    forall j | 0 <= j < |queued| ensures t !in queued[j] {
      assert ThreadsOne(entry, heads[j], lists, queued[j]);
      InThreaded(entry, queued[j], t);
    }
  }

  // The three list operations, with the lists they leave given and a pool that has all their nodes.

  method LinkAtTail(node: ListHead, head: ListHead, ghost lists: Lists, ghost after: Lists, ghost pool: set<ListHead>)
    requires Pool(lists, pool) && head in lists && Unlisted(lists, node)
    requires after == lists[head := lists[head] + [node]] && node in pool && head in pool && head.prev in pool
    modifies pool
    ensures Pool(after, pool)
  {
    hide Pool, Unlisted;
    AddTail(node, head, lists, pool);
    assert pool + {node} == pool;
  }

  method LinkAtHead(node: ListHead, head: ListHead, ghost lists: Lists, ghost after: Lists, ghost pool: set<ListHead>)
    requires Pool(lists, pool) && head in lists && Unlisted(lists, node)
    requires after == lists[head := [node] + lists[head]] && node in pool && head in pool && head.next in pool
    modifies pool
    ensures Pool(after, pool)
  {
    hide Pool, Unlisted;
    Add(node, head, lists, pool);
    assert pool + {node} == pool;
  }

  method CutOut(node: ListHead, ghost head: ListHead, ghost k: nat, ghost lists: Lists, ghost after: Lists,
                ghost pool: set<ListHead>)
    requires Pool(lists, pool) && head in lists && k < |lists[head]| && lists[head][k] == node
    requires after == lists[head := Without(lists[head], k)] && node in pool && node.prev in pool && node.next in pool
    modifies pool
    ensures Pool(after, pool) && Unlisted(after, node)
  {
    hide Pool, Unlisted, Without;
    Del(node, head, k, lists, pool);
  }

  /** The list entries of all tasks and the heads of all queues, threaded in place. */
  class Queues {
    const entry: seq<ListHead>
    const heads: seq<ListHead>
    ghost const pool: set<ListHead>
    ghost var lists: Lists
    /** The task slots in each queue. */
    ghost var queued: seq<seq<int>>

    /** Entries and heads are different nodes, and each entry knows its slot. */
    ghost predicate Placed() {
      && (forall i, j :: 0 <= i < j < |entry| ==> entry[i] != entry[j])
      && (forall i, j :: 0 <= i < j < |heads| ==> heads[i] != heads[j])
      && (forall i :: 0 <= i < |entry| ==> entry[i] in pool && entry[i] !in heads && entry[i].slot == i)
      && (forall i :: 0 <= i < |heads| ==> heads[i] in pool)
    }

    ghost predicate Valid()
      reads this, pool
    {
      Placed() && Pool(lists, pool) && Threads(entry, heads, lists, queued)
    }

    static method NewEntries(tasks: nat) returns (e: seq<ListHead>, ghost nodes: set<ListHead>)
      ensures |e| == tasks && fresh(nodes)
      ensures forall i :: 0 <= i < tasks ==> e[i] in nodes && e[i].slot == i
      ensures forall i, j :: 0 <= i < j < tasks ==> e[i] != e[j]
    {
      e, nodes := [], {};
      for i := 0 to tasks
        invariant |e| == i && fresh(nodes)
        invariant forall k :: 0 <= k < i ==> e[k] in nodes && e[k].slot == k
        invariant forall k, l :: 0 <= k < l < i ==> e[k] != e[l]
      {
        var node := new ListHead(i);
        e, nodes := e + [node], nodes + {node};
      }
    }

    /** Empty lists over the heads, beside other nodes. */
    static method NewHeads(queues: nat, ghost others: set<ListHead>)
      returns (h: seq<ListHead>, ghost nodes: set<ListHead>, ghost ls: Lists)
      ensures |h| == queues && fresh(nodes) && nodes !! others
      ensures forall i :: 0 <= i < queues ==> h[i] in nodes && h[i] in ls && ls[h[i]] == []
      ensures forall i, j :: 0 <= i < j < queues ==> h[i] != h[j]
      ensures (forall n :: n in ls ==> n in h) && Pool(ls, nodes)
    {
      h, nodes, ls := [], {}, map[];
      for i := 0 to queues
        invariant |h| == i && fresh(nodes) && nodes !! others
        invariant forall k :: 0 <= k < i ==> h[k] in nodes && h[k] in ls && ls[h[k]] == []
        invariant forall k, l :: 0 <= k < l < i ==> h[k] != h[l]
        invariant (forall n :: n in ls ==> n in h && n in nodes && ls[n] == []) && Pool(ls, nodes)
      {
        var node := new ListHead(-1);
        Init(node, ls, nodes);
        h, ls, nodes := h + [node], ls[node := []], nodes + {node};
      }
    }

    /** Every queue is empty. */
    constructor (tasks: nat, queues: nat)
      ensures Valid() && fresh(pool) && |entry| == tasks && |heads| == queues
      ensures queued == seq(queues, _ => [])
    {
      var e, h;
      ghost var a, b, ls;
      e, a := NewEntries(tasks);
      h, b, ls := NewHeads(queues, a);
      entry, heads, pool, lists := e, h, a + b, ls;
      queued := seq(queues, _ => []);
      new;
      WiderPool(ls, b, a + b);
      hide Pool;
    }

    static lemma WiderPool(lists: Lists, pool: set<ListHead>, wider: set<ListHead>)
      requires Pool(lists, pool) && pool <= wider
      ensures Pool(lists, wider)
    {
    }

    /** list_add_tail of the entry of slot t, which is in no queue. */
    method Push(i: nat, t: nat)
      requires Valid() && i < |queued| && t < |entry| && Unqueued(queued, t)
      modifies this`lists, this`queued, pool
      ensures Valid() && |queued| == |old(queued)| && queued == old(queued)[i := old(queued)[i] + [t]]
    {
      hide Pool, Threads, Placed, Unlisted, Unqueued, Threaded, Entries, ThreadsOne, Without, Ring, Apart;
      ghost var after := BeforePush(i, t);
      ghost var q := queued[i := queued[i] + [t]];
      LinkAtTail(entry[t], heads[i], lists, after, pool);
      lists, queued := after, q;
    }

    lemma BeforePush(i: nat, t: nat) returns (after: Lists)
      requires Valid() && i < |queued| && t < |entry| && Unqueued(queued, t)
      ensures Placed() && |queued| == |heads| && Unlisted(lists, entry[t]) && heads[i] in lists
      ensures heads[i] in pool && heads[i].prev in pool && entry[t] in pool && pool + {entry[t]} == pool
      ensures after == lists[heads[i] := lists[heads[i]] + [entry[t]]]
      ensures Threads(entry, heads, after, queued[i := queued[i] + [t]])
    {
      NotListed(t);
      assert |queued| == |heads| && ThreadsOne(entry, heads[i], lists, queued[i]);
      after := lists[heads[i] := lists[heads[i]] + [entry[t]]];
      assert Ring(heads[i], lists[heads[i]]);
      hide Pool, Threads;
      ThreadedPush(entry, queued[i], t);
      Rethread(entry, heads, lists, queued, i, queued[i] + [t]);
    }

    /** list_add of the entry of slot t, which is in no queue. */
    method PushFirst(i: nat, t: nat)
      requires Valid() && i < |queued| && t < |entry| && Unqueued(queued, t)
      modifies this`lists, this`queued, pool
      ensures Valid() && |queued| == |old(queued)| && queued == old(queued)[i := [t] + old(queued)[i]]
    {
      hide Pool, Threads, Placed, Unlisted, Unqueued, Threaded, Entries, ThreadsOne, Without, Ring, Apart;
      ghost var after := BeforePushFirst(i, t);
      ghost var q := queued[i := [t] + queued[i]];
      LinkAtHead(entry[t], heads[i], lists, after, pool);
      lists, queued := after, q;
    }

    lemma BeforePushFirst(i: nat, t: nat) returns (after: Lists)
      requires Valid() && i < |queued| && t < |entry| && Unqueued(queued, t)
      ensures Placed() && |queued| == |heads| && Unlisted(lists, entry[t]) && heads[i] in lists
      ensures heads[i] in pool && heads[i].next in pool && entry[t] in pool && pool + {entry[t]} == pool
      ensures after == lists[heads[i] := [entry[t]] + lists[heads[i]]]
      ensures Threads(entry, heads, after, queued[i := [t] + queued[i]])
    {
      NotListed(t);
      assert |queued| == |heads| && ThreadsOne(entry, heads[i], lists, queued[i]);
      after := lists[heads[i] := [entry[t]] + lists[heads[i]]];
      assert Ring(heads[i], lists[heads[i]]);
      hide Pool, Threads;
      ThreadedPushFirst(entry, queued[i], t);
      Rethread(entry, heads, lists, queued, i, [t] + queued[i]);
    }

    /** list_del of the entry of slot t, in whatever queue it is. */
    method Delete(t: nat, ghost i: nat)
      requires Valid() && i < |queued| && t in queued[i]
      modifies this`lists, this`queued, pool
      ensures Valid() && |queued| == |old(queued)| && queued == old(queued)[i := SchedSpec.Remove(old(queued)[i], t)]
      ensures Unqueued(queued, t)
    {
      hide Pool, Threads, Placed, Unlisted, Unqueued, Threaded, Entries, ThreadsOne, Without, Ring, Apart;
      hide SchedSpec.Remove;
      ghost var k, after := BeforeDelete(t, i);
      ghost var q := queued[i := SchedSpec.Remove(queued[i], t)];
      CutOut(entry[t], heads[i], k, lists, after, pool);
      UnlistedIsUnqueued(entry, heads, after, q, t);
      lists, queued := after, q;
    }

    lemma BeforeDelete(t: nat, i: nat) returns (k: nat, after: Lists)
      requires Valid() && i < |queued| && t in queued[i]
      ensures Placed() && |queued| == |heads| && t < |entry| && heads[i] in lists
      ensures k < |lists[heads[i]]| && lists[heads[i]][k] == entry[t]
      ensures entry[t] in pool && entry[t].prev in pool && entry[t].next in pool
      ensures after == lists[heads[i] := Without(lists[heads[i]], k)]
      ensures Threads(entry, heads, after, queued[i := SchedSpec.Remove(queued[i], t)])
    {
      k :| 0 <= k < |queued[i]| && queued[i][k] == t;
      assert |queued| == |heads| && ThreadsOne(entry, heads[i], lists, queued[i]);
      assert Ring(heads[i], lists[heads[i]]) && lists[heads[i]][k] == entry[t];
      after := lists[heads[i] := Without(lists[heads[i]], k)];
      NeighboursInRing(heads[i], lists[heads[i]], k);
      NowhereElse(entry, queued[i], k, heads[i], lists, pool);
      hide Threads, Pool, SchedSpec.Remove, Without, Ring;
      ThreadedRemove(entry, queued[i], k);
      Rethread(entry, heads, lists, queued, i, SchedSpec.Remove(queued[i], t));
    }

    /** The slot of the first entry of a queue. */
    method First(i: nat) returns (t: int)
      requires Valid() && i < |queued| && queued[i] != []
      ensures t == queued[i][0] && 0 <= t < |entry|
    {
      assert ThreadsOne(entry, heads[i], lists, queued[i]);
      assert Ring(heads[i], lists[heads[i]]);
      t := heads[i].next.slot;
    }

    method IsEmpty(i: nat) returns (empty: bool)
      requires Valid() && i < |queued|
      ensures empty <==> queued[i] == []
    {
      assert ThreadsOne(entry, heads[i], lists, queued[i]);
      hide Pool;
      empty := Empty(heads[i], lists, pool);
    }

    /** list_first == list_last */
    method AtMostOne(i: nat) returns (same: bool)
      requires Valid() && i < |queued|
      ensures same <==> |queued[i]| <= 1
    {
      assert ThreadsOne(entry, heads[i], lists, queued[i]);
      hide Pool;
      same := FirstIsLast(heads[i], lists, pool);
    }

    lemma NotListed(t: nat)
      requires Valid() && t < |entry| && Unqueued(queued, t)
      ensures Unlisted(lists, entry[t])
    {
      hide Pool;
      forall h | h in lists ensures entry[t] !in lists[h] {
        var j :| 0 <= j < |heads| && heads[j] == h;
        assert ThreadsOne(entry, heads[j], lists, queued[j]);
        InThreaded(entry, queued[j], t);
      }
    }
  }
}
