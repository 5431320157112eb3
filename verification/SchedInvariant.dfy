/** Every step keeps each live task in exactly one queue, the running one at the head of the run queue. */
module SchedInvariant {
  import opened Counting
  import opened SchedSpec

  ghost function Waits(sems: seq<Sem>): (w: seq<seq<int>>)
    ensures |w| == |sems| && forall n :: 0 <= n < |sems| ==> w[n] == sems[n].waiters
  {
    seq(|sems|, n requires 0 <= n < |sems| => sems[n].waiters)
  }

  /** How many places of the queues hold task x. */
  ghost function Places(k: Kernel, x: int): nat {
    Count(k.runq, x) + Count(k.kbdq, x) + Total(Waits(k.sems), x)
  }

  predicate Live(tasks: seq<Task>, t: int) {
    0 <= t < |tasks| && tasks[t].pid >= 0
  }

  /** Each live task is in exactly one of the queues, once; nothing else is in any. */
  ghost predicate QueuesOk(k: Kernel) {
    forall x :: Places(k, x) == if Live(k.tasks, x) then 1 else 0
  }

  predicate TasksOk(tasks: seq<Task>) {
    && |tasks| > 0 && tasks[0].pid == 0
    && (forall t :: 0 < t < |tasks| ==> tasks[t].pid != 0)
    && (forall t :: 0 <= t < |tasks| && tasks[t].pid >= 0 ==> tasks[t].quantum >= 1)
  }

  /** The live tasks that own semaphore n. */
  ghost function Owners(tasks: seq<Task>, n: nat): nat {
    if tasks == [] then 0
    else
      var last := tasks[|tasks| - 1];
      Owners(tasks[..|tasks| - 1], n) + if last.pid >= 0 && n < |last.owned| && last.owned[n] then 1 else 0
  }

  /**
   An initialised semaphore has exactly one live owner; a semaphore with a positive count, or none, has no
   waiters.
  */
  ghost predicate SemsOk(tasks: seq<Task>, sems: seq<Sem>) {
    && (forall n :: 0 <= n < |sems| ==> Owners(tasks, n) == if sems[n].init then 1 else 0)
    && (forall n :: 0 <= n < |sems| && (!sems[n].init || sems[n].count > 0) ==> sems[n].waiters == [])
  }

  /** The running task is the head of the run queue with time left, and task 0 can always run. */
  ghost predicate RunOk(k: Kernel) {
    k.runq != [] && k.cur == k.runq[0] && 0 in k.runq && k.left >= 1 && k.nextPid > 0
  }

  ghost predicate Inv(k: Kernel) {
    InRange(k) && TasksOk(k.tasks) && QueuesOk(k) && SemsOk(k.tasks, k.sems) && RunOk(k)
  }

  // ---------------------------------------------------------------- boot

  /** init_sched and init_task0. */
  function Boot(tasks: nat, sems: nat): Kernel
    requires tasks > 0
  {
    var free := Task(-1, 0, 0, 0, 0, OwnsNone(sems), 0);
    Kernel([Task(0, 60, 60, 0, 1, OwnsNone(sems), 0)] + seq(tasks - 1, _ => free),
           seq(sems, _ => Sem(0, false, [])), [0], [], 0, 60, 1)
  }

  lemma {:induction false} NoOwners(tasks: seq<Task>, n: nat)
    requires forall t :: 0 <= t < |tasks| && n < |tasks[t].owned| ==> !tasks[t].owned[n]
    ensures Owners(tasks, n) == 0
  {
    if tasks != [] {
      NoOwners(tasks[..|tasks| - 1], n);
    }
  }

  lemma {:induction false} NoneWaiting(qs: seq<seq<int>>, x: int)
    requires forall n :: 0 <= n < |qs| ==> qs[n] == []
    ensures Total(qs, x) == 0
  {
    if qs != [] {
      NoneWaiting(qs[..|qs| - 1], x);
    }
  }

  lemma BootInv(tasks: nat, sems: nat)
    requires tasks > 0
    ensures Inv(Boot(tasks, sems))
  {
    var k := Boot(tasks, sems);
    forall x ensures Places(k, x) == if Live(k.tasks, x) then 1 else 0 {
      NoneWaiting(Waits(k.sems), x);
      assert [0][..0] == [];
    }
    forall n | 0 <= n < sems ensures Owners(k.tasks, n) == 0 {
      NoOwners(k.tasks, n);
    }
  }

  // ---------------------------------------------------------------- counting lemmas

  function Owns(t: Task, n: nat): int {
    if t.pid >= 0 && n < |t.owned| && t.owned[n] then 1 else 0
  }

  lemma {:induction false} OwnersUpdate(tasks: seq<Task>, t: nat, x: Task, n: nat)
    requires t < |tasks|
    ensures Owners(tasks[t := x], n) == Owners(tasks, n) - Owns(tasks[t], n) + Owns(x, n)
  {
    var m := |tasks| - 1;
    if t < m {
      OwnersUpdate(tasks[..m], t, x, n);
      assert tasks[t := x][..m] == tasks[..m][t := x];
    } else {
      assert tasks[t := x][..m] == tasks[..m];
    }
  }

  lemma {:induction false} OwnersFrame(tasks: seq<Task>, tasks': seq<Task>, n: nat)
    requires |tasks'| == |tasks| && forall t :: 0 <= t < |tasks| ==> Owns(tasks'[t], n) == Owns(tasks[t], n)
    ensures Owners(tasks', n) == Owners(tasks, n)
  {
    if tasks != [] {
      OwnersFrame(tasks[..|tasks| - 1], tasks'[..|tasks| - 1], n);
    }
  }

  lemma {:induction false} OwnersCover(tasks: seq<Task>, t: nat, n: nat)
    requires t < |tasks|
    ensures Owns(tasks[t], n) <= Owners(tasks, n)
  {
    if t < |tasks| - 1 {
      OwnersCover(tasks[..|tasks| - 1], t, n);
    }
  }

  lemma CountOne(a: int, x: int)
    ensures Count([a], x) == if a == x then 1 else 0
  {
    assert [a][..0] == [];
  }

  lemma CountPush(q: seq<int>, a: int, x: int)
    ensures Count(q + [a], x) == Count(q, x) + if a == x then 1 else 0
  {
    CountAppend(q, [a], x);
    CountOne(a, x);
  }

  lemma CountPop(q: seq<int>, x: int)
    requires q != []
    ensures Count(q[1..], x) == Count(q, x) - if q[0] == x then 1 else 0
  {
    assert q == [q[0]] + q[1..];
    CountAppend([q[0]], q[1..], x);
    CountOne(q[0], x);
  }

  lemma WaitsUpdate(sems: seq<Sem>, n: nat, s: Sem, x: int)
    requires n < |sems|
    ensures Total(Waits(sems[n := s]), x) == Total(Waits(sems), x) - Count(sems[n].waiters, x) + Count(s.waiters, x)
  {
    assert Waits(sems[n := s]) == Waits(sems)[n := s.waiters];
    TotalUpdate(Waits(sems), n, s.waiters, x);
  }

  /** The running task is nowhere but at the head of the run queue. */
  lemma HeadOnly(k: Kernel)
    requires Inv(k)
    ensures Live(k.tasks, k.cur) && Count(k.runq[1..], k.cur) == 0 && k.cur !in k.runq[1..]
    ensures k.cur !in k.kbdq && forall n :: 0 <= n < |k.sems| ==> k.cur !in k.sems[n].waiters
    ensures Remove(k.runq, k.cur) == k.runq[1..]
    ensures (k.cur == 0) == (k.tasks[k.cur].pid == 0)
  {
    CountPop(k.runq, k.cur);
    CountIn(k.runq[1..], k.cur);
    CountIn(k.runq, k.cur);
    CountIn(k.kbdq, k.cur);
    assert Places(k, k.cur) == if Live(k.tasks, k.cur) then 1 else 0;
    forall n | 0 <= n < |k.sems| ensures k.cur !in k.sems[n].waiters {
      if k.cur in Waits(k.sems)[n] {
        var i :| 0 <= i < |Waits(k.sems)[n]| && Waits(k.sems)[n][i] == k.cur;
        TotalHas(Waits(k.sems), n, i);
      }
    }
  }

  // ---------------------------------------------------------------- frames

  /** A change of fields that the invariant does not see. */
  ghost predicate SameRoles(tasks: seq<Task>, tasks': seq<Task>) {
    && |tasks'| == |tasks|
    && forall t :: 0 <= t < |tasks| ==>
         && tasks'[t].pid == tasks[t].pid && tasks'[t].owned == tasks[t].owned
         && (tasks[t].quantum >= 1 ==> tasks'[t].quantum >= 1)
  }

  lemma RolesFrame(k: Kernel, tasks: seq<Task>)
    requires InRange(k) && TasksOk(k.tasks) && QueuesOk(k) && SemsOk(k.tasks, k.sems) && SameRoles(k.tasks, tasks)
    ensures var k' := k.(tasks := tasks); InRange(k') && TasksOk(tasks) && QueuesOk(k') && SemsOk(tasks, k.sems)
  {
    hide Total, Count, Places;
    forall n | 0 <= n < |k.sems| ensures Owners(tasks, n) == Owners(k.tasks, n) {
      OwnersFrame(k.tasks, tasks, n);
    }
    hide Owners;
    var k' := k.(tasks := tasks);
    forall x ensures Places(k', x) == if Live(tasks, x) then 1 else 0 {
      assert Places(k', x) == Places(k, x) by { SamePlaces(k, k', x); }
      assert Live(tasks, x) == Live(k.tasks, x);
    }
  }

  lemma SamePlaces(k: Kernel, k': Kernel, x: int)
    requires k'.runq == k.runq && k'.kbdq == k.kbdq && k'.sems == k.sems
    ensures Places(k', x) == Places(k, x)
  {
  }

  /** Everything but the run queue's head and its time. */
  ghost predicate Resting(k: Kernel) {
    InRange(k) && TasksOk(k.tasks) && QueuesOk(k) && SemsOk(k.tasks, k.sems) && 0 in k.runq && k.nextPid > 0
  }

  /** Switching to the head of the run queue restores the whole invariant. */
  lemma SwitchInv(k: Kernel)
    requires Resting(k) && k.runq != []
    ensures Inv(Switch(k, k.runq[0]))
  {
    var t := k.runq[0];
    assert Live(k.tasks, t) by {
      CountHas(k.runq, 0);
      assert Places(k, t) == if Live(k.tasks, t) then 1 else 0;
    }
    hide QueuesOk, SemsOk;
    RolesFrame(k, Switch(k, t).tasks);
    var k' := k.(tasks := Switch(k, t).tasks);
    TimeFrame(k', t, k.tasks[t].quantum);
    assert Switch(k, t) == k'.(cur := t, left := k.tasks[t].quantum);
  }

  lemma TimeFrame(k: Kernel, cur: int, left: int)
    requires QueuesOk(k)
    ensures QueuesOk(k.(cur := cur, left := left))
  {
    forall x ensures Places(k.(cur := cur, left := left), x) == Places(k, x) {
      SamePlaces(k, k.(cur := cur, left := left), x);
    }
  }

  // ---------------------------------------------------------------- each step

  lemma ChargedInv(k: Kernel)
    requires Inv(k)
    ensures var k1 := Charged(k); InRange(k1) && TasksOk(k1.tasks) && QueuesOk(k1) && SemsOk(k1.tasks, k1.sems)
  {
    hide QueuesOk, SemsOk, TasksOk;
    RolesFrame(k, Charged(k).tasks);
    TimeFrame(k.(tasks := Charged(k).tasks), k.cur, k.left - 1);
  }

  lemma TickInv(k: Kernel)
    requires Inv(k)
    ensures Inv(ClockTick(k))
  {
    hide QueuesOk, SemsOk, TasksOk, Remove;
    HeadOnly(k);
    ChargedInv(k);
    var k1 := Charged(k);
    if k1.left > 0 {
    } else if |k.runq| <= 1 {
      RefreshInv(k, k1);
    } else {
      RotateQueues(k1);
      RotateInv(k1);
    }
  }

  lemma RefreshInv(k: Kernel, k1: Kernel)
    requires Inv(k) && Live(k.tasks, k.cur) && k1 == Charged(k) && InRange(k1)
    requires TasksOk(k1.tasks) && QueuesOk(k1) && SemsOk(k1.tasks, k1.sems)
    ensures Inv(k1.(left := Me(k1).quantum, tasks := k1.tasks[k1.cur := Me(k1).(remaining := Me(k1).quantum)]))
  {
    hide QueuesOk, SemsOk, TasksOk;
    QuantumOf(k, k.cur);
    var again := k1.tasks[k1.cur := Me(k1).(remaining := Me(k1).quantum)];
    RolesFrame(k1, again);
    TimeFrame(k1.(tasks := again), k1.cur, Me(k1).quantum);
  }

  lemma RotateInv(k1: Kernel)
    requires InRange(k1) && TasksOk(k1.tasks) && SemsOk(k1.tasks, k1.sems) && k1.runq != [] && 0 in k1.runq
             && k1.nextPid > 0
    requires QueuesOk(k1.(runq := k1.runq[1..] + [k1.runq[0]]))
    ensures var q := k1.runq[1..] + [k1.runq[0]]; Inv(Switch(k1.(runq := q), q[0]))
  {
    hide QueuesOk, SemsOk, TasksOk;
    assert k1.runq == [k1.runq[0]] + k1.runq[1..];
    SwitchInv(k1.(runq := k1.runq[1..] + [k1.runq[0]]));
  }

  lemma QuantumOf(k: Kernel, t: int)
    requires TasksOk(k.tasks) && Live(k.tasks, t)
    ensures k.tasks[t].quantum >= 1
  {
  }

  lemma RotateQueues(k: Kernel)
    requires QueuesOk(k) && k.runq != []
    ensures QueuesOk(k.(runq := k.runq[1..] + [k.runq[0]]))
  {
    var k' := k.(runq := k.runq[1..] + [k.runq[0]]);
    forall x ensures Places(k', x) == Places(k, x) {
      CountPop(k.runq, x);
      CountPush(k.runq[1..], k.runq[0], x);
    }
  }

  lemma ForkInv(k: Kernel, frames: bool)
    requires Inv(k)
    ensures Inv(ForkTask(k, frames).0)
  {
    hide Remove;
    HeadOnly(k);
    var t := FreeTask(k.tasks);
    if t < |k.tasks| && frames {
      var k' := ForkTask(k, frames).0;
      forall x ensures Places(k', x) == if Live(k'.tasks, x) then 1 else 0 {
        CountPush(k.runq, t, x);
        assert Places(k, x) == if Live(k.tasks, x) then 1 else 0;
      }
      forall n | 0 <= n < |k.sems| ensures Owners(k'.tasks, n) == Owners(k.tasks, n) {
        OwnersUpdate(k.tasks, t, k'.tasks[t], n);
      }
      hide Places, Owners;
      assert SemsOk(k'.tasks, k'.sems);
    }
  }

  lemma NiceInv(k: Kernel, quantum: int)
    requires Inv(k)
    ensures Inv(NiceTask(k, quantum).0)
  {
    RolesFrame(k, NiceTask(k, quantum).0.tasks);
  }

  lemma InitInv(k: Kernel, n: int, value: nat)
    requires Inv(k)
    ensures Inv(Init(k, n, value).0)
  {
    hide Remove;
    HeadOnly(k);
    if 0 <= n < |k.sems| && !k.sems[n].init {
      var k' := Init(k, n, value).0;
      forall x ensures Places(k', x) == if Live(k'.tasks, x) then 1 else 0 {
        WaitsUpdate(k.sems, n, k'.sems[n], x);
        assert Places(k, x) == if Live(k.tasks, x) then 1 else 0;
        assert Live(k'.tasks, x) == Live(k.tasks, x);
      }
      forall m | 0 <= m < |k.sems| ensures Owners(k'.tasks, m) == if k'.sems[m].init then 1 else 0 {
        OwnersUpdate(k.tasks, k.cur, k'.tasks[k.cur], m);
        OwnersCover(k.tasks, k.cur, m);
      }
      hide Places, Owners;
      assert SemsOk(k'.tasks, k'.sems);
    }
  }

  /** The running task moves to the end of another queue and the next one runs. */
  lemma YieldInv(k: Kernel, k1: Kernel)
    requires Inv(k) && k.cur != 0 && InRange(k1) && TasksOk(k1.tasks) && SemsOk(k1.tasks, k1.sems)
    requires k1.runq == k.runq && k1.cur == k.cur && k1.nextPid == k.nextPid
    requires forall x :: Live(k1.tasks, x) == Live(k.tasks, x)
    requires forall x :: Count(k1.kbdq, x) + Total(Waits(k1.sems), x)
                      == Count(k.kbdq, x) + Total(Waits(k.sems), x) + if x == k.cur then 1 else 0
    ensures Inv(Yield(k1))
  {
    hide SemsOk, TasksOk, Remove;
    HeadOnly(k);
    var k2 := k1.(runq := k.runq[1..]);
    YieldQueues(k, k2);
    hide QueuesOk;
    assert 0 in k2.runq by { assert k.runq == [k.cur] + k.runq[1..]; }
    SwitchInv(k2);
  }

  lemma YieldQueues(k: Kernel, k2: Kernel)
    requires QueuesOk(k) && k.runq != [] && k.cur == k.runq[0] && k2.runq == k.runq[1..]
    requires forall x :: Live(k2.tasks, x) == Live(k.tasks, x)
    requires forall x :: Count(k2.kbdq, x) + Total(Waits(k2.sems), x)
                      == Count(k.kbdq, x) + Total(Waits(k.sems), x) + if x == k.cur then 1 else 0
    ensures QueuesOk(k2)
  {
    forall x ensures Places(k2, x) == if Live(k2.tasks, x) then 1 else 0 {
      CountPop(k.runq, x);
      assert Places(k, x) == if Live(k.tasks, x) then 1 else 0;
    }
  }

  lemma WaitInv(k: Kernel, n: int)
    requires Inv(k)
    ensures Inv(Wait(k, n).0)
  {
    hide QueuesOk, TasksOk, Remove, Owners;
    HeadOnly(k);
    if Me(k).pid != 0 && ValidSem(k, n) {
      var s := k.sems[n];
      if s.count == 0 {
        var k1 := k.(sems := k.sems[n := s.(waiters := s.waiters + [k.cur])]);
        forall x ensures Total(Waits(k1.sems), x) == Total(Waits(k.sems), x) + if x == k.cur then 1 else 0 {
          WaitsUpdate(k.sems, n, k1.sems[n], x);
          CountPush(s.waiters, k.cur, x);
        }
        YieldInv(k, k1);
      } else {
        WaitsSame(k, n, s.(count := s.count - 1));
      }
    }
  }

  /** Changing only the count of a semaphore moves nobody. */
  lemma WaitsSame(k: Kernel, n: nat, s: Sem)
    requires QueuesOk(k) && n < |k.sems| && s.waiters == k.sems[n].waiters
    ensures QueuesOk(k.(sems := k.sems[n := s]))
  {
    forall x ensures Places(k.(sems := k.sems[n := s]), x) == Places(k, x) {
      WaitsUpdate(k.sems, n, s, x);
    }
  }

  lemma SignalInv(k: Kernel, n: int)
    requires Inv(k)
    ensures Inv(Signal(k, n).0)
  {
    if ValidSem(k, n) {
      hide QueuesOk, Owners;
      var s := k.sems[n];
      var k' := Signal(k, n).0;
      if s.waiters != [] {
        SignalQueues(k, n);
        RolesFrame(k.(sems := k'.sems, runq := k'.runq), k'.tasks);
      } else {
        WaitsSame(k, n, k'.sems[n]);
      }
    }
  }

  lemma SignalQueues(k: Kernel, n: nat)
    requires QueuesOk(k) && n < |k.sems| && k.sems[n].waiters != []
    ensures QueuesOk(k.(sems := k.sems[n := k.sems[n].(waiters := k.sems[n].waiters[1..])],
                        runq := k.runq + [k.sems[n].waiters[0]]))
  {
    var ws := k.sems[n].waiters;
    var k1 := k.(sems := k.sems[n := k.sems[n].(waiters := ws[1..])], runq := k.runq + [ws[0]]);
    forall x ensures Places(k1, x) == Places(k, x) {
      WaitsUpdate(k.sems, n, k1.sems[n], x);
      CountPop(ws, x);
      CountPush(k.runq, ws[0], x);
    }
  }

  /** The effect of a permitted destruction, field by field. */
  lemma DestroyShape(k: Kernel, n: int)
    requires InRange(k) && ValidSem(k, n) && Me(k).owned[n] && k.cur !in k.sems[n].waiters
    ensures var d := Destroy(k, n).0;
            && d.runq == k.runq + k.sems[n].waiters && d.sems == k.sems[n := k.sems[n].(waiters := [], init := false)]
            && d.kbdq == k.kbdq && d.cur == k.cur && d.left == k.left && d.nextPid == k.nextPid
            && |d.tasks| == |k.tasks|
            && d.tasks[k.cur] == Me(k).(owned := Me(k).owned[n := false])
            && forall t :: 0 <= t < |k.tasks| && t != k.cur ==>
                 d.tasks[t] == if t in k.sems[n].waiters then k.tasks[t].(eax := -1) else k.tasks[t]
  {
  }

  lemma DestroyInv(k: Kernel, n: int)
    requires Inv(k)
    ensures Inv(Destroy(k, n).0)
  {
    if ValidSem(k, n) && Me(k).owned[n] {
      hide QueuesOk, SemsOk, TasksOk, Remove, Destroy, InRange;
      HeadOnly(k);
      DestroyShape(k, n);
      DestroyQueues(k, n, Destroy(k, n).0);
      DestroySems(k, n, Destroy(k, n).0);
    }
  }

  lemma DestroySems(k: Kernel, n: int, k': Kernel)
    requires InRange(k) && TasksOk(k.tasks) && SemsOk(k.tasks, k.sems) && ValidSem(k, n) && Me(k).owned[n]
             && Me(k).pid >= 0
    requires k'.sems == k.sems[n := k.sems[n].(waiters := [], init := false)]
    requires |k'.tasks| == |k.tasks| && k'.tasks[k.cur] == Me(k).(owned := Me(k).owned[n := false])
    requires forall t :: 0 <= t < |k.tasks| && t != k.cur ==> k'.tasks[t] == k.tasks[t].(eax := k'.tasks[t].eax)
    ensures TasksOk(k'.tasks) && SemsOk(k'.tasks, k'.sems)
  {
    hide Owners, InRange;
    forall m | 0 <= m < |k.sems| ensures Owners(k'.tasks, m) == if k'.sems[m].init then 1 else 0 {
      DestroyOwners(k, n, m, k');
    }
  }

  lemma DestroyQueues(k: Kernel, n: int, k': Kernel)
    requires QueuesOk(k) && 0 <= n < |k.sems| && k'.kbdq == k.kbdq && k'.runq == k.runq + k.sems[n].waiters
    requires k'.sems == k.sems[n := k.sems[n].(waiters := [], init := false)]
    requires |k'.tasks| == |k.tasks| && forall t :: 0 <= t < |k.tasks| ==> k'.tasks[t].pid == k.tasks[t].pid
    ensures QueuesOk(k')
  {
    forall x ensures Places(k', x) == if Live(k'.tasks, x) then 1 else 0 {
      WaitsUpdate(k.sems, n, k'.sems[n], x);
      CountAppend(k.runq, k.sems[n].waiters, x);
      assert Places(k, x) == if Live(k.tasks, x) then 1 else 0;
    }
  }

  lemma DestroyOwners(k: Kernel, n: int, m: nat, k': Kernel)
    requires InRange(k) && SemsOk(k.tasks, k.sems) && ValidSem(k, n) && Me(k).owned[n] && m < |k.sems| && Me(k).pid >= 0
    requires k'.sems == k.sems[n := k.sems[n].(waiters := [], init := false)]
    requires |k'.tasks| == |k.tasks| && k'.tasks[k.cur] == Me(k).(owned := Me(k).owned[n := false])
    requires forall t :: 0 <= t < |k.tasks| && t != k.cur ==>
               k'.tasks[t].pid == k.tasks[t].pid && k'.tasks[t].owned == k.tasks[t].owned
    ensures Owners(k'.tasks, m) == if k'.sems[m].init then 1 else 0
  {
    OwnersFrame(k.tasks, k'.tasks[k.cur := Me(k)], m);
    OwnersUpdate(k'.tasks, k.cur, Me(k), m);
    OwnersCover(k.tasks, k.cur, m);
  }

  lemma KbdBlockInv(k: Kernel, size: int)
    requires Inv(k)
    ensures Inv(BlockOnKbd(k, size).0)
  {
    HeadOnly(k);
    if Me(k).pid != 0 {
      var tasks := k.tasks[k.cur := Me(k).(eax := size)];
      RolesFrame(k, tasks);
      var k1 := k.(kbdq := k.kbdq + [k.cur], tasks := tasks);
      forall x ensures Count(k1.kbdq, x) == Count(k.kbdq, x) + if x == k.cur then 1 else 0 {
        CountPush(k.kbdq, k.cur, x);
      }
      hide QueuesOk, SemsOk, TasksOk;
      YieldInv(k, k1);
    }
  }

  lemma KbdWakeInv(k: Kernel)
    requires Inv(k)
    ensures Inv(WakeKbd(k))
  {
    if k.kbdq != [] {
      var k' := WakeKbd(k);
      forall x ensures Places(k', x) == Places(k, x) {
        CountPop(k.kbdq, x);
        CountPush(k.runq, k.kbdq[0], x);
      }
    }
  }

  // ---------------------------------------------------------------- exit

  /** The waiters of the semaphores below n that the running task owns. */
  function Orphans(k: Kernel, n: nat): nat
    requires InRange(k) && n <= |k.sems|
  {
    if n == 0 then 0
    else Orphans(k, n - 1) + if Me(k).owned[n - 1] then |k.sems[n - 1].waiters| else 0
  }

  /** Fewer than two tasks can run after the running one is gone. */
  predicate Strands(k: Kernel)
    requires InRange(k)
  {
    Me(k).pid != 0 && |k.runq| - 1 + Orphans(k, |k.sems|) < 2
  }

  ghost predicate SameTimes(k: Kernel, k': Kernel) {
    && k'.left == k.left && |k'.tasks| == |k.tasks|
    && forall t :: 0 <= t < |k.tasks| ==>
         && k'.tasks[t].quantum == k.tasks[t].quantum && k'.tasks[t].pid == k.tasks[t].pid
         && k'.tasks[t].remaining == k.tasks[t].remaining
  }

  /** What the loop of sys_exit has done: the owned semaphores below n are gone and their waiters can run. */
  ghost predicate Cleared(k: Kernel, d: Kernel, n: nat)
    requires InRange(k) && n <= |k.sems|
  {
    && InRange(d) && |d.sems| == |k.sems| && d.cur == k.cur && Me(d).pid == Me(k).pid
    && |d.runq| == |k.runq| + Orphans(k, n) && d.runq[..|k.runq|] == k.runq && SameTimes(k, d)
    && (forall m :: 0 <= m < n ==> !Me(d).owned[m])
    && (forall m :: 0 <= m < n ==>
          d.sems[m] == if Me(k).owned[m] then k.sems[m].(waiters := [], init := false) else k.sems[m])
    && (forall m :: n <= m < |k.sems| ==> d.sems[m] == k.sems[m] && Me(d).owned[m] == Me(k).owned[m])
  }

  ghost predicate ClearedOne(d: Kernel, d': Kernel, n: nat)
    requires InRange(d) && n < |d.sems|
  {
    && InRange(d')
    && if Me(d).owned[n] then
         && d'.runq == d.runq + d.sems[n].waiters && d'.sems == d.sems[n := d.sems[n].(waiters := [], init := false)]
         && d'.cur == d.cur && Me(d') == Me(d).(owned := Me(d).owned[n := false]) && SameTimes(d, d')
       else d' == d
  }

  lemma ClearedNext(k: Kernel, d: Kernel, d': Kernel, n: nat)
    requires InRange(k) && n < |k.sems| && Cleared(k, d, n) && ClearedOne(d, d', n)
    ensures Cleared(k, d', n + 1)
  {
    hide InRange;
  }

  lemma DestroyOne(d: Kernel, n: nat)
    requires Inv(d) && n < |d.sems|
    ensures var d' := if Me(d).owned[n] then Destroy(d, n).0 else d; Inv(d') && ClearedOne(d, d', n)
  {
    if Me(d).owned[n] {
      hide QueuesOk, SemsOk, TasksOk, RunOk, Destroy;
      HeadOnly(d);
      OwnedIsValid(d, n);
      DestroyShape(d, n);
      DestroyInv(d, n);
    }
  }

  lemma ClearedNone(k: Kernel)
    requires InRange(k)
    ensures Cleared(k, k, 0)
  {
    assert k.runq[..|k.runq|] == k.runq;
  }

  lemma ClearedRange(k: Kernel, d: Kernel, n: nat)
    requires InRange(k) && n <= |k.sems| && Cleared(k, d, n)
    ensures InRange(d) && |d.sems| == |k.sems|
  {
  }

  lemma {:induction false} DestroyOwnedInv(k: Kernel, n: nat)
    requires Inv(k) && n <= |k.sems|
    ensures Inv(DestroyOwned(k, n)) && Cleared(k, DestroyOwned(k, n), n)
  {
    hide QueuesOk, SemsOk, TasksOk, RunOk, ClearedOne, Destroy, Cleared, InRange, Orphans;
    if n == 0 {
      ClearedNone(k);
    } else {
      DestroyOwnedInv(k, n - 1);
      ClearedRange(k, DestroyOwned(k, n - 1), n - 1);
      DestroyOne(DestroyOwned(k, n - 1), n - 1);
      ClearedNext(k, DestroyOwned(k, n - 1), DestroyOwned(k, n), n - 1);
    }
  }

  /** What a live task owns is initialised. */
  lemma OwnedIsValid(k: Kernel, n: nat)
    requires Inv(k) && n < |k.sems| && Live(k.tasks, k.cur) && Me(k).owned[n]
    ensures ValidSem(k, n)
  {
    hide QueuesOk;
    OwnersCover(k.tasks, k.cur, n);
  }

  /** sys_exit leaves the head of the run queue running exactly when at least two tasks remain runnable. */
  lemma ExitInvIff(k: Kernel)
    requires Inv(k)
    ensures Inv(ExitTask(k)) <==> !Strands(k)
  {
    HeadOnly(k);
    if Me(k).pid != 0 {
      var d := DestroyOwned(k, |k.sems|);
      DestroyOwnedInv(k, |k.sems|);
      hide Inv;
      LeaveInvIff(d);
    }
  }

  lemma LeaveInvIff(k: Kernel)
    requires Inv(k) && Me(k).pid != 0 && forall m :: 0 <= m < |k.sems| ==> !Me(k).owned[m]
    ensures Inv(Leave(k)) <==> |k.runq| > 2
  {
    HeadOnly(k);
    var k1 := k.(tasks := k.tasks[k.cur := Me(k).(pid := -1)], runq := k.runq[1..], left := 0);
    assert k.runq == [k.cur] + k.runq[1..];
    if |k.runq| > 2 {
      forall x ensures Places(k1, x) == if Live(k1.tasks, x) then 1 else 0 {
        CountPop(k.runq, x);
        assert Places(k, x) == if Live(k.tasks, x) then 1 else 0;
      }
      forall m | 0 <= m < |k.sems| ensures Owners(k1.tasks, m) == Owners(k.tasks, m) {
        OwnersUpdate(k.tasks, k.cur, k1.tasks[k.cur], m);
      }
      hide Owners, Places;
      assert SemsOk(k1.tasks, k1.sems);
      hide QueuesOk, SemsOk;
      SwitchInv(k1);
    } else {
      assert Leave(k).cur == k.cur && Leave(k).runq == k.runq[1..];
    }
  }

  // ---------------------------------------------------------------- every step

  ghost predicate Enabled(k: Kernel, op: Op)
    requires Inv(k)
  {
    op.Exit? ==> !Strands(k)
  }

  lemma StepInv(k: Kernel, op: Op)
    requires Inv(k)
    ensures Inv(Step(k, op).0) <==> Enabled(k, op)
  {
    hide QueuesOk, SemsOk, TasksOk, RunOk, ClockTick, ForkTask, NiceTask, Init, Wait, Signal, Destroy, ExitTask,
         BlockOnKbd, WakeKbd;
    match op
    case Tick => TickInv(k);
    case Fork(frames) => ForkInv(k, frames);
    case Nice(quantum) => NiceInv(k, quantum);
    case SemInit(n, value) => InitInv(k, n, value);
    case SemWait(n) => WaitInv(k, n);
    case SemSignal(n) => SignalInv(k, n);
    case SemDestroy(n) => DestroyInv(k, n);
    case Exit => ExitInvIff(k);
    case KbdBlock(size) => KbdBlockInv(k, size);
    case KbdWake => KbdWakeInv(k);
  }
}
