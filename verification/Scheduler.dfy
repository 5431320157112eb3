/**
 The imperative scheduler: the task and semaphore tables updated in place, and the run queue, the wait lists and the
 keyboard queue threaded through the list entries of the tasks.
 */
module SchedulerCode {
  import opened Counting
  import opened SchedSpec
  import opened SchedInvariant
  import opened TaskQueues

  /**
   The places of the queues: the run queue, the keyboard queue, and the wait list of semaphore n at SEMAPHORES
   + n.
  */
  const RUNQUEUE: nat := 0
  const KEYBOARD: nat := 1
  const SEMAPHORES: nat := 2

  datatype SemRow = SemRow(count: nat, init: bool)

  /** The queues hold what the state says. */
  ghost predicate Holds(queued: seq<seq<int>>, k: Kernel) {
    && |queued| == SEMAPHORES + |k.sems| && queued[RUNQUEUE] == k.runq && queued[KEYBOARD] == k.kbdq
    && forall n :: 0 <= n < |k.sems| ==> queued[SEMAPHORES + n] == k.sems[n].waiters
  }

  /** The state with other tasks in the queue at place i. */
  ghost function WithQueue(k: Kernel, i: nat, q: seq<int>): Kernel
    requires i < SEMAPHORES + |k.sems|
  {
    if i == RUNQUEUE then k.(runq := q)
    else if i == KEYBOARD then k.(kbdq := q)
    else k.(sems := k.sems[i - SEMAPHORES := k.sems[i - SEMAPHORES].(waiters := q)])
  }

  ghost function QueueAt(k: Kernel, i: nat): seq<int>
    requires i < SEMAPHORES + |k.sems|
  {
    if i == RUNQUEUE then k.runq else if i == KEYBOARD then k.kbdq else k.sems[i - SEMAPHORES].waiters
  }

  lemma HoldsWith(queued: seq<seq<int>>, k: Kernel, i: nat, q: seq<int>)
    requires Holds(queued, k) && i < |queued|
    ensures queued[i] == QueueAt(k, i) && Holds(queued[i := q], WithQueue(k, i, q))
  {
  }

  /** Task t is in no queue. */
  ghost predicate Nowhere(k: Kernel, t: int) {
    t !in k.runq && t !in k.kbdq && forall n :: 0 <= n < |k.sems| ==> t !in k.sems[n].waiters
  }

  lemma NowhereIff(queued: seq<seq<int>>, k: Kernel, t: int)
    requires Holds(queued, k)
    ensures Nowhere(k, t) <==> Unqueued(queued, t)
  {
    if Nowhere(k, t) {
      forall j | 0 <= j < |queued| ensures t !in queued[j] {
        if j >= SEMAPHORES {
          assert k.sems[j - SEMAPHORES].waiters == queued[j];
        }
      }
    }
  }

  /** A free task slot is in no queue. */
  lemma FreeIsNowhere(k: Kernel, t: int)
    requires Inv(k) && !Live(k.tasks, t)
    ensures Nowhere(k, t)
  {
    CountIn(k.runq, t);
    CountIn(k.kbdq, t);
    assert Places(k, t) == if Live(k.tasks, t) then 1 else 0;
    forall n | 0 <= n < |k.sems| ensures t !in k.sems[n].waiters {
      if t in Waits(k.sems)[n] {
        var i :| 0 <= i < |Waits(k.sems)[n]| && Waits(k.sems)[n][i] == t;
        TotalHas(Waits(k.sems), n, i);
      }
    }
  }

  class Scheduler {
    const task: array<Task>
    const sem: array<SemRow>
    const queues: Queues
    var current: int
    var left4current: int
    var pid: int
    ghost var view: Kernel

    ghost predicate Tables()
      reads this, task, sem
    {
      && task[..] == view.tasks && sem.Length == |view.sems|
      && (forall n :: 0 <= n < sem.Length ==> sem[n] == SemRow(view.sems[n].count, view.sems[n].init))
      && current == view.cur && left4current == view.left && pid == view.nextPid
    }

    /** The queues are well-formed lists of the entries of the tasks. */
    ghost predicate Threaded()
      reads this, queues, queues.pool
    {
      queues.Valid() && |queues.entry| == |view.tasks| && Holds(queues.queued, view)
    }

    /** The tables and the lists represent `view`. */
    ghost predicate Represents()
      reads this, task, sem, queues, queues.pool
    {
      Tables() && Threaded()
    }

    /** They do, and it satisfies the invariant of every run. */
    ghost predicate Valid()
      reads this, task, sem, queues, queues.pool
    {
      Represents() && Inv(view)
    }

    /** init_sched and init_task0. */
    constructor (tasks: nat, sems: nat)
      requires tasks > 0
      ensures Valid() && fresh(task) && fresh(sem) && fresh(queues) && fresh(queues.pool)
      ensures view == Boot(tasks, sems)
    {
      hide Inv, Queues.Valid;
      var free := Task(-1, 0, 0, 0, 0, OwnsNone(sems), 0);
      var q := new Queues(tasks, SEMAPHORES + sems);
      q.PushFirst(RUNQUEUE, 0);
      BootInv(tasks, sems);
      BootTasks(tasks, sems);
      task := new Task[tasks](_ => free);
      sem := new SemRow[sems](_ => SemRow(0, false));
      queues := q;
      pid := 0;
      current, left4current := 0, 60;
      view := Boot(tasks, sems);
      new;
      for i := 0 to tasks
        invariant forall t :: 0 <= t < tasks ==> task[t] == free
        modifies task
      {
        task[i] := task[i].(pid := -1);
      }
      task[0] := Task(pid, 60, 60, 0, 1, OwnsNone(sems), 0);
      pid := pid + 1;
      assert task[..] == view.tasks;
    }

    // -------------------------------------------------------------- single updates

    method SetTask(t: int, x: Task)
      requires Represents() && 0 <= t < |view.tasks|
      modifies this`view, task
      ensures Represents() && view == old(view).(tasks := old(view).tasks[t := x])
    {
      hide Queues.Valid, Holds;
      SameQueues(view, view.(tasks := view.tasks[t := x]));
      task[t] := x;
      view := view.(tasks := view.tasks[t := x]);
      assert task[..] == view.tasks;
    }

    method SetSem(n: int, row: SemRow)
      requires Represents() && 0 <= n < |view.sems|
      modifies this`view, sem
      ensures Represents()
      ensures view == old(view).(sems := old(view).sems[n := old(view).sems[n].(count := row.count, init := row.init)])
    {
      hide Queues.Valid, Holds;
      ghost var v := view.(sems := view.sems[n := view.sems[n].(count := row.count, init := row.init)]);
      SameQueues(view, v);
      sem[n] := row;
      view := v;
    }

    method SetTime(left: int)
      requires Represents()
      modifies this`view, this`left4current
      ensures Represents() && view == old(view).(left := left)
    {
      hide Queues.Valid, Holds;
      SameQueues(view, view.(left := left));
      left4current := left;
      view := view.(left := left);
    }

    lemma SameQueues(k: Kernel, k': Kernel)
      requires k'.runq == k.runq && k'.kbdq == k.kbdq && |k'.sems| == |k.sems|
      requires forall n :: 0 <= n < |k.sems| ==> k'.sems[n].waiters == k.sems[n].waiters
      ensures Holds(queues.queued, k) ==> Holds(queues.queued, k')
    {
    }

    /** list_del of a task from the queue at place i. */
    method Unlink(t: int, ghost i: nat)
      requires Represents() && 0 <= t < |view.tasks| && i < SEMAPHORES + |view.sems| && t in QueueAt(view, i)
      modifies this`view, queues`lists, queues`queued, queues.pool
      ensures Represents() && Nowhere(view, t) && view == WithQueue(old(view), i, Remove(QueueAt(old(view), i), t))
    {
      hide Queues.Valid, Remove, Unqueued, Nowhere;
      ghost var v := WithQueue(view, i, Remove(QueueAt(view, i), t));
      HoldsWith(queues.queued, view, i, Remove(QueueAt(view, i), t));
      SameTables(view, i, Remove(QueueAt(view, i), t));
      hide WithQueue, QueueAt;
      queues.Delete(t, i);
      view := v;
      NowhereIff(queues.queued, view, t);
    }

    /** list_add_tail of a task to the queue at place i. */
    method Enqueue(t: int, i: nat)
      requires Represents() && 0 <= t < |view.tasks| && i < SEMAPHORES + |view.sems| && Nowhere(view, t)
      modifies this`view, queues`lists, queues`queued, queues.pool
      ensures Represents() && view == WithQueue(old(view), i, QueueAt(old(view), i) + [t])
    {
      hide Queues.Valid, Unqueued, Nowhere;
      NowhereIff(queues.queued, view, t);
      ghost var v := WithQueue(view, i, QueueAt(view, i) + [t]);
      HoldsWith(queues.queued, view, i, QueueAt(view, i) + [t]);
      SameTables(view, i, QueueAt(view, i) + [t]);
      hide WithQueue, QueueAt, Holds;
      queues.Push(i, t);
      view := v;
    }

    lemma SameTables(k: Kernel, i: nat, q: seq<int>)
      requires i < SEMAPHORES + |k.sems|
      ensures var k' := WithQueue(k, i, q);
              && k'.tasks == k.tasks && |k'.sems| == |k.sems| && k'.cur == k.cur && k'.left == k.left
              && k'.nextPid == k.nextPid
              && forall n :: 0 <= n < |k.sems| ==>
                   k'.sems[n].count == k.sems[n].count && k'.sems[n].init == k.sems[n].init
    {
    }

    /** The slot of the first task of a queue. */
    method FirstOf(i: nat) returns (t: int)
      requires Represents() && i < SEMAPHORES + |view.sems| && QueueAt(view, i) != []
      ensures t == QueueAt(view, i)[0] && 0 <= t < |view.tasks|
    {
      hide Queues.Valid;
      t := queues.First(i);
    }

    method IsEmpty(i: nat) returns (empty: bool)
      requires Represents() && i < SEMAPHORES + |view.sems|
      ensures empty <==> QueueAt(view, i) == []
    {
      hide Queues.Valid;
      empty := queues.IsEmpty(i);
    }

    // -------------------------------------------------------------- the scheduler

    /** task_switch, as far as the queues and the quantum see it. */
    method TaskSwitch(t: int)
      requires Represents() && 0 <= t < |view.tasks|
      modifies this`view, this`current, this`left4current, task
      ensures Represents() && view == Switch(old(view), t)
    {
      hide Queues.Valid, Holds;
      SameQueues(view, Switch(view, t));
      task[t] := task[t].(transitions := task[t].transitions + 1);
      left4current := task[t].quantum;
      task[t] := task[t].(remaining := task[t].quantum);
      current := t;
      view := Switch(view, t);
      assert task[..] == view.tasks;
    }

    /** The running task leaves the processor to the head of the run queue. */
    method SwitchToFirst()
      requires Represents() && view.runq != []
      modifies this`view, this`current, this`left4current, task
      ensures 0 <= old(view).runq[0] < |old(view).tasks|
      ensures Represents() && view == Switch(old(view), old(view).runq[0])
    {
      hide Tables, Threaded, Switch;
      var next := FirstOf(RUNQUEUE);
      TaskSwitch(next);
    }

    /** list_first == list_last */
    method AtMostOne() returns (same: bool)
      requires Represents()
      ensures same <==> |view.runq| <= 1
    {
      hide Queues.Valid;
      same := queues.AtMostOne(RUNQUEUE);
    }

    method Schedule()
      requires Represents() && InRange(view) && view.runq != []
      requires view.left <= 0 && |view.runq| > 1 && Me(view).pid != -1 ==> view.cur in view.runq
      modifies this`view, this`current, this`left4current, task, queues`lists, queues`queued, queues.pool
      ensures Represents() && view == SchedSpec.Schedule(old(view))
    {
      hide Threaded, Remove, Nowhere;
      if left4current <= 0 {
        var single := AtMostOne();
        if single {
          SetTime(task[current].quantum);
          SetTask(current, task[current].(remaining := left4current));
        } else {
          if task[current].pid != -1 {
            Unlink(current, RUNQUEUE);
            Enqueue(current, RUNQUEUE);
          }
          SwitchToFirst();
        }
      }
    }

    /** clock_routine, without the display. */
    method Clock()
      requires Valid()
      modifies this`view, this`current, this`left4current, task, queues`lists, queues`queued, queues.pool
      ensures Valid() && view == ClockTick(old(view))
    {
      ghost var k := view;
      hide Inv, Threaded, SchedSpec.Schedule;
      TickInv(k);
      HeadFirst(k);
      SetTime(left4current - 1);
      SetTask(current, task[current].(cpuTics := task[current].cpuTics + 1, remaining := task[current].remaining - 1));
      assert view == Charged(k);
      Schedule();
    }

    /** srch_free_task */
    method SearchFreeTask() returns (r: int)
      requires Tables()
      ensures r == -1 <==> FreeTask(view.tasks) == |view.tasks|
      ensures r != -1 ==> r == FreeTask(view.tasks)
    {
      for i := 0 to task.Length
        invariant forall j :: 0 <= j < i ==> view.tasks[j].pid >= 0
      {
        if task[i].pid < 0 { return i; }
      }
      return -1;
    }

    /** sys_fork: `frames` says whether the frame allocator could serve the child. */
    method Fork(frames: bool) returns (r: int)
      requires Valid()
      modifies this`view, this`pid, task, queues`lists, queues`queued, queues.pool
      ensures Valid() && (view, r) == ForkTask(old(view), frames)
    {
      ghost var k := view;
      hide Inv, Threaded, Nowhere;
      ForkInv(k, frames);
      HeadFirst(k);
      var t := SearchFreeTask();
      if t == -1 { return -EAGAIN; }
      if !frames { return -EAGAIN; }
      FreeIsNowhere(k, t);
      var me := task[current];
      SetTask(t, Task(pid, me.quantum, me.quantum, 0, 0, OwnsNone(sem.Length), 0));
      SameNowhere(k, view, t);
      Enqueue(t, RUNQUEUE);
      CountPid();
      return pid - 1;
    }

    method CountPid()
      requires Represents()
      modifies this`view, this`pid
      ensures Represents() && view == old(view).(nextPid := old(view).nextPid + 1)
    {
      hide Queues.Valid, Holds;
      SameQueues(view, view.(nextPid := view.nextPid + 1));
      pid := pid + 1;
      view := view.(nextPid := view.nextPid + 1);
    }

    /** sys_nice */
    method Nice(quantum: int) returns (previous: int)
      requires Valid()
      modifies this`view, task
      ensures Valid() && (view, previous) == NiceTask(old(view), quantum)
    {
      hide Inv, Threaded;
      NiceInv(view, quantum);
      HeadFirst(view);
      previous := -EINVAL;
      if quantum > 0 {
        previous := task[current].quantum;
        SetTask(current, task[current].(quantum := quantum));
      }
    }

    /** sys_sem_init; the list that it initialises is empty already. */
    method SemInit(n: int, value: nat) returns (r: int)
      requires Valid()
      modifies this`view, task, sem
      ensures Valid() && (view, r) == Init(old(view), n, value)
    {
      hide Inv, Threaded;
      InitInv(view, n, value);
      HeadFirst(view);
      if n < 0 || n >= sem.Length { return -EINVAL; }
      if sem[n].init { return -EBUSY; }
      NobodyWaits(view, n);
      SetSem(n, SemRow(value, true));
      SetTask(current, task[current].(owned := task[current].owned[n := true]));
      return 0;
    }

    /** sys_sem_wait */
    method SemWait(n: int) returns (r: int)
      requires Valid()
      modifies this`view, this`current, this`left4current, task, sem, queues`lists, queues`queued, queues.pool
      ensures Valid() && (view, r) == Wait(old(view), n)
    {
      hide Inv, Threaded, Remove, Nowhere;
      WaitInv(view, n);
      HeadFirst(view);
      if task[current].pid == 0 { return -EPERM; }
      if n < 0 || n >= sem.Length || !sem[n].init { return -EINVAL; }
      if sem[n].count <= 0 {
        hide InRange;
        Unlink(current, RUNQUEUE);
        Enqueue(current, SEMAPHORES + n);
        SwitchToFirst();
      } else {
        SetSem(n, sem[n].(count := sem[n].count - 1));
      }
      return 0;
    }

    /** The first waiter of semaphore n becomes runnable, with a value to return. */
    method WakeFirst(n: int, v: int)
      requires Represents() && 0 <= n < |view.sems| && view.sems[n].waiters != []
      modifies this`view, task, queues`lists, queues`queued, queues.pool
      ensures Represents()
      ensures var k := old(view);
              var w := k.sems[n].waiters[0];
              && 0 <= w < |k.tasks|
              && view == k.(sems := k.sems[n := k.sems[n].(waiters := k.sems[n].waiters[1..])],
                            tasks := k.tasks[w := k.tasks[w].(eax := v)], runq := k.runq + [w])
    {
      hide Threaded, Nowhere;
      var blocked := FirstOf(SEMAPHORES + n);
      Unlink(blocked, SEMAPHORES + n);
      SameNowhere(view, view.(tasks := view.tasks[blocked := view.tasks[blocked].(eax := v)]), blocked);
      SetTask(blocked, task[blocked].(eax := v));
      Enqueue(blocked, RUNQUEUE);
    }

    /** sys_sem_signal */
    method SemSignal(n: int) returns (r: int)
      requires Valid()
      modifies this`view, task, sem, queues`lists, queues`queued, queues.pool
      ensures Valid() && (view, r) == Signal(old(view), n)
    {
      hide Inv, Threaded;
      SignalInv(view, n);
      HeadFirst(view);
      if n < 0 || n >= sem.Length || !sem[n].init { return -EINVAL; }
      var nobody := IsEmpty(SEMAPHORES + n);
      if !nobody {
        WakeFirst(n, 0);
      } else {
        SetSem(n, sem[n].(count := sem[n].count + 1));
      }
      return 0;
    }

    /** list_empty of a wait list. */
    method NobodyWaitsFor(n: int) returns (nobody: bool)
      requires Represents() && 0 <= n < |view.sems|
      ensures nobody <==> view.sems[n].waiters == []
    {
      hide Tables, Threaded;
      nobody := IsEmpty(SEMAPHORES + n);
    }

    /** The loop of sys_sem_destroy: wake the waiters one by one. */
    method DrainWaiters(n: int)
      requires Represents() && InRange(view) && 0 <= n < |view.sems|
      modifies this`view, task, queues`lists, queues`queued, queues.pool
      ensures Represents() && view == Drain(old(view), n)
    {
      hide Represents, InRange, Drained, Drain;
      ghost var k := view;
      ghost var done := 0;
      NothingDrained(k, n);
      var nobody := NobodyWaitsFor(n);
      while !nobody
        invariant Represents() && 0 <= done <= |k.sems[n].waiters| && view == Drained(k, n, done) && n < |view.sems|
        invariant nobody <==> done == |k.sems[n].waiters|
        decreases |k.sems[n].waiters| - done
      {
        DrainedNext(k, n, done);
        WakeFirst(n, -1);
        done := done + 1;
        DrainedLeft(k, n, done);
        nobody := NobodyWaitsFor(n);
      }
      AllDrained(k, n);
    }

    /** sys_sem_destroy */
    method SemDestroy(n: int) returns (r: int)
      requires Valid()
      modifies this`view, task, sem, queues`lists, queues`queued, queues.pool
      ensures Valid() && (view, r) == Destroy(old(view), n)
    {
      hide Inv, Threaded;
      DestroyInv(view, n);
      HeadFirst(view);
      if n < 0 || n >= sem.Length { return -EINVAL; }
      if !sem[n].init { return -EINVAL; }
      if !task[current].owned[n] { return -EPERM; }
      DrainWaiters(n);
      SetSem(n, sem[n].(init := false));
      SetTask(current, task[current].(owned := task[current].owned[n := false]));
      return 0;
    }

    /** The first loop of sys_exit. */
    method DestroyMine()
      requires Valid()
      modifies this`view, task, sem, queues`lists, queues`queued, queues.pool
      ensures Valid() && view == DestroyOwned(old(view), |old(view).sems|)
    {
      hide Inv, Threaded, Destroy;
      ghost var k := view;
      HeadFirst(k);
      for i := 0 to sem.Length
        invariant Valid() && view == DestroyOwned(k, i)
      {
        if task[current].owned[i] {
          var r := SemDestroy(i);
        }
      }
    }

    /** sys_exit; the invariant survives exactly when it leaves two tasks to run. */
    method Exit()
      requires Valid()
      modifies this`view, this`current, this`left4current, task, sem, queues`lists, queues`queued, queues.pool
      ensures Represents() && view == ExitTask(old(view))
      ensures Inv(view) <==> !Strands(old(view))
    {
      hide Inv, Threaded, DestroyOwned, Remove, Nowhere, SchedSpec.Schedule, Strands;
      ghost var k := view;
      ExitInvIff(k);
      HeadFirst(k);
      if task[current].pid != 0 {
        DestroyMine();
        ghost var d := view;
        OthersRemain(d, k);
        HeadFirst(d);
        SetTask(current, task[current].(pid := -1));
        Unlink(current, RUNQUEUE);
        SetTime(0);
        assert view == d.(tasks := d.tasks[d.cur := Me(d).(pid := -1)], runq := Remove(d.runq, d.cur), left := 0);
        Schedule();
      }
    }

    /** sys_read_keyboard when it has to block the caller. */
    method KbdBlock(size: int) returns (r: int)
      requires Valid()
      modifies this`view, this`current, this`left4current, task, queues`lists, queues`queued, queues.pool
      ensures Valid() && (view, r) == BlockOnKbd(old(view), size)
    {
      hide Inv, Threaded, Remove, Nowhere;
      KbdBlockInv(view, size);
      HeadFirst(view);
      if task[current].pid != 0 {
        hide InRange;
        Unlink(current, RUNQUEUE);
        Enqueue(current, KEYBOARD);
        SetTask(current, task[current].(eax := size));
        SwitchToFirst();
      }
      return -EPERM;
    }

    /** unblock_and_enqueque of the first reader, from keyboard_routine. */
    method KbdWake()
      requires Valid()
      modifies this`view, queues`lists, queues`queued, queues.pool
      ensures Valid() && view == WakeKbd(old(view))
    {
      hide Inv, Threaded, Tables, Nowhere;
      KbdWakeInv(view);
      HeadFirst(view);
      var nobody := IsEmpty(KEYBOARD);
      if !nobody {
        var reader := FirstOf(KEYBOARD);
        Unlink(reader, KEYBOARD);
        Enqueue(reader, RUNQUEUE);
      }
    }
  }

  /** The head of the run queue is the running task; a task other than task 0 is not alone in the queue. */
  lemma HeadFirst(k: Kernel)
    requires Inv(k)
    ensures InRange(k) && k.runq != [] && k.cur == k.runq[0] && k.cur in k.runq && 0 <= k.cur < |k.tasks|
    ensures Me(k).pid != 0 ==> Remove(k.runq, k.cur) == k.runq[1..] && k.runq[1..] != []
  {
    hide QueuesOk, SemsOk, TasksOk, Remove;
    HeadOnly(k);
    assert k.runq == [k.cur] + k.runq[1..];
  }

  lemma NobodyWaits(k: Kernel, n: nat)
    requires Inv(k) && n < |k.sems| && !k.sems[n].init
    ensures k.sems[n].waiters == []
  {
    hide QueuesOk;
  }

  lemma SameNowhere(k: Kernel, k': Kernel, t: int)
    requires Nowhere(k, t) && k'.runq == k.runq && k'.kbdq == k.kbdq && k'.sems == k.sems
    ensures Nowhere(k', t)
  {
  }

  /** The loop of sys_sem_destroy after `done` rounds. */
  ghost function Drained(k: Kernel, n: int, done: nat): Kernel
    requires 0 <= n < |k.sems| && done <= |k.sems[n].waiters|
  {
    var ws := k.sems[n].waiters;
    k.(sems := k.sems[n := k.sems[n].(waiters := ws[done..])], tasks := Returned(k.tasks, ws[..done], -1),
       runq := k.runq + ws[..done])
  }

  lemma NothingDrained(k: Kernel, n: int)
    requires 0 <= n < |k.sems|
    ensures Drained(k, n, 0) == k
  {
    assert Returned(k.tasks, k.sems[n].waiters[..0], -1) == k.tasks;
    assert k.sems[n].waiters[0..] == k.sems[n].waiters && k.runq + k.sems[n].waiters[..0] == k.runq;
    assert k.sems[n := k.sems[n]] == k.sems;
  }

  lemma DrainedLeft(k: Kernel, n: int, done: nat)
    requires 0 <= n < |k.sems| && done <= |k.sems[n].waiters|
    ensures |Drained(k, n, done).sems| == |k.sems|
    ensures Drained(k, n, done).sems[n].waiters == [] <==> done == |k.sems[n].waiters|
  {
  }

  lemma AllDrained(k: Kernel, n: int)
    requires InRange(k) && 0 <= n < |k.sems|
    ensures Drained(k, n, |k.sems[n].waiters|) == Drain(k, n)
  {
    var ws := k.sems[n].waiters;
    assert ws[..|ws|] == ws && ws[|ws|..] == [];
  }

  lemma DrainedNext(k: Kernel, n: int, done: nat)
    requires InRange(k) && 0 <= n < |k.sems| && done < |k.sems[n].waiters|
    ensures var d := Drained(k, n, done);
            var w := k.sems[n].waiters[done];
            && 0 <= w < |d.tasks| && d.sems[n].waiters != [] && d.sems[n].waiters[0] == w
            && Drained(k, n, done + 1)
               == d.(sems := d.sems[n := d.sems[n].(waiters := d.sems[n].waiters[1..])],
                     tasks := d.tasks[w := d.tasks[w].(eax := -1)], runq := d.runq + [w])
            && InRange(Drained(k, n, done + 1))
  {
    var ws := k.sems[n].waiters;
    var d := Drained(k, n, done);
    assert ws[..done + 1] == ws[..done] + [ws[done]] && ws[done..][1..] == ws[done + 1..];
    assert Returned(k.tasks, ws[..done + 1], -1) == d.tasks[ws[done] := d.tasks[ws[done]].(eax := -1)];
    assert k.runq + ws[..done + 1] == (k.runq + ws[..done]) + [ws[done]];
  }

  lemma BootTasks(tasks: nat, sems: nat)
    requires tasks > 0
    ensures var k := Boot(tasks, sems);
            |k.tasks| == tasks && k.tasks[0] == Task(0, 60, 60, 0, 1, OwnsNone(sems), 0)
            && forall t :: 1 <= t < tasks ==> k.tasks[t] == Task(-1, 0, 0, 0, 0, OwnsNone(sems), 0)
  {
  }

  /** When a task other than task 0 leaves, task 0 is still queued. */
  lemma OthersRemain(d: Kernel, k: Kernel)
    requires Inv(k) && Me(k).pid != 0 && Inv(d) && d == DestroyOwned(k, |k.sems|)
    ensures Me(d).pid != 0 && Remove(d.runq, d.cur) != []
    ensures forall i :: 0 <= i < |Remove(d.runq, d.cur)| ==> 0 <= Remove(d.runq, d.cur)[i] < |d.tasks|
  {
    hide QueuesOk, SemsOk, DestroyOwned, Remove;
    DestroyOwnedInv(k, |k.sems|);
    HeadOnly(d);
    assert d.runq == [d.cur] + d.runq[1..];
  }
}
