/**
 Tasks, the run queue, the semaphores' wait lists and the keyboard queue as one state machine
 (zeos/sched.c, the process calls of zeos/sys.c, zeos/interrupt.c). Each system call, clock tick and
 wake-up is one step, because the kernel runs with interrupts off.
 */
module SchedSpec {

  const EPERM: int := 1
  const EAGAIN: int := 11
  const EBUSY: int := 16
  const EINVAL: int := 22

  /** `eax` is the saved return value of the call in which the task stopped; `pid < 0` marks a free slot. */
  datatype Task = Task(pid: int, quantum: int, remaining: int, cpuTics: int, transitions: int, owned: seq<bool>,
                       eax: int)

  datatype Sem = Sem(count: nat, init: bool, waiters: seq<int>)

  datatype Kernel = Kernel(tasks: seq<Task>, sems: seq<Sem>, runq: seq<int>, kbdq: seq<int>, cur: int, left: int,
                           nextPid: int)

  datatype Op =
    | Tick
    | Fork(frames: bool)
    | Nice(quantum: int)
    | SemInit(n: int, value: nat)
    | SemWait(n: int)
    | SemSignal(n: int)
    | SemDestroy(n: int)
    | Exit
    | KbdBlock(size: int)
    | KbdWake

  predicate InRange(k: Kernel) {
    && 0 <= k.cur < |k.tasks|
    && (forall i :: 0 <= i < |k.runq| ==> 0 <= k.runq[i] < |k.tasks|)
    && (forall i :: 0 <= i < |k.kbdq| ==> 0 <= k.kbdq[i] < |k.tasks|)
    && (forall n, i :: 0 <= n < |k.sems| && 0 <= i < |k.sems[n].waiters| ==> 0 <= k.sems[n].waiters[i] < |k.tasks|)
    && (forall t :: 0 <= t < |k.tasks| ==> |k.tasks[t].owned| == |k.sems|)
  }

  function Me(k: Kernel): (me: Task)
    requires InRange(k)
    ensures 0 <= k.cur < |k.tasks| && me == k.tasks[k.cur] && |me.owned| == |k.sems|
  {
    k.tasks[k.cur]
  }

  /** list_del of an entry of q. */
  function Remove(q: seq<int>, x: int): (r: seq<int>)
    ensures forall i :: 0 <= i < |r| ==> r[i] in q
  {
    if q == [] then []
    else if q[0] == x then q[1..]
    else [q[0]] + Remove(q[1..], x)
  }

  /** task_switch: t runs, with a fresh quantum. */
  function Switch(k: Kernel, t: int): Kernel
    requires 0 <= t < |k.tasks|
  {
    var task := k.tasks[t];
    k.(tasks := k.tasks[t := task.(transitions := task.transitions + 1, remaining := task.quantum)],
       left := task.quantum, cur := t)
  }

  /** schedule: when the quantum is used up, refresh it if nobody else can run, or go to the next task. */
  function Schedule(k: Kernel): Kernel
    requires InRange(k)
  {
    if k.left > 0 then k
    else if |k.runq| <= 1 then k.(left := Me(k).quantum, tasks := k.tasks[k.cur := Me(k).(remaining := Me(k).quantum)])
    else
      var q := if Me(k).pid == -1 then k.runq else Remove(k.runq, k.cur) + [k.cur];
      if q == [] then k else Switch(k.(runq := q), q[0])
  }

  /** The counters after a tick, before the scheduler looks at them. */
  function Charged(k: Kernel): Kernel
    requires InRange(k)
  {
    var me := Me(k);
    k.(left := k.left - 1, tasks := k.tasks[k.cur := me.(cpuTics := me.cpuTics + 1, remaining := me.remaining - 1)])
  }

  function ClockTick(k: Kernel): Kernel
    requires InRange(k)
  {
    Schedule(Charged(k))
  }

  /** The running task leaves the run queue, already blocked elsewhere, and the next one runs. */
  function Yield(k: Kernel): Kernel
    requires InRange(k)
  {
    var q := Remove(k.runq, k.cur);
    if q == [] then k.(runq := q) else Switch(k.(runq := q), q[0])
  }

  function FreeTask(tasks: seq<Task>): (t: nat)
    ensures t <= |tasks|
    ensures forall i :: 0 <= i < t ==> tasks[i].pid >= 0
    ensures t < |tasks| ==> tasks[t].pid < 0
  {
    if tasks == [] then 0
    else if tasks[0].pid < 0 then 0
    else
      assert forall j :: 1 <= j < |tasks| ==> tasks[j] == tasks[1..][j - 1];
      1 + FreeTask(tasks[1..])
  }

  function OwnsNone(sems: nat): (owned: seq<bool>)
    ensures |owned| == sems && forall n :: 0 <= n < sems ==> !owned[n]
  {
    seq(sems, _ => false)
  }

  function ForkTask(k: Kernel, frames: bool): (Kernel, int)
    requires InRange(k)
  {
    var t := FreeTask(k.tasks);
    if t == |k.tasks| || !frames then (k, -EAGAIN)
    else
      var me := Me(k);
      var child := Task(k.nextPid, me.quantum, me.quantum, 0, 0, OwnsNone(|k.sems|), 0);
      (k.(tasks := k.tasks[t := child], runq := k.runq + [t], nextPid := k.nextPid + 1), k.nextPid)
  }

  function NiceTask(k: Kernel, quantum: int): (Kernel, int)
    requires InRange(k)
  {
    if quantum <= 0 then (k, -EINVAL)
    else (k.(tasks := k.tasks[k.cur := Me(k).(quantum := quantum)]), Me(k).quantum)
  }

  predicate ValidSem(k: Kernel, n: int) {
    0 <= n < |k.sems| && k.sems[n].init
  }

  function Init(k: Kernel, n: int, value: nat): (Kernel, int)
    requires InRange(k)
  {
    if n < 0 || n >= |k.sems| then (k, -EINVAL)
    else if k.sems[n].init then (k, -EBUSY)
    else (k.(sems := k.sems[n := Sem(value, true, [])],
             tasks := k.tasks[k.cur := Me(k).(owned := Me(k).owned[n := true])]), 0)
  }

  function Wait(k: Kernel, n: int): (Kernel, int)
    requires InRange(k)
  {
    if Me(k).pid == 0 then (k, -EPERM)
    else if !ValidSem(k, n) then (k, -EINVAL)
    else
      var s := k.sems[n];
      if s.count == 0 then (Yield(k.(sems := k.sems[n := s.(waiters := s.waiters + [k.cur])])), 0)
      else (k.(sems := k.sems[n := s.(count := s.count - 1)]), 0)
  }

  function Signal(k: Kernel, n: int): (Kernel, int)
    requires InRange(k)
  {
    if !ValidSem(k, n) then (k, -EINVAL)
    else
      var s := k.sems[n];
      if s.waiters == [] then (k.(sems := k.sems[n := s.(count := s.count + 1)]), 0)
      else
        var w := s.waiters[0];
        (k.(sems := k.sems[n := s.(waiters := s.waiters[1..])],
            tasks := k.tasks[w := k.tasks[w].(eax := 0)],
            runq := k.runq + [w]), 0)
  }

  /** The tasks with `v` as the saved return value of those in ws. */
  function Returned(tasks: seq<Task>, ws: seq<int>, v: int): (r: seq<Task>)
    ensures |r| == |tasks|
    ensures forall t :: 0 <= t < |tasks| ==> r[t] == if t in ws then tasks[t].(eax := v) else tasks[t]
  {
    seq(|tasks|, t requires 0 <= t < |tasks| => if t in ws then tasks[t].(eax := v) else tasks[t])
  }

  /** All waiters go to the end of the run queue, in order, and will see -1. */
  function Drain(k: Kernel, n: int): (d: Kernel)
    requires InRange(k) && 0 <= n < |k.sems|
    ensures InRange(d) && |d.tasks| == |k.tasks| && |d.sems| == |k.sems| && d.cur == k.cur
  {
    var ws := k.sems[n].waiters;
    k.(sems := k.sems[n := k.sems[n].(waiters := [])], tasks := Returned(k.tasks, ws, -1), runq := k.runq + ws)
  }

  function Destroy(k: Kernel, n: int): (r: (Kernel, int))
    requires InRange(k)
    ensures InRange(r.0) && |r.0.tasks| == |k.tasks| && |r.0.sems| == |k.sems| && r.0.cur == k.cur
  {
    if !ValidSem(k, n) then (k, -EINVAL)
    else if !Me(k).owned[n] then (k, -EPERM)
    else
      var d := Drain(k, n);
      (d.(sems := d.sems[n := d.sems[n].(init := false)],
          tasks := d.tasks[k.cur := d.tasks[k.cur].(owned := d.tasks[k.cur].owned[n := false])]), 0)
  }

  /** sys_exit destroys the semaphores below n that the running task owns. */
  function DestroyOwned(k: Kernel, n: nat): (k': Kernel)
    requires InRange(k) && n <= |k.sems|
    ensures InRange(k') && |k'.tasks| == |k.tasks| && |k'.sems| == |k.sems| && k'.cur == k.cur
  {
    if n == 0 then k
    else
      var d := DestroyOwned(k, n - 1);
      if Me(d).owned[n - 1] then Destroy(d, n - 1).0 else d
  }

  /** The rest of sys_exit. */
  function Leave(k: Kernel): Kernel
    requires InRange(k)
  {
    Schedule(k.(tasks := k.tasks[k.cur := Me(k).(pid := -1)], runq := Remove(k.runq, k.cur), left := 0))
  }

  function ExitTask(k: Kernel): Kernel
    requires InRange(k)
  {
    if Me(k).pid == 0 then k else Leave(DestroyOwned(k, |k.sems|))
  }

  /** sys_read_keyboard when it must block: the call will return the size. */
  function BlockOnKbd(k: Kernel, size: int): (Kernel, int)
    requires InRange(k)
  {
    if Me(k).pid == 0 then (k, -EPERM)
    else (Yield(k.(kbdq := k.kbdq + [k.cur], tasks := k.tasks[k.cur := Me(k).(eax := size)])), -EPERM)
  }

  /** keyboard_routine when the first reader has all its characters. */
  function WakeKbd(k: Kernel): Kernel
    requires InRange(k)
  {
    if k.kbdq == [] then k else k.(kbdq := k.kbdq[1..], runq := k.runq + [k.kbdq[0]])
  }

  function Step(k: Kernel, op: Op): (Kernel, int)
    requires InRange(k)
  {
    match op
    case Tick => (ClockTick(k), 0)
    case Fork(frames) => ForkTask(k, frames)
    case Nice(quantum) => NiceTask(k, quantum)
    case SemInit(n, value) => Init(k, n, value)
    case SemWait(n) => Wait(k, n)
    case SemSignal(n) => Signal(k, n)
    case SemDestroy(n) => Destroy(k, n)
    case Exit => (ExitTask(k), 0)
    case KbdBlock(size) => BlockOnKbd(k, size)
    case KbdWake => (WakeKbd(k), 0)
  }
}
