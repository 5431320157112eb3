/**
 kernel-module/syscalls_mon.c: counters of monitored calls, per thread and global, under interleaved calls and
 resets.
*/
module Monitor {

  /** OPEN, CLOSE, MYWRITE, CLONE and LSEEK; row N_CALLS of a thread is its total. */
  const N_CALLS: nat := 5

  datatype Row = Row(calls: int, ok: int, err: int, total: int)

  datatype Thread = Thread(pid: int, rows: seq<Row>)

  datatype Mon = Mon(threads: seq<Thread>, globals: seq<Row>)

  datatype Op =
    | Begin(t: nat, pid: int, call: nat)
    | End(t: nat, call: nat, success: bool, cycles: nat)
    | Reset(t: nat, pid: int)

  const ZERO := Row(0, 0, 0, 0)

  function Add(a: Row, b: Row): Row {
    Row(a.calls + b.calls, a.ok + b.ok, a.err + b.err, a.total + b.total)
  }

  predicate Shape(m: Mon) {
    |m.globals| == N_CALLS && forall t :: 0 <= t < |m.threads| ==> |m.threads[t].rows| == N_CALLS + 1
  }

  predicate InRange(m: Mon, op: Op) {
    op.t < |m.threads| && (op.Reset? || op.call < N_CALLS)
  }

  /** A row added to a call's row, to the thread's total and to the call's global row. */
  function Bump(m: Mon, t: nat, call: nat, d: Row): Mon
    requires Shape(m) && t < |m.threads| && call < N_CALLS
  {
    var rows := m.threads[t].rows;
    Mon(m.threads[t := m.threads[t].(rows := rows[call := Add(rows[call], d)][N_CALLS := Add(rows[N_CALLS], d)])],
        m.globals[call := Add(m.globals[call], d)])
  }

  function Zeroed(rows: seq<Row>): (r: seq<Row>)
    ensures |r| == |rows| && forall i :: 0 <= i < |r| ==> r[i] == ZERO
  {
    seq(|rows|, _ => ZERO)
  }

  function ResetThread(m: Mon, t: nat, pid: int): Mon
    requires t < |m.threads|
  {
    m.(threads := m.threads[t := Thread(pid, Zeroed(m.threads[t].rows))])
  }

  /** The wrappers: counters of another process found in the thread are cleared before the call is counted. */
  function Step(m: Mon, op: Op): Mon
    requires Shape(m) && InRange(m, op)
  {
    match op
    case Begin(t, pid, call) =>
      Bump(if pid != m.threads[t].pid then ResetThread(m, t, pid) else m, t, call, Row(1, 0, 0, 0))
    case End(t, call, success, cycles) =>
      Bump(m, t, call, Row(0, if success then 1 else 0, if success then 0 else 1, cycles))
    case Reset(t, pid) => ResetThread(m, t, pid)
  }

  // ---------------------------------------------------------------- what the counters mean

  /**
   For each thread and call: the calls in flight, how many of them were at the last reset, and whether there
   was one.
  */
  datatype Past = Past(flying: seq<seq<nat>>, atReset: seq<seq<nat>>, reset: seq<bool>)

  predicate PastShape(m: Mon, h: Past) {
    && |h.flying| == |h.atReset| == |h.reset| == |m.threads|
    && forall t :: 0 <= t < |m.threads| ==> |h.flying[t]| == |h.atReset[t]| == N_CALLS
  }

  function AfterReset(h: Past, t: nat): Past
    requires t < |h.flying| && |h.flying| == |h.atReset| == |h.reset|
  {
    h.(atReset := h.atReset[t := h.flying[t]], reset := h.reset[t := true])
  }

  function Flies(h: Past, t: nat, call: nat, n: nat): Past
    requires t < |h.flying| && call < |h.flying[t]|
  {
    var f: seq<nat> := h.flying[t][call := n];
    h.(flying := h.flying[t := f])
  }

  function PastStep(m: Mon, h: Past, op: Op): Past
    requires Shape(m) && InRange(m, op) && PastShape(m, h) && Possible(h, op)
  {
    match op
    case Begin(t, pid, call) =>
      var h1 := if pid != m.threads[t].pid then AfterReset(h, t) else h;
      Flies(h1, t, call, h1.flying[t][call] + 1)
    case End(t, call, _, _) => Flies(h, t, call, h.flying[t][call] - 1)
    case Reset(t, _) => AfterReset(h, t)
  }

  /** Only a call in flight can end. */
  predicate Possible(h: Past, op: Op) {
    op.End? ==> op.t < |h.flying| && op.call < |h.flying[op.t]| && h.flying[op.t][op.call] > 0
  }

  function SumRows(rows: seq<Row>, n: nat): Row
    requires n <= |rows|
  {
    if n == 0 then ZERO else Add(SumRows(rows, n - 1), rows[n - 1])
  }

  function Flying(flying: seq<seq<nat>>, call: nat): nat
    requires forall t :: 0 <= t < |flying| ==> |flying[t]| == N_CALLS
    requires call < N_CALLS
  {
    if flying == [] then 0 else Flying(flying[..|flying| - 1], call) + flying[|flying| - 1][call]
  }

  function Open(r: Row): int {
    r.calls - r.ok - r.err
  }

  predicate ThreadOk(t: Thread, flying: seq<nat>, atReset: seq<nat>)
    requires |t.rows| == N_CALLS + 1 && |flying| == |atReset| == N_CALLS
  {
    && t.rows[N_CALLS] == SumRows(t.rows, N_CALLS)
    && forall c :: 0 <= c < N_CALLS ==> Open(t.rows[c]) + atReset[c] == flying[c]
  }

  /** Every monitored call counted in a global row has returned or is in flight. */
  predicate GlobalsOk(m: Mon, h: Past)
    requires Shape(m) && PastShape(m, h)
  {
    forall c :: 0 <= c < N_CALLS ==> Open(m.globals[c]) == Flying(h.flying, c)
  }

  predicate ThreadsOk(m: Mon, h: Past)
    requires Shape(m) && PastShape(m, h)
  {
    forall t :: 0 <= t < |m.threads| && h.reset[t] ==> ThreadOk(m.threads[t], h.flying[t], h.atReset[t])
  }

  predicate Inv(m: Mon, h: Past) {
    Shape(m) && PastShape(m, h) && GlobalsOk(m, h) && ThreadsOk(m, h)
  }

  lemma {:induction false} FlyingUpdate(flying: seq<seq<nat>>, t: nat, f: seq<nat>, c: nat)
    requires (forall u :: 0 <= u < |flying| ==> |flying[u]| == N_CALLS) && t < |flying| && |f| == N_CALLS && c < N_CALLS
    ensures Flying(flying[t := f], c) == Flying(flying, c) - flying[t][c] + f[c]
  {
    var n := |flying| - 1;
    if t < n {
      FlyingUpdate(flying[..n], t, f, c);
      assert flying[t := f][..n] == flying[..n][t := f];
    } else {
      assert flying[t := f][..n] == flying[..n];
    }
  }

  lemma {:induction false} SumRowsUpdate(rows: seq<Row>, c: nat, r: Row, n: nat)
    requires c < |rows| && n <= |rows|
    ensures SumRows(rows[c := r], n) ==
            if c < n then Add(SumRows(rows, n),
              Row(r.calls - rows[c].calls, r.ok - rows[c].ok, r.err - rows[c].err, r.total - rows[c].total))
            else SumRows(rows, n)
  {
    if n > 0 {
      SumRowsUpdate(rows, c, r, n - 1);
    }
  }

  lemma {:induction false} SumZero(rows: seq<Row>, n: nat)
    requires n <= |rows| && forall i :: 0 <= i < n ==> rows[i] == ZERO
    ensures SumRows(rows, n) == ZERO
  {
    if n > 0 {
      SumZero(rows, n - 1);
    }
  }

  lemma ResetInv(m: Mon, h: Past, t: nat, pid: int)
    requires Inv(m, h) && t < |m.threads|
    ensures Inv(ResetThread(m, t, pid), AfterReset(h, t))
  {
    hide Flying, Open;
    FreshThread(pid, Zeroed(m.threads[t].rows), h.flying[t]);
    hide ThreadOk, Zeroed;
    var m', h' := ResetThread(m, t, pid), AfterReset(h, t);
    forall u | 0 <= u < |m'.threads| && h'.reset[u] ensures ThreadOk(m'.threads[u], h'.flying[u], h'.atReset[u]) {
      if u != t {
        assert m'.threads[u] == m.threads[u] && h'.atReset[u] == h.atReset[u];
      }
    }
  }

  lemma FreshThread(pid: int, rows: seq<Row>, flying: seq<nat>)
    requires |flying| == N_CALLS && |rows| == N_CALLS + 1 && forall i :: 0 <= i < |rows| ==> rows[i] == ZERO
    ensures ThreadOk(Thread(pid, rows), flying, flying)
  {
    SumZero(rows, N_CALLS);
  }

  /** Counting d in three rows while the calls in flight change by as much as d is open. */
  lemma BumpInv(m: Mon, h: Past, t: nat, call: nat, d: Row, n: nat)
    requires Inv(m, h) && t < |m.threads| && call < N_CALLS && n == h.flying[t][call] + Open(d)
    ensures Inv(Bump(m, t, call, d), Flies(h, t, call, n))
  {
    var m', h' := Bump(m, t, call, d), Flies(h, t, call, n);
    forall c | 0 <= c < N_CALLS ensures Open(m'.globals[c]) == Flying(h'.flying, c) {
      FlyingUpdate(h.flying, t, h'.flying[t], c);
    }
    if h.reset[t] {
      BumpThread(m.threads[t], h.flying[t], h.atReset[t], call, d, n);
    }
    hide Flying, ThreadOk;
    forall u | 0 <= u < |m'.threads| && h'.reset[u] ensures ThreadOk(m'.threads[u], h'.flying[u], h'.atReset[u]) {
      if u != t {
        assert m'.threads[u] == m.threads[u] && h'.flying[u] == h.flying[u];
      }
    }
  }

  lemma BumpThread(th: Thread, flying: seq<nat>, atReset: seq<nat>, call: nat, d: Row, n: nat)
    requires |th.rows| == N_CALLS + 1 && |flying| == |atReset| == N_CALLS && call < N_CALLS
    requires ThreadOk(th, flying, atReset) && n == flying[call] + Open(d)
    ensures var rows := th.rows[call := Add(th.rows[call], d)][N_CALLS := Add(th.rows[N_CALLS], d)];
            ThreadOk(th.(rows := rows), flying[call := n], atReset)
  {
    var rows1 := th.rows[call := Add(th.rows[call], d)];
    SumRowsUpdate(th.rows, call, Add(th.rows[call], d), N_CALLS);
    SumRowsUpdate(rows1, N_CALLS, Add(th.rows[N_CALLS], d), N_CALLS);
  }

  lemma BeginInv(m: Mon, h: Past, t: nat, pid: int, call: nat)
    requires Inv(m, h) && t < |m.threads| && call < N_CALLS
    ensures Inv(Step(m, Begin(t, pid, call)), PastStep(m, h, Begin(t, pid, call)))
  {
    hide GlobalsOk, ThreadsOk, Zeroed, Bump, Flies;
    if pid != m.threads[t].pid {
      ResetInv(m, h, t, pid);
      BumpInv(ResetThread(m, t, pid), AfterReset(h, t), t, call, Row(1, 0, 0, 0), h.flying[t][call] + 1);
    } else {
      BumpInv(m, h, t, call, Row(1, 0, 0, 0), h.flying[t][call] + 1);
    }
  }

  lemma EndInv(m: Mon, h: Past, t: nat, call: nat, success: bool, cycles: nat)
    requires Inv(m, h) && t < |m.threads| && call < N_CALLS && h.flying[t][call] > 0
    ensures Inv(Step(m, End(t, call, success, cycles)), PastStep(m, h, End(t, call, success, cycles)))
  {
    hide GlobalsOk, ThreadsOk, Zeroed, Bump, Flies;
    BumpInv(m, h, t, call, Row(0, if success then 1 else 0, if success then 0 else 1, cycles), h.flying[t][call] - 1);
  }

  lemma StepInv(m: Mon, h: Past, op: Op)
    requires Inv(m, h) && InRange(m, op) && Possible(h, op)
    ensures Inv(Step(m, op), PastStep(m, h, op))
  {
    hide GlobalsOk, ThreadsOk, Zeroed, Bump, Flies;
    match op
    case Begin(t, pid, call) => BeginInv(m, h, t, pid, call);
    case End(t, call, success, cycles) => EndInv(m, h, t, call, success, cycles);
    case Reset(t, pid) => ResetInv(m, h, t, pid);
  }

  /** The account when the module is loaded: no call was seen yet, and no thread's counters were reset. */
  function Unseen(threads: nat): (h: Past)
    ensures |h.flying| == |h.atReset| == |h.reset| == threads
    ensures forall t :: 0 <= t < threads ==> h.flying[t] == NoCalls() && h.atReset[t] == NoCalls() && !h.reset[t]
  {
    Past(seq(threads, _ => NoCalls()), seq(threads, _ => NoCalls()), seq(threads, _ => false))
  }

  function NoCalls(): (f: seq<nat>)
    ensures |f| == N_CALLS && forall c :: 0 <= c < N_CALLS ==> f[c] == 0
  {
    [0, 0, 0, 0, 0]
  }

  lemma {:induction false} NothingFlies(flying: seq<seq<nat>>, call: nat)
    requires call < N_CALLS && forall t :: 0 <= t < |flying| ==> |flying[t]| == N_CALLS && flying[t][call] == 0
    ensures Flying(flying, call) == 0
  {
    if flying != [] {
      NothingFlies(flying[..|flying| - 1], call);
    }
  }

  /**
   With global rows of zeros the account is right whatever the threads' memory holds: their rows are not
   trusted yet.
  */
  lemma LoadInv(m: Mon)
    requires Shape(m) && forall c :: 0 <= c < N_CALLS ==> m.globals[c] == ZERO
    ensures Inv(m, Unseen(|m.threads|))
  {
    var h := Unseen(|m.threads|);
    hide Unseen, NoCalls;
    forall c | 0 <= c < N_CALLS ensures Flying(h.flying, c) == 0 {
      NothingFlies(h.flying, c);
    }
    hide Flying;
  }

  // ---------------------------------------------------------------- runs

  predicate AllPossible(m: Mon, h: Past, ops: seq<Op>)
    decreases |ops|
  {
    ops != [] ==>
      && Shape(m) && InRange(m, ops[0]) && PastShape(m, h) && Possible(h, ops[0])
      && AllPossible(Step(m, ops[0]), PastStep(m, h, ops[0]), ops[1..])
  }

  function Run(m: Mon, h: Past, ops: seq<Op>): (Mon, Past)
    requires AllPossible(m, h, ops)
    decreases |ops|
  {
    if ops == [] then (m, h) else Run(Step(m, ops[0]), PastStep(m, h, ops[0]), ops[1..])
  }

  /** The accounting holds after every interleaving of begins, ends and resets. */
  lemma {:induction false} RunInv(m: Mon, h: Past, ops: seq<Op>)
    requires Inv(m, h) && AllPossible(m, h, ops)
    ensures Inv(Run(m, h, ops).0, Run(m, h, ops).1)
    decreases |ops|
  {
    if ops != [] {
      StepInv(m, h, ops[0]);
      hide Inv;
      RunInv(Step(m, ops[0]), PastStep(m, h, ops[0]), ops[1..]);
    }
  }

  // ---------------------------------------------------------------- the code

  class Counters {
    const threads: array<Thread>
    const globals: array<Row>

    ghost function View(): Mon
      reads threads, globals
    {
      Mon(threads[..], globals[..])
    }

    /** The module is loaded into a system of threads whose stacks hold whatever they hold. */
    constructor (found: seq<Thread>)
      requires forall t :: 0 <= t < |found| ==> |found[t].rows| == N_CALLS + 1
      ensures fresh(threads) && fresh(globals) && threads[..] == found && globals.Length == N_CALLS
      ensures forall c :: 0 <= c < N_CALLS ==> globals[c] == ZERO
      ensures Inv(View(), Unseen(|found|))
    {
      threads := new Thread[|found|](i requires 0 <= i < |found| => found[i]);
      globals := new Row[N_CALLS](_ => ZERO);
      new;
      LoadInv(View());
      assert threads[..] == found;
    }

    /** reset_stats */
    method ResetStats(t: nat, pid: int)
      requires Shape(View()) && t < threads.Length
      modifies threads
      ensures View() == ResetThread(old(View()), t, pid)
      ensures threads[t].pid == pid && forall i :: 0 <= i <= N_CALLS ==> threads[t].rows[i] == ZERO
    {
      ghost var m := View();
      threads[t] := threads[t].(pid := pid);
      for i := 0 to N_CALLS + 1
        invariant threads[t].pid == pid && |threads[t].rows| == N_CALLS + 1
        invariant forall k :: 0 <= k < i ==> threads[t].rows[k] == ZERO
        invariant threads[..] == m.threads[t := threads[t]]
      {
        threads[t] := threads[t].(rows := threads[t].rows[i := ZERO]);
      }
      assert threads[t].rows == Zeroed(m.threads[t].rows);
    }

    method Count(t: nat, call: nat, d: Row)
      requires Shape(View()) && t < threads.Length && call < N_CALLS
      modifies threads, globals
      ensures View() == Bump(old(View()), t, call, d)
    {
      var rows := threads[t].rows;
      globals[call] := Add(globals[call], d);
      rows := rows[call := Add(rows[call], d)];
      rows := rows[N_CALLS := Add(rows[N_CALLS], d)];
      threads[t] := threads[t].(rows := rows);
    }

    /** The part of a wrapper before the original call. */
    method BeginCall(t: nat, pid: int, call: nat, ghost h: Past)
      requires Inv(View(), h) && t < threads.Length && call < N_CALLS
      modifies threads, globals
      ensures View() == Step(old(View()), Begin(t, pid, call))
              && Inv(View(), PastStep(old(View()), h, Begin(t, pid, call)))
    {
      StepInv(View(), h, Begin(t, pid, call));
      if pid != threads[t].pid {
        ResetStats(t, pid);
      }
      Count(t, call, Row(1, 0, 0, 0));
    }

    /** The part after it. */
    method EndCall(t: nat, call: nat, result: int, cycles: nat, ghost h: Past)
      requires Inv(View(), h) && t < threads.Length && call < N_CALLS && Possible(h, End(t, call, result >= 0, cycles))
      modifies threads, globals
      ensures View() == Step(old(View()), End(t, call, result >= 0, cycles))
      ensures Inv(View(), PastStep(old(View()), h, End(t, call, result >= 0, cycles)))
      ensures var r, ok := old(threads[t].rows[call]), if result >= 0 then 1 else 0;
              threads[t].rows[call] == Row(r.calls, r.ok + ok, r.err + 1 - ok, r.total + cycles)
    {
      StepInv(View(), h, End(t, call, result >= 0, cycles));
      if result >= 0 {
        Count(t, call, Row(0, 1, 0, cycles));
      } else {
        Count(t, call, Row(0, 0, 1, cycles));
      }
    }
  }
}
