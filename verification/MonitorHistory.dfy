/**
 What the counters of the monitor are, computed from the calls and resets alone: each row counts the calls begun, ended
 with success and ended with failure since the last reset, and their cycles.
 */
module MonitorHistory {
  import opened Monitor

  /** The calls that a row counts: one call of a thread, all calls of a thread, or one call of every thread. */
  datatype Scope = One(t: nat, call: nat) | All(t: nat) | Global(call: nat)

  predicate Concerns(s: Scope, op: Op) {
    && !op.Reset?
    && match s
       case One(t, call) => op.t == t && op.call == call
       case All(t) => op.t == t
       case Global(call) => op.call == call
  }

  function Begins(op: Op, s: Scope): nat {
    if op.Begin? && Concerns(s, op) then 1 else 0
  }

  function Ends(op: Op, s: Scope, success: bool): nat {
    if op.End? && op.success == success && Concerns(s, op) then 1 else 0
  }

  function Takes(op: Op, s: Scope): nat {
    if op.End? && Concerns(s, op) then op.cycles else 0
  }

  function Begun(ops: seq<Op>, s: Scope): nat {
    if ops == [] then 0 else Begins(ops[0], s) + Begun(ops[1..], s)
  }

  /** The calls that ended with the given outcome. */
  function Ended(ops: seq<Op>, s: Scope, success: bool): nat {
    if ops == [] then 0 else Ends(ops[0], s, success) + Ended(ops[1..], s, success)
  }

  function Cycles(ops: seq<Op>, s: Scope): nat {
    if ops == [] then 0 else Takes(ops[0], s) + Cycles(ops[1..], s)
  }

  /** The process that thread t counts for after an operation, and whether that starts its counters afresh. */
  function PidAfter(pid: int, op: Op, t: nat): int {
    if op.t == t && !op.End? then op.pid else pid
  }

  predicate Restarts(pid: int, op: Op, t: nat) {
    op.t == t && (op.Reset? || (op.Begin? && op.pid != pid))
  }

  /** The pid of the last reset or begin of thread t, or the one it had. */
  function LastPid(pid: int, ops: seq<Op>, t: nat): int
    decreases |ops|
  {
    if ops == [] then pid else LastPid(PidAfter(pid, ops[0], t), ops[1..], t)
  }

  predicate WasReset(pid: int, ops: seq<Op>, t: nat)
    decreases |ops|
  {
    ops != [] && (Restarts(pid, ops[0], t) || WasReset(PidAfter(pid, ops[0], t), ops[1..], t))
  }

  /** What thread t counts: all, or what came after its last reset, with the call of another process that caused it. */
  function Since(pid: int, ops: seq<Op>, t: nat): seq<Op>
    decreases |ops|
  {
    if ops == [] then []
    else if WasReset(PidAfter(pid, ops[0], t), ops[1..], t) then Since(PidAfter(pid, ops[0], t), ops[1..], t)
    else if ops[0].Reset? && ops[0].t == t then ops[1..]
    else ops
  }

  predicate Counts(r: Row, before: Row, ops: seq<Op>, s: Scope) {
    && r.calls == before.calls + Begun(ops, s)
    && r.ok == before.ok + Ended(ops, s, true)
    && r.err == before.err + Ended(ops, s, false)
    && r.total == before.total + Cycles(ops, s)
  }

  /** The calls that row i of thread t counts: the last row counts them all. */
  function ScopeOf(t: nat, i: nat): Scope {
    if i == N_CALLS then All(t) else One(t, i)
  }

  // ---------------------------------------------------------------- one step

  predicate Moves(r: Row, before: Row, op: Op, s: Scope) {
    && r.calls == before.calls + Begins(op, s)
    && r.ok == before.ok + Ends(op, s, true)
    && r.err == before.err + Ends(op, s, false)
    && r.total == before.total + Takes(op, s)
  }

  lemma BumpAt(m: Mon, u: nat, call: nat, d: Row, t: nat, i: nat)
    requires Shape(m) && u < |m.threads| && call < N_CALLS && t < |m.threads| && i <= N_CALLS
    ensures var m' := Bump(m, u, call, d);
            && Shape(m') && |m'.threads| == |m.threads| && m'.threads[t].pid == m.threads[t].pid
            && m'.threads[t].rows[i]
               == (if u == t && (i == call || i == N_CALLS) then Add(m.threads[t].rows[i], d) else m.threads[t].rows[i])
            && forall c :: 0 <= c < N_CALLS ==>
                 m'.globals[c] == if c == call then Add(m.globals[c], d) else m.globals[c]
  {
    hide Add;
  }

  lemma ResetAt(m: Mon, u: nat, pid: int, t: nat, i: nat)
    requires Shape(m) && u < |m.threads| && t < |m.threads| && i <= N_CALLS
    ensures var m' := ResetThread(m, u, pid);
            && Shape(m') && |m'.threads| == |m.threads| && m'.globals == m.globals
            && (if u == t then m'.threads[t].pid == pid && m'.threads[t].rows[i] == ZERO
                else m'.threads[t] == m.threads[t])
  {
  }

  /** Thread t and the global rows after an operation, its row i in particular. */
  ghost predicate Stepped(m: Mon, op: Op, m': Mon, t: nat, i: nat)
    requires Shape(m) && t < |m.threads| && i <= N_CALLS
  {
    && Shape(m') && |m'.threads| == |m.threads|
    && m'.threads[t].pid == PidAfter(m.threads[t].pid, op, t)
    && Moves(m'.threads[t].rows[i], if Restarts(m.threads[t].pid, op, t) then ZERO else m.threads[t].rows[i],
             op, ScopeOf(t, i))
    && forall c :: 0 <= c < N_CALLS ==> Moves(m'.globals[c], m.globals[c], op, Global(c))
  }

  lemma BeginCounts(m: Mon, u: nat, pid: int, call: nat, t: nat, i: nat)
    requires Shape(m) && u < |m.threads| && call < N_CALLS && t < |m.threads| && i <= N_CALLS
    ensures var m' := Bump(m, u, call, Row(1, 0, 0, 0));
            && Shape(m') && |m'.threads| == |m.threads| && m'.threads[t].pid == m.threads[t].pid
            && Moves(m'.threads[t].rows[i], m.threads[t].rows[i], Begin(u, pid, call), ScopeOf(t, i))
            && forall c :: 0 <= c < N_CALLS ==> Moves(m'.globals[c], m.globals[c], Begin(u, pid, call), Global(c))
  {
    hide Bump;
    BumpAt(m, u, call, Row(1, 0, 0, 0), t, i);
  }

  lemma BeginMoves(m: Mon, u: nat, pid: int, call: nat, t: nat, i: nat)
    requires Shape(m) && InRange(m, Begin(u, pid, call)) && t < |m.threads| && i <= N_CALLS
    ensures Stepped(m, Begin(u, pid, call), Step(m, Begin(u, pid, call)), t, i)
  {
    hide Bump, ResetThread, Moves, ScopeOf;
    if pid == m.threads[u].pid {
      BeginCounts(m, u, pid, call, t, i);
    } else {
      ResetAt(m, u, pid, t, i);
      BeginCounts(ResetThread(m, u, pid), u, pid, call, t, i);
    }
  }

  lemma EndMoves(m: Mon, u: nat, call: nat, success: bool, cycles: nat, t: nat, i: nat)
    requires Shape(m) && InRange(m, End(u, call, success, cycles)) && t < |m.threads| && i <= N_CALLS
    ensures Stepped(m, End(u, call, success, cycles), Step(m, End(u, call, success, cycles)), t, i)
  {
    hide Bump, ResetThread;
    BumpAt(m, u, call, Row(0, if success then 1 else 0, if success then 0 else 1, cycles), t, i);
  }

  lemma StepMoves(m: Mon, op: Op, t: nat, i: nat)
    requires Shape(m) && InRange(m, op) && t < |m.threads| && i <= N_CALLS
    ensures Stepped(m, op, Step(m, op), t, i)
  {
    hide Bump, ResetThread;
    match op
    case Begin(u, pid, call) => BeginMoves(m, u, pid, call, t, i);
    case End(u, call, success, cycles) => EndMoves(m, u, call, success, cycles, t, i);
    case Reset(u, pid) => ResetAt(m, u, pid, t, i);
  }

  // ---------------------------------------------------------------- runs

  lemma MovesThenCounts(r: Row, r1: Row, r2: Row, ops: seq<Op>, s: Scope)
    requires ops != [] && Moves(r1, r, ops[0], s) && Counts(r2, r1, ops[1..], s)
    ensures Counts(r2, r, ops, s)
    ensures ops[0].Reset? ==> Counts(r2, r, ops[1..], s)
  {
    hide Concerns;
  }

  lemma {:induction false} NeverReset(pid: int, ops: seq<Op>, t: nat)
    requires !WasReset(pid, ops, t)
    ensures Since(pid, ops, t) == ops
  {
  }

  lemma NothingCounts(r: Row, s: Scope)
    ensures Counts(r, r, [], s)
  {
  }

  /**
   After every run, each row of a thread counts exactly what came since the thread's last reset, by a user or by a call
   of another process; without a reset, the whole run is added to what was there.
  */
  lemma {:induction false} RowsAreHistory(m: Mon, h: Past, ops: seq<Op>, t: nat, i: nat)
    requires Shape(m) && AllPossible(m, h, ops) && t < |m.threads| && i <= N_CALLS
    ensures var pid := m.threads[t].pid;
            var m' := Run(m, h, ops).0;
            && |m'.threads| == |m.threads| && Shape(m') && m'.threads[t].pid == LastPid(pid, ops, t)
            && Counts(m'.threads[t].rows[i], if WasReset(pid, ops, t) then ZERO else m.threads[t].rows[i],
                      Since(pid, ops, t), ScopeOf(t, i))
    decreases |ops|
  {
    hide Step, PastStep, Possible, PastShape, Counts, Moves;
    if ops == [] {
      NothingCounts(m.threads[t].rows[i], ScopeOf(t, i));
    } else {
      var pid, m1, m' := m.threads[t].pid, Step(m, ops[0]), Run(m, h, ops).0;
      StepMoves(m, ops[0], t, i);
      RowsAreHistory(m1, PastStep(m, h, ops[0]), ops[1..], t, i);
      if !WasReset(m1.threads[t].pid, ops[1..], t) {
        NeverReset(m1.threads[t].pid, ops[1..], t);
        MovesThenCounts(if Restarts(pid, ops[0], t) then ZERO else m.threads[t].rows[i], m1.threads[t].rows[i],
                        m'.threads[t].rows[i], ops, ScopeOf(t, i));
      }
    }
  }

  /** After every run, each global row counts the whole run. */
  lemma {:induction false} GlobalsAreHistory(m: Mon, h: Past, ops: seq<Op>, c: nat)
    requires Shape(m) && AllPossible(m, h, ops) && c < N_CALLS
    ensures Shape(Run(m, h, ops).0) && Counts(Run(m, h, ops).0.globals[c], m.globals[c], ops, Global(c))
    decreases |ops|
  {
    hide Step, PastStep, Possible, PastShape, Counts, Moves;
    if ops == [] {
      NothingCounts(m.globals[c], Global(c));
    } else {
      StepMoves(m, ops[0], 0, 0);
      var m1 := Step(m, ops[0]);
      GlobalsAreHistory(m1, PastStep(m, h, ops[0]), ops[1..], c);
      MovesThenCounts(m.globals[c], m1.globals[c], Run(m, h, ops).0.globals[c], ops, Global(c));
    }
  }
}
