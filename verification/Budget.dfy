/** How much processor time a task gets between two of its releases. */
module Budgets {
  import opened Tasks
  import opened Scheduling
  import opened Periodic

  /** The states ts of one task through any quanta qs. */
  ghost predicate AnyRun(ts: seq<Tcb>, qs: seq<Quantum>) {
    |ts| == |qs| + 1
    && forall n: nat {:trigger qs[n]} | n < |qs| :: Steps(ts[n], qs[n], ts[n + 1])
  }

  ghost predicate Steps(t: Tcb, q: Quantum, t': Tcb) {
    // named, so that a goal of this predicate is taken whole and not split into its parts
    var steps := Timed(t) && t' == StepTask(t, q);
    steps
  }

  /** The ticks of the quanta from j up to n in which the task was the current one. */
  ghost function Used(qs: seq<Quantum>, j: nat, n: nat): nat
    requires j <= n <= |qs|
  {
    if n == j then 0 else Used(qs, j, n - 1) + Spent(qs[n - 1])
  }

  function Spent(q: Quantum): nat {
    if q.current then q.v else 0
  }

  /** Ready to run, with nothing to wait for. */
  predicate Runnable(t: Tcb) {
    t.taskId > NRK_IDLE_TASK_ID && t.state == READY && t.numPeriods == 1
    && !t.suspendFlag && !t.eventSuspend && !t.nwFlag
  }

  /** A task with so much left of this reserve; a reserve of 0 is none. */
  predicate Left(t: Tcb, reserve: nat, left: int) {
    // named, so that a goal of this predicate is taken whole and not split into its parts
    var hasLeft := Runnable(t) && t.cpuReserve == reserve && (reserve != 0 ==> t.cpuRemaining == left);
    hasLeft
  }

  /** The reserve has run out in this quantum: the task sleeps on until its wakeup, and with that due at once it has
      its whole reserve again. */
  predicate UsedUp(t: Tcb, q: Quantum, t': Tcb) {
    // named, so that a goal of this predicate is taken whole and not split into its parts
    var usedUp :=
      if t.nextWakeup > q.v then
        t'.state == SUSPENDED && t'.cpuRemaining == 0 && t'.nextWakeup == t.nextWakeup - q.v
        && t'.cpuReserve == t.cpuReserve
      else Left(t', t.cpuReserve, t.cpuReserve);
    usedUp
  }

  /** The quantum releases the task: it was suspended, or started to wait in it, and is READY after it. */
  predicate ReleasedBy(t: Tcb, q: Quantum, t': Tcb) {
    t'.state == READY
    && (if q.wait.Periods? then q.current else t.state == SUSPENDED)
  }

  /** A task made READY by the loop over the task table has its whole reserve. */
  lemma TickFillsReserve(t: Tcb, v: nat)
    requires Timed(t) && t.taskId > NRK_IDLE_TASK_ID && t.state == SUSPENDED && Ticked(t, v).state == READY
    ensures Left(Ticked(t, v), t.cpuReserve, t.cpuReserve)
  {}

  lemma TickKeepsOthers(t: Tcb, v: nat)
    requires Timed(t)
    ensures Ticked(t, v).taskId == t.taskId
    ensures t.state != SUSPENDED ==> Ticked(t, v).state == t.state
  {}

  /** Every release gives a task its whole reserve. */
  lemma ReleaseFillsReserve(t: Tcb, q: Quantum, t': Tcb)
    requires Steps(t, q, t') && ReleasedBy(t, q, t') && t'.taskId > NRK_IDLE_TASK_ID
    ensures Left(t', t.cpuReserve, t.cpuReserve)
  {
    hide Ticked, Left;
    var w := if q.wait.Periods? then Waiting(t, q.wait.p) else t;
    var s := if q.current && w.suspendFlag && w.state != FINISHED then Swapped(w) else w;
    var c := if q.current then Charged(s, q.v) else s;
    assert t' == Ticked(c, q.v);
    TickKeepsOthers(c, q.v);
    TickFillsReserve(c, q.v);
  }

  /** So does an activation without offset. */
  lemma ActivationFillsReserve(id: nat, prio: nat, period: nat, reserve: nat)
    requires id > NRK_IDLE_TASK_ID
    ensures Left(Activated(id, prio, period, 0, reserve), reserve, reserve)
  {}

  /** What one quantum takes from it. */
  lemma QuantumTakes(t: Tcb, q: Quantum, t': Tcb, reserve: nat, left: int)
    requires Steps(t, q, t') && Left(t, reserve, left) && q.wait == Running && (reserve != 0 ==> left > 0)
    ensures if reserve == 0 || Spent(q) < left then Left(t', reserve, left - Spent(q)) else UsedUp(t, q, t')
  {}

  lemma StepOf(ts: seq<Tcb>, qs: seq<Quantum>, n: nat)
    requires AnyRun(ts, qs) && n < |qs|
    ensures Steps(ts[n], qs[n], ts[n + 1])
  {
    hide Steps;
    assert qs[n] == qs[n];
  }

  /** From a release on, a task that does not wait is charged exactly the ticks of the quanta in which it is current.
      It is suspended for its reserve in exactly the quantum that brings their sum to the reserve or more. */
  lemma {:induction false} ReserveIsMetered(ts: seq<Tcb>, qs: seq<Quantum>, reserve: nat, j: nat, n: nat)
    requires AnyRun(ts, qs) && j <= n <= |qs| && Left(ts[j], reserve, reserve)
    requires forall m | j <= m < n :: qs[m].wait == Running
    requires reserve == 0 || n == j || Used(qs, j, n - 1) < reserve
    ensures var used := Used(qs, j, n);
            if reserve == 0 || used < reserve then Left(ts[n], reserve, reserve - used)
            else j < n && UsedUp(ts[n - 1], qs[n - 1], ts[n])
    decreases n
  {
    hide Steps, Left, UsedUp;
    if j < n {
      var m := n - 1;
      if j < m { UsedGrows(qs, j, m - 1, m); }
      ReserveIsMetered(ts, qs, reserve, j, m);
      StepOf(ts, qs, m);
      hide AnyRun;
      QuantumTakes(ts[m], qs[m], ts[n], reserve, reserve - Used(qs, j, m));
    }
  }

  lemma {:induction false} UsedGrows(qs: seq<Quantum>, j: nat, m: nat, n: nat)
    requires j <= m <= n <= |qs|
    ensures Used(qs, j, m) <= Used(qs, j, n)
    decreases n
  {
    if m < n { UsedGrows(qs, j, m, n - 1); }
  }

  /** A task with a reserve of 100 ticks and 40 of them left is released, runs for 60, pauses, and runs for 40. */
  lemma HundredTicks() returns (ts: seq<Tcb>, qs: seq<Quantum>)
    ensures AnyRun(ts, qs) && |qs| == 4 && ts[0].cpuReserve == 100 && ts[0].cpuRemaining == 40
    ensures ReleasedBy(ts[0], qs[0], ts[1]) && ts[1].cpuRemaining == 100
    ensures ts[2].cpuRemaining == 40 && ts[3].cpuRemaining == 40 && ts[3].state == READY
    ensures ts[4].cpuRemaining == 0 && ts[4].state == SUSPENDED
  {
    var t := Activated(1, 1, 1000, 20, 100).(cpuRemaining := 40);
    var t1 := t.(state := READY, cpuRemaining := 100, nextWakeup := 1000, nextPeriod := 1000);
    var t2 := t1.(cpuRemaining := 40, nextWakeup := 940, nextPeriod := 940);
    var t3 := t2.(nextWakeup := 910, nextPeriod := 910);
    var t4 := t3.(state := SUSPENDED, cpuRemaining := 0, nextWakeup := 870, nextPeriod := 870);
    qs := [Quantum(20, false, Running), Quantum(60, true, Running), Quantum(30, false, Running),
           Quantum(40, true, Running)];
    ts := [t, t1, t2, t3, t4];
    assert Steps(t, qs[0], t1);
    assert Steps(t1, qs[1], t2) && Steps(t2, qs[2], t3) && Steps(t3, qs[3], t4);
    hide Steps;
    forall n: nat {:trigger qs[n]} | n < |qs| ensures Steps(ts[n], qs[n], ts[n + 1]) {}
  }

  // ----- in the whole kernel -----

  lemma {:induction false} KernelRunIsAnyRun(k: KState, turns: seq<Turn>, waits: seq<Wait>, i: nat,
                           powerDown: bool, sleepWakeup: nat)
    requires KernelRun(k, turns, waits, i, powerDown, sleepWakeup)
    ensures AnyRun(TaskStates(turns, k, i), TaskQuanta(turns, waits, i))
  {
    hide Ok, StepTask, Run, NextWakeAfter;
    var ts, qs := TaskStates(turns, k, i), TaskQuanta(turns, waits, i);
    forall n: nat {:trigger qs[n]} | n < |qs| ensures Steps(ts[n], qs[n], ts[n + 1]) {
      assert TurnAt(k, turns, waits, i, n);
      TurnStepsTask(After(turns, k, n), turns[n].before, turns[n].v, i, waits[n]);
    }
  }

  /** The turn ends before the reserve of the task that runs in it does. */
  lemma {:induction false} TurnFitsReserve(k: KState, turns: seq<Turn>, waits: seq<Wait>, i: nat,
                         powerDown: bool, sleepWakeup: nat, m: nat)
    requires KernelRun(k, turns, waits, i, powerDown, sleepWakeup) && 0 < m < |turns| && i != NRK_IDLE_TASK_ID
    ensures var t, q := TaskStates(turns, k, i)[m], TaskQuanta(turns, waits, i)[m];
            t.cpuReserve != 0 ==> Spent(q) <= t.cpuRemaining
  {
    hide Ok, Run, NextWakeAfter;
    assert TurnAt(k, turns, waits, i, m) && InTime(turns, |k.tcb|, m, powerDown, sleepWakeup);
    NoOversleep(turns[m - 1].before, turns[m - 1].v, powerDown, sleepWakeup);
  }

  lemma {:induction false} ReadyIsTask(k: KState, i: nat)
    requires Ok(k) && i < |k.tcb| && k.tcb[i].state == READY
    ensures k.tcb[i].taskId == i
  {
    assert TaskOk(k.tcb[i], i, k.cur);
  }

  lemma {:induction false} ReleasedTask(k: KState, turns: seq<Turn>, waits: seq<Wait>, i: nat,
                         powerDown: bool, sleepWakeup: nat, j: nat)
    requires KernelRun(k, turns, waits, i, powerDown, sleepWakeup) && i != NRK_IDLE_TASK_ID && j < |turns|
    requires AnyRun(TaskStates(turns, k, i), TaskQuanta(turns, waits, i))
    requires ReleasedBy(TaskStates(turns, k, i)[j], TaskQuanta(turns, waits, i)[j], TaskStates(turns, k, i)[j + 1])
    ensures var t := TaskStates(turns, k, i)[j];
            Left(TaskStates(turns, k, i)[j + 1], t.cpuReserve, t.cpuReserve)
  {
    hide Ok, Run, NextWakeAfter, StepTask;
    var ts, qs := TaskStates(turns, k, i), TaskQuanta(turns, waits, i);
    ReadyIsTask(After(turns, k, j + 1), i);
    assert Steps(ts[j], qs[j], ts[j + 1]);
    ReleaseFillsReserve(ts[j], qs[j], ts[j + 1]);
  }

  lemma {:induction false} NeverOver(ts: seq<Tcb>, qs: seq<Quantum>, reserve: nat, j: nat, n: nat)
    requires AnyRun(ts, qs) && j < n <= |qs| && reserve != 0 && Left(ts[j], reserve, reserve)
    requires forall m | j <= m < n :: qs[m].wait == Running
    requires Used(qs, j, n - 1) < reserve
    requires ts[n - 1].cpuReserve != 0 ==> Spent(qs[n - 1]) <= ts[n - 1].cpuRemaining
    ensures Used(qs, j, n) <= reserve
  {
    hide Steps, UsedUp, Runnable;
    var m := n - 1;
    if j < m { UsedGrows(qs, j, m - 1, m); }
    ReserveIsMetered(ts, qs, reserve, j, m);
  }

  /** In the whole kernel, whatever the other tasks do, a task released in turn j gets exactly its reserve: the turns in
      which it runs never take more, what they have taken is what it has less, and it stays READY until they have taken
      all. */
  lemma {:induction false} KernelMetersReserve(k: KState, turns: seq<Turn>, waits: seq<Wait>, i: nat,
                             powerDown: bool, sleepWakeup: nat, j: nat, n: nat)
    requires KernelRun(k, turns, waits, i, powerDown, sleepWakeup) && i != NRK_IDLE_TASK_ID && j < n <= |turns|
    requires var ts, qs := TaskStates(turns, k, i), TaskQuanta(turns, waits, i);
             ReleasedBy(ts[j], qs[j], ts[j + 1])
             && (forall m: nat | j < m < n :: waits[m] == Running)
             && (ts[j].cpuReserve == 0 || n == j + 1 || Used(qs, j + 1, n - 1) < ts[j].cpuReserve)
    ensures var ts, qs := TaskStates(turns, k, i), TaskQuanta(turns, waits, i);
            var reserve, used := ts[j].cpuReserve, Used(qs, j + 1, n);
            && (reserve != 0 ==> used <= reserve)
            && if reserve == 0 || used < reserve then Left(ts[n], reserve, reserve - used)
               else j + 1 < n && UsedUp(ts[n - 1], qs[n - 1], ts[n])
  {
    hide Ok, Run, NextWakeAfter, ReleasedBy, Left, UsedUp, Used, StepTask;
    var ts, qs := TaskStates(turns, k, i), TaskQuanta(turns, waits, i);
    var reserve := ts[j].cpuReserve;
    KernelRunIsAnyRun(k, turns, waits, i, powerDown, sleepWakeup);
    ReleasedTask(k, turns, waits, i, powerDown, sleepWakeup, j);
    ReserveIsMetered(ts, qs, reserve, j + 1, n);
    if j + 1 < n && reserve != 0 {
      TurnFitsReserve(k, turns, waits, i, powerDown, sleepWakeup, n - 1);
      NeverOver(ts, qs, reserve, j + 1, n);
    }
  }
}
