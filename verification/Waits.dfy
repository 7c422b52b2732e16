/** How the waits end that are not for a period: by a wakeup, by a number of ticks, or never. */
module Waits {
  import opened Tasks
  import opened Scheduling
  import opened Periodic
  import opened Events
  import opened Budgets

  // ----- waiting for a signal with a wakeup -----

  /** Somebody else runs. */
  predicate Idles(q: Quantum) {
    !q.current && q.wait == Running
  }

  lemma WaiterTicks(t: Tcb, q: Quantum, t': Tcb, mask: set<nat>)
    requires Steps(t, q, t') && Idles(q) && WaitsFor(t, mask)
    ensures if NRK_WAKEUP_SIGNAL !in mask then WaitsFor(t', mask)
            else if q.v < t.nextWakeup then WaitsFor(t', mask) && t'.nextWakeup == t.nextWakeup - q.v
            else Returns(t', NRK_WAKEUP_SIGNAL)
  {}

  /** Without a signal, a task that waits with the wakeup signal in its mask returns it in exactly the quantum that
      brings it to its wakeup, and one that waits without goes on waiting. */
  lemma {:induction false} WaitLasts(ts: seq<Tcb>, qs: seq<Quantum>, mask: set<nat>, n: nat)
    requires AnyRun(ts, qs) && n <= |qs| && WaitsFor(ts[0], mask) && forall m | 0 <= m < n :: Idles(qs[m])
    requires NRK_WAKEUP_SIGNAL in mask && n > 0 ==> Elapsed(qs, n - 1) < ts[0].nextWakeup
    ensures if NRK_WAKEUP_SIGNAL !in mask then WaitsFor(ts[n], mask)
            else if Elapsed(qs, n) < ts[0].nextWakeup then
              WaitsFor(ts[n], mask) && ts[n].nextWakeup == ts[0].nextWakeup - Elapsed(qs, n)
            else Returns(ts[n], NRK_WAKEUP_SIGNAL)
  {
    if n > 0 {
      WaitLasts(ts, qs, mask, n - 1);
      StepOf(ts, qs, n - 1);
      hide AnyRun, Steps;
      WaiterTicks(ts[n - 1], qs[n - 1], ts[n], mask);
    }
  }

  // ----- waiting for ticks and keeping the period -----

  /** Asleep for a number of ticks, with the next period boundary in its clock. */
  ghost predicate Dozes(t: Tcb, offset: int, time: int) {
    Asleep(t) && !t.nwFlag && 0 < t.nextPeriod <= t.period && OnBoundary(offset, t.period, time + t.nextPeriod)
  }

  ghost predicate OnClock(t: Tcb, offset: int, time: int) {
    // named, so that a goal of this predicate is taken whole and not split into its parts
    var onClock := if t.state == READY then OnSchedule(t, offset, time) else Dozes(t, offset, time);
    onClock
  }

  /** A task that waits for ticks before its next boundary stays on schedule. */
  lemma DozeBegins(t: Tcb, ticks: nat, timer: nat, v: nat, offset: int, time: int)
    requires OnSchedule(t, offset, time) && t.state == READY && v <= t.nextPeriod && !Violates(t, v)
    ensures OnClock(Step(WaitingTicks(t, ticks, timer), true, v), offset, time + v)
  {
    NextBoundary(offset, t.period, time + t.nextPeriod, 1);
    assert (time + v) + (t.nextPeriod - v) == time + t.nextPeriod;
  }

  /** The task is still asleep, and the quantum goes neither beyond its wakeup nor beyond its boundary. */
  predicate Gentle(t: Tcb, q: Quantum) {
    t.state != READY && Idles(q) && q.v <= t.nextWakeup && q.v <= t.nextPeriod
  }

  lemma DozeStep(t: Tcb, q: Quantum, t': Tcb, offset: int, time: int)
    requires Steps(t, q, t') && Gentle(t, q) && OnClock(t, offset, time)
    ensures OnClock(t', offset, time + q.v)
    ensures t'.state == READY <==> q.v == t.nextWakeup
  {
    NextBoundary(offset, t.period, time + t.nextPeriod, 1);
    assert (time + q.v) + (t.nextPeriod - q.v) == time + t.nextPeriod;
  }

  /** Waiting for ticks does not cost a task its schedule: released from it, it is as if it had run all the time. */
  lemma {:induction false} TicksKeepSchedule(ts: seq<Tcb>, qs: seq<Quantum>, offset: int, time: int, n: nat)
    requires AnyRun(ts, qs) && n <= |qs| && OnClock(ts[0], offset, time)
    requires forall m: nat | m < n :: Gentle(ts[m], qs[m])
    ensures OnClock(ts[n], offset, time + Elapsed(qs, n))
  {
    hide Steps, OnClock, Gentle;
    if n > 0 {
      TicksKeepSchedule(ts, qs, offset, time, n - 1);
      StepOf(ts, qs, n - 1);
      hide AnyRun;
      DozeStep(ts[n - 1], qs[n - 1], ts[n], offset, time + Elapsed(qs, n - 1));
    }
  }

  // ----- termination -----

  lemma FinishedStep(t: Tcb, current: bool, v: nat)
    requires Timed(t) && t.state == FINISHED
    ensures Step(t, current, v).state == FINISHED
  {}

  lemma FinishedIsDeaf(t: Tcb, i: nat, cur: nat, s: nat)
    requires TaskOk(t, i, cur) && t.state == FINISHED
    ensures Signalled(t, s) == t
  {}

  /** A task that has terminated never comes back, whatever happens in the kernel. */
  lemma {:induction false} TerminatedForever(ks: seq<KState>, es: seq<Deed>, i: nat, n: nat)
    requires KernelEvents(ks, es, i) && n <= |es| && i < |ks[0].tcb| && ks[0].tcb[i].state == FINISHED
    ensures i < |ks[n].tcb| && ks[n].tcb[i].state == FINISHED && i !in ks[n].q
  {
    if n == 0 {
      OutOfQueue(ks, es, i, 0);
    } else {
      TerminatedForever(ks, es, i, n - 1);
      FinishedLeads(ks, es, i, n - 1);
      OutOfQueue(ks, es, i, n);
    }
  }

  lemma OutOfQueue(ks: seq<KState>, es: seq<Deed>, i: nat, n: nat)
    requires KernelEvents(ks, es, i) && n <= |es| && i < |ks[n].tcb| && ks[n].tcb[i].state == FINISHED
    ensures i !in ks[n].q
  {
    assert Ok(ks[n]) by {
      if n < |es| { assert Leads(ks[n], es[n], ks[n + 1], i); }
    }
  }

  lemma FinishedLeads(ks: seq<KState>, es: seq<Deed>, i: nat, n: nat)
    requires KernelEvents(ks, es, i) && n < |es| && i < |ks[n].tcb| && ks[n].tcb[i].state == FINISHED
    ensures i < |ks[n + 1].tcb| && ks[n + 1].tcb[i].state == FINISHED
  {
    var k, e := ks[n], es[n];
    assert Leads(k, e, ks[n + 1], i);
    assert TaskOk(k.tcb[i], i, k.cur);
    match e
    case Sends(s) => FinishedIsDeaf(k.tcb[i], i, k.cur, s);
    case Runs(v) =>
      RunStepsTask(k, v, i);
      FinishedStep(k.tcb[i], i == k.cur, v);
    case Acts =>
  }

  // ----- what never changes -----

  /** Both are the same task, with the same priority, signals registered, period and reserve. */
  predicate SameTask(t: Tcb, t': Tcb) {
    t'.taskId == t.taskId && t'.key == t.key && t'.registered == t.registered
    && t'.period == t.period && t'.cpuReserve == t.cpuReserve
  }

  /** The calls by which a task waits do not change them. */
  lemma WaitIsSame(t: Tcb, mask: set<nat>, p: nat, ticks: nat, timer: nat)
    ensures SameTask(t, Marked(t, mask)) && SameTask(t, Waiting(t, p)) && SameTask(t, WaitingTicks(t, ticks, timer))
  {}

  lemma TickIsSame(t: Tcb, v: nat)
    requires Timed(t)
    ensures SameTask(t, Ticked(t, v))
  {}

  lemma SwapIsSame(t: Tcb, v: nat)
    ensures SameTask(t, Swapped(t)) && SameTask(t, Charged(t, v))
    ensures Timed(t) ==> Timed(Swapped(t)) && Timed(Charged(t, v))
  {}

  lemma StepIsSame(t: Tcb, current: bool, v: nat)
    requires Timed(t)
    ensures SameTask(t, Step(t, current, v))
  {
    hide Ticked, Swapped, Charged;
    var s := if current && t.suspendFlag && t.state != FINISHED then Swapped(t) else t;
    var c := if current then Charged(s, v) else s;
    SwapIsSame(t, v);
    SwapIsSame(s, v);
    TickIsSame(c, v);
  }

  /** Neither the scheduler nor a signal changes these, whatever happens in the kernel; they are what the task was
      activated and has registered with. */
  lemma {:induction false} TaskIsSame(ks: seq<KState>, es: seq<Deed>, i: nat, n: nat)
    requires KernelEvents(ks, es, i) && n <= |es| && i < |ks[0].tcb|
    ensures i < |ks[n].tcb| && SameTask(ks[0].tcb[i], ks[n].tcb[i])
  {
    if n > 0 {
      TaskIsSame(ks, es, i, n - 1);
      SameLeads(ks, es, i, n - 1);
    }
  }

  lemma SameLeads(ks: seq<KState>, es: seq<Deed>, i: nat, n: nat)
    requires KernelEvents(ks, es, i) && n < |es| && i < |ks[n].tcb|
    ensures i < |ks[n + 1].tcb| && SameTask(ks[n].tcb[i], ks[n + 1].tcb[i])
  {
    var k, e := ks[n], es[n];
    assert Leads(k, e, ks[n + 1], i);
    if e.Runs? {
      RunStepsTask(k, e.v, i);
      StepIsSame(k.tcb[i], i == k.cur, e.v);
    }
  }

  /** A new task has the priority, period and reserve asked for, and has not registered for any signal. */
  lemma ActivatedIs(id: nat, prio: nat, period: nat, offset: nat, reserve: nat)
    ensures var t := Activated(id, prio, period, offset, reserve);
            t.taskId == id && t.key == Key(prio, false, 0) && t.period == period && t.cpuReserve == reserve
            && t.registered == {} && t.active == {}
  {}
}
