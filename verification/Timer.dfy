/** Why the timer is set to what it is set to: no later than needed, and no earlier either. */
module Timers {
  import opened Tasks
  import opened Scheduling

  /** Unless the processor may sleep, the timer goes off when the next task is due, when the reserve of the running task
      ends, or when it can run no longer. */
  lemma NextWakeIsNeeded(next: nat, t: Tcb, powerDown: bool, sleepWakeup: nat)
    requires sleepWakeup <= MAX_SCHED_WAKEUP_TIME && (t.taskId != NRK_IDLE_TASK_ID || !powerDown)
    ensures var w := NextWake(next, t, powerDown, sleepWakeup);
            w == next || w == 250 || (t.taskId != NRK_IDLE_TASK_ID && t.cpuReserve != 0 && w == t.cpuRemaining)
  {}

  /** A processor that sleeps needs sleepWakeup ticks to wake up. It is given them, as far as the next task leaves time
      for that, and is woken no earlier than that needs. */
  lemma SleepIsNeeded(next: nat, t: Tcb, sleepWakeup: nat)
    requires sleepWakeup <= MAX_SCHED_WAKEUP_TIME && t.taskId == NRK_IDLE_TASK_ID
    ensures var w := NextWake(next, t, true, sleepWakeup);
            if next <= sleepWakeup then w == next
            else if next < 2 * sleepWakeup then w + 1 == sleepWakeup
            else w + sleepWakeup <= next
                 && (w + sleepWakeup == next || w == 250 || (next == sleepWakeup + 250 && w + sleepWakeup == 250))
  {}

  /** The earliest wakeup is that of a task, if there is one. */
  lemma {:induction false} EarliestIsOfTask(tcb: seq<Tcb>, v: nat, n: nat)
    requires n <= |tcb| && forall i: nat | i < |tcb| :: Timed(tcb[i])
    ensures Earliest(tcb, v, n) == NO_WAKEUP || exists i: nat :: i < n && BoundsAt(tcb[i], v, Earliest(tcb, v, n))
  {
    if n > 0 {
      EarliestIsOfTask(tcb, v, n - 1);
      if Earliest(tcb, v, n) != Earliest(tcb, v, n - 1) { assert BoundsAt(tcb[n - 1], v, Earliest(tcb, v, n)); }
    }
  }

  /** The task is asleep when the scheduler looks at it, and its wakeup is then in e ticks. */
  predicate BoundsAt(t: Tcb, v: nat, e: nat)
    requires Timed(t)
  {
    Bounds(t, v) && Ticked(t, v).nextWakeup == e
  }

  /** Task i has a wakeup in w ticks after a run of the scheduler from k to k', and was asleep at least until then. */
  ghost predicate DueIn(k: KState, k': KState, i: nat, w: nat) {
    i < |k.tcb| == |k'.tcb| && k'.tcb[i].nextWakeup == w
    && (k'.tcb[i].state == SUSPENDED || k.tcb[i].state == SUSPENDED || i == k.cur)
  }

  lemma {:induction false} EarliestIsDue(k: KState, v: nat)
    requires Ok(k)
    ensures EarliestAfter(k, v) == NO_WAKEUP || exists i: nat :: DueIn(k, Run(k, v), i, EarliestAfter(k, v))
  {
    var s := Charge(SwapOut(k), v);
    AllTimed(s);
    EarliestIsOfTask(s.tcb, v, |s.tcb|);
    if EarliestAfter(k, v) != NO_WAKEUP {
      var i: nat :| i < |s.tcb| && BoundsAt(s.tcb[i], v, EarliestAfter(k, v));
      TickAllAt(s, v, |s.tcb|, i);
      hide Ok, QueueOk, TasksOk, Earliest, TickAll;
      assert i != k.cur ==> s.tcb[i] == k.tcb[i];
      TickedAsleep(s.tcb[i], v);
      assert DueIn(k, Run(k, v), i, EarliestAfter(k, v));
    }
  }

  lemma TickedAsleep(t: Tcb, v: nat)
    requires Timed(t) && Bounds(t, v)
    ensures t.state == SUSPENDED
  {}

  /** The wakeup that a run of the scheduler programs is needed, unless the processor may sleep. */
  lemma {:induction false} WakeupIsNeeded(k: KState, v: nat, powerDown: bool, sleepWakeup: nat)
    requires Ok(k) && sleepWakeup <= MAX_SCHED_WAKEUP_TIME && (Run(k, v).cur != NRK_IDLE_TASK_ID || !powerDown)
    ensures var k', w := Run(k, v), NextWakeAfter(k, v, powerDown, sleepWakeup);
            || w == 250
            || (exists i: nat :: DueIn(k, k', i, w))
            || (k'.cur != NRK_IDLE_TASK_ID && k'.tcb[k'.cur].cpuReserve != 0 && w == k'.tcb[k'.cur].cpuRemaining)
  {
    var k', w := Run(k, v), NextWakeAfter(k, v, powerDown, sleepWakeup);
    HeadIsReady(Requeued(k, v));
    assert k'.cur < |k'.tcb| && k'.tcb[k'.cur].taskId == k'.cur;
    EarliestIsDue(k, v);
    hide Ok, Run, EarliestAfter, DueIn;
    NextWakeIsNeeded(EarliestAfter(k, v), k'.tcb[k'.cur], powerDown, sleepWakeup);
    NextWakeBounded(EarliestAfter(k, v), k'.tcb[k'.cur], powerDown, sleepWakeup);
  }

  lemma NextWakeBounded(next: nat, t: Tcb, powerDown: bool, sleepWakeup: nat)
    requires sleepWakeup <= MAX_SCHED_WAKEUP_TIME && (t.taskId != NRK_IDLE_TASK_ID || !powerDown)
    ensures NextWake(next, t, powerDown, sleepWakeup) <= 250
  {}
}
