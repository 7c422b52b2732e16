/** The Nano-RK kernel: scheduler, task activation, waits and signals, over the task table and the ready queue. */
module Kernels {
  import opened Chains
  import opened Tasks
  import opened ReadyQueues
  import opened Scheduling
  import opened Events

  const TIME_PAD := 2

  lemma {:induction false} DistinctBelow(q: seq<nat>, n: nat)
    requires NoDuplicates(q) && forall i | 0 <= i < |q| :: q[i] < n
    ensures |q| <= n
  {
    if q == [] {
    } else if i: nat :| i < |q| && q[i] == n - 1 {
      DistinctRest(q, i);
      DistinctBelow(Unlinked(q, i), n - 1);
    } else {
      assert q[0] < n;
      DistinctBelow(q, n - 1);
    }
  }

  const EMPTY_TCB := Tcb(-1, Key(99, false, 0), RUNNING, false, false, false, {}, {}, 0, 0, 0, 0, 0, 0)

  lemma InitiallyOk(k: KState)
    requires |k.tcb| > 0 && k.tcb[0] == Activated(0, 0, 0, 0, 0) && k.q == [0] && k.cur == 0
    requires forall i | 0 < i < |k.tcb| :: k.tcb[i] == EMPTY_TCB
    ensures Ok(k)
  {
    forall i: nat | i < |k.tcb| ensures TaskOk(k.tcb[i], i, k.cur) {}
  }

  lemma {:induction false} ReplaceSame(k: KState, i: nat)
    requires Ok(k) && AllSettled(k) && i < |k.tcb|
    ensures TaskOk(k.tcb[i], i, k.cur) && Settled(k.tcb[i])
    ensures i == NRK_IDLE_TASK_ID ==> k.tcb[i].state == READY
    ensures Replaced(k, i, k.tcb[i]) == k
  {
    assert TaskOk(k.tcb[i], i, k.cur);
    assert k.tcb[i := k.tcb[i]] == k.tcb;
  }

  /** Task i is new in the table, and in the queue if it is READY. */
  ghost function WithTask(k: KState, i: nat, t: Tcb): KState
    requires i < |k.tcb| && InTable(Keys(k.tcb), k.q)
  {
    var tcb' := k.tcb[i := t];
    k.(tcb := tcb', q := if t.state == READY then Enqueued(Keys(tcb'), k.q, i) else k.q)
  }

  /** A task with a priority is queued in front of idle. */
  lemma {:induction false} BeforeIdle(k: KState, i: nat, t: Tcb)
    requires Ok(k) && 0 < i < |k.tcb| && t.key.prio > 0
    ensures InTable(Keys(k.tcb[i := t]), k.q) && Place(Keys(k.tcb[i := t]), k.q, i) < |k.q|
  {
    var keys := Keys(k.tcb[i := t]);
    assert TaskOk(k.tcb[0], 0, k.cur);
    assert Before(keys[k.q[|k.q| - 1]], keys[i]);
  }

  /** Filling an unused place of the table keeps it in order exactly when the task has a priority and a period. */
  lemma {:induction false} ActivateOkIff(k: KState, i: nat, prio: nat, period: nat, offset: nat, reserve: nat)
    requires Ok(k) && 0 < i < |k.tcb| && k.tcb[i].taskId == -1 && (offset == 0 ==> prio > 0)
    ensures InTable(Keys(k.tcb), k.q)
    ensures InTable(Keys(k.tcb[i := Activated(i, prio, period, offset, reserve)]), k.q)
    ensures Ok(WithTask(k, i, Activated(i, prio, period, offset, reserve))) <==> prio > 0 && period > 0
  {
    var t := Activated(i, prio, period, offset, reserve);
    if prio > 0 && period > 0 {
      assert TaskOk(k.tcb[i], i, k.cur);
      SuspendedOk(k, i, t.(state := SUSPENDED));
      var k' := k.(tcb := k.tcb[i := t.(state := SUSPENDED)]);
      assert k'.tcb[i := t] == k.tcb[i := t];
      if t.state == READY {
        ReleaseOk(k', i, t);
        assert Keys(k'.tcb) == Keys(k.tcb[i := t]);
      }
    } else {
      assert !TaskOk(t, i, k.cur);
      assert WithTask(k, i, t).tcb[i] == t;
    }
  }

  lemma {:induction false} SuspendedOk(k: KState, i: nat, t: Tcb)
    requires Ok(k) && 0 < i < |k.tcb| && k.tcb[i].taskId == -1 && TaskOk(t, i, k.cur)
    requires t.state == SUSPENDED && !t.key.elevated
    ensures Ok(k.(tcb := k.tcb[i := t]))
  {
    var k' := k.(tcb := k.tcb[i := t]);
    assert TaskOk(k.tcb[i], i, k.cur);
    assert forall j: nat | j < |k.tcb| && j != i :: Keys(k'.tcb)[j] == Keys(k.tcb)[j];
    assert i !in k.q;
    forall j: nat | j < |k'.tcb| ensures TaskOk(k'.tcb[j], j, k.cur) { assert j == i || TaskOk(k.tcb[j], j, k.cur); }
  }

  /** What a suspended task must not have pending to be made READY from outside. */
  predicate Restartable(t: Tcb) {
    (t.cpuReserve == 0 || t.cpuRemaining > 0) && (t.suspendFlag || (!t.eventSuspend && !t.nwFlag && t.numPeriods == 1))
  }

  lemma {:induction false} RestartOkIff(k: KState, i: nat)
    requires Ok(k) && i < |k.tcb| && k.tcb[i].state == SUSPENDED
    ensures i > 0 && InTable(Keys(k.tcb), k.q) && InTable(Keys(k.tcb[i := k.tcb[i].(state := READY)]), k.q)
    ensures Ok(WithTask(k, i, k.tcb[i].(state := READY))) <==> Restartable(k.tcb[i])
  {
    var t := k.tcb[i].(state := READY);
    assert TaskOk(k.tcb[i], i, k.cur);
    assert Keys(k.tcb) == Keys(k.tcb[i := t]);
    assert WithTask(k, i, t).tcb[i] == t;
    if Restartable(k.tcb[i]) { ReleaseOk(k, i, t); } else { assert !TaskOk(t, i, k.cur); }
  }

  /** A waiter with a wakeup of its own has just been signalled when it is activated again. */
  lemma {:induction false} RestartBreaks() returns (k: KState, s: nat)
    ensures Ok(k) && Ok(SignalIn(k, s)) && 1 < |k.tcb| && WaitsFor(k.tcb[1], {NRK_WAKEUP_SIGNAL, s})
    ensures var t := SignalIn(k, s).tcb[1];
            t.state == SUSPENDED && t.nextWakeup == 0 && !Restartable(t)
  {
    s := 3;
    var t := Activated(1, 1, 1000, 5, 0).(eventSuspend := true, nwFlag := true, active := {NRK_WAKEUP_SIGNAL, s});
    k := KState([Activated(0, 0, 0, 0, 0), t], [0], 0);
    forall i: nat | i < 2 ensures TaskOk(k.tcb[i], i, 0) {}
    SignalKeepsOkIff(k, s);
  }

  /** From timer values prev and next to prev' and next': if there is still time, the timer is set to expire TIME_PAD
      ticks from now. */
  predicate ExpiresSoon(timer: nat, prev: nat, next: nat, prev': nat, next': nat) {
    if timer < MAX_SCHED_WAKEUP_TIME - TIME_PAD && timer + TIME_PAD <= next then prev' == next' == timer + TIME_PAD
    else prev' == prev && next' == next
  }

  class Kernel {
    const powerDown: bool
    const sleepWakeup: nat
    const tcb: array<Tcb>
    const queue: ReadyQueue
    var cur: nat
    var prevTimerVal: nat
    var nextWakeup: nat
    var taskInitCnt: nat
    var signals: set<nat>

    /** The kernel state the scheduler works on. */
    ghost function State(): KState
      requires queue.Shape()
      reads this`cur, tcb, queue, queue.taskIds, queue.prevs, queue.nexts
    {
      KState(tcb[..], queue.Contents(), cur)
    }

    ghost predicate Valid()
      reads this`cur, tcb, queue, queue.taskIds, queue.prevs, queue.nexts
    {
      sleepWakeup <= MAX_SCHED_WAKEUP_TIME
      && queue.Valid() && queue.taskIds.Length == tcb.Length + 1
      && Ok(State())
    }

    /** nrk_init: an empty task table, with the idle task activated and queued. */
    constructor (maxTasks: nat, powerDown: bool, sleepWakeup: nat)
      requires maxTasks > 0 && sleepWakeup <= MAX_SCHED_WAKEUP_TIME
      ensures Valid() && fresh(tcb) && fresh(queue) && fresh(queue.taskIds) && fresh(queue.prevs) && fresh(queue.nexts)
      ensures State().q == [NRK_IDLE_TASK_ID] && State().tcb[0] == Activated(0, 0, 0, 0, 0)
      ensures forall i | 0 < i < tcb.Length :: tcb[i] == EMPTY_TCB
      ensures tcb.Length == maxTasks && taskInitCnt == 1 && signals == {NRK_WAKEUP_SIGNAL}
      ensures this.powerDown == powerDown && this.sleepWakeup == sleepWakeup
    {
      this.powerDown := powerDown;
      this.sleepWakeup := sleepWakeup;
      tcb := new Tcb[maxTasks];
      queue := new ReadyQueue(maxTasks);
      new;
      for i := 0 to maxTasks
        invariant queue.Valid() && queue.Contents() == [] && queue.taskIds.Length == maxTasks + 1
        invariant forall j | 0 <= j < i :: tcb[j] == EMPTY_TCB
      {
        tcb[i] := EMPTY_TCB;
      }
      StartIdle();
    }

    /** The idle task is activated in an empty table. */
    method StartIdle()
      requires queue.Valid() && queue.Contents() == [] && queue.taskIds.Length == tcb.Length + 1 > 1
      requires forall j | 0 <= j < tcb.Length :: tcb[j] == EMPTY_TCB
      modifies this, tcb, queue, queue.taskIds, queue.prevs, queue.nexts
      ensures queue.Valid() && Ok(State())
      ensures State().q == [NRK_IDLE_TASK_ID] && State().tcb[0] == Activated(0, 0, 0, 0, 0)
      ensures forall i | 0 < i < tcb.Length :: tcb[i] == EMPTY_TCB
      ensures taskInitCnt == 1 && signals == {NRK_WAKEUP_SIGNAL}
    {
      tcb[NRK_IDLE_TASK_ID] := Activated(NRK_IDLE_TASK_ID, 0, 0, 0, 0);
      queue.Add(tcb, NRK_IDLE_TASK_ID);
      cur, prevTimerVal, nextWakeup, taskInitCnt := NRK_IDLE_TASK_ID, 0, 0, NRK_IDLE_TASK_ID + 1;
      signals := {NRK_WAKEUP_SIGNAL};
      assert queue.Contents() == [NRK_IDLE_TASK_ID];
      InitiallyOk(State());
    }

    /** The queue is in order and table, queue and running task are those of k. */
    ghost predicate Holds(k: KState)
      reads this`cur, tcb, queue, queue.taskIds, queue.prevs, queue.nexts
    {
      // named, so that a goal of this predicate is taken whole and not split into its parts
      var holds := queue.Valid() && queue.taskIds.Length == tcb.Length + 1 && State() == k;
      holds
    }

    /** Puts task i, which has just become READY, into the queue. */
    method Enqueue(i: nat, ghost k: KState)
      requires queue.Valid() && queue.taskIds.Length == tcb.Length + 1
      requires Ok(k) && 0 < i < |k.tcb| == tcb.Length && k.q == queue.Contents() && k.tcb[i].state != READY
      requires tcb[i].key.prio > 0 && tcb[..] == k.tcb[i := tcb[i]]
      requires k.tcb[i].taskId != -1 ==> tcb[i].key == k.tcb[i].key
      modifies queue, queue.taskIds, queue.prevs, queue.nexts
      ensures queue.Valid() && queue.Contents() == Enqueued(Keys(tcb[..]), k.q, i)
      ensures k.tcb[i].taskId != -1 ==> Keys(tcb[..]) == Keys(k.tcb)
    {
      BeforeIdle(k, i, tcb[i]);
      assert k.tcb[i].taskId != -1 ==> Keys(tcb[..]) == Keys(k.tcb);
      DistinctBelow(k.q, tcb.Length);
      queue.Add(tcb, i);
    }

    /** The suspend part of the scheduler. */
    method SwapOutCurrent()
      requires Valid()
      modifies tcb, queue, queue.taskIds, queue.prevs, queue.nexts
      ensures Valid() && State() == SwapOut(old(State()))
    {
      ghost var k := State();
      var t := tcb[cur];
      assert TaskOk(t, cur, cur);
      if t.suspendFlag && t.state != FINISHED {
        if t.eventSuspend && !t.nwFlag {
          t := t.(state := EVENT_SUSPENDED);
        } else if t.eventSuspend && t.nwFlag {
          t := t.(state := SUSPENDED);
        } else {
          t := t.(state := SUSPENDED, eventSuspend := false, nwFlag := false);
          if t.nextWakeup == 0 {
            t := t.(nextWakeup := t.nextPeriod);
          }
        }
        assert t == Swapped(k.tcb[cur]);
        tcb[cur] := t;
        queue.Remove(cur);
        assert tcb[..] == k.tcb[cur := t];
      }
      assert State() == SwapOut(k);
    }

    /** The reserve part of the scheduler. */
    method ChargeCurrent()
      requires Valid() && AllSettled(State())
      modifies tcb, queue, queue.taskIds, queue.prevs, queue.nexts
      ensures Valid() && State() == Charge(old(State()), prevTimerVal)
    {
      ghost var k := State();
      var t := tcb[cur];
      assert TaskOk(t, cur, cur);
      if t.cpuReserve != 0 && t.taskId != NRK_IDLE_TASK_ID && t.state != FINISHED {
        if t.cpuRemaining < prevTimerVal {
          t := t.(cpuRemaining := 0);
        } else {
          t := t.(cpuRemaining := t.cpuRemaining - prevTimerVal);
        }
        if t.cpuRemaining == 0 {
          t := t.(state := SUSPENDED);
          tcb[cur] := t;
          queue.Remove(cur);
        } else {
          tcb[cur] := t;
        }
        assert tcb[..] == k.tcb[cur := t];
      }
      hide QueueOk, TasksOk, AllSettled;
      assert State() == Charge(k, prevTimerVal);
    }

    /** The clocks of one task. */
    method AgeTask(task: Tcb) returns (t: Tcb)
      requires Timed(task) && task.taskId != -1
      ensures t == Aged(task, prevTimerVal)
    {
      t := task.(suspendFlag := false);
      if t.taskId != NRK_IDLE_TASK_ID && t.state != FINISHED {
        if t.nextWakeup >= prevTimerVal {
          t := t.(nextWakeup := t.nextWakeup - prevTimerVal);
        } else {
          t := t.(nextWakeup := 0);
        }
        if t.nextPeriod >= prevTimerVal {
          t := t.(nextPeriod := t.nextPeriod - prevTimerVal);
        } else if t.period > prevTimerVal {
          t := t.(nextPeriod := t.period - prevTimerVal);
        } else {
          t := t.(nextPeriod := prevTimerVal % t.period);
        }
        if t.nextPeriod == 0 {
          t := t.(nextPeriod := t.period);
        }
      }
    }

    /** What becomes of a suspended task whose wakeup is due. */
    method WakeTask(task: Tcb) returns (t: Tcb)
      requires task.state == SUSPENDED && task.nextWakeup == 0 && task.numPeriods > 0
      ensures t == Woken(task)
    {
      t := task;
      if t.eventSuspend && t.nwFlag {
        t := t.(active := {NRK_WAKEUP_SIGNAL});
      }
      t := t.(eventSuspend := false, nwFlag := false, suspendFlag := false);
      t := t.(cpuRemaining := t.cpuReserve);
      if t.numPeriods == 1 {
        t := t.(state := READY, nextWakeup := t.nextPeriod);
        if t.period == 0 {
          t := t.(nextWakeup := MAX_SCHED_WAKEUP_TIME);
        }
      } else {
        var skip := t.period * (t.numPeriods - 1) % TWO_32;
        t := t.(nextWakeup := skip, nextPeriod := skip);
        if t.period == 0 {
          t := t.(nextWakeup := MAX_SCHED_WAKEUP_TIME);
        }
        t := t.(numPeriods := 1);
      }
    }

    /** Stores the new state of task i, and queues the task when that makes it READY. */
    method Store(i: nat, t: Tcb, ghost k: KState)
      requires Holds(k) && Ok(k) && AllSettled(k) && i < |k.tcb|
      requires TaskOk(t, i, k.cur) && Settled(t) && t.key == k.tcb[i].key && t.taskId == k.tcb[i].taskId
      requires k.tcb[i].state == READY ==> t.state == READY
      requires i == NRK_IDLE_TASK_ID ==> k.tcb[i].state == READY
      modifies tcb, queue, queue.taskIds, queue.prevs, queue.nexts
      ensures Holds(Replaced(k, i, t))
    {
      var wasReady := tcb[i].state == READY;
      tcb[i] := t;
      assert tcb[..] == k.tcb[i := t];
      if t.state == READY && !wasReady {
        Enqueue(i, k);
      }
    }

    /** One round of the scheduler's loop over the task table. */
    method TickTask(i: nat, nextWake: nat, ghost k: KState, ghost k': KState) returns (wake: nat)
      requires Holds(k) && TickStep(k, k', i, prevTimerVal)
      modifies tcb, queue, queue.taskIds, queue.prevs, queue.nexts
      ensures Holds(k')
      ensures wake == Sooner(k.tcb[i], prevTimerVal, nextWake)
    {
      wake := nextWake;
      if tcb[i].taskId == -1 {
        ReplaceSame(k, i);
        return;
      }
      var t := AgeTask(tcb[i]);
      if t.state != SUSPENDED {
        Store(i, t, k);
        return;
      }
      if t.nextWakeup == 0 {
        t := WakeTask(t);
      }
      Store(i, t, k);
      if t.nextWakeup != 0 && t.nextWakeup < nextWake {
        wake := t.nextWakeup;
      }
    }

    /** The scheduler's loop over the task table, through the states ks and the wakeups es. */
    method TickTasks(ghost mid: KState, ghost ks: seq<KState>, ghost es: seq<nat>) returns (nextWake: nat)
      requires |ks| == |es| == |mid.tcb| + 1 && Holds(ks[0]) && es[0] == NO_WAKEUP && tcb.Length == |mid.tcb|
      requires forall i: nat {:trigger StepAt(mid, ks, i, prevTimerVal)} | i < |mid.tcb| ::
                 StepAt(mid, ks, i, prevTimerVal)
      requires forall i: nat {:trigger SoonerAt(mid.tcb, es, i, prevTimerVal)} | i < |mid.tcb| ::
                 SoonerAt(mid.tcb, es, i, prevTimerVal)
      modifies tcb, queue, queue.taskIds, queue.prevs, queue.nexts
      ensures Holds(ks[|mid.tcb|]) && nextWake == es[|mid.tcb|]
    {
      nextWake := NO_WAKEUP;
      var i := 0;
      while i < tcb.Length
        invariant i <= tcb.Length && Holds(ks[i]) && nextWake == es[i]
      {
        assert StepAt(mid, ks, i, prevTimerVal) && SoonerAt(mid.tcb, es, i, prevTimerVal);
        nextWake := TickTask(i, nextWake, ks[i], ks[i + 1]);
        i := i + 1;
      }
    }

    /** The part of the scheduler that picks the next wakeup for the task about to run. */
    method PickNextWake(earliest: nat, t: Tcb) returns (nextWake: nat)
      requires sleepWakeup <= MAX_SCHED_WAKEUP_TIME
      ensures nextWake == NextWake(earliest, t, powerDown, sleepWakeup)
    {
      nextWake := earliest;
      if t.taskId != NRK_IDLE_TASK_ID {
        if t.cpuReserve != 0 && t.cpuRemaining < MAX_SCHED_WAKEUP_TIME {
          if nextWake > t.cpuRemaining {
            nextWake := t.cpuRemaining;
          }
        } else {
          if nextWake > MAX_SCHED_WAKEUP_TIME {
            nextWake := MAX_SCHED_WAKEUP_TIME;
          }
        }
      } else if powerDown {
        if nextWake > sleepWakeup {
          if nextWake - sleepWakeup < MAX_SCHED_WAKEUP_TIME {
            if nextWake - sleepWakeup < sleepWakeup {
              nextWake := sleepWakeup - 1;
            } else {
              nextWake := nextWake - sleepWakeup;
            }
          } else if nextWake > sleepWakeup + MAX_SCHED_WAKEUP_TIME {
            nextWake := MAX_SCHED_WAKEUP_TIME;
          } else {
            nextWake := MAX_SCHED_WAKEUP_TIME - sleepWakeup;
          }
        }
      }
      if !powerDown {
        if nextWake > MAX_SCHED_WAKEUP_TIME {
          nextWake := MAX_SCHED_WAKEUP_TIME;
        }
      }
    }

    /** The part of the scheduler that concerns the task that was running. */
    method Preempt() returns (ghost mid: KState)
      requires Valid()
      modifies tcb, queue, queue.taskIds, queue.prevs, queue.nexts
      ensures mid == Charge(SwapOut(old(State())), prevTimerVal) && Holds(mid)
    {
      SwapOutCurrent();
      ChargeCurrent();
      mid := State();
    }

    /** The part of the scheduler that brings table and queue up to date. */
    method Requeue() returns (earliest: nat)
      requires Valid()
      modifies tcb, queue, queue.taskIds, queue.prevs, queue.nexts
      ensures Holds(Requeued(old(State()), prevTimerVal))
      ensures earliest == EarliestAfter(old(State()), prevTimerVal)
    {
      ghost var mid := Preempt();
      AllTimed(mid);
      ghost var ks, last := TickStates(mid, prevTimerVal);
      ghost var es := EarliestSteps(mid.tcb, prevTimerVal);
      earliest := TickTasks(mid, ks, es);
    }

    /** The part of the scheduler that picks the task to run. */
    method Dispatch(ghost k: KState)
      requires Holds(k) && Ok(k)
      modifies this`cur
      ensures Holds(Dispatched(k))
    {
      cur := queue.HighestReady();
    }

    /** The end of the scheduler. timer is the OS timer; when it has caught up with the next wakeup, the wakeup
        is moved two ticks on. */
    method ProgramTimer(wake: nat, timer: nat)
      modifies this`prevTimerVal, this`nextWakeup
      ensures nextWakeup == prevTimerVal == if timer + 1 >= wake then (timer + 2) % 256 else wake
    {
      var nextWake := wake;
      prevTimerVal := nextWake;
      if timer + 1 >= nextWake {
        nextWake := (timer + 2) % 256;
        prevTimerVal := nextWake;
      }
      nextWakeup := nextWake;
    }

    /** The scheduler up to the programming of the timer. */
    method PickTask() returns (wake: nat)
      requires Valid()
      modifies this`cur, tcb, queue, queue.taskIds, queue.prevs, queue.nexts
      ensures Valid() && State() == Run(old(State()), prevTimerVal)
      ensures wake == NextWakeAfter(old(State()), prevTimerVal, powerDown, sleepWakeup)
    {
      hide QueueOk, Requeued, EarliestAfter, NextWake;
      ghost var k := State();
      var earliest := Requeue();
      Dispatch(Requeued(k, prevTimerVal));
      assert Holds(Run(k, prevTimerVal));
      wake := PickNextWake(earliest, tcb[cur]);
    }

    /** _nrk_scheduler. */
    method Scheduler(timer: nat)
      requires Valid()
      modifies this`cur, this`prevTimerVal, this`nextWakeup, tcb, queue, queue.taskIds, queue.prevs, queue.nexts
      ensures Valid() && State() == Run(old(State()), old(prevTimerVal))
      ensures var w := NextWakeAfter(old(State()), old(prevTimerVal), powerDown, sleepWakeup);
              nextWakeup == prevTimerVal == if timer + 1 >= w then (timer + 2) % 256 else w
    {
      hide Ok, Run, NextWakeAfter;
      var wake := PickTask();
      ProgramTimer(wake, timer);
    }

    /** nrk_activate_task for a first activation, with the part of nrk_TCB_init that concerns the scheduler. */
    method Activate(prio: nat, period: nat, offset: nat, reserve: nat) returns (id: nat)
      requires Valid() && 0 < taskInitCnt < tcb.Length && tcb[taskInitCnt].taskId == -1
      requires offset == 0 ==> prio > 0
      modifies this`taskInitCnt, tcb, queue, queue.taskIds, queue.prevs, queue.nexts
      ensures queue.Valid() && id == old(taskInitCnt) && taskInitCnt == id + 1
      ensures State() == WithTask(old(State()), id, Activated(id, prio, period, offset, reserve))
      ensures Valid() <==> prio > 0 && period > 0
    {
      ghost var k := State();
      id := taskInitCnt;
      taskInitCnt := taskInitCnt + 1;
      assert TaskOk(k.tcb[id], id, k.cur);
      ActivateOkIff(k, id, prio, period, offset, reserve);
      hide Ok;
      var t := Tcb(id, Key(prio, false, 0), SUSPENDED, false, false, false, {}, {},
                   offset, period + offset, reserve, period, reserve, 1);
      if t.nextWakeup == 0 {
        t := t.(state := READY);
      }
      tcb[id] := t;
      assert tcb[..] == k.tcb[id := t];
      if t.state == READY {
        Enqueue(id, k);
      }
      assert State() == WithTask(k, id, t);
    }

    /** nrk_activate_task for a task that has been activated before. */
    method Reactivate(id: nat) returns (ok: bool)
      requires Valid() && id < tcb.Length
      modifies tcb, queue, queue.taskIds, queue.prevs, queue.nexts
      ensures queue.Valid() && ok == (old(tcb[id]).state == SUSPENDED)
      ensures State() ==
              if ok && old(tcb[id]).nextWakeup == 0 then WithTask(old(State()), id, old(tcb[id]).(state := READY))
              else old(State())
      ensures Valid() <==> (ok && old(tcb[id]).nextWakeup == 0 ==> Restartable(old(tcb[id])))
    {
      if tcb[id].state != SUSPENDED {
        return false;
      }
      ok := true;
      if tcb[id].nextWakeup == 0 {
        ghost var k := State();
        assert TaskOk(k.tcb[id], id, k.cur);
        RestartOkIff(k, id);
        hide Ok;
        tcb[id] := tcb[id].(state := READY);
        assert tcb[..] == k.tcb[id := tcb[id]];
        Enqueue(id, k);
        assert State() == WithTask(k, id, tcb[id]);
      }
    }

    /** What the waits have in common: if there is still time, the timer is set to expire TIME_PAD ticks from now. */
    method ExpireSoon(timer: nat)
      modifies this`prevTimerVal, this`nextWakeup
      ensures ExpiresSoon(timer, old(prevTimerVal), old(nextWakeup), prevTimerVal, nextWakeup)
    {
      if timer < MAX_SCHED_WAKEUP_TIME - TIME_PAD {
        if timer + TIME_PAD <= nextWakeup {
          prevTimerVal := timer + TIME_PAD;
          nextWakeup := timer + TIME_PAD;
        }
      }
    }

    /** The running task starts to wait: its control block becomes t, and the timer is set to expire soon. */
    method StartWait(t: Tcb, timer: nat)
      requires Valid() && cur != NRK_IDLE_TASK_ID && TaskOk(t, cur, cur)
      requires t.key == tcb[cur].key && t.taskId == tcb[cur].taskId && (t.state == READY <==> tcb[cur].state == READY)
      modifies this`prevTimerVal, this`nextWakeup, tcb
      ensures Valid() && State() == old(State()).(tcb := old(tcb[..])[cur := t])
      ensures ExpiresSoon(timer, old(prevTimerVal), old(nextWakeup), prevTimerVal, nextWakeup)
    {
      ghost var k := State();
      ReplaceOk(k, cur, t);
      tcb[cur] := t;
      assert State() == k.(tcb := k.tcb[cur := t]);
      ExpireSoon(timer);
    }

    /** nrk_wait_until_next_n_periods up to the wait for the scheduler. */
    method WaitUntilNextNPeriods(p: nat, timer: nat)
      requires Valid() && cur != NRK_IDLE_TASK_ID && tcb[cur].state == READY && !tcb[cur].suspendFlag
      modifies this`prevTimerVal, this`nextWakeup, tcb
      ensures Valid() && State() == old(State()).(tcb := old(tcb[..])[cur := Waiting(old(tcb[cur]), p)])
      ensures ExpiresSoon(timer, old(prevTimerVal), old(nextWakeup), prevTimerVal, nextWakeup)
    {
      var p' := p;
      if p' == 0 {
        p' := 1;
      }
      assert TaskOk(State().tcb[cur], cur, cur);
      StartWait(tcb[cur].(suspendFlag := true, numPeriods := p'), timer);
    }

    /** nrk_wait_ticks up to the wait for the scheduler. */
    method WaitTicks(ticks: nat, timer: nat)
      requires Valid() && cur != NRK_IDLE_TASK_ID && tcb[cur].state == READY && !tcb[cur].suspendFlag
      modifies this`prevTimerVal, this`nextWakeup, tcb
      ensures Valid() && State() == old(State()).(tcb := old(tcb[..])[cur := WaitingTicks(old(tcb[cur]), ticks, timer)])
      ensures ExpiresSoon(timer, old(prevTimerVal), old(nextWakeup), prevTimerVal, nextWakeup)
      ensures timer <= old(prevTimerVal) == old(nextWakeup) <= MAX_SCHED_WAKEUP_TIME
          ==> timer <= prevTimerVal <= timer + TIME_PAD
    {
      assert TaskOk(State().tcb[cur], cur, cur);
      StartWait(tcb[cur].(suspendFlag := true, nextWakeup := (ticks + timer) % 0x1_0000), timer);
    }

    /** nrk_terminate_task. */
    method Terminate(timer: nat)
      requires Valid() && cur != NRK_IDLE_TASK_ID && tcb[cur].state == READY && !tcb[cur].suspendFlag
      modifies this`prevTimerVal, this`nextWakeup, tcb, queue, queue.taskIds, queue.prevs, queue.nexts
      ensures Valid()
      ensures State() == KState(old(tcb[..])[cur := Waiting(old(tcb[cur]), 1).(state := FINISHED)],
                                Dequeued(old(queue.Contents()), cur), cur)
      ensures ExpiresSoon(timer, old(prevTimerVal), old(nextWakeup), prevTimerVal, nextWakeup)
    {
      ghost var k := State();
      var t := tcb[cur].(state := FINISHED);
      assert TaskOk(k.tcb[cur], cur, cur);
      SuspendOk(k, cur, t);
      assert cur < tcb.Length && queue.Contents() != [cur];
      hide QueueOk, TasksOk;
      queue.Remove(cur);
      tcb[cur] := t;
      assert tcb[..] == k.tcb[cur := t];
      StartWait(tcb[cur].(suspendFlag := true, numPeriods := 1), timer);
    }

    /** nrk_signal_create: the lowest free signal of 32, or -1. */
    method SignalCreate() returns (id: int)
      modifies this`signals
      ensures if id >= 0 then id < 32 && id !in old(signals) && signals == old(signals) + {id}
              else id == -1 && signals == old(signals)
      ensures forall j: nat | j < (if id >= 0 then id else 32) :: j in old(signals)
    {
      id := 0;
      while id < 32
        invariant 0 <= id <= 32 && forall j: nat | j < id :: j in signals
      {
        if id !in signals {
          signals := signals + {id};
          return;
        }
        id := id + 1;
      }
      id := -1;
    }

    /** nrk_signal_register. */
    method SignalRegister(s: nat) returns (ok: bool)
      requires Valid()
      modifies tcb
      ensures Valid() && ok == (s in signals)
      ensures State() ==
              if ok then
                var t := old(tcb[cur]);
                old(State()).(tcb := old(tcb[..])[cur := t.(registered := t.registered + {s})])
              else old(State())
    {
      ok := s in signals;
      if ok {
        ghost var k := State();
        assert TaskOk(k.tcb[cur], cur, cur);
        ReplaceOk(k, cur, tcb[cur].(registered := tcb[cur].registered + {s}));
        tcb[cur] := tcb[cur].(registered := tcb[cur].registered + {s});
        assert State() == k.(tcb := k.tcb[cur := tcb[cur]]);
      }
    }

    /** nrk_event_wait up to the wait for the scheduler; without a registered signal in the mask it returns at once. */
    method EventWait(mask: set<nat>, timer: nat) returns (waits: bool)
      requires Valid() && cur != NRK_IDLE_TASK_ID && tcb[cur].state == READY && !tcb[cur].suspendFlag
      modifies this`prevTimerVal, this`nextWakeup, tcb
      ensures Valid() && waits == (mask * old(tcb[cur]).registered != {})
      ensures State() ==
              if waits then old(State()).(tcb := old(tcb[..])[cur := Marked(old(tcb[cur]), mask)]) else old(State())
      ensures if waits then ExpiresSoon(timer, old(prevTimerVal), old(nextWakeup), prevTimerVal, nextWakeup)
              else prevTimerVal == old(prevTimerVal) && nextWakeup == old(nextWakeup)
    {
      if mask * tcb[cur].registered == {} {
        return false;
      }
      assert TaskOk(State().tcb[cur], cur, cur);
      var t := tcb[cur].(active := mask, eventSuspend := true);
      if NRK_WAKEUP_SIGNAL in mask {
        StartWait(t.(suspendFlag := true, nwFlag := true), timer);
      } else {
        StartWait(t.(suspendFlag := true, nextWakeup := 0), timer);
      }
      return true;
    }

    /** nrk_event_signal. */
    method EventSignal(s: nat) returns (ok: bool)
      requires Valid()
      modifies tcb
      ensures queue.Valid() && (Valid() <==> !(s in signals && CaughtMarked(old(tcb[cur]), s)))
      ensures State() ==
              if s in signals then old(State()).(tcb := SignalledAll(old(tcb[..]), s, tcb.Length)) else old(State())
      ensures ok == (s in signals
                     && exists i :: 0 <= i < tcb.Length && old(tcb[i].eventSuspend) && s in old(tcb[i].active))
    {
      assert cur < tcb.Length;
      hide TasksOk, QueueOk;
      if s !in signals {
        return false;
      }
      ghost var k := State();
      ok := false;
      var i := 0;
      while i < tcb.Length
        invariant i <= tcb.Length
        invariant tcb[..] == SignalledAll(k.tcb, s, i)
        invariant ok == exists j :: 0 <= j < i && k.tcb[j].eventSuspend && s in k.tcb[j].active
      {
        assert tcb[i] == SignalledAll(k.tcb, s, i)[i] == k.tcb[i];
        if tcb[i].eventSuspend && s in tcb[i].active {
          tcb[i] := tcb[i].(state := SUSPENDED, nextWakeup := 0, eventSuspend := false, active := {s});
          ok := true;
        }
        i := i + 1;
      }
      SignalKeepsOkIff(k, s);
    }
  }
}
