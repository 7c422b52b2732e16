/** When tasks that wait for their periods, or for a number of ticks, become ready again. */
module Periodic {
  import opened Tasks
  import opened Scheduling
  import opened Arithmetic

  datatype Wait = Running | Periods(p: nat)

  /** What happens to one task between two runs of the scheduler: v ticks pass, it is the current task or
      not, and if it is it may have called nrk_wait_until_next_n_periods(p) (p = 1: the next period). */
  datatype Quantum = Quantum(v: nat, current: bool, wait: Wait)

  function StepTask(t: Tcb, q: Quantum): Tcb
    requires Timed(t)
  {
    Step(if q.wait.Periods? then Waiting(t, q.wait.p) else t, q.current, q.v)
  }

  /** The k-th period boundary after offset. */
  function Boundary(offset: int, period: nat, k: nat): int {
    offset + k * period
  }

  ghost predicate OnBoundary(offset: int, period: nat, time: int) {
    exists k: nat :: time == Boundary(offset, period, k)
  }

  lemma NextBoundary(offset: int, period: nat, time: int, n: nat)
    requires OnBoundary(offset, period, time)
    ensures OnBoundary(offset, period, time + n * period)
  {
    var k: nat :| time == Boundary(offset, period, k);
    assert (k + n) * period == k * period + n * period;
    assert time + n * period == Boundary(offset, period, k + n);
  }

  /** A periodic task whose clocks agree with its offset and period at this time. */
  ghost predicate OnSchedule(t: Tcb, offset: int, time: int) {
    // named, so that a goal of this predicate is taken whole and not split into its parts
    var onSchedule :=
      t.taskId > NRK_IDLE_TASK_ID && t.period > 0 && !t.eventSuspend && !t.nwFlag && !t.suspendFlag
      && match t.state
         case READY =>
           t.numPeriods == 1 && 0 < t.nextPeriod <= t.period
           && OnBoundary(offset, t.period, time + t.nextPeriod)
           && (t.nextWakeup == t.nextPeriod || t.nextWakeup == 0)
         case SUSPENDED =>
           t.nextWakeup > 0 && t.numPeriods > 0 && t.period * (t.numPeriods - 1) < TWO_32
           && OnBoundary(offset, t.period, time + t.nextWakeup)
           && (t.nextPeriod == t.nextWakeup
               || (time + t.nextWakeup == offset && t.nextPeriod == t.nextWakeup + t.period))
         case _ => false;
    onSchedule
  }

  /** When a suspended task is due: its next boundary and the periods it skips after it. */
  function Due(t: Tcb, time: int): int
    requires t.numPeriods > 0
  {
    time + t.nextWakeup + (t.numPeriods - 1) * t.period
  }

  /** No quantum outlasts a sleep or crosses a period boundary of the running task, no reserve runs out. */
  predicate Admissible(t: Tcb, q: Quantum) {
    (q.wait.Periods? ==> q.current && (q.wait.p == 0 || t.period * (q.wait.p - 1) < TWO_32))
    && (q.current ==> t.state == READY && !Violates(t, q.v))
    && (t.state == SUSPENDED && t.nextWakeup != 0 ==> q.v <= t.nextWakeup)
    && (t.state == READY ==> q.v <= t.nextPeriod)
  }

  /** A sleeping task stays due at the same time, and is released exactly then. */
  lemma SleeperStep(t: Tcb, q: Quantum, offset: int, time: int)
    requires OnSchedule(t, offset, time) && Admissible(t, q) && t.state == SUSPENDED
    ensures var t' := StepTask(t, q);
            OnSchedule(t', offset, time + q.v) && t'.period == t.period && t'.cpuReserve == t.cpuReserve
            && (if t'.state == READY then time + q.v == Due(t, time) else Due(t', time + q.v) == Due(t, time))
  {
    var t', n := StepTask(t, q), t.numPeriods;
    assert (time + q.v) + (t.nextWakeup - q.v) == time + t.nextWakeup;
    if q.v == t.nextWakeup {
      NextBoundary(offset, t.period, time + q.v, if n == 1 then 1 else n - 1);
      if n > 1 {
        SkipFits(t.period, n);
        assert t'.nextWakeup == t.period * (n - 1);
      } else {
        assert 0 * t.period == 0;
      }
    }
  }

  lemma SkipFits(period: nat, n: nat)
    requires period > 0 && n > 1 && period * (n - 1) < TWO_32
    ensures 0 < period * (n - 1) == period * (n - 1) % TWO_32
    ensures (n - 1) * period == period * (n - 1)
  {}

  /** A running task that does not wait keeps its boundaries. */
  lemma RunnerStep(t: Tcb, q: Quantum, offset: int, time: int)
    requires OnSchedule(t, offset, time) && Admissible(t, q) && t.state == READY && q.wait == Running
    ensures var t' := StepTask(t, q);
            OnSchedule(t', offset, time + q.v) && t'.period == t.period && t'.cpuReserve == t.cpuReserve
            && t'.state == READY
  {
    assert (time + q.v) + (t.nextPeriod - q.v) == time + t.nextPeriod;
    NextBoundary(offset, t.period, time + t.nextPeriod, 1);
  }

  /** How many periods a call of nrk_wait_until_next_n_periods waits for. */
  function WaitedPeriods(w: Wait): (p: nat)
    requires w.Periods?
    ensures p > 0
  {
    if w.p == 0 then 1 else w.p
  }

  /** The clocks of a task that starts to wait. */
  lemma WaiterClocks(t: Tcb, q: Quantum, offset: int, time: int)
    requires OnSchedule(t, offset, time) && Admissible(t, q) && t.state == READY && q.wait.Periods?
    ensures var t', p := StepTask(t, q), WaitedPeriods(q.wait);
            && t'.taskId == t.taskId && t'.period == t.period && t'.cpuReserve == t.cpuReserve
            && !t'.eventSuspend && !t'.nwFlag && !t'.suspendFlag
            && (if q.v < t.nextPeriod then
                  t'.state == SUSPENDED && t'.numPeriods == p && t'.nextWakeup == t'.nextPeriod == t.nextPeriod - q.v
                else if p == 1 then
                  t'.state == READY && t'.numPeriods == 1 && t'.nextWakeup == t'.nextPeriod == t.period
                else
                  t'.state == SUSPENDED && t'.numPeriods == 1
                  && t'.nextWakeup == t'.nextPeriod == t.period * (p - 1) % TWO_32)
  {}

  lemma WaiterOnSchedule(t: Tcb, q: Quantum, offset: int, time: int)
    requires OnSchedule(t, offset, time) && Admissible(t, q) && t.state == READY && q.wait.Periods?
    ensures OnSchedule(StepTask(t, q), offset, time + q.v)
  {
    var p := WaitedPeriods(q.wait);
    WaiterClocks(t, q, offset, time);
    assert (time + q.v) + (t.nextPeriod - q.v) == time + t.nextPeriod;
    NextBoundary(offset, t.period, time + t.nextPeriod, if p == 1 then 1 else p - 1);
    assert t.period * 0 == 0;
    if p > 1 { SkipFits(t.period, p); }
  }

  /** A task that waits for p periods is released at the p-th boundary from now, or is due then. */
  lemma WaiterStep(t: Tcb, q: Quantum, offset: int, time: int)
    requires OnSchedule(t, offset, time) && Admissible(t, q) && t.state == READY && q.wait.Periods?
    ensures var t', release := StepTask(t, q), time + t.nextPeriod + (WaitedPeriods(q.wait) - 1) * t.period;
            OnSchedule(t', offset, time + q.v) && t'.period == t.period && t'.cpuReserve == t.cpuReserve
            && (if t'.state == READY then time + q.v == release else Due(t', time + q.v) == release)
  {
    var p := WaitedPeriods(q.wait);
    WaiterClocks(t, q, offset, time);
    WaiterOnSchedule(t, q, offset, time);
    if p > 1 { SkipFits(t.period, p); } else { assert 0 * t.period == 0; }
  }

  /** One boundary-keeping step, whatever the task does in it. */
  lemma ScheduleStep(t: Tcb, q: Quantum, offset: int, time: int)
    requires OnSchedule(t, offset, time) && Admissible(t, q)
    ensures OnSchedule(StepTask(t, q), offset, time + q.v) && StepTask(t, q).period == t.period
    ensures (t.state == SUSPENDED || q.wait.Periods?) && StepTask(t, q).state == READY
        ==> OnBoundary(offset, t.period, time + q.v)
  {
    if t.state == SUSPENDED {
      SleeperStep(t, q, offset, time);
      assert q.v <= t.nextWakeup;
      if StepTask(t, q).state == READY { assert time + q.v == time + t.nextWakeup; }
    } else if q.wait == Running {
      RunnerStep(t, q, offset, time);
    } else {
      WaiterStep(t, q, offset, time);
      if StepTask(t, q).state == READY { assert time + q.v == time + t.nextPeriod; }
    }
  }

  lemma ActivatedOnSchedule(id: nat, prio: nat, period: nat, offset: nat, reserve: nat)
    requires id > NRK_IDLE_TASK_ID && period > 0
    ensures OnSchedule(Activated(id, prio, period, offset, reserve), offset, 0)
  {
    if offset == 0 {
      assert 0 + period == Boundary(offset, period, 1);
    } else {
      assert 0 + offset == Boundary(offset, period, 0) by { assert 0 * period == 0; }
      assert period * 0 == 0;
    }
  }

  /** The states ts of one task through the quanta qs. */
  ghost predicate TaskRun(ts: seq<Tcb>, qs: seq<Quantum>) {
    |ts| == |qs| + 1
    && forall n: nat {:trigger qs[n]} | n < |qs| :: Stepped(ts[n], qs[n], ts[n + 1])
  }

  ghost predicate Stepped(t: Tcb, q: Quantum, t': Tcb) {
    // named, so that a goal of this predicate is taken whole and not split into its parts
    var stepped := Timed(t) && Admissible(t, q) && t' == StepTask(t, q);
    stepped
  }

  ghost function Elapsed(qs: seq<Quantum>, n: nat): nat
    requires n <= |qs|
  {
    if n == 0 then 0 else Elapsed(qs, n - 1) + qs[n - 1].v
  }

  /** The n-th quantum ends with the task put back into the ready queue. */
  predicate Released(ts: seq<Tcb>, qs: seq<Quantum>, n: nat)
    requires n < |qs| && |ts| == |qs| + 1
  {
    ts[n + 1].state == READY && (ts[n].state == SUSPENDED || qs[n].wait.Periods?)
  }

  /** Exact periodic release of one task: it stays on schedule, and every release falls on its offset plus a whole
      number of periods. */
  lemma {:induction false} TaskReleasesAreExact(ts: seq<Tcb>, qs: seq<Quantum>, offset: int, n: nat)
    requires TaskRun(ts, qs) && OnSchedule(ts[0], offset, 0) && n <= |qs|
    ensures OnSchedule(ts[n], offset, Elapsed(qs, n)) && ts[n].period == ts[0].period
    ensures n > 0 && Released(ts, qs, n - 1) ==> OnBoundary(offset, ts[0].period, Elapsed(qs, n))
    decreases n
  {
    if n > 0 {
      var m := n - 1;
      TaskReleasesAreExact(ts, qs, offset, m);
      assert Stepped(ts[m], qs[m], ts[m + 1]);
      ScheduleStep(ts[m], qs[m], offset, Elapsed(qs, m));
    }
  }

  /** Asleep and due at this time, later than now, or ready just now at this time. */
  ghost predicate Awaits(t: Tcb, offset: int, period: nat, time: int, release: int) {
    // named, so that a goal of this predicate is taken whole and not split into its parts
    var awaits :=
      OnSchedule(t, offset, time) && t.period == period
      && if t.state == READY then time == release
         else t.numPeriods > 0 && time < Due(t, time) == release;
    awaits
  }

  lemma AwaitsStep(t: Tcb, q: Quantum, t': Tcb, offset: int, period: nat, time: int, release: int)
    requires Awaits(t, offset, period, time, release) && t.state != READY && Stepped(t, q, t')
    ensures Awaits(t', offset, period, time + q.v, release)
  {
    SleeperStep(t, q, offset, time);
    DueAhead(StepTask(t, q), offset, time + q.v);
  }

  ghost predicate AwaitsAt(ts: seq<Tcb>, qs: seq<Quantum>, offset: int, period: nat, release: int, n: nat)
    requires |ts| == |qs| + 1 && n <= |qs|
  {
    // named, so that a goal of this predicate is taken whole and not split into its parts
    var awaits := Awaits(ts[n], offset, period, Elapsed(qs, n), release);
    awaits
  }

  lemma {:induction false} AwaitsNext(ts: seq<Tcb>, qs: seq<Quantum>, offset: int, period: nat, release: int, n: nat)
    requires TaskRun(ts, qs) && n < |qs| && AwaitsAt(ts, qs, offset, period, release, n) && ts[n].state != READY
    ensures AwaitsAt(ts, qs, offset, period, release, n + 1)
  {
    assert Stepped(ts[n], qs[n], ts[n + 1]);
    AwaitsStep(ts[n], qs[n], ts[n + 1], offset, period, Elapsed(qs, n), release);
  }

  /** A sleeper stays due at the same time until it is released. */
  lemma {:induction false} DueIsKept(ts: seq<Tcb>, qs: seq<Quantum>, offset: int, period: nat, release: int,
                                     j: nat, n: nat)
    requires TaskRun(ts, qs) && j <= n <= |qs| && AwaitsAt(ts, qs, offset, period, release, j)
    requires forall m: nat | j <= m < n :: ts[m].state != READY
    ensures AwaitsAt(ts, qs, offset, period, release, n)
    decreases n - j
  {
    hide Stepped, AwaitsAt;
    if n > j {
      DueIsKept(ts, qs, offset, period, release, j, n - 1);
      AwaitsNext(ts, qs, offset, period, release, n - 1);
    }
  }

  lemma DueAhead(t: Tcb, offset: int, time: int)
    requires OnSchedule(t, offset, time)
    ensures t.state == SUSPENDED ==> t.numPeriods > 0 && time < Due(t, time)
  {
    if t.state == SUSPENDED {
      assert (t.numPeriods - 1) * t.period >= 0;
    }
  }

  lemma WaiterAwaits(t: Tcb, q: Quantum, t': Tcb, offset: int, time: int)
    requires OnSchedule(t, offset, time) && Stepped(t, q, t') && t.state == READY && q.wait.Periods?
    ensures Awaits(t', offset, t.period, time + q.v,
                   time + t.nextPeriod + (WaitedPeriods(q.wait) - 1) * t.period)
  {
    WaiterStep(t, q, offset, time);
    DueAhead(StepTask(t, q), offset, time + q.v);
  }

  /** When a task that starts to wait in quantum j is to be released. */
  ghost function ReleaseTime(ts: seq<Tcb>, qs: seq<Quantum>, j: nat): int
    requires |ts| == |qs| + 1 && j < |qs| && qs[j].wait.Periods?
  {
    Elapsed(qs, j) + ts[j].nextPeriod + (WaitedPeriods(qs[j].wait) - 1) * ts[j].period
  }

  lemma {:induction false} WaitBegins(ts: seq<Tcb>, qs: seq<Quantum>, offset: int, j: nat)
    requires TaskRun(ts, qs) && OnSchedule(ts[0], offset, 0)
    requires j < |qs| && ts[j].state == READY && qs[j].wait.Periods?
    ensures AwaitsAt(ts, qs, offset, ts[j].period, ReleaseTime(ts, qs, j), j + 1)
  {
    TaskReleasesAreExact(ts, qs, offset, j);
    assert Stepped(ts[j], qs[j], ts[j + 1]);
    WaiterAwaits(ts[j], qs[j], ts[j + 1], offset, Elapsed(qs, j));
  }

  lemma {:induction false} WaitEnds(ts: seq<Tcb>, qs: seq<Quantum>, offset: int, period: nat, release: int,
                                    j: nat, n: nat)
    requires TaskRun(ts, qs) && j <= n <= |qs| && AwaitsAt(ts, qs, offset, period, release, j)
    requires forall m: nat | j <= m < n :: ts[m].state != READY
    ensures ts[n].state == READY <==> Elapsed(qs, n) == release
  {
    DueIsKept(ts, qs, offset, period, release, j, n);
  }

  /** No boundary is skipped: a task that waits for p periods in quantum j is next ready exactly at the p-th boundary
      from then. */
  lemma {:induction false} NextReleaseIsExact(ts: seq<Tcb>, qs: seq<Quantum>, offset: int, j: nat, n: nat)
    requires TaskRun(ts, qs) && OnSchedule(ts[0], offset, 0) && j < n <= |qs|
    requires ts[j].state == READY && qs[j].wait.Periods? && forall m: nat | j < m < n :: ts[m].state != READY
    ensures ts[n].state == READY <==> Elapsed(qs, n) == ReleaseTime(ts, qs, j)
  {
    hide OnSchedule, Stepped, AwaitsAt, ReleaseTime;
    WaitBegins(ts, qs, offset, j);
    WaitEnds(ts, qs, offset, ts[j].period, ReleaseTime(ts, qs, j), j + 1, n);
  }

  // ----- sleeping for a number of ticks -----

  /** Asleep until its wakeup, with no signal to wait for. */
  predicate Asleep(t: Tcb) {
    t.taskId > NRK_IDLE_TASK_ID && t.period > 0 && t.state == SUSPENDED && t.numPeriods == 1
    && !t.eventSuspend && !t.suspendFlag && t.nextWakeup > 0
  }

  /** A sleeper is ready exactly when its wakeup has elapsed. */
  lemma {:induction false} SleeperWakes(ts: seq<Tcb>, qs: seq<Quantum>, n: nat)
    requires TaskRun(ts, qs) && Asleep(ts[0]) && n <= |qs|
    requires forall m: nat | m < n :: ts[m].state != READY
    ensures if Elapsed(qs, n) < ts[0].nextWakeup
            then Asleep(ts[n]) && ts[n].nextWakeup == ts[0].nextWakeup - Elapsed(qs, n)
            else ts[n].state == READY && Elapsed(qs, n) == ts[0].nextWakeup
    decreases n
  {
    if n > 0 {
      SleeperWakes(ts, qs, n - 1);
      assert Stepped(ts[n - 1], qs[n - 1], ts[n - 1 + 1]);
    }
  }

  /** When a task is woken that called nrk_wait_ticks(ticks) timer ticks into a turn that ends after v, counted from
      the start of the turn: at the 16-bit sum, or at its period boundary if that sum is 0, and never in its turn. */
  function WokenAt(t: Tcb, ticks: nat, timer: nat, v: nat): nat {
    var sum := (ticks + timer) % 0x1_0000;
    var due := if sum == 0 then t.nextPeriod else sum;
    if due < v then v else due
  }

  /** One task through nrk_wait_ticks. */
  lemma {:induction false} TicksOfTask(t: Tcb, ticks: nat, timer: nat, v: nat, ts: seq<Tcb>, qs: seq<Quantum>, n: nat)
    requires t.taskId > NRK_IDLE_TASK_ID && t.period > 0 && t.state == READY && t.numPeriods == 1 && !t.eventSuspend
    requires TaskRun(ts, qs) && ts[0] == Step(WaitingTicks(t, ticks, timer), true, v) && n <= |qs|
    requires forall m: nat | m < n :: ts[m].state != READY
    ensures ts[n].state == READY <==> v + Elapsed(qs, n) == WokenAt(t, ticks, timer, v)
    ensures v + Elapsed(qs, n) <= WokenAt(t, ticks, timer, v)
  {
    if ts[0].state != READY {
      assert Asleep(ts[0]) && ts[0].nextWakeup == WokenAt(t, ticks, timer, v) - v;
      SleeperWakes(ts, qs, n);
    }
  }

  lemma SleepsOrReady(t: Tcb, ticks: nat, timer: nat, v: nat)
    requires t.taskId > NRK_IDLE_TASK_ID && t.period > 0 && t.state == READY && t.numPeriods == 1 && !t.eventSuspend
    ensures var t' := Step(WaitingTicks(t, ticks, timer), true, v); t'.state == SUSPENDED ==> t'.nextWakeup != 0
    ensures WaitingTicks(t, ticks, timer).taskId == t.taskId
  {}

  lemma WokenInTime(t: Tcb, ticks: nat, timer: nat, v: nat)
    ensures v <= timer + 2 && 2 <= ticks && ticks + timer < 0x1_0000 ==> WokenAt(t, ticks, timer, v) == ticks + timer
  {}

  /** The task is woken exactly ticks ticks after the call if and only if the sum does not overflow 16 bits and its turn
      is over by then, or just then; a sum that is 0 in 16 bits is taken for no wakeup at all, and then exactly if the
      period boundary, or the end of the turn after it, happens to be at the sum. */
  lemma WokenExactlyIff(t: Tcb, ticks: nat, timer: nat, v: nat)
    ensures var sum := ticks + timer;
            WokenAt(t, ticks, timer, v) == sum
            <==> if sum % 0x1_0000 != 0 then v == sum || v <= sum < 0x1_0000
                 else sum == if t.nextPeriod < v then v else t.nextPeriod
  {}

  // ----- when a period boundary is lost -----

  /** The period clock stays in phase over v ticks if and only if no boundary is crossed, or the run is late by a
      whole period or more and happens to fall on the doubled phase. */
  lemma PhaseOfClock(next: nat, period: nat, v: nat)
    requires 0 < next <= period
    ensures (NextPeriodAfter(next, period, v) + v - next) % period == 0
       <==> v <= next || (period <= v && (2 * v - next) % period == 0)
  {
    var n := NextPeriodAfter(next, period, v);
    var drift := n + v - next;
    if v <= next {
      DivisionUnique(drift, period, if v == next then 1 else 0, 0);
    } else if v < period {
      DivisionUnique(drift, period, 0, drift);
    } else {
      DriftAfterPeriods(next, period, v);
    }
  }

  /** Between two runs of the scheduler a READY task that does not wait moves its next boundary by whole periods
      under exactly that condition. */
  lemma PhaseKeptIff(t: Tcb, current: bool, v: nat)
    requires t.taskId > NRK_IDLE_TASK_ID && t.state == READY && !t.suspendFlag && 0 < t.nextPeriod <= t.period
    requires t.numPeriods > 0 && (current ==> !Violates(t, v))
    ensures var t' := Step(t, current, v);
            t'.state == READY
            && ((t'.nextPeriod + v - t.nextPeriod) % t.period == 0
                <==> v <= t.nextPeriod || (t.period <= v && (2 * v - t.nextPeriod) % t.period == 0))
  {
    PhaseOfClock(t.nextPeriod, t.period, v);
    assert Step(t, current, v).nextPeriod == NextPeriodAfter(t.nextPeriod, t.period, v);
  }

  /** A boundary in 3 ticks, a period of 10 and a run 5 ticks later: the next boundary is then put in 5 ticks
      instead of 8. */
  lemma PhaseLost() returns (t: Tcb)
    ensures t.taskId > NRK_IDLE_TASK_ID && t.state == READY && !t.suspendFlag && t.numPeriods == 1
    ensures !Violates(t, 5) && t.period == 10 && t.nextPeriod == 3
    ensures (Step(t, true, 5).nextPeriod + 5 - t.nextPeriod) % t.period != 0
  {
    t := Activated(1, 1, 10, 0, 0).(nextWakeup := 3, nextPeriod := 3);
    PhaseKeptIff(t, true, 5);
  }

  lemma DriftAfterPeriods(next: nat, period: nat, v: nat)
    requires 0 < next <= period <= v && next < v
    ensures (NextPeriodAfter(next, period, v) + v - next) % period == (2 * v - next) % period
  {
    var r := v % period;
    var k := if r == 0 then 1 else 0;
    var q := k - v / period;
    assert v == v / period * period + r;
    assert q * period == k * period - v / period * period;
    assert k * period == if r == 0 then period else 0;
    SameRemainder(NextPeriodAfter(next, period, v) + v - next, 2 * v - next, q, period);
  }

  // ----- whole runs of the kernel -----

  /** The state just before a run of the scheduler, and the ticks that run finds elapsed. */
  datatype Turn = Turn(before: KState, v: nat)

  /** Between runs, task i is left alone, unless it is running and starts to wait for its periods. */
  ghost predicate Between(k: KState, m: KState, i: nat, w: Wait)
    requires i < |k.tcb| == |m.tcb|
  {
    Ok(m) && m.cur == k.cur
    && (w.Periods? ==> i == k.cur && k.tcb[i].state == READY && (w.p == 0 || k.tcb[i].period * (w.p - 1) < TWO_32))
    && m.tcb[i] == if w.Periods? then Waiting(k.tcb[i], w.p) else k.tcb[i]
  }

  ghost predicate Sound(turns: seq<Turn>, tasks: nat) {
    forall j | 0 <= j < |turns| :: Ok(turns[j].before) && |turns[j].before.tcb| == tasks
  }

  ghost function After(turns: seq<Turn>, k: KState, j: nat): (k': KState)
    requires j <= |turns| && Sound(turns, |k.tcb|)
    ensures |k'.tcb| == |k.tcb|
  {
    if j == 0 then k else Run(turns[j - 1].before, turns[j - 1].v)
  }

  /** Turn j follows from the state before it as task i allows. */
  ghost predicate TurnAt(k: KState, turns: seq<Turn>, waits: seq<Wait>, i: nat, j: nat)
    requires j < |turns| == |waits| && i < |k.tcb| && Sound(turns, |k.tcb|)
  {
    Between(After(turns, k, j), turns[j].before, i, waits[j])
  }

  /** Turn j ends no later than the run of the scheduler before it programmed. */
  ghost predicate InTime(turns: seq<Turn>, tasks: nat, j: nat, powerDown: bool, sleepWakeup: nat)
    requires 0 < j < |turns| && Sound(turns, tasks) && sleepWakeup <= MAX_SCHED_WAKEUP_TIME
  {
    turns[j].v <= NextWakeAfter(turns[j - 1].before, turns[j - 1].v, powerDown, sleepWakeup)
  }

  /** A run of the kernel from k: each run of the scheduler comes no later than the previous one programmed. */
  ghost predicate KernelRun(k: KState, turns: seq<Turn>, waits: seq<Wait>, i: nat, powerDown: bool, sleepWakeup: nat) {
    |waits| == |turns| && i < |k.tcb| && Ok(k) && k.tcb[k.cur].state == READY && sleepWakeup <= MAX_SCHED_WAKEUP_TIME
    && Sound(turns, |k.tcb|)
    && (forall j: nat {:trigger TurnAt(k, turns, waits, i, j)} | j < |turns| :: TurnAt(k, turns, waits, i, j))
    && (|turns| > 0 && k.tcb[i].state == SUSPENDED ==> turns[0].v <= k.tcb[i].nextWakeup)
    && (forall j: nat {:trigger InTime(turns, |k.tcb|, j, powerDown, sleepWakeup)} | 0 < j < |turns| ::
          InTime(turns, |k.tcb|, j, powerDown, sleepWakeup))
  }

  /** Task i does not cross a period boundary while ready, and its reserve suffices. */
  ghost predicate Keeps(m: KState, v: nat, i: nat) {
    i < |m.tcb| && m.tcb[i].state == READY ==>
      v <= m.tcb[i].nextPeriod && !(m.cur == i && Violates(m.tcb[i], v))
  }

  ghost predicate KeepsUp(turns: seq<Turn>, i: nat) {
    forall n: nat | n < |turns| :: Keeps(turns[n].before, turns[n].v, i)
  }

  /** What task i goes through in a run of the kernel. */
  ghost function TaskStates(turns: seq<Turn>, k: KState, i: nat): (ts: seq<Tcb>)
    requires i < |k.tcb| && Sound(turns, |k.tcb|)
    ensures |ts| == |turns| + 1
  {
    seq(|turns| + 1, n requires 0 <= n <= |turns| => After(turns, k, n).tcb[i])
  }

  ghost function TaskQuanta(turns: seq<Turn>, waits: seq<Wait>, i: nat): (qs: seq<Quantum>)
    requires |waits| == |turns|
    ensures |qs| == |turns| && forall n | 0 <= n < |qs| :: qs[n].wait == waits[n]
  {
    seq(|turns|, n requires 0 <= n < |turns| => Quantum(turns[n].v, i == turns[n].before.cur, waits[n]))
  }

  /** The running task is ready, and v ticks take no sleeper past its wakeup. */
  ghost predicate Rested(k: KState, v: nat) {
    Ok(k) && k.tcb[k.cur].state == READY
    && forall i: nat | i < |k.tcb| && k.tcb[i].state == SUSPENDED && k.tcb[i].nextWakeup != 0 ::
         v <= k.tcb[i].nextWakeup
  }

  lemma RunRests(k: KState, v: nat, powerDown: bool, sleepWakeup: nat, next: nat)
    requires Ok(k) && sleepWakeup <= MAX_SCHED_WAKEUP_TIME
    requires next <= NextWakeAfter(k, v, powerDown, sleepWakeup)
    ensures Rested(Run(k, v), next)
  {
    HeadIsReady(TickAll(Charge(SwapOut(k), v), v, |k.tcb|));
    NoOversleep(k, v, powerDown, sleepWakeup);
  }

  /** A turn is a quantum of task i. */
  lemma TurnStepsTask(a: KState, m: KState, v: nat, i: nat, w: Wait)
    requires Ok(a) && i < |a.tcb| == |m.tcb| && Between(a, m, i, w)
    ensures Timed(a.tcb[i]) && Run(m, v).tcb[i] == StepTask(a.tcb[i], Quantum(v, i == m.cur, w))
  {
    assert TaskOk(a.tcb[i], i, a.cur);
    RunStepsTask(m, v, i);
  }

  lemma TurnIsAdmissible(a: KState, m: KState, v: nat, i: nat, w: Wait)
    requires i < |a.tcb| == |m.tcb| && Between(a, m, i, w) && a.tcb[a.cur].state == READY
    requires a.tcb[i].state == SUSPENDED && a.tcb[i].nextWakeup != 0 ==> v <= a.tcb[i].nextWakeup
    requires Keeps(m, v, i)
    ensures Admissible(a.tcb[i], Quantum(v, i == m.cur, w))
  {}

  /** One turn of a kernel run, seen by task i. */
  lemma {:induction false} TurnIsStep(k: KState, turns: seq<Turn>, waits: seq<Wait>, i: nat,
                         powerDown: bool, sleepWakeup: nat, n: nat)
    requires KernelRun(k, turns, waits, i, powerDown, sleepWakeup) && KeepsUp(turns, i) && n < |turns|
    ensures Stepped(TaskStates(turns, k, i)[n], TaskQuanta(turns, waits, i)[n], TaskStates(turns, k, i)[n + 1])
  {
    hide StepTask, Admissible, Run, NextWakeAfter;
    var a, m, v := After(turns, k, n), turns[n].before, turns[n].v;
    assert TurnAt(k, turns, waits, i, n) && Keeps(m, v, i);
    if n > 0 {
      assert InTime(turns, |k.tcb|, n, powerDown, sleepWakeup);
      RunRests(turns[n - 1].before, turns[n - 1].v, powerDown, sleepWakeup, v);
    }
    TurnIsAdmissible(a, m, v, i, waits[n]);
    TurnStepsTask(a, m, v, i, waits[n]);
  }

  lemma {:induction false} KernelRunIsTaskRun(k: KState, turns: seq<Turn>, waits: seq<Wait>, i: nat,
                         powerDown: bool, sleepWakeup: nat)
    requires KernelRun(k, turns, waits, i, powerDown, sleepWakeup) && KeepsUp(turns, i)
    ensures TaskRun(TaskStates(turns, k, i), TaskQuanta(turns, waits, i))
  {
    var ts, qs := TaskStates(turns, k, i), TaskQuanta(turns, waits, i);
    forall n: nat {:trigger qs[n]} | n < |qs| ensures Stepped(ts[n], qs[n], ts[n + 1]) {
      TurnIsStep(k, turns, waits, i, powerDown, sleepWakeup, n);
    }
  }

  /** Exact periodic release in the whole kernel: whatever the other tasks do, a task that keeps up is released
      exactly at its offset plus whole numbers of periods. */
  lemma {:induction false} ReleasesAreExact(k: KState, turns: seq<Turn>, waits: seq<Wait>, i: nat,
                         powerDown: bool, sleepWakeup: nat, offset: int, n: nat)
    requires KernelRun(k, turns, waits, i, powerDown, sleepWakeup) && KeepsUp(turns, i)
    requires OnSchedule(k.tcb[i], offset, 0) && n < |turns|
    ensures var ts, qs := TaskStates(turns, k, i), TaskQuanta(turns, waits, i);
            && OnSchedule(ts[n + 1], offset, Elapsed(qs, n + 1))
            && (Released(ts, qs, n) ==> OnBoundary(offset, k.tcb[i].period, Elapsed(qs, n + 1)))
  {
    hide Ok, Run, NextWakeAfter, OnSchedule, OnBoundary, Stepped, Elapsed;
    KernelRunIsTaskRun(k, turns, waits, i, powerDown, sleepWakeup);
    TaskReleasesAreExact(TaskStates(turns, k, i), TaskQuanta(turns, waits, i), offset, n + 1);
  }

  /** In the whole kernel no release is skipped: after a wait for p periods the task is next ready exactly at the
      p-th boundary, whatever the other tasks do. */
  lemma {:induction false} KernelReleaseIsExact(k: KState, turns: seq<Turn>, waits: seq<Wait>, i: nat,
                             powerDown: bool, sleepWakeup: nat, offset: int, j: nat, n: nat)
    requires KernelRun(k, turns, waits, i, powerDown, sleepWakeup) && KeepsUp(turns, i)
    requires OnSchedule(k.tcb[i], offset, 0) && j < n <= |turns| && waits[j].Periods?
    requires var ts := TaskStates(turns, k, i);
             ts[j].state == READY && forall m: nat | j < m < n :: ts[m].state != READY
    ensures var ts, qs := TaskStates(turns, k, i), TaskQuanta(turns, waits, i);
            ts[n].state == READY <==> Elapsed(qs, n) == ReleaseTime(ts, qs, j)
  {
    hide Ok, Run, NextWakeAfter, OnSchedule, Stepped, Elapsed, ReleaseTime;
    KernelRunIsTaskRun(k, turns, waits, i, powerDown, sleepWakeup);
    NextReleaseIsExact(TaskStates(turns, k, i), TaskQuanta(turns, waits, i), offset, j, n);
  }

  // ----- waiting for ticks in the whole kernel -----

  /** The turns after nrk_wait_ticks: task i does nothing, and no run of the scheduler comes later than the one
      before it programmed, from the run that swaps the task out on. */
  ghost predicate TurnsAfter(m: KState, v: nat, turns: seq<Turn>, i: nat, powerDown: bool, sleepWakeup: nat) {
    Ok(m) && i < |m.tcb| && sleepWakeup <= MAX_SCHED_WAKEUP_TIME && Sound(turns, |m.tcb|)
    && var k, waits := Run(m, v), NoWaits(|turns|);
       (forall j: nat {:trigger TurnAt(k, turns, waits, i, j)} | j < |turns| :: TurnAt(k, turns, waits, i, j))
       && (|turns| > 0 ==> turns[0].v <= NextWakeAfter(m, v, powerDown, sleepWakeup))
       && (forall j: nat {:trigger InTime(turns, |k.tcb|, j, powerDown, sleepWakeup)} | 0 < j < |turns| ::
             InTime(turns, |k.tcb|, j, powerDown, sleepWakeup))
  }

  function NoWaits(n: nat): seq<Wait> {
    seq(n, j => Running)
  }

  lemma TurnsAreKernelRun(m: KState, v: nat, turns: seq<Turn>, i: nat, powerDown: bool, sleepWakeup: nat)
    requires TurnsAfter(m, v, turns, i, powerDown, sleepWakeup)
    requires Run(m, v).tcb[i].state == SUSPENDED ==> Run(m, v).tcb[i].nextWakeup != 0
    ensures KernelRun(Run(m, v), turns, NoWaits(|turns|), i, powerDown, sleepWakeup)
  {
    if |turns| > 0 { RunRests(m, v, powerDown, sleepWakeup, turns[0].v); }
    HeadIsReady(TickAll(Charge(SwapOut(m), v), v, |m.tcb|));
  }

  /** A task that is not ready keeps up with anything. */
  lemma {:induction false} SleeperKeepsUp(k: KState, turns: seq<Turn>, waits: seq<Wait>, i: nat,
                         powerDown: bool, sleepWakeup: nat)
    requires KernelRun(k, turns, waits, i, powerDown, sleepWakeup) && waits == NoWaits(|turns|)
    requires forall j: nat | j < |turns| :: TaskStates(turns, k, i)[j].state != READY
    ensures KeepsUp(turns, i)
  {
    forall n: nat | n < |turns| ensures Keeps(turns[n].before, turns[n].v, i) {
      assert TurnAt(k, turns, waits, i, n);
      assert TaskStates(turns, k, i)[n] == After(turns, k, n).tcb[i];
    }
  }

  /** nrk_wait_ticks in the whole kernel: the running task calls it timer ticks into its turn, the scheduler swaps it
      out after v, and the task is READY exactly when it is to be woken, whatever the other tasks do. With the timer
      brought forward by the call, v <= timer + 2, that is exactly ticks ticks after any call with ticks >= 2 whose sum
      fits 16 bits. */
  lemma {:induction false} WaitTicksIsExact(m: KState, t: Tcb, ticks: nat, timer: nat, v: nat, turns: seq<Turn>,
                         powerDown: bool, sleepWakeup: nat)
    requires TurnsAfter(m, v, turns, m.cur, powerDown, sleepWakeup)
    requires m.cur != NRK_IDLE_TASK_ID && TaskOk(t, m.cur, m.cur) && t.state == READY && !t.suspendFlag
    requires m.tcb[m.cur] == WaitingTicks(t, ticks, timer)
    requires forall j: nat | j < |turns| :: TaskStates(turns, Run(m, v), m.cur)[j].state != READY
    ensures var ts, qs := TaskStates(turns, Run(m, v), m.cur), TaskQuanta(turns, NoWaits(|turns|), m.cur);
            && (ts[|turns|].state == READY <==> v + Elapsed(qs, |turns|) == WokenAt(t, ticks, timer, v))
            && v + Elapsed(qs, |turns|) <= WokenAt(t, ticks, timer, v)
            && (v <= timer + 2 && 2 <= ticks && ticks + timer < 0x1_0000 ==>
                  (ts[|turns|].state == READY <==> v + Elapsed(qs, |turns|) - timer == ticks))
  {
    var k, i, waits := Run(m, v), m.cur, NoWaits(|turns|);
    RunStepsTask(m, v, i);
    assert m.tcb[i].taskId == i && t.numPeriods == 1 && !t.eventSuspend && t.period > 0;
    hide NextWakeAfter, Elapsed, Run, Step, WaitingTicks, WokenAt, TaskOk;
    SleepsOrReady(t, ticks, timer, v);
    WokenInTime(t, ticks, timer, v);
    TurnsAreKernelRun(m, v, turns, i, powerDown, sleepWakeup);
    SleeperKeepsUp(k, turns, waits, i, powerDown, sleepWakeup);
    KernelRunIsTaskRun(k, turns, waits, i, powerDown, sleepWakeup);
    TicksOfTask(t, ticks, timer, v, TaskStates(turns, k, i), TaskQuanta(turns, waits, i), |turns|);
  }
}
