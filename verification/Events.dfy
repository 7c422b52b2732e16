/** Waiting for signals and being woken by them. */
module Events {
  import opened Tasks
  import opened Scheduling

  /** nrk_event_wait up to the swap-out, when the task has registered for a signal of the mask. */
  function Marked(t: Tcb, mask: set<nat>): Tcb {
    var t := t.(active := mask, eventSuspend := true, suspendFlag := true);
    if NRK_WAKEUP_SIGNAL in mask then t.(nwFlag := true) else t.(nextWakeup := 0)
  }

  /** What nrk_event_signal(s) does to one task. */
  function Signalled(t: Tcb, s: nat): Tcb {
    if t.eventSuspend && s in t.active
    then t.(state := SUSPENDED, nextWakeup := 0, eventSuspend := false, active := {s})
    else t
  }

  function SignalledAll(tcb: seq<Tcb>, s: nat, n: nat): (tcb': seq<Tcb>)
    requires n <= |tcb|
    ensures |tcb'| == |tcb|
  {
    seq(|tcb|, i requires 0 <= i < |tcb| => if i < n then Signalled(tcb[i], s) else tcb[i])
  }

  /** The signal finds the task marked as waiting for it, but still in the ready queue. */
  predicate CaughtMarked(t: Tcb, s: nat) {
    t.state == READY && t.eventSuspend && s in t.active
  }

  /** Signalling changes no queue position, and keeps table and queue in order if and only if it does not come between
      the marking and the swap-out of a task that it concerns. */
  lemma {:induction false} SignalKeepsOkIff(k: KState, s: nat)
    requires Ok(k)
    ensures Ok(k.(tcb := SignalledAll(k.tcb, s, |k.tcb|))) <==> !CaughtMarked(k.tcb[k.cur], s)
  {
    var tcb' := SignalledAll(k.tcb, s, |k.tcb|);
    assert Keys(tcb') == Keys(k.tcb);
    if CaughtMarked(k.tcb[k.cur], s) {
      assert k.cur in k.q && tcb'[k.cur].state != READY;
    } else {
      forall i: nat | i < |tcb'|
        ensures TaskOk(tcb'[i], i, k.cur) && (tcb'[i].state == READY <==> k.tcb[i].state == READY)
      {
        assert TaskOk(k.tcb[i], i, k.cur);
      }
    }
  }

  /** Waiting for a signal of the mask, out of the ready queue. */
  predicate WaitsFor(t: Tcb, mask: set<nat>) {
    t.taskId > NRK_IDLE_TASK_ID && t.period > 0 && t.numPeriods == 1 && t.eventSuspend && t.active == mask
    && (if NRK_WAKEUP_SIGNAL in mask then t.nwFlag && t.state == SUSPENDED && t.nextWakeup > 0
        else !t.nwFlag && t.state == EVENT_SUSPENDED)
  }

  /** Signalled, to be released by the next run of the scheduler. */
  predicate Alerted(t: Tcb, mask: set<nat>, s: nat) {
    t.taskId > NRK_IDLE_TASK_ID && t.period > 0 && t.numPeriods == 1 && !t.eventSuspend && t.state == SUSPENDED
    && t.nextWakeup == 0 && t.active == {s} && s in mask
  }

  /** Back in the ready queue, with the signal that nrk_event_wait returns. */
  predicate Returns(t: Tcb, s: nat) {
    t.state == READY && t.active == {s} && !t.eventSuspend
  }

  /** The swap-out turns a marked task into a waiting one, or returns the wakeup signal at once when its own
      wakeup is already due. Only if its reserve runs out in the same run, and its mask has no wakeup signal, the task
      is READY again at once without a signal: its result is then the whole mask. */
  lemma SwapOutWaits(t: Tcb, mask: set<nat>, v: nat)
    requires t.taskId > NRK_IDLE_TASK_ID && t.period > 0 && t.numPeriods == 1 && t.state == READY && !t.nwFlag
    ensures var t' := Step(Marked(t, mask), true, v);
            if Violates(t, v) && NRK_WAKEUP_SIGNAL !in mask then
              t'.state == READY && t'.active == mask && !t'.eventSuspend
            else if NRK_WAKEUP_SIGNAL in mask && t.nextWakeup <= v then Returns(t', NRK_WAKEUP_SIGNAL)
            else WaitsFor(t', mask) && (NRK_WAKEUP_SIGNAL in mask ==> t'.nextWakeup == t.nextWakeup - v)
  {}

  datatype Event = Signal(s: nat) | Tick(v: nat)

  function Happens(t: Tcb, e: Event): Tcb
    requires Timed(t)
  {
    match e
    case Signal(s) => Signalled(t, s)
    case Tick(v) => Step(t, false, v)
  }

  /** A signal wakes exactly the tasks that wait with it in their mask, and nobody else notices. */
  lemma SignalWakesExactly(t: Tcb, mask: set<nat>, s: nat, v: nat)
    requires WaitsFor(t, mask)
    ensures s in mask ==> Alerted(Signalled(t, s), mask, s) && Returns(Step(Signalled(t, s), false, v), s)
    ensures s !in mask ==> Signalled(t, s) == t
  {}

  lemma OthersUnaffected(t: Tcb, s: nat)
    requires !t.eventSuspend
    ensures Signalled(t, s) == t
  {}

  /** Where a waiting task can be after any signals and ticks. */
  ghost predicate OnItsWay(t: Tcb, mask: set<nat>) {
    WaitsFor(t, mask) || exists s :: Alerted(t, mask, s)
  }

  lemma EventStep(t: Tcb, mask: set<nat>, e: Event) returns (s: nat)
    requires OnItsWay(t, mask)
    ensures Timed(t)
    ensures OnItsWay(Happens(t, e), mask) || (Returns(Happens(t, e), s) && s in mask)
  {
    if WaitsFor(t, mask) {
      s := if e.Signal? then e.s else NRK_WAKEUP_SIGNAL;
      if e.Signal? && e.s in mask { assert Alerted(Happens(t, e), mask, s); }
    } else {
      s :| Alerted(t, mask, s);
      if e.Signal? { assert Alerted(Happens(t, e), mask, s); }
    }
  }

  /** The state of a task after events, stopping when it is READY. */
  function Outcome(t: Tcb, es: seq<Event>): Tcb
    requires Timed(t)
    decreases |es|
  {
    if es == [] || t.state == READY then t
    else
      HappensTimed(t, es[0]);
      Outcome(Happens(t, es[0]), es[1..])
  }

  lemma HappensTimed(t: Tcb, e: Event)
    requires Timed(t)
    ensures Timed(Happens(t, e))
  {}

  /** A completed nrk_event_wait returns a signal of its mask, whatever signals are sent meanwhile. */
  lemma {:induction false} EventWaitReturnsItsSignal(t: Tcb, mask: set<nat>, es: seq<Event>)
    requires OnItsWay(t, mask)
    ensures Timed(t)
    ensures OnItsWay(Outcome(t, es), mask) || exists s :: s in mask && Returns(Outcome(t, es), s)
    decreases |es|
  {
    if es != [] {
      var s := EventStep(t, mask, es[0]);
      var t' := Happens(t, es[0]);
      if OnItsWay(t', mask) {
        EventWaitReturnsItsSignal(t', mask, es[1..]);
      } else {
        assert s in mask && Returns(Outcome(t', es[1..]), s);
      }
    }
  }

  /** Why a signal must not come between the marking and the swap-out: the task then sleeps until its period
      boundary instead of waking, unless that boundary is due in the very same run. */
  lemma EarlySignalIsLost(t: Tcb, mask: set<nat>, s: nat, v: nat)
    requires t.taskId > NRK_IDLE_TASK_ID && t.period > 0 && t.numPeriods == 1 && t.state == READY && !t.nwFlag
    requires t.nextPeriod > 0 && s in mask
    ensures var t' := Step(Signalled(Marked(t, mask), s), true, v);
            (t'.state == READY <==> t.nextPeriod <= v) && !t'.eventSuspend && !t'.nwFlag
  {}

  // ----- signals in the whole kernel -----

  /** nrk_event_signal in the kernel. */
  ghost function SignalIn(k: KState, s: nat): KState {
    k.(tcb := SignalledAll(k.tcb, s, |k.tcb|))
  }

  predicate Listens(t: Tcb, s: nat) {
    t.eventSuspend && s in t.active
  }

  /** What a signal changes about the next run of the scheduler: the tasks that wait for it are READY after it, with
      this signal as their result, and all the others are as they would be without it. */
  lemma {:induction false} SignalReleasesExactly(k: KState, s: nat, v: nat, i: nat)
    requires Ok(k) && i < |k.tcb| && k.tcb[k.cur].state == READY && !CaughtMarked(k.tcb[k.cur], s)
    ensures Ok(SignalIn(k, s))
    ensures if Listens(k.tcb[i], s) then Returns(Run(SignalIn(k, s), v).tcb[i], s)
            else Run(SignalIn(k, s), v).tcb[i] == Run(k, v).tcb[i]
  {
    SignalKeepsOkIff(k, s);
    assert TaskOk(k.tcb[i], i, k.cur);
    RunStepsTask(k, v, i);
    RunStepsTask(SignalIn(k, s), v, i);
    hide QueueOk, TasksOk, TaskOk, Step, Run;
    if Listens(k.tcb[i], s) { ListenerReturns(k.tcb[i], i, k.cur, s, v); }
  }

  lemma ListenerReturns(t: Tcb, i: nat, cur: nat, s: nat, v: nat)
    requires TaskOk(t, i, cur) && Listens(t, s) && i != cur
    ensures Timed(Signalled(t, s)) && Returns(Step(Signalled(t, s), false, v), s)
  {}

  /** What can happen in the kernel while task i waits: a signal is sent, the scheduler runs, or the running task does
      something else that leaves task i alone. */
  datatype Deed = Sends(s: nat) | Runs(v: nat) | Acts

  ghost predicate Leads(k: KState, e: Deed, k': KState, i: nat) {
    Ok(k) && i < |k.tcb| == |k'.tcb|
    && match e
       case Sends(s) => k' == SignalIn(k, s)
       case Runs(v) => k' == Run(k, v)
       case Acts => k'.cur == k.cur && k'.tcb[i] == k.tcb[i]
  }

  ghost predicate KernelEvents(ks: seq<KState>, es: seq<Deed>, i: nat) {
    |ks| == |es| + 1 && Ok(ks[|es|]) && forall n: nat {:trigger es[n]} | n < |es| :: Leads(ks[n], es[n], ks[n + 1], i)
  }

  /** Task i waits, or has been signalled by one of the deeds. */
  ghost predicate Pending(k: KState, es: seq<Deed>, i: nat, mask: set<nat>) {
    i < |k.tcb| && i != k.cur
    && (WaitsFor(k.tcb[i], mask) || exists s :: Sends(s) in es && Alerted(k.tcb[i], mask, s))
  }

  /** Task i is back with a signal of its mask that one of the deeds sent, or with the wakeup signal. */
  ghost predicate Answered(t: Tcb, es: seq<Deed>, mask: set<nat>) {
    exists s :: s in mask && Returns(t, s) && (s == NRK_WAKEUP_SIGNAL || Sends(s) in es)
  }

  lemma {:induction false} PendingStep(k: KState, e: Deed, k': KState, before: seq<Deed>, i: nat, mask: set<nat>)
    requires Leads(k, e, k', i) && Pending(k, before, i, mask)
    ensures i < |k'.tcb| && (Pending(k', before + [e], i, mask) || Answered(k'.tcb[i], before + [e], mask))
  {
    var t, t' := k.tcb[i], k'.tcb[i];
    hide Ok, Run;
    if e.Runs? {
      RunStepsTask(k, e.v, i);
      HeadRuns(k, e.v);
    }
    if WaitsFor(t, mask) {
      if e.Sends? && e.s in mask {
        assert Sends(e.s) in before + [e] && Alerted(t', mask, e.s);
      } else if e.Runs? && !WaitsFor(t', mask) {
        assert NRK_WAKEUP_SIGNAL in mask && Returns(t', NRK_WAKEUP_SIGNAL);
      }
    } else {
      var s :| Sends(s) in before && Alerted(t, mask, s);
      assert Sends(s) in before + [e];
      if e.Runs? { assert Returns(t', s); } else { assert Alerted(t', mask, s); }
    }
  }

  /** From the marking on: the run of the scheduler that swaps the task out leaves it waiting, or back with its wakeup
      signal. */
  lemma {:induction false} WaitStarts(m: KState, t: Tcb, mask: set<nat>, v: nat)
    requires Ok(m) && m.cur != NRK_IDLE_TASK_ID && m.tcb[m.cur] == Marked(t, mask)
    requires TaskOk(t, m.cur, m.cur) && t.state == READY && !t.suspendFlag
    requires NRK_WAKEUP_SIGNAL in mask || !Violates(t, v)
    ensures Pending(Run(m, v), [], m.cur, mask) || Answered(Run(m, v).tcb[m.cur], [], mask)
  {
    var k := Run(m, v);
    assert m.tcb[m.cur].taskId == m.cur;
    RunStepsTask(m, v, m.cur);
    HeadRuns(m, v);
    hide Ok, Run;
    SwapOutWaits(t, mask, v);
    if !WaitsFor(k.tcb[m.cur], mask) { assert NRK_WAKEUP_SIGNAL in mask && Returns(k.tcb[m.cur], NRK_WAKEUP_SIGNAL); }
  }

  lemma HeadRuns(k: KState, v: nat)
    requires Ok(k)
    ensures Run(k, v).tcb[Run(k, v).cur].state == READY
  {
    HeadIsReady(Requeued(k, v));
  }

  /** A completed nrk_event_wait returns a signal of its mask that was sent meanwhile, or the wakeup signal, whatever
      happens in the kernel; until then the task stays out of the ready queue. */
  lemma {:induction false} KernelWaitIsAnswered(ks: seq<KState>, es: seq<Deed>, i: nat, mask: set<nat>, n: nat)
    requires KernelEvents(ks, es, i) && n <= |es| && Pending(ks[0], [], i, mask)
    requires forall m: nat | m < n :: i < |ks[m].tcb| && ks[m].tcb[i].state != READY
    ensures Pending(ks[n], es[..n], i, mask) || (i < |ks[n].tcb| && Answered(ks[n].tcb[i], es[..n], mask))
    decreases n
  {
    hide Ok, Leads, WaitsFor;
    if n == 0 {
      assert es[..0] == [];
    } else {
      var m := n - 1;
      KernelWaitIsAnswered(ks, es, i, mask, m);
      assert Leads(ks[m], es[m], ks[m + 1], i);
      assert es[..n] == es[..m] + [es[m]];
      PendingStep(ks[m], es[m], ks[n], es[..m], i, mask);
    }
  }

  /** A running task marked as waiting for signal 3, caught by it before the swap-out. */
  lemma {:induction false} CaughtSignalBreaks() returns (k: KState)
    ensures Ok(k) && CaughtMarked(k.tcb[k.cur], 3) && !Ok(SignalIn(k, 3))
  {
    var t := Marked(Activated(1, 1, 1000, 0, 0), {3});
    k := KState([Activated(0, 0, 0, 0, 0), t], [1, 0], 1);
    forall i: nat | i < 2 ensures TaskOk(k.tcb[i], i, 1) {}
    SignalKeepsOkIff(k, 3);
  }
}
