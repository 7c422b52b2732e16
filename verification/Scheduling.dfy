/** What one run of the scheduler does to the task table, the ready queue and the next wakeup. */
module Scheduling {
  import opened Chains
  import opened Tasks

  const MAX_SCHED_WAKEUP_TIME := 250
  const NO_WAKEUP := 60000
  const NRK_WAKEUP_SIGNAL: nat := 0

  // ----- one task -----

  /** The current task gives up the processor. */
  function Swapped(t: Tcb): Tcb {
    if t.eventSuspend && !t.nwFlag then t.(state := EVENT_SUSPENDED)
    else if t.eventSuspend then t.(state := SUSPENDED)
    else t.(state := SUSPENDED, nwFlag := false,
            nextWakeup := if t.nextWakeup == 0 then t.nextPeriod else t.nextWakeup)
  }

  predicate Reserved(t: Tcb) {
    t.cpuReserve != 0 && t.taskId != NRK_IDLE_TASK_ID && t.state != FINISHED
  }

  /** The current task's reserve would be used up by v more ticks. */
  predicate Violates(t: Tcb, v: nat) {
    Reserved(t) && t.cpuRemaining <= v
  }

  function Charged(t: Tcb, v: nat): Tcb {
    if Violates(t, v) then t.(cpuRemaining := 0, state := SUSPENDED)
    else if Reserved(t) then t.(cpuRemaining := t.cpuRemaining - v)
    else t
  }

  /** Tasks the bookkeeping applies to need a period to divide by. */
  predicate Timed(t: Tcb) {
    t.taskId == -1 || t.taskId == NRK_IDLE_TASK_ID || (t.period > 0 && t.numPeriods > 0)
  }

  /** The next period boundary after v more ticks. */
  function NextPeriodAfter(next: nat, period: nat, v: nat): nat
    requires period > 0
  {
    var n := if next >= v then next - v else if period > v then period - v else v % period;
    if n == 0 then period else n
  }

  function Aged(t: Tcb, v: nat): Tcb
    requires Timed(t) && t.taskId != -1
  {
    if t.taskId == NRK_IDLE_TASK_ID || t.state == FINISHED then t.(suspendFlag := false)
    else t.(suspendFlag := false,
            nextWakeup := if t.nextWakeup >= v then t.nextWakeup - v else 0,
            nextPeriod := NextPeriodAfter(t.nextPeriod, t.period, v))
  }

  /** A suspended task whose wakeup is due becomes ready, or starts on the periods it still has to skip. */
  function Woken(t: Tcb): Tcb {
    if t.state != SUSPENDED || t.nextWakeup != 0 then t
    else
      var t := t.(active := if t.eventSuspend && t.nwFlag then {NRK_WAKEUP_SIGNAL} else t.active,
                  eventSuspend := false, nwFlag := false, suspendFlag := false,
                  cpuRemaining := t.cpuReserve);
      if t.numPeriods == 1 then
        t.(state := READY,
           nextWakeup := if t.period == 0 then MAX_SCHED_WAKEUP_TIME else t.nextPeriod)
      else
        var skip := t.period * (t.numPeriods - 1) % TWO_32;
        t.(nextWakeup := if t.period == 0 then MAX_SCHED_WAKEUP_TIME else skip, nextPeriod := skip, numPeriods := 1)
  }

  function Ticked(t: Tcb, v: nat): Tcb
    requires Timed(t)
  {
    if t.taskId == -1 then t else Woken(Aged(t, v))
  }

  /** The task is put back into the ready queue by this run. */
  predicate Releases(t: Tcb, v: nat)
    requires Timed(t)
  {
    t.taskId != -1 && Aged(t, v).state == SUSPENDED && Ticked(t, v).state == READY
  }

  /** The task bounds the next wakeup: it was suspended before this run looked at it. */
  predicate Bounds(t: Tcb, v: nat)
    requires Timed(t)
  {
    t.taskId != -1 && Aged(t, v).state == SUSPENDED && Ticked(t, v).nextWakeup != 0
  }

  // ----- the invariant of table and queue -----

  /** Task i of the table, with cur the task that runs. */
  ghost predicate TaskOk(t: Tcb, i: nat, cur: nat) {
    // named, so that a goal of this predicate is taken whole and not split into its parts
    var ok :=
      (t.taskId == i || (t.taskId == -1 && t.state == RUNNING && !t.eventSuspend && !t.key.elevated))
      && (i == NRK_IDLE_TASK_ID ==>
            t.taskId == i && t.state == READY && t.key == Key(0, false, 0) && !t.suspendFlag && !t.eventSuspend)
      && (i != NRK_IDLE_TASK_ID && t.taskId == i ==> t.key.prio > 0 && t.period > 0 && t.numPeriods > 0)
      && (t.suspendFlag ==> i == cur)
      && (t.state == READY && t.cpuReserve != 0 && i != NRK_IDLE_TASK_ID ==> t.cpuRemaining > 0)
      && (t.eventSuspend && !t.suspendFlag ==> Settled(t))
      && (t.eventSuspend ==> t.state != FINISHED && t.numPeriods == 1)
      && (t.state == READY && !t.suspendFlag && i != NRK_IDLE_TASK_ID ==> !t.nwFlag && t.numPeriods == 1);
    ok
  }

  /** A task that waits is out of the ready queue. */
  predicate Settled(t: Tcb) {
    (t.eventSuspend ==> t.state == EVENT_SUSPENDED || t.state == SUSPENDED)
    && (t.suspendFlag ==> t.state != READY)
  }

  ghost predicate AllSettled(k: KState) {
    // named, so that a goal of this predicate is taken whole and not split into its parts
    var settled := forall i: nat {:trigger Settled(k.tcb[i])} | i < |k.tcb| :: Settled(k.tcb[i]);
    settled
  }

  ghost predicate TasksOk(tcb: seq<Tcb>, cur: nat) {
    |tcb| > NRK_IDLE_TASK_ID && cur < |tcb| && tcb[cur].taskId == cur
    && forall i: nat {:trigger TaskOk(tcb[i], i, cur)} | i < |tcb| :: TaskOk(tcb[i], i, cur)
  }

  /** Highest priority first. */
  ghost predicate Descending(keys: seq<Key>, q: seq<nat>)
    requires InTable(keys, q)
  {
    forall i, j | 0 <= i < j < |q| :: keys[q[i]].prio >= keys[q[j]].prio
  }

  ghost predicate NoElevation(keys: seq<Key>) {
    forall i | 0 <= i < |keys| :: !keys[i].elevated
  }

  /** The queue holds each READY task once and nothing else, idle last, in priority order unless priorities are
      elevated. */
  ghost predicate QueueOk(tcb: seq<Tcb>, q: seq<nat>) {
    NoDuplicates(q) && InTable(Keys(tcb), q)
    && (forall i: nat {:trigger i in q} | i < |tcb| :: i in q <==> tcb[i].state == READY)
    && q != [] && q[|q| - 1] == NRK_IDLE_TASK_ID
    && (NoElevation(Keys(tcb)) ==> Descending(Keys(tcb), q))
  }

  // ----- queue operations keep it -----

  lemma {:induction false} InDequeued(q: seq<nat>, t: nat, x: nat)
    requires NoDuplicates(q)
    ensures x in Dequeued(q, t) <==> x in q && x != t
  {
    if q != [] {
      TailDistinct(q);
      InDequeued(q[1..], t, x);
    }
  }

  lemma DequeuedSplit(q: seq<nat>, t: nat) returns (i: nat)
    requires t in q
    ensures i < |q| && q[i] == t && Dequeued(q, t) == q[..i] + q[i + 1..]
  {
    i := 0;
    while q[i] != t
      invariant i < |q| && forall j | 0 <= j < i :: q[j] != t
      decreases |q| - i
    {
      i := i + 1;
    }
    DequeuedAt(q, t, i);
  }

  lemma {:induction false} DequeuedKeeps(keys: seq<Key>, q: seq<nat>, t: nat)
    requires NoDuplicates(q) && InTable(keys, q) && q != [] && q[|q| - 1] != t
    ensures NoDuplicates(Dequeued(q, t)) && InTable(keys, Dequeued(q, t))
    ensures Dequeued(q, t) != [] && Dequeued(q, t)[|Dequeued(q, t)| - 1] == q[|q| - 1]
  {
    hide Dequeued;
    if t in q {
      var k := DequeuedSplit(q, t);
      var q' := Unlinked(q, k);
      DistinctRest(q, k);
      UnlinkedAt(q, k, |q'| - 1);
      forall i | 0 <= i < |q'| ensures q'[i] < |keys| { UnlinkedAt(q, k, i); }
    } else {
      DequeuedAbsent(q, t);
    }
  }

  lemma {:induction false} DequeuedDescending(keys: seq<Key>, q: seq<nat>, t: nat)
    requires InTable(keys, q) && Descending(keys, q) && InTable(keys, Dequeued(q, t))
    ensures Descending(keys, Dequeued(q, t))
  {
    hide Dequeued;
    if t in q {
      var k := DequeuedSplit(q, t);
      var q' := Unlinked(q, k);
      assert forall i | 0 <= i < |q'| :: q'[i] == if i < k then q[i] else q[i + 1];
    } else {
      DequeuedAbsent(q, t);
    }
  }

  /** Taking a task that is no longer READY out of the queue. */
  lemma {:induction false} DequeueOk(tcb: seq<Tcb>, tcb': seq<Tcb>, q: seq<nat>, t: nat)
    requires QueueOk(tcb, q) && t < |tcb| == |tcb'| && t != NRK_IDLE_TASK_ID
    requires Keys(tcb') == Keys(tcb) && tcb'[t].state != READY
    requires forall i: nat | i < |tcb| && i != t :: tcb'[i].state == tcb[i].state
    ensures QueueOk(tcb', Dequeued(q, t))
  {
    DequeuedKeeps(Keys(tcb), q, t);
    if NoElevation(Keys(tcb)) { DequeuedDescending(Keys(tcb), q, t); }
    forall i: nat | i < |tcb| ensures i in Dequeued(q, t) <==> tcb'[i].state == READY { InDequeued(q, t, i); }
  }

  lemma InEnqueued(keys: seq<Key>, q: seq<nat>, t: nat, x: nat)
    requires InTable(keys, q) && t < |keys|
    ensures x in Enqueued(keys, q, t) <==> x in q || x == t
  {
    var k := Place(keys, q, t);
    assert q == q[..k] + q[k..];
  }

  lemma EnqueuedAt(keys: seq<Key>, q: seq<nat>, t: nat, i: nat)
    requires InTable(keys, q) && t < |keys| && i <= |q|
    ensures var k := Place(keys, q, t);
            Enqueued(keys, q, t)[i] == if i < k then q[i] else if i == k then t else q[i - 1]
  {}

  lemma {:induction false} EnqueuedDistinct(keys: seq<Key>, q: seq<nat>, t: nat)
    requires NoDuplicates(q) && InTable(keys, q) && t < |keys| && t !in q
    ensures NoDuplicates(Enqueued(keys, q, t)) && InTable(keys, Enqueued(keys, q, t))
  {
    var q' := Enqueued(keys, q, t);
    forall i, j | 0 <= i < j < |q'| ensures q'[i] != q'[j] {
      EnqueuedAt(keys, q, t, i);
      EnqueuedAt(keys, q, t, j);
    }
    forall i | 0 <= i < |q'| ensures q'[i] < |keys| { EnqueuedAt(keys, q, t, i); }
  }

  lemma {:induction false} EnqueuedDescending(keys: seq<Key>, q: seq<nat>, t: nat)
    requires InTable(keys, q) && t < |keys| && Descending(keys, q) && NoElevation(keys)
    requires InTable(keys, Enqueued(keys, q, t))
    ensures Descending(keys, Enqueued(keys, q, t))
  {
    var q', k := Enqueued(keys, q, t), Place(keys, q, t);
    forall i, j | 0 <= i < j < |q'| ensures keys[q'[i]].prio >= keys[q'[j]].prio {
      EnqueuedAt(keys, q, t, i);
      EnqueuedAt(keys, q, t, j);
      if j == k { assert !Before(keys[q[i]], keys[t]); }
      if i == k { assert Before(keys[q[k]], keys[t]) && keys[q[k]].prio >= keys[q[j - 1]].prio; }
    }
  }

  /** Adding a task that has become READY. */
  lemma {:induction false} EnqueueOk(tcb: seq<Tcb>, tcb': seq<Tcb>, q: seq<nat>, t: nat)
    requires QueueOk(tcb, q) && t < |tcb| == |tcb'| && NRK_IDLE_TASK_ID < |tcb|
    requires Keys(tcb') == Keys(tcb) && tcb'[t].state == READY && tcb[t].state != READY
    requires tcb[t].key.prio > 0 && tcb[NRK_IDLE_TASK_ID].key == Key(0, false, 0)
    requires forall i: nat | i < |tcb| && i != t :: tcb'[i].state == tcb[i].state
    ensures Place(Keys(tcb), q, t) < |q|
    ensures QueueOk(tcb', Enqueued(Keys(tcb), q, t))
  {
    var keys := Keys(tcb);
    assert Before(keys[q[|q| - 1]], keys[t]);
    EnqueuedAt(keys, q, t, |q|);
    EnqueuedDistinct(keys, q, t);
    forall i: nat | i < |tcb| ensures i in Enqueued(keys, q, t) <==> tcb'[i].state == READY {
      InEnqueued(keys, q, t, i);
    }
    if NoElevation(keys) { EnqueuedDescending(keys, q, t); }
  }

  /** Without elevated priorities a task queues behind its equals and betters, in front of its inferiors. */
  lemma EnqueuedBehindEquals(keys: seq<Key>, q: seq<nat>, t: nat) returns (k: nat)
    requires InTable(keys, q) && t < |keys| && Descending(keys, q) && NoElevation(keys)
    ensures k <= |q| && Enqueued(keys, q, t) == q[..k] + [t] + q[k..]
    ensures forall i | 0 <= i < k :: keys[q[i]].prio >= keys[t].prio
    ensures forall i | k <= i < |q| :: keys[q[i]].prio < keys[t].prio
  {
    k := Place(keys, q, t);
    forall i | k <= i < |q| ensures keys[q[i]].prio < keys[t].prio {
      assert Before(keys[q[k]], keys[t]) && (i == k || keys[q[k]].prio >= keys[q[i]].prio);
    }
    forall i | 0 <= i < k ensures keys[q[i]].prio >= keys[t].prio {
      assert !Before(keys[q[i]], keys[t]);
    }
  }

  /** The priority of a task, or the ceiling it has been elevated to. */
  function Top(key: Key): int {
    if key.elevated && key.ceil > key.prio then key.ceil else key.prio
  }

  /** With elevated priorities a task passes those behind its own ceiling, and those whose ceiling is below it. */
  lemma EnqueuedByCeiling(keys: seq<Key>, q: seq<nat>, t: nat) returns (k: nat)
    requires InTable(keys, q) && t < |keys|
    ensures k <= |q| && Enqueued(keys, q, t) == q[..k] + [t] + q[k..]
    ensures forall i | 0 <= i < k ::
              keys[q[i]].prio >= Top(keys[t]) && (keys[q[i]].elevated ==> keys[q[i]].ceil >= keys[t].prio)
    ensures k < |q| ==>
              keys[q[k]].prio < Top(keys[t]) || (keys[q[k]].elevated && keys[q[k]].ceil < keys[t].prio)
  {
    k := Place(keys, q, t);
    forall i | 0 <= i < k
      ensures keys[q[i]].prio >= Top(keys[t]) && (keys[q[i]].elevated ==> keys[q[i]].ceil >= keys[t].prio)
    {
      assert !Before(keys[q[i]], keys[t]);
    }
  }

  /** Queueing a task and taking it out again disturbs nobody else. */
  lemma EnqueueUndone(keys: seq<Key>, q: seq<nat>, t: nat)
    requires InTable(keys, q) && t < |keys| && t !in q
    ensures Dequeued(Enqueued(keys, q, t), t) == q
  {
    var k, q' := Place(keys, q, t), Enqueued(keys, q, t);
    forall j | 0 <= j < k ensures q'[j] != t { EnqueuedAt(keys, q, t, j); }
    EnqueuedAt(keys, q, t, k);
    DequeuedAt(q', t, k);
    assert q'[..k] + q'[k + 1..] == q;
  }

  // ----- one run of the scheduler -----

  /** Task table, ready queue and running task. */
  datatype KState = KState(tcb: seq<Tcb>, q: seq<nat>, cur: nat)

  ghost predicate Ok(k: KState) {
    // named, so that a goal of this predicate is taken whole and not split into its parts
    var ok := TasksOk(k.tcb, k.cur) && QueueOk(k.tcb, k.q);
    ok
  }

  /** Replacing task i by one with the same place in the queue and the same readiness. */
  lemma ReplaceOk(k: KState, i: nat, t: Tcb)
    requires Ok(k) && i < |k.tcb| && TaskOk(t, i, k.cur)
    requires t.key == k.tcb[i].key && t.taskId == k.tcb[i].taskId && (t.state == READY <==> k.tcb[i].state == READY)
    ensures Ok(k.(tcb := k.tcb[i := t]))
  {
    assert Keys(k.tcb[i := t]) == Keys(k.tcb);
  }

  /** Replacing READY task i by one that is not, and taking it out of the queue. */
  lemma SuspendOk(k: KState, i: nat, t: Tcb)
    requires Ok(k) && 0 < i < |k.tcb| && TaskOk(t, i, k.cur)
    requires t.key == k.tcb[i].key && t.taskId == k.tcb[i].taskId && t.state != READY
    ensures Ok(k.(tcb := k.tcb[i := t], q := Dequeued(k.q, i)))
  {
    assert Keys(k.tcb[i := t]) == Keys(k.tcb);
    DequeueOk(k.tcb, k.tcb[i := t], k.q, i);
  }

  /** Replacing task i by one that has become READY, and queueing it. */
  lemma ReleaseOk(k: KState, i: nat, t: Tcb)
    requires Ok(k) && 0 < i < |k.tcb| && TaskOk(t, i, k.cur) && t.taskId == i
    requires t.key == k.tcb[i].key && t.taskId == k.tcb[i].taskId && t.state == READY && k.tcb[i].state != READY
    ensures Place(Keys(k.tcb), k.q, i) < |k.q|
    ensures Ok(k.(tcb := k.tcb[i := t], q := Enqueued(Keys(k.tcb), k.q, i)))
  {
    assert Keys(k.tcb[i := t]) == Keys(k.tcb);
    assert TaskOk(k.tcb[0], 0, k.cur);
    EnqueueOk(k.tcb, k.tcb[i := t], k.q, i);
  }

  lemma ReplaceSettled(k: KState, i: nat, t: Tcb)
    requires AllSettled(k) && i < |k.tcb| && Settled(t)
    ensures AllSettled(k.(tcb := k.tcb[i := t]))
  {
    var k' := k.(tcb := k.tcb[i := t]);
    forall j: nat | j < |k'.tcb| ensures Settled(k'.tcb[j]) {
      assert j == i || Settled(k.tcb[j]);
    }
  }

  ghost function SwapOut(k: KState): (k': KState)
    requires Ok(k)
    ensures Ok(k') && AllSettled(k') && k'.cur == k.cur && |k'.tcb| == |k.tcb|
  {
    var t := k.tcb[k.cur];
    assert TaskOk(t, k.cur, k.cur);
    assert forall i: nat | i < |k.tcb| && i != k.cur :: Settled(k.tcb[i]) by {
      forall i: nat | i < |k.tcb| && i != k.cur ensures Settled(k.tcb[i]) { assert TaskOk(k.tcb[i], i, k.cur); }
    }
    if t.suspendFlag && t.state != FINISHED then
      SuspendOk(k, k.cur, Swapped(t));
      k.(tcb := k.tcb[k.cur := Swapped(t)], q := Dequeued(k.q, k.cur))
    else k
  }

  ghost function Charge(k: KState, v: nat): (k': KState)
    requires Ok(k) && AllSettled(k)
    ensures Ok(k') && AllSettled(k') && k'.cur == k.cur && |k'.tcb| == |k.tcb|
  {
    var t := k.tcb[k.cur];
    assert TaskOk(t, k.cur, k.cur) && Settled(t);
    ReplaceSettled(k, k.cur, Charged(t, v));
    if Violates(t, v) then
      SuspendOk(k, k.cur, Charged(t, v));
      k.(tcb := k.tcb[k.cur := Charged(t, v)], q := Dequeued(k.q, k.cur))
    else
      ReplaceOk(k, k.cur, Charged(t, v));
      k.(tcb := k.tcb[k.cur := Charged(t, v)])
  }

  lemma TickedOk(t: Tcb, i: nat, cur: nat, v: nat)
    requires TaskOk(t, i, cur) && Settled(t)
    ensures Timed(t)
    ensures Settled(Ticked(t, v))
    ensures TaskOk(Ticked(t, v), i, cur) && Ticked(t, v).key == t.key && Ticked(t, v).taskId == t.taskId
    ensures Releases(t, v) ==> i != NRK_IDLE_TASK_ID && t.state == SUSPENDED && Ticked(t, v).state == READY
    ensures !Releases(t, v) ==> Ticked(t, v).state == t.state
  {}

  /** The loop over the task table, after the first n tasks. */
  ghost function TickAll(k: KState, v: nat, n: nat): (k': KState)
    requires Ok(k) && AllSettled(k) && n <= |k.tcb|
    ensures Ok(k') && AllSettled(k') && k'.cur == k.cur && |k'.tcb| == |k.tcb|
  {
    if n == 0 then k else TickInto(TickAll(k, v, n - 1), n - 1, v)
  }

  /** The table with its first n tasks ticked. */
  ghost function TickedFirst(tcb: seq<Tcb>, v: nat, n: nat): seq<Tcb>
    requires n <= |tcb| && forall i: nat | i < |tcb| :: Timed(tcb[i])
  {
    seq(|tcb|, i requires 0 <= i < |tcb| => if i < n then Ticked(tcb[i], v) else tcb[i])
  }

  lemma TickedFirstStep(tcb: seq<Tcb>, v: nat, n: nat)
    requires 0 < n <= |tcb| && forall i: nat | i < |tcb| :: Timed(tcb[i])
    ensures TickedFirst(tcb, v, n) == TickedFirst(tcb, v, n - 1)[n - 1 := Ticked(tcb[n - 1], v)]
  {}

  /** The loop ticks every task once. */
  lemma {:induction false} TickAllTable(k: KState, v: nat, n: nat)
    requires Ok(k) && AllSettled(k) && n <= |k.tcb|
    requires forall i: nat | i < |k.tcb| :: Timed(k.tcb[i])
    ensures TickAll(k, v, n).tcb == TickedFirst(k.tcb, v, n)
  {
    hide Ok, AllSettled, TickInto;
    if n == 0 {
      assert TickedFirst(k.tcb, v, 0) == k.tcb;
    } else {
      TickAllTable(k, v, n - 1);
      TickedFirstStep(k.tcb, v, n);
      assert TickInto(TickAll(k, v, n - 1), n - 1, v).tcb
          == TickedFirst(k.tcb, v, n - 1)[n - 1 := Ticked(k.tcb[n - 1], v)];
    }
  }

  lemma {:induction false} TickAllAt(k: KState, v: nat, n: nat, i: nat)
    requires Ok(k) && AllSettled(k) && n <= |k.tcb| && i < |k.tcb|
    ensures Timed(k.tcb[i])
    ensures TickAll(k, v, n).tcb[i] == if i < n then Ticked(k.tcb[i], v) else k.tcb[i]
  {
    AllTimed(k);
    TickAllTable(k, v, n);
  }

  /** One round of that loop. */
  ghost function TickInto(k: KState, i: nat, v: nat): (k': KState)
    requires Ok(k) && AllSettled(k) && i < |k.tcb|
    ensures Ok(k') && AllSettled(k') && k'.cur == k.cur
    ensures Timed(k.tcb[i]) && k'.tcb == k.tcb[i := Ticked(k.tcb[i], v)]
  {
    assert TaskOk(k.tcb[i], i, k.cur);
    TickedOk(k.tcb[i], i, k.cur, v);
    Replaced(k, i, Ticked(k.tcb[i], v))
  }

  /** Task i becomes t, and is queued if that makes it READY. */
  ghost function Replaced(k: KState, i: nat, t: Tcb): (k': KState)
    requires Ok(k) && AllSettled(k) && i < |k.tcb| && TaskOk(t, i, k.cur) && Settled(t)
    requires t.key == k.tcb[i].key && t.taskId == k.tcb[i].taskId
    requires k.tcb[i].state == READY ==> t.state == READY
    requires i == NRK_IDLE_TASK_ID ==> k.tcb[i].state == READY
    ensures Ok(k') && AllSettled(k') && k'.cur == k.cur && k'.tcb == k.tcb[i := t]
  {
    ReplaceSettled(k, i, t);
    if t.state == READY && k.tcb[i].state != READY then
      assert t.taskId == i;
      ReleaseOk(k, i, t);
      k.(tcb := k.tcb[i := t], q := Enqueued(Keys(k.tcb), k.q, i))
    else
      ReplaceOk(k, i, t);
      k.(tcb := k.tcb[i := t])
  }

  /** From k to k', task i is ticked. */
  ghost predicate TickStep(k: KState, k': KState, i: nat, v: nat) {
    // named, so that a goal of this predicate is taken whole and not split into its parts
    var ticks :=
      Ok(k) && AllSettled(k) && i < |k.tcb|
      && Timed(k.tcb[i]) && (k.tcb[i].taskId > NRK_IDLE_TASK_ID ==> k.tcb[i].numPeriods > 0)
      && (k.tcb[i].taskId == -1 || k.tcb[i].taskId == i)
      && (i == NRK_IDLE_TASK_ID ==> k.tcb[i].state == READY)
      && var t := Ticked(k.tcb[i], v);
         TaskOk(t, i, k.cur) && Settled(t) && t.key == k.tcb[i].key && t.taskId == k.tcb[i].taskId
         && (k.tcb[i].state == READY ==> t.state == READY)
         && k' == Replaced(k, i, t);
    ticks
  }

  ghost predicate StepAt(k: KState, ks: seq<KState>, i: nat, v: nat)
    requires i < |k.tcb| && i + 1 < |ks|
  {
    // named, so that a goal of this predicate is taken whole and not split into its parts
    var steps := TickStep(ks[i], ks[i + 1], i, v) && ks[i].tcb[i] == k.tcb[i];
    steps
  }

  /** The states the loop over the task table goes through. */
  lemma TickStates(k: KState, v: nat) returns (ks: seq<KState>, last: KState)
    requires Ok(k) && AllSettled(k)
    ensures |ks| == |k.tcb| + 1 && ks[0] == k && ks[|k.tcb|] == last && IsTickAll(last, k, v, |k.tcb|)
    ensures forall i: nat {:trigger StepAt(k, ks, i, v)} | i < |k.tcb| :: StepAt(k, ks, i, v)
  {
    ks, last := TickStatesTo(k, v, |k.tcb|);
  }

  lemma {:induction false} TickStatesTo(k: KState, v: nat, n: nat) returns (ks: seq<KState>, last: KState)
    requires Ok(k) && AllSettled(k) && n <= |k.tcb|
    ensures |ks| == n + 1 && ks[0] == k && ks[n] == last && IsTickAll(last, k, v, n)
    ensures forall i: nat {:trigger StepAt(k, ks, i, v)} | i < n :: StepAt(k, ks, i, v)
  {
    hide Ok, AllSettled, TickStep, StepAt;
    if n == 0 {
      ks, last := [k], k;
    } else {
      var before, p := TickStatesTo(k, v, n - 1);
      last := TickAllStep(p, k, v, n);
      ks := Extended(k, v, before, p, last);
    }
  }

  lemma {:induction false} Extended(k: KState, v: nat, before: seq<KState>, p: KState, p': KState)
      returns (ks: seq<KState>)
    requires 0 < |before| <= |k.tcb| && before[|before| - 1] == p
    requires forall i: nat {:trigger StepAt(k, before, i, v)} | i < |before| - 1 :: StepAt(k, before, i, v)
    requires TickStep(p, p', |before| - 1, v) && p.tcb[|before| - 1] == k.tcb[|before| - 1]
    ensures |ks| == |before| + 1 && ks[0] == before[0] && ks[|before|] == p'
    ensures forall i: nat {:trigger StepAt(k, ks, i, v)} | i < |before| :: StepAt(k, ks, i, v)
  {
    ks := before + [p'];
    forall i: nat {:trigger StepAt(k, ks, i, v)} | i < |before| ensures StepAt(k, ks, i, v) {
      if i < |before| - 1 { assert StepAt(k, before, i, v); }
    }
  }

  /** s is the state after the first n rounds. */
  ghost predicate IsTickAll(s: KState, k: KState, v: nat, n: nat)
    requires Ok(k) && AllSettled(k) && n <= |k.tcb|
  {
    // named, so that a goal of this predicate is taken whole and not split into its parts
    var same := s == TickAll(k, v, n);
    same
  }

  lemma {:induction false} TickAllStep(p: KState, k: KState, v: nat, n: nat) returns (p': KState)
    requires Ok(k) && AllSettled(k) && 0 < n <= |k.tcb| && IsTickAll(p, k, v, n - 1)
    ensures |p.tcb| == |k.tcb| && TickStep(p, p', n - 1, v) && p.tcb[n - 1] == k.tcb[n - 1] && IsTickAll(p', k, v, n)
  {
    var i := n - 1;
    TickAllAt(k, v, i, i);
    assert TaskOk(p.tcb[i], i, p.cur);
    TickedOk(p.tcb[i], i, p.cur, v);
    p' := TickInto(p, i, v);
  }

  /** The table and queue after the loop over the task table. */
  ghost function Requeued(k: KState, v: nat): (k': KState)
    requires Ok(k)
    ensures Ok(k') && |k'.tcb| == |k.tcb|
  {
    TickAll(Charge(SwapOut(k), v), v, |k.tcb|)
  }

  /** The head of the queue becomes the running task. */
  ghost function Dispatched(k: KState): (k': KState)
    requires Ok(k)
    ensures |k'.tcb| == |k.tcb|
  {
    k.(cur := k.q[0])
  }

  /** What a run of the scheduler does when v ticks have passed since the last one. */
  ghost function Run(k: KState, v: nat): (k': KState)
    requires Ok(k)
    ensures Ok(k') && |k'.tcb| == |k.tcb|
    ensures forall i: nat | i < |k'.tcb| :: !k'.tcb[i].suspendFlag
  {
    Unflagged(Charge(SwapOut(k), v), v);
    DispatchOk(Requeued(k, v));
    Dispatched(Requeued(k, v))
  }

  lemma DispatchOk(k: KState)
    requires Ok(k) && forall i: nat | i < |k.tcb| :: !k.tcb[i].suspendFlag
    ensures Ok(Dispatched(k))
  {
    HeadIsReady(k);
    forall i: nat | i < |k.tcb| ensures TaskOk(k.tcb[i], i, k.q[0]) { assert TaskOk(k.tcb[i], i, k.cur); }
  }

  lemma {:induction false} Unflagged(k: KState, v: nat)
    requires Ok(k) && AllSettled(k)
    ensures forall i: nat | i < |k.tcb| :: !TickAll(k, v, |k.tcb|).tcb[i].suspendFlag
  {
    var s := TickAll(k, v, |k.tcb|);
    forall i: nat | i < |k.tcb| ensures !s.tcb[i].suspendFlag {
      TickAllAt(k, v, |k.tcb|, i);
      assert TaskOk(k.tcb[i], i, k.cur);
      TickedUnflagged(k.tcb[i], i, k.cur, v);
    }
  }

  lemma TickedUnflagged(t: Tcb, i: nat, cur: nat, v: nat)
    requires TaskOk(t, i, cur) && (t.taskId == -1 ==> i != cur)
    ensures Timed(t) && !Ticked(t, v).suspendFlag
  {}

  lemma HeadIsReady(k: KState)
    requires Ok(k)
    ensures k.q[0] < |k.tcb| && k.tcb[k.q[0]].state == READY && k.tcb[k.q[0]].taskId == k.q[0]
  {
    assert k.q[0] in k.q;
    assert TaskOk(k.tcb[k.q[0]], k.q[0], k.cur);
  }

  /** Without elevated priorities no READY task has a higher priority than the head of the queue. */
  lemma {:induction false} HeadIsHighest(k: KState, i: nat)
    requires Ok(k) && NoElevation(Keys(k.tcb)) && i < |k.tcb| && k.tcb[i].state == READY
    ensures k.q[0] < |k.tcb| && k.tcb[i].key.prio <= k.tcb[k.q[0]].key.prio
  {
    assert i in k.q;
    var j :| 0 <= j < |k.q| && k.q[j] == i;
    assert Keys(k.tcb)[i] == k.tcb[i].key && Keys(k.tcb)[k.q[0]] == k.tcb[k.q[0]].key;
  }

  /** What a run does to one task. */
  function Step(t: Tcb, current: bool, v: nat): Tcb
    requires Timed(t)
  {
    var s := if current && t.suspendFlag && t.state != FINISHED then Swapped(t) else t;
    Ticked(if current then Charged(s, v) else s, v)
  }

  lemma {:induction false} RunStepsTask(k: KState, v: nat, i: nat)
    requires Ok(k) && i < |k.tcb|
    ensures Timed(k.tcb[i]) && Run(k, v).tcb[i] == Step(k.tcb[i], i == k.cur, v)
  {
    assert TaskOk(k.tcb[i], i, k.cur);
    var s := Charge(SwapOut(k), v);
    TickAllAt(s, v, |k.tcb|, i);
  }

  lemma RunDispatches(k: KState, v: nat)
    requires Ok(k)
    ensures Run(k, v).q != [] && Run(k, v).cur == Run(k, v).q[0]
  {
    hide TasksOk, Charge, SwapOut, TickAll;
    assert Ok(Requeued(k, v));
  }

  lemma {:induction false} StepKeepsKey(k: KState, v: nat, i: nat)
    requires Ok(k) && i < |k.tcb|
    ensures Run(k, v).tcb[i].key == k.tcb[i].key
  {
    hide Ok, Run;
    RunStepsTask(k, v, i);
  }

  /** Without elevated priorities a run of the scheduler picks a READY task of the highest priority. */
  lemma {:induction false} RunPicksHighest(k: KState, v: nat, i: nat)
    requires Ok(k) && NoElevation(Keys(k.tcb)) && i < |k.tcb| && Run(k, v).tcb[i].state == READY
    ensures var k' := Run(k, v);
            k'.tcb[k'.cur].state == READY && k'.tcb[i].key.prio <= k'.tcb[k'.cur].key.prio
  {
    hide Ok, Run;
    var k' := Run(k, v);
    forall j | 0 <= j < |k'.tcb| ensures !Keys(k'.tcb)[j].elevated {
      StepKeepsKey(k, v, j);
      assert Keys(k.tcb)[j] == k.tcb[j].key;
    }
    RunDispatches(k, v);
    HeadIsReady(k');
    HeadIsHighest(k', i);
  }

  // ----- who is ahead in the queue -----

  ghost predicate AheadOf(q: seq<nat>, i: nat, j: nat) {
    exists a, b :: 0 <= a < b < |q| && q[a] == i && q[b] == j
  }

  lemma {:induction false} AheadWithout(q: seq<nat>, t: nat, i: nat, j: nat)
    requires AheadOf(q, i, j) && t != i && t != j
    ensures AheadOf(Dequeued(q, t), i, j)
  {
    hide Dequeued;
    if t in q {
      var k := DequeuedSplit(q, t);
      var a, b :| 0 <= a < b < |q| && q[a] == i && q[b] == j;
      var a', b' := if a < k then a else a - 1, if b < k then b else b - 1;
      UnlinkedAt(q, k, a');
      UnlinkedAt(q, k, b');
      assert Unlinked(q, k)[a'] == i && Unlinked(q, k)[b'] == j;
    } else {
      DequeuedAbsent(q, t);
    }
  }

  lemma {:induction false} AheadWith(keys: seq<Key>, q: seq<nat>, t: nat, i: nat, j: nat)
    requires InTable(keys, q) && t < |keys| && AheadOf(q, i, j)
    ensures AheadOf(Enqueued(keys, q, t), i, j)
  {
    var k, q' := Place(keys, q, t), Enqueued(keys, q, t);
    var a, b :| 0 <= a < b < |q| && q[a] == i && q[b] == j;
    var a', b' := if a < k then a else a + 1, if b < k then b else b + 1;
    EnqueuedAt(keys, q, t, a');
    EnqueuedAt(keys, q, t, b');
    assert q'[a'] == i && q'[b'] == j;
  }

  lemma {:induction false} TickKeepsTurn(k: KState, n: nat, v: nat, i: nat, j: nat)
    requires Ok(k) && AllSettled(k) && n < |k.tcb| && AheadOf(k.q, i, j)
    ensures AheadOf(TickInto(k, n, v).q, i, j)
  {
    hide AheadOf;
    if TickInto(k, n, v).q != k.q { AheadWith(Keys(k.tcb), k.q, n, i, j); }
  }

  lemma {:induction false} TicksKeepTurn(k: KState, n: nat, v: nat, i: nat, j: nat)
    requires Ok(k) && AllSettled(k) && n <= |k.tcb| && AheadOf(k.q, i, j)
    ensures AheadOf(TickAll(k, v, n).q, i, j)
  {
    hide Ok, AllSettled, TickInto, AheadOf;
    if n > 0 {
      TicksKeepTurn(k, n - 1, v, i, j);
      TickKeepsTurn(TickAll(k, v, n - 1), n - 1, v, i, j);
    }
  }

  /** A run of the scheduler lets no task past another: of two queued tasks that are not running, the one ahead
      stays ahead, so tasks of one priority run in the order in which they became READY. */
  lemma {:induction false} RunKeepsTurn(k: KState, v: nat, i: nat, j: nat)
    requires Ok(k) && AheadOf(k.q, i, j) && i != k.cur && j != k.cur
    ensures AheadOf(Run(k, v).q, i, j)
  {
    hide Ok, AllSettled, AheadOf, TickAll;
    AheadWithout(k.q, k.cur, i, j);
    AheadWithout(SwapOut(k).q, k.cur, i, j);
    TicksKeepTurn(Charge(SwapOut(k), v), |k.tcb|, v, i, j);
  }

  /** nrk_TCB_init and nrk_activate_task for a first activation. */
  function Activated(id: nat, prio: nat, period: nat, offset: nat, reserve: nat): Tcb {
    Tcb(id, Key(prio, false, 0), if offset == 0 then READY else SUSPENDED, false, false, false, {}, {},
        offset, period + offset, reserve, period, reserve, 1)
  }

  // ----- waits -----

  /** nrk_wait_until_next_n_periods; nrk_wait_until_next_period is p = 1. */
  function Waiting(t: Tcb, p: nat): Tcb {
    t.(suspendFlag := true, numPeriods := if p == 0 then 1 else p)
  }

  /** nrk_wait_ticks, called timer ticks after the last run of the scheduler; the sum is taken in 16 bits. */
  function WaitingTicks(t: Tcb, ticks: nat, timer: nat): Tcb {
    t.(suspendFlag := true, nextWakeup := (ticks + timer) % 0x1_0000)
  }

  // ----- the next wakeup -----

  /** The earlier of e and the wakeup of t, when t bounds it. */
  function Sooner(t: Tcb, v: nat, e: nat): nat
    requires Timed(t)
  {
    if Bounds(t, v) && Ticked(t, v).nextWakeup < e then Ticked(t, v).nextWakeup else e
  }

  /** The earliest wakeup among the first n tasks that bound it. */
  ghost function Earliest(tcb: seq<Tcb>, v: nat, n: nat): (e: nat)
    requires n <= |tcb| && forall i: nat | i < |tcb| :: Timed(tcb[i])
    ensures 0 < e <= NO_WAKEUP
    ensures forall i: nat | i < n && Bounds(tcb[i], v) :: e <= Ticked(tcb[i], v).nextWakeup
  {
    if n == 0 then NO_WAKEUP
    else
      Sooner(tcb[n - 1], v, Earliest(tcb, v, n - 1))
  }

  /** How long the timer may run before the scheduler must run again, given the earliest wakeup and the task to run. */
  function NextWake(next: nat, t: Tcb, powerDown: bool, sleepWakeup: nat): nat
    requires sleepWakeup <= MAX_SCHED_WAKEUP_TIME
  {
    var w :=
      if t.taskId != NRK_IDLE_TASK_ID then
        if t.cpuReserve != 0 && t.cpuRemaining < MAX_SCHED_WAKEUP_TIME then
          if next > t.cpuRemaining then t.cpuRemaining else next
        else if next > MAX_SCHED_WAKEUP_TIME then MAX_SCHED_WAKEUP_TIME
        else next
      else if powerDown && next > sleepWakeup then
        if next - sleepWakeup < MAX_SCHED_WAKEUP_TIME then
          if next - sleepWakeup < sleepWakeup then sleepWakeup - 1 else next - sleepWakeup
        else if next > sleepWakeup + MAX_SCHED_WAKEUP_TIME then MAX_SCHED_WAKEUP_TIME
        else MAX_SCHED_WAKEUP_TIME - sleepWakeup
      else next;
    if !powerDown && w > MAX_SCHED_WAKEUP_TIME then MAX_SCHED_WAKEUP_TIME else w
  }

  /** The next wakeup is never late and never beyond the timer; it is 0 in exactly one case. */
  lemma NextWakeBounds(next: nat, t: Tcb, powerDown: bool, sleepWakeup: nat)
    requires sleepWakeup <= MAX_SCHED_WAKEUP_TIME && 0 < next <= NO_WAKEUP
    requires t.cpuReserve != 0 && t.taskId != NRK_IDLE_TASK_ID ==> t.cpuRemaining > 0
    ensures NextWake(next, t, powerDown, sleepWakeup) <= next
    ensures NextWake(next, t, powerDown, sleepWakeup) <= MAX_SCHED_WAKEUP_TIME
    ensures t.cpuReserve != 0 && t.taskId != NRK_IDLE_TASK_ID
        ==> NextWake(next, t, powerDown, sleepWakeup) <= t.cpuRemaining
    ensures NextWake(next, t, powerDown, sleepWakeup) == 0
        <==> t.taskId == NRK_IDLE_TASK_ID && powerDown
             && sleepWakeup == MAX_SCHED_WAKEUP_TIME && next == 2 * MAX_SCHED_WAKEUP_TIME
  {}

  ghost function EarliestAfter(k: KState, v: nat): (e: nat)
    requires Ok(k)
    ensures 0 < e <= NO_WAKEUP
  {
    var s := Charge(SwapOut(k), v);
    AllTimed(s);
    Earliest(s.tcb, v, |s.tcb|)
  }

  lemma AllTimed(k: KState)
    requires Ok(k)
    ensures forall i: nat | i < |k.tcb| :: Timed(k.tcb[i])
  {
    forall i: nat | i < |k.tcb| ensures Timed(k.tcb[i]) { assert TaskOk(k.tcb[i], i, k.cur); }
  }

  /** The wakeup a run of the scheduler programs. */
  ghost function NextWakeAfter(k: KState, v: nat, powerDown: bool, sleepWakeup: nat): nat
    requires Ok(k) && sleepWakeup <= MAX_SCHED_WAKEUP_TIME
  {
    var k' := Run(k, v);
    NextWake(EarliestAfter(k, v), k'.tcb[k'.cur], powerDown, sleepWakeup)
  }

  /** No task oversleeps: the wakeup programmed is no later than that of any task still asleep, nor than the
      end of the running task's reserve. */
  lemma {:induction false} NoOversleep(k: KState, v: nat, powerDown: bool, sleepWakeup: nat)
    requires Ok(k) && sleepWakeup <= MAX_SCHED_WAKEUP_TIME
    ensures var k', w := Run(k, v), NextWakeAfter(k, v, powerDown, sleepWakeup);
            w <= MAX_SCHED_WAKEUP_TIME
            && (sleepWakeup < MAX_SCHED_WAKEUP_TIME ==> w > 0)
            && (forall i: nat | i < |k'.tcb| && k'.tcb[i].state == SUSPENDED && k'.tcb[i].nextWakeup != 0 ::
                  w <= k'.tcb[i].nextWakeup)
            && (k'.cur != NRK_IDLE_TASK_ID && k'.tcb[k'.cur].cpuReserve != 0 ==> w <= k'.tcb[k'.cur].cpuRemaining)
  {
    var k' := Run(k, v);
    var s := Charge(SwapOut(k), v);
    var t := TickAll(s, v, |s.tcb|);
    AllTimed(s);
    HeadIsReady(t);
    assert TaskOk(k'.tcb[k'.cur], k'.cur, k'.cur);
    NextWakeBounds(EarliestAfter(k, v), k'.tcb[k'.cur], powerDown, sleepWakeup);
    forall i: nat | i < |k'.tcb| && k'.tcb[i].state == SUSPENDED && k'.tcb[i].nextWakeup != 0
      ensures EarliestAfter(k, v) <= k'.tcb[i].nextWakeup
    {
      TickAllAt(s, v, |s.tcb|, i);
      assert TaskOk(s.tcb[i], i, s.cur) && k'.tcb[i] == Ticked(s.tcb[i], v);
      assert Bounds(s.tcb[i], v);
    }
  }

  ghost predicate SoonerAt(tcb: seq<Tcb>, es: seq<nat>, i: nat, v: nat)
    requires i < |tcb| && |es| == |tcb| + 1
  {
    Timed(tcb[i]) && es[i + 1] == Sooner(tcb[i], v, es[i])
  }

  /** The wakeups the loop over the task table goes through. */
  lemma EarliestSteps(tcb: seq<Tcb>, v: nat) returns (es: seq<nat>)
    requires forall i: nat | i < |tcb| :: Timed(tcb[i])
    ensures |es| == |tcb| + 1 && es[0] == NO_WAKEUP && es[|tcb|] == Earliest(tcb, v, |tcb|)
    ensures forall i: nat {:trigger SoonerAt(tcb, es, i, v)} | i < |tcb| :: SoonerAt(tcb, es, i, v)
  {
    es := seq(|tcb| + 1, i requires 0 <= i <= |tcb| => Earliest(tcb, v, i));
  }

  /** The case in which the timer is programmed to 0: nothing but idle to run, the longest sleep time, and the one
      other task due in exactly twice that. */
  lemma {:induction false} WakeupCanBeZero() returns (k: KState)
    ensures Ok(k) && NextWakeAfter(k, 10, true, MAX_SCHED_WAKEUP_TIME) == 0
  {
    var t0, t1 := Activated(0, 0, 0, 0, 0), Activated(1, 1, 1000, 510, 0);
    k := KState([t0, t1], [0], 0);
    forall i: nat | i < 2 ensures TaskOk(k.tcb[i], i, 0) {}
    assert Ok(k) && SwapOut(k) == k && Charge(k, 10).tcb == k.tcb;
    AllTimed(k);
    var es := EarliestSteps(k.tcb, 10);
    assert SoonerAt(k.tcb, es, 0, 10) && SoonerAt(k.tcb, es, 1, 10);
    assert EarliestAfter(k, 10) == 500;
    RunStepsTask(k, 10, 0);
    RunStepsTask(k, 10, 1);
    var k' := Run(k, 10);
    HeadIsReady(k');
  }
}
