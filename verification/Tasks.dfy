/** Task control blocks, and the order the ready queue keeps. */
module Tasks {
  const TWO_32: nat := 0x1_0000_0000
  const NRK_IDLE_TASK_ID := 0

  datatype TaskState = RUNNING | WAITING | READY | SUSPENDED | FINISHED | EVENT_SUSPENDED

  /** What places a task in the ready queue. */
  datatype Key = Key(prio: nat, elevated: bool, ceil: nat)

  /** A task control block; a mask is the set of the signals whose bit is set. */
  datatype Tcb = Tcb(
    taskId: int, key: Key, state: TaskState,
    suspendFlag: bool, nwFlag: bool, eventSuspend: bool,
    registered: set<nat>, active: set<nat>,
    nextWakeup: nat, nextPeriod: nat, cpuRemaining: nat, period: nat, cpuReserve: nat, numPeriods: nat)

  /** The new task goes in front of next. */
  predicate Before(next: Key, t: Key) {
    (next.elevated && next.ceil < t.prio)
    || (t.elevated && next.prio < t.ceil)
    || next.prio < t.prio
  }

  function Keys(tcb: seq<Tcb>): (keys: seq<Key>)
    ensures |keys| == |tcb| && forall i | 0 <= i < |tcb| :: keys[i] == tcb[i].key
  {
    seq(|tcb|, i requires 0 <= i < |tcb| => tcb[i].key)
  }

  ghost predicate InTable(keys: seq<Key>, q: seq<nat>) {
    forall i | 0 <= i < |q| :: q[i] < |keys|
  }

  /** Where a task is inserted: in front of the first task it goes before, else at the end. */
  ghost function Place(keys: seq<Key>, q: seq<nat>, t: nat): (i: nat)
    requires InTable(keys, q) && t < |keys|
    ensures i <= |q|
    ensures forall j | 0 <= j < i :: !Before(keys[q[j]], keys[t])
    ensures i < |q| ==> Before(keys[q[i]], keys[t])
  {
    if q == [] || Before(keys[q[0]], keys[t]) then 0
    else
      assert forall j | 0 <= j < |q[1..]| :: q[1..][j] == q[j + 1];
      1 + Place(keys, q[1..], t)
  }

  ghost function Enqueued(keys: seq<Key>, q: seq<nat>, t: nat): seq<nat>
    requires InTable(keys, q) && t < |keys|
  {
    q[..Place(keys, q, t)] + [t] + q[Place(keys, q, t)..]
  }

  /** The queue without the first occurrence of t. */
  ghost function Dequeued(q: seq<nat>, t: nat): seq<nat> {
    if q == [] then [] else if q[0] == t then q[1..] else [q[0]] + Dequeued(q[1..], t)
  }

  lemma {:induction false} DequeuedAt(q: seq<nat>, t: nat, i: nat)
    requires i < |q| && q[i] == t
    requires forall j | 0 <= j < i :: q[j] != t
    ensures Dequeued(q, t) == q[..i] + q[i + 1..]
  {
    if i > 0 {
      DequeuedAt(q[1..], t, i - 1);
      assert [q[0]] + (q[1..][..i - 1] + q[1..][i..]) == q[..i] + q[i + 1..];
    }
  }

  lemma {:induction false} DequeuedAbsent(q: seq<nat>, t: nat)
    requires t !in q
    ensures Dequeued(q, t) == q
  {
    if q != [] { DequeuedAbsent(q[1..], t); }
  }
}

/** The ready queue: a doubly linked list and a free list threaded through one array of nodes. */
module ReadyQueues {
  import opened Chains
  import opened Tasks

  class ReadyQueue {
    const taskIds: array<nat>
    const prevs: array<int>
    const nexts: array<int>
    var head: int
    var free: int
    ghost var ready: seq<nat>
    ghost var frees: seq<nat>

    ghost predicate Shape()
      reads this, taskIds, prevs, nexts
    {
      // named, so that a goal of this predicate is taken whole and not split into its parts
      var linked :=
        taskIds.Length == prevs.Length == nexts.Length && prevs != nexts
        && Chained(head, nexts[..], ready) && BackChained(prevs[..], ready)
        && Chained(free, nexts[..], frees);
      linked
    }

    ghost predicate Valid()
      reads this, taskIds, prevs, nexts
    {
      Shape() && taskIds.Length == |ready| + |frees| && NoDuplicates(ready + frees)
    }

    /** Valid but for node cur, which is in neither list. */
    ghost predicate Detached(cur: nat)
      reads this, taskIds, prevs, nexts
    {
      Shape() && taskIds.Length == |ready| + |frees| + 1 && cur < taskIds.Length
      && cur !in ready && cur !in frees && NoDuplicates(ready + ([cur] + frees))
    }

    /** The queued tasks, first to run first. */
    ghost function Contents(): (q: seq<nat>)
      requires Shape()
      reads this, taskIds, prevs, nexts
      ensures |q| == |ready|
    {
      assert forall i | 0 <= i < |ready| :: ready[i] < taskIds.Length by {
        forall i | 0 <= i < |ready| ensures ready[i] < taskIds.Length { assert NextAt(nexts[..], ready, i); }
      }
      seq(|ready|, i requires 0 <= i < |ready| && ready[i] < taskIds.Length reads this, taskIds => taskIds[ready[i]])
    }

    /** The queue part of nrk_init: an empty queue, all maxTasks + 1 nodes free. */
    constructor (maxTasks: nat)
      ensures Valid() && fresh(taskIds) && fresh(prevs) && fresh(nexts)
      ensures Contents() == [] && taskIds.Length == maxTasks + 1
    {
      taskIds := new nat[maxTasks + 1];
      prevs := new int[maxTasks + 1];
      nexts := new int[maxTasks + 1];
      new;
      for i := 0 to maxTasks
        invariant forall j | 0 <= j < i :: nexts[j] == j + 1
      {
        nexts[i] := i + 1;
        prevs[i + 1] := i;
      }
      prevs[0] := NULL;
      nexts[maxTasks] := NULL;
      head := NULL;
      free := 0;
      ready := [];
      frees := seq(maxTasks + 1, i => i);
    }

    /** nrk_get_high_ready_task_ID. */
    method HighestReady() returns (t: nat)
      requires Valid() && Contents() != []
      ensures t == Contents()[0]
    {
      ChainedRest(head, nexts[..], ready);
      t := taskIds[head];
    }

    /** The loop of nrk_add_to_readyQ: the node to insert in front of, or NULL. */
    method FindPlace(tcb: array<Tcb>, t: nat) returns (next: int, ghost k: nat)
      requires Valid() && t < tcb.Length && InTable(Keys(tcb[..]), Contents())
      ensures k == Place(Keys(tcb[..]), Contents(), t) <= |ready|
      ensures next == if k < |ready| then ready[k] else NULL
    {
      ghost var keys, q, links := Keys(tcb[..]), Contents(), nexts[..];
      next := head;
      k := 0;
      while next != NULL
        invariant k <= |ready| && next == if k < |ready| then ready[k] else NULL
        invariant forall j | 0 <= j < k :: !Before(keys[q[j]], keys[t])
        decreases |ready| - k
      {
        assert NextAt(links, ready, k);
        assert q[k] == taskIds[next];
        if Before(tcb[taskIds[next]].key, tcb[t].key) {
          break;
        }
        next := nexts[next];
        k := k + 1;
      }
      PlaceIs(keys, q, t, k);
    }

    /** Takes the first free node for task t. */
    method TakeFree(t: nat) returns (cur: nat)
      requires Valid() && frees != []
      modifies this`free, this`frees, taskIds
      ensures Detached(cur) && cur == old(frees)[0] && frees == old(frees)[1..] && taskIds[cur] == t
      ensures Contents() == old(Contents())
    {
      FreeNode(ready, frees);
      ChainedRest(free, nexts[..], frees);
      assert frees == [frees[0]] + frees[1..];
      cur := free;
      taskIds[cur] := t;
      free := nexts[free];
      frees := frees[1..];
    }

    /** The linking part of nrk_add_to_readyQ: cur goes in front of next, the k-th node. */
    method LinkBefore(cur: nat, next: int, ghost k: nat)
      requires Detached(cur) && k <= |ready| && next == if k < |ready| then ready[k] else NULL
      requires if ready == [] then frees != [] else k < |ready|
      modifies this`head, this`ready, prevs, nexts
      ensures Valid() && frees == old(frees) && ready == LinkedIn(old(ready), cur, k)
      ensures Contents() == old(Contents()[..k] + [taskIds[cur]] + Contents()[k..])
    {
      ghost var before, back := nexts[..], prevs[..];
      InsertedDistinct(ready, frees, cur, k);
      FreeNodesApart(ready, cur, frees);
      LinkedForward(head, before, ready, cur, k);
      if k < |ready| { LinkedBackward(back, ready, cur, k); }
      if next == head {
        if head != NULL {
          nexts[cur] := head;
          prevs[cur] := NULL;
          prevs[head] := cur;
        } else {
          nexts[cur] := NULL;
          prevs[cur] := NULL;
          ChainedRest(free, before, frees);
          prevs[free] := cur;
        }
        head := cur;
      } else if next != free {
        prevs[cur] := prevs[next];
        nexts[cur] := next;
        nexts[prevs[next]] := cur;
        prevs[next] := cur;
      } else {
        assert false; // insertion at the end of the queue
      }
      ChainedApart(free, before, frees, cur, nexts[cur]);
      if k > 0 { ChainedApart(free, before[cur := nexts[cur]], frees, ready[k - 1], cur); }
      ready := LinkedIn(ready, cur, k);
    }

    /** nrk_add_to_readyQ. Without a task to insert in front of, the C code would follow a NULL pointer. */
    method Add(tcb: array<Tcb>, t: nat)
      requires Valid() && t < tcb.Length && InTable(Keys(tcb[..]), Contents())
      requires frees != [] ==>
                 if ready == [] then |frees| >= 2 else Place(Keys(tcb[..]), Contents(), t) < |ready|
      modifies this, taskIds, prevs, nexts
      ensures Valid()
      ensures Contents() == if old(frees) == [] then old(Contents()) else Enqueued(Keys(tcb[..]), old(Contents()), t)
    {
      if free == NULL {
        assert frees == [];
        return;
      }
      var next;
      ghost var k;
      next, k := FindPlace(tcb, t);
      var cur := TakeFree(t);
      LinkBefore(cur, next, k);
    }

    /** The search loop of nrk_rem_from_readyQ: the first node of task t, or NULL. */
    method FindTask(t: nat) returns (cur: int, ghost k: nat)
      requires Valid()
      ensures k <= |ready| && cur == if k < |ready| then ready[k] else NULL
      ensures forall j | 0 <= j < k :: Contents()[j] != t
      ensures k < |ready| ==> Contents()[k] == t
    {
      ghost var q, links := Contents(), nexts[..];
      cur := head;
      k := 0;
      while cur != NULL
        invariant k <= |ready| && cur == if k < |ready| then ready[k] else NULL
        invariant forall j | 0 <= j < k :: q[j] != t
        decreases |ready| - k
      {
        assert NextAt(links, ready, k);
        assert q[k] == taskIds[cur];
        if taskIds[cur] == t {
          break;
        }
        cur := nexts[cur];
        k := k + 1;
      }
    }

    /** The unlinking part of nrk_rem_from_readyQ. */
    method Unlink(cur: nat, ghost k: nat)
      requires Valid() && k < |ready| && cur == ready[k] && |ready| > 1
      modifies this`head, this`ready, prevs, nexts
      ensures Detached(cur) && ready == Unlinked(old(ready), k)
      ensures Contents() == old(Contents()[..k] + Contents()[k + 1..])
    {
      ghost var before, back := nexts[..], prevs[..];
      ReadyNode(ready, frees, k);
      UnlinkedForward(head, before, ready, k);
      UnlinkedBackward(back, ready, k);
      if k > 0 { ChainedApart(free, before, frees, ready[k - 1], before[cur]); }
      if cur == head {
        head := nexts[head];
        prevs[head] := NULL;
      } else {
        nexts[prevs[cur]] := nexts[cur];
        if nexts[cur] != NULL {
          prevs[nexts[cur]] := prevs[cur];
        }
      }
      ready := Unlinked(ready, k);
    }

    /** The free-list part of nrk_rem_from_readyQ. */
    method Release(cur: nat)
      requires Detached(cur)
      modifies this`free, this`frees, prevs, nexts
      ensures Valid() && Contents() == old(Contents())
    {
      ghost var before, back := nexts[..], prevs[..];
      ChainedPush(free, before, frees, cur);
      ChainedApart(head, before, ready, cur, free);
      BackChainedApart(back, ready, cur, NULL);
      if free == NULL {
        free := cur;
        nexts[free] := NULL;
      } else {
        ChainedRest(free, before, frees);
        FreeNodesApart(ready, cur, frees);
        BackChainedApart(back, ready, free, cur);
        BackChainedApart(back[free := cur], ready, cur, NULL);
        nexts[cur] := free;
        prevs[free] := cur;
        free := cur;
      }
      prevs[free] := NULL;
      frees := [cur] + frees;
    }

    /** nrk_rem_from_readyQ. Removing the only queued task would make the C code follow a NULL pointer. */
    method Remove(t: nat)
      requires Valid() && Contents() != [t]
      modifies this, prevs, nexts
      ensures Valid() && Contents() == Dequeued(old(Contents()), t)
    {
      ghost var q := Contents();
      if head == NULL {
        return;
      }
      var cur;
      ghost var k;
      cur, k := FindTask(t);
      if cur == NULL {
        assert k == |ready| == |q|;
        assert forall j | 0 <= j < |q| :: Contents()[j] != t;
        DequeuedAbsent(q, t);
        return;
      }
      DequeuedAt(q, t, k);
      Unlink(cur, k);
      Release(cur);
    }
  }

  lemma {:induction false} FreeNodesApart(ready: seq<nat>, cur: nat, frees: seq<nat>)
    requires NoDuplicates(ready + ([cur] + frees))
    ensures forall i | 0 <= i < |frees| :: frees[i] !in ready
    ensures forall i | 0 <= i < |ready| :: ready[i] !in frees
  {
    var all := ready + ([cur] + frees);
    forall i, j | 0 <= i < |ready| && 0 <= j < |frees| ensures ready[i] != frees[j] {
      assert all[i] == ready[i] && all[|ready| + 1 + j] == frees[j];
    }
  }

  /** A queued node is not free, and moving it to the free list keeps all nodes distinct. */
  lemma {:induction false} ReadyNode(ready: seq<nat>, frees: seq<nat>, k: nat)
    requires NoDuplicates(ready + frees) && k < |ready|
    ensures NoDuplicates(ready) && ready[k] !in frees && ready[k] !in Unlinked(ready, k)
    ensures forall i | 0 <= i < |ready| :: ready[i] !in frees
    ensures forall i | 0 <= i < |frees| :: frees[i] !in Unlinked(ready, k)
    ensures NoDuplicates(Unlinked(ready, k) + ([ready[k]] + frees))
  {
    hide NoDuplicates;
    ReadyApart(ready, frees);
    DistinctRest(ready, k);
    ReadyMoved(ready, frees, k);
  }

  lemma {:induction false} ReadyApart(ready: seq<nat>, frees: seq<nat>)
    requires NoDuplicates(ready + frees)
    ensures NoDuplicates(ready)
    ensures forall i | 0 <= i < |ready| :: ready[i] !in frees
  {
    var all := ready + frees;
    forall i, j | 0 <= i < j < |ready| ensures ready[i] != ready[j] { assert all[i] != all[j]; }
    forall i, j | 0 <= i < |ready| && 0 <= j < |frees| ensures ready[i] != frees[j] {
      assert all[i] == ready[i] && all[|ready| + j] == frees[j];
    }
  }

  lemma {:induction false} ReadyMoved(ready: seq<nat>, frees: seq<nat>, k: nat)
    requires NoDuplicates(ready + frees) && k < |ready|
    ensures NoDuplicates(Unlinked(ready, k) + ([ready[k]] + frees))
  {
    hide NoDuplicates;
    assert ready == ready[..k] + [ready[k]] + ready[k + 1..];
    RearrangedDistinct(ready + frees, Unlinked(ready, k) + ([ready[k]] + frees));
  }

  /** The first free node is in neither the queue nor the rest of the free list. */
  lemma {:induction false} FreeNode(ready: seq<nat>, frees: seq<nat>)
    requires NoDuplicates(ready + frees) && frees != []
    ensures frees[0] !in ready && frees[0] !in frees[1..] && NoDuplicates(ready)
    ensures forall i | 0 <= i < |ready| :: ready[i] !in frees[1..]
  {
    var all := ready + frees;
    assert all[|ready|] == frees[0];
    forall i | 0 <= i < |ready| ensures ready[i] != frees[0] { assert all[i] == ready[i]; }
    forall i | 0 <= i < |frees[1..]| ensures frees[1..][i] != frees[0] { assert all[|ready| + 1 + i] == frees[1..][i]; }
    forall i, j | 0 <= i < j < |ready| ensures ready[i] != ready[j] { assert all[i] != all[j]; }
    forall i, j | 0 <= i < |ready| && 0 <= j < |frees[1..]| ensures ready[i] != frees[1..][j] {
      assert all[i] == ready[i] && all[|ready| + 1 + j] == frees[1..][j];
    }
  }

  lemma {:induction false} InsertedDistinct(ready: seq<nat>, frees: seq<nat>, cur: nat, k: nat)
    requires NoDuplicates(ready + ([cur] + frees)) && k <= |ready|
    ensures NoDuplicates(ready)
    ensures NoDuplicates(LinkedIn(ready, cur, k) + frees)
  {
    var all := ready + ([cur] + frees);
    forall i, j | 0 <= i < j < |ready| ensures ready[i] != ready[j] { assert all[i] != all[j]; }
    assert ready == ready[..k] + ready[k..];
    RearrangedDistinct(all, LinkedIn(ready, cur, k) + frees);
  }

  lemma {:induction false} PlaceIs(keys: seq<Key>, q: seq<nat>, t: nat, k: nat)
    requires InTable(keys, q) && t < |keys| && k <= |q|
    requires forall j | 0 <= j < k :: !Before(keys[q[j]], keys[t])
    requires k < |q| ==> Before(keys[q[k]], keys[t])
    ensures Place(keys, q, t) == k
  {}
}
