/** What the transmit buffers are for: a bounded queue by priority, first come first served within one. */
module TxQueues {
  import opened Packets

  /** A packet waiting to be sent, and how many were accepted before it. */
  datatype Arrival = Arrival(packet: Packet, serial: nat)

  /** Buffers are free, waiting with a packet, or held by the sender between removal and return. */
  datatype State = State(waiting: seq<Arrival>, free: nat, held: nat, clock: nat)

  datatype Op = Insert(packet: Packet) | Remove | Return

  /** In front of the first packet of strictly lower priority, else at the end. */
  function Slot(waiting: seq<Arrival>, prio: int): (k: nat)
    ensures k <= |waiting|
    ensures forall j | 0 <= j < k :: waiting[j].packet.prio >= prio
    ensures k < |waiting| ==> waiting[k].packet.prio < prio
  {
    if waiting == [] || waiting[0].packet.prio < prio then 0
    else
      var rest := Slot(waiting[1..], prio);
      assert forall j | 0 < j < 1 + rest :: waiting[j] == waiting[1..][j - 1];
      1 + rest
  }

  lemma {:induction false} SlotIs(waiting: seq<Arrival>, prio: int, k: nat)
    requires k <= |waiting|
    requires forall j | 0 <= j < k :: waiting[j].packet.prio >= prio
    requires k < |waiting| ==> waiting[k].packet.prio < prio
    ensures Slot(waiting, prio) == k
  {}

  function Inserted(waiting: seq<Arrival>, a: Arrival): seq<Arrival> {
    var k := Slot(waiting, a.packet.prio);
    waiting[..k] + [a] + waiting[k..]
  }

  function Step(s: State, op: Op): State {
    match op
    case Insert(p) =>
      if s.free == 0 then s
      else State(Inserted(s.waiting, Arrival(p, s.clock)), s.free - 1, s.held, s.clock + 1)
    case Remove => if s.waiting == [] then s else s.(waiting := s.waiting[1..], held := s.held + 1)
    case Return => if s.held == 0 then s else s.(free := s.free + 1, held := s.held - 1)
  }

  function Run(s: State, ops: seq<Op>): State
    decreases |ops|
  {
    if ops == [] then s else Run(Step(s, ops[0]), ops[1..])
  }

  /** What one operation removes, and what it accepts. */
  function Leaving(s: State, op: Op): seq<Arrival> {
    if op.Remove? && s.waiting != [] then [s.waiting[0]] else []
  }

  function Arriving(s: State, op: Op): seq<Arrival> {
    if op.Insert? && s.free > 0 then [Arrival(op.packet, s.clock)] else []
  }

  /** The packets removed over a run, in order. */
  function Removed(s: State, ops: seq<Op>): seq<Arrival>
    decreases |ops|
  {
    if ops == [] then [] else Leaving(s, ops[0]) + Removed(Step(s, ops[0]), ops[1..])
  }

  /** The packets accepted over a run, in order. */
  function Accepted(s: State, ops: seq<Op>): seq<Arrival>
    decreases |ops|
  {
    if ops == [] then [] else Arriving(s, ops[0]) + Accepted(Step(s, ops[0]), ops[1..])
  }

  /** a leaves before b although both wait: a higher priority, or the same and accepted earlier. */
  predicate Precedes(a: Arrival, b: Arrival) {
    a.packet.prio > b.packet.prio || (a.packet.prio == b.packet.prio && a.serial < b.serial)
  }

  ghost predicate Ordered(s: State) {
    (forall i, j | 0 <= i < j < |s.waiting| :: Precedes(s.waiting[i], s.waiting[j]))
    && forall i | 0 <= i < |s.waiting| :: s.waiting[i].serial < s.clock
  }

  /** Every place of the queue after an insertion, from its place before. */
  lemma InsertedAt(waiting: seq<Arrival>, a: Arrival, i: nat)
    requires i <= |waiting|
    ensures var k := Slot(waiting, a.packet.prio);
            Inserted(waiting, a)[i] == if i < k then waiting[i] else if i == k then a else waiting[i - 1]
  {}

  lemma InsertKeepsOrder(s: State, p: Packet)
    requires Ordered(s) && s.free > 0
    ensures Ordered(Step(s, Insert(p)))
  {
    var a := Arrival(p, s.clock);
    var k, q := Slot(s.waiting, p.prio), Inserted(s.waiting, a);
    forall i, j | 0 <= i < j < |q| ensures Precedes(q[i], q[j]) {
      InsertedAt(s.waiting, a, i);
      InsertedAt(s.waiting, a, j);
      if i == k && k < j - 1 { assert Precedes(s.waiting[k], s.waiting[j - 1]); }
      if j != k && i != k {
        assert Precedes(s.waiting[if i < k then i else i - 1], s.waiting[if j < k then j else j - 1]);
      }
    }
    forall i | 0 <= i < |q| ensures q[i].serial < s.clock + 1 { InsertedAt(s.waiting, a, i); }
  }

  lemma StepKeepsOrder(s: State, op: Op)
    requires Ordered(s)
    ensures Ordered(Step(s, op)) && Step(s, op).clock >= s.clock
  {
    if op.Insert? && s.free > 0 {
      InsertKeepsOrder(s, op.packet);
    } else if op.Remove? && s.waiting != [] {
      var q := s.waiting[1..];
      forall i, j | 0 <= i < j < |q| ensures Precedes(q[i], q[j]) {
        assert Precedes(s.waiting[i + 1], s.waiting[j + 1]);
      }
    }
  }

  /** What waits after a step waited before it, or has just come. */
  lemma StepWaiting(s: State, op: Op, a: Arrival)
    requires a in Step(s, op).waiting
    ensures a in s.waiting || (op.Insert? && a.serial == s.clock)
  {
    if op.Insert? && s.free > 0 {
      var i :| 0 <= i < |Step(s, op).waiting| && Step(s, op).waiting[i] == a;
      InsertedAt(s.waiting, Arrival(op.packet, s.clock), i);
    }
  }

  /** What is removed was waiting at the start, or was accepted later. */
  lemma {:induction false} RemovedComesFrom(s: State, ops: seq<Op>, a: Arrival)
    requires a in Removed(s, ops)
    ensures a in s.waiting || (a.serial >= s.clock && exists op :: op in ops && op.Insert?)
    decreases |ops|
  {
    var s' := Step(s, ops[0]);
    if a !in Leaving(s, ops[0]) {
      RemovedComesFrom(s', ops[1..], a);
      if a in s'.waiting { StepWaiting(s, ops[0], a); }
    }
  }

  /** The first packet removed now precedes all that are removed later, but for those still to come. */
  lemma FirstRemoved(s: State, ops: seq<Op>, b: Arrival)
    requires Ordered(s) && s.waiting != [] && b in Removed(Step(s, Remove), ops)
    ensures Precedes(s.waiting[0], b) || (b.serial > s.waiting[0].serial && exists op :: op in ops && op.Insert?)
  {
    RemovedComesFrom(Step(s, Remove), ops, b);
    if b in s.waiting[1..] {
      var n :| 0 <= n < |s.waiting[1..]| && s.waiting[1..][n] == b;
      assert Precedes(s.waiting[0], s.waiting[n + 1]);
    }
  }

  /** Over any run a packet leaves before another only if it was accepted first or has a higher priority:
   *  among equal priorities packets leave in the order they came. Without insertions in between,
   *  they leave in descending priority. */
  lemma {:induction false} LeaveInOrder(s: State, ops: seq<Op>, i: nat, j: nat)
    requires Ordered(s) && i < j < |Removed(s, ops)|
    ensures var a, b := Removed(s, ops)[i], Removed(s, ops)[j];
            && (a.serial < b.serial || a.packet.prio > b.packet.prio)
            && ((forall op | op in ops :: !op.Insert?) ==> Precedes(a, b))
    decreases |ops|
  {
    var s', n := Step(s, ops[0]), |Leaving(s, ops[0])|;
    var later := Removed(s', ops[1..]);
    assert Removed(s, ops)[j] == later[j - n];
    if i < n {
      FirstRemoved(s, ops[1..], later[j - n]);
    } else {
      assert Removed(s, ops)[i] == later[i - n];
      StepKeepsOrder(s, ops[0]);
      LeaveInOrder(s', ops[1..], i - n, j - n);
    }
  }

  lemma StepConserves(s: State, op: Op)
    ensures var t := Step(s, op); |t.waiting| + t.free + t.held == |s.waiting| + s.free + s.held
    ensures multiset(s.waiting) + multiset(Arriving(s, op)) == multiset(Leaving(s, op)) + multiset(Step(s, op).waiting)
  {
    if op.Insert? && s.free > 0 {
      InsertedOnce(s.waiting, Arrival(op.packet, s.clock));
    }
    if op.Remove? && s.waiting != [] {
      assert s.waiting == [s.waiting[0]] + s.waiting[1..];
    }
    hide Inserted;
  }

  lemma InsertedOnce(waiting: seq<Arrival>, a: Arrival)
    ensures |Inserted(waiting, a)| == |waiting| + 1
    ensures multiset(Inserted(waiting, a)) == multiset(waiting) + multiset([a])
  {
    var k := Slot(waiting, a.packet.prio);
    assert waiting == waiting[..k] + waiting[k..];
  }

  lemma BalancesAdd<T>(w: multiset<T>, w': multiset<T>, w'': multiset<T>,
                       arrive: multiset<T>, leave: multiset<T>, arrive': multiset<T>, leave': multiset<T>)
    requires w + arrive == leave + w' && w' + arrive' == leave' + w''
    ensures w + (arrive + arrive') == (leave + leave') + w''
  {
    assert w + (arrive + arrive') == (w + arrive) + arrive';
    assert (leave + leave') + w'' == leave + (leave' + w'');
  }

  /** Every accepted packet is either removed once or still waiting, and buffers are never lost or made. */
  lemma {:induction false} Conserved(s: State, ops: seq<Op>)
    ensures multiset(s.waiting) + multiset(Accepted(s, ops))
         == multiset(Removed(s, ops)) + multiset(Run(s, ops).waiting)
    ensures var t := Run(s, ops); |t.waiting| + t.free + t.held == |s.waiting| + s.free + s.held
    decreases |ops|
  {
    if ops != [] {
      var s' := Step(s, ops[0]);
      Conserved(s', ops[1..]);
      StepConserves(s, ops[0]);
      BalancesAdd(multiset(s.waiting), multiset(s'.waiting), multiset(Run(s', ops[1..]).waiting),
                  multiset(Arriving(s, ops[0])), multiset(Leaving(s, ops[0])),
                  multiset(Accepted(s', ops[1..])), multiset(Removed(s', ops[1..])));
    }
  }
}

/** The transmit buffer manager: an active and a free list threaded through one pool of buffers. */
module TxBuffers {
  import opened Chains
  import opened Packets
  import opened TxQueues

  const MAX_TX_QUEUE_SIZE: nat := 4

  ghost function Last(q: seq<nat>): int {
    if q == [] then NULL else q[|q| - 1]
  }

  /** The buffers numbered below n. */
  ghost function Buffers(n: nat): (b: set<nat>)
    ensures |b| == n && forall i: nat :: i in b <==> i < n
  {
    if n == 0 then {} else Buffers(n - 1) + {n - 1}
  }

  /** Every buffer is in exactly one place: waiting with a packet, free, or held by the sender. */
  ghost predicate Partition(active: seq<nat>, free: seq<nat>, held: set<nat>) {
    // named, so that a goal of this predicate is taken whole and not split into its parts
    var apart :=
      NoDuplicates(active) && NoDuplicates(free)
      && (forall n | n in active :: n < MAX_TX_QUEUE_SIZE && n !in free && n !in held)
      && (forall n | n in free :: n < MAX_TX_QUEUE_SIZE && n !in held)
      && (forall n | n in held :: n < MAX_TX_QUEUE_SIZE)
      && |active| + |free| + |held| == MAX_TX_QUEUE_SIZE;
    apart
  }

  lemma FreedPartition(active: seq<nat>, free: seq<nat>, held: set<nat>, b: nat)
    requires Partition(active, free, held) && b in held
    ensures b !in active && b !in free && NoDuplicates(free) && forall n | n in free :: n !in active
    ensures Partition(active, free + [b], held - {b})
  {}

  lemma TakenPartition(active: seq<nat>, free: seq<nat>, held: set<nat>)
    requires Partition(active, free, held) && free != []
    ensures NoDuplicates(free) && free[0] !in held && Partition(active, free[1..], held + {free[0]})
  {
    assert free[0] in free && forall n | n in free[1..] :: n in free;
    TailDistinct(free);
  }

  lemma SentPartition(active: seq<nat>, free: seq<nat>, held: set<nat>)
    requires Partition(active, free, held) && active != []
    ensures NoDuplicates(active) && active[0] !in held && Partition(active[1..], free, held + {active[0]})
  {
    assert active[0] in active && forall n | n in active[1..] :: n in active;
    TailDistinct(active);
  }

  lemma QueuedPartition(active: seq<nat>, free: seq<nat>, held: set<nat>, b: nat, k: nat)
    requires Partition(active, free, held) && b in held && k <= |active|
    ensures b !in active && b !in free && NoDuplicates(active) && forall n | n in active :: n !in free
    ensures Partition(LinkedIn(active, b, k), free, held - {b})
  {
    var all := LinkedIn(active, b, k);
    assert active == active[..k] + active[k..];
    RearrangedDistinct([b] + active, all);
    forall n | n in all ensures n == b || n in active {}
  }

  /** A transmit buffer, but for its link to the next one. */
  datatype TransmitBuffer = TransmitBuffer(pkt: Packet, full: bool, prio: int)

  /** A packet that says nothing about what was sent before; its hops are not cleared. */
  ghost predicate Blanked(p: Packet) {
    p.src == 0 && p.dest == 0 && p.ttl == 0 && p.kind == 0xFF && p.length == 0 && p.prio == 0
    && forall i | 0 <= i < |p.data| :: p.data[i] == 0
  }

  /** A buffer that holds the packet of an arrival, and one that holds none. */
  ghost predicate FullAt(bufs: seq<TransmitBuffer>, n: nat, a: Arrival) {
    n < |bufs| && bufs[n] == TransmitBuffer(a.packet, true, a.packet.prio)
  }

  ghost predicate EmptyAt(bufs: seq<TransmitBuffer>, n: nat) {
    n < |bufs| && !bufs[n].full && Blanked(bufs[n].pkt)
  }

  /** The active buffers hold what waits, in order, and the free ones hold nothing. */
  ghost predicate Filled(bufs: seq<TransmitBuffer>, active: seq<nat>, waiting: seq<Arrival>, free: seq<nat>) {
    |waiting| == |active|
    && (forall i | 0 <= i < |active| :: FullAt(bufs, active[i], waiting[i]))
    && forall i | 0 <= i < |free| :: EmptyAt(bufs, free[i])
  }

  class TxBufferManager {
    const txBuf: array<TransmitBuffer>
    const nexts: array<int>
    var headFq: int
    var tailFq: int
    var headAq: int
    var tailAq: int
    var countAq: int
    var countFq: int
    ghost var active: seq<nat>
    ghost var free: seq<nat>
    ghost var held: set<nat>       // removed and not yet returned
    ghost var waiting: seq<Arrival>  // what the active buffers hold, and when it was accepted
    ghost var clock: nat

    ghost predicate ActiveList()
      reads this`headAq, this`tailAq, this`countAq, this`active, nexts
    {
      // named, so that a goal of this predicate is taken whole and not split into its parts
      var linked := Chained(headAq, nexts[..], active) && tailAq == Last(active) && countAq == |active|;
      linked
    }

    ghost predicate FreeList()
      reads this`headFq, this`tailFq, this`countFq, this`free, nexts
    {
      // named, so that a goal of this predicate is taken whole and not split into its parts
      var linked := Chained(headFq, nexts[..], free) && tailFq == Last(free) && countFq == |free|;
      linked
    }

    ghost predicate Contained()
      reads this`active, this`waiting, this`free, txBuf
    {
      // named, so that a goal of this predicate is taken whole and not split into its parts
      var kept := Filled(txBuf[..], active, waiting, free);
      kept
    }

    ghost predicate Valid()
      reads this, txBuf, nexts
    {
      txBuf.Length == nexts.Length == MAX_TX_QUEUE_SIZE
      && ActiveList() && FreeList() && Partition(active, free, held) && Contained()
    }

    ghost function Abstract(): State
      reads this
    {
      State(waiting, |free|, |held|, clock)
    }

    /** The transmit part of initialise_buffer_manager. */
    constructor (any: TransmitBuffer)
      ensures Valid() && fresh(txBuf) && fresh(nexts)
      ensures Abstract() == State([], MAX_TX_QUEUE_SIZE, 0, 0)
    {
      headFq, tailFq, headAq, tailAq := NULL, NULL, NULL, NULL;
      countFq, countAq := 0, 0;
      txBuf := new TransmitBuffer[MAX_TX_QUEUE_SIZE](i => any);
      nexts := new int[MAX_TX_QUEUE_SIZE](i => NULL);
      active, free, waiting, clock := [], [], [], 0;
      held := Buffers(MAX_TX_QUEUE_SIZE);
      new;
      FreeAll();
    }

    /** The loop of initialise_buffer_manager over the transmit buffers. */
    method FreeAll()
      requires Valid() && active == [] && held == Buffers(MAX_TX_QUEUE_SIZE) && clock == 0
      modifies this`headFq, this`tailFq, this`countFq, this`free, this`held, txBuf, nexts
      ensures Valid() && Abstract() == State([], MAX_TX_QUEUE_SIZE, 0, 0)
    {
      for i := 0 to MAX_TX_QUEUE_SIZE
        invariant Valid() && |held| == MAX_TX_QUEUE_SIZE - i
        invariant forall n: nat | i <= n < MAX_TX_QUEUE_SIZE :: n in held
      {
        InsertTxFq(i);
      }
    }

    /** Returns a buffer that is in no list to the end of the free list. */
    method InsertTxFq(buf: nat)
      requires Valid() && buf in held
      modifies this`headFq, this`tailFq, this`countFq, this`free, this`held, txBuf, nexts
      ensures Valid() && free == old(free) + [buf] && held == old(held) - {buf}
      ensures Abstract() == Step(old(Abstract()), Return)
    {
      FreedPartition(active, free, held, buf);
      ghost var bufs := txBuf[..];
      EmptiedFilled(bufs, active, waiting, free, buf);
      LinkFree(buf);
      txBuf[buf] := txBuf[buf].(full := false);
      txBuf[buf] := txBuf[buf].(pkt := Blank(txBuf[buf].pkt));
      assert txBuf[..] == Emptied(bufs, buf);
      held := held - {buf};
    }

    /** The list part of insert_tx_fq. */
    method LinkFree(buf: nat)
      requires ActiveList() && FreeList() && NoDuplicates(free) && buf !in active && buf !in free && buf < nexts.Length
      requires forall n | n in free :: n !in active
      modifies this`headFq, this`tailFq, this`countFq, this`free, nexts
      ensures ActiveList() && FreeList() && free == old(free) + [buf]
    {
      ghost var links := nexts[..];
      AppendedChain(headFq, links, free, buf);
      AppendedApart(headAq, links, active, free, buf);
      if headFq == NULL {
        headFq, tailFq := buf, buf;
      } else {
        nexts[tailFq] := buf;
        tailFq := buf;
      }
      nexts[buf] := NULL;
      countFq := countFq + 1;
      assert nexts[..] == Appended(links, free, buf);
      free := free + [buf];
    }

    /** Takes the buffer at the head of the free list, or NULL. */
    method RemoveTxFq() returns (buf: int)
      requires Valid()
      modifies this`headFq, this`tailFq, this`countFq, this`free, this`held
      ensures Valid()
      ensures old(free) == [] ==> buf == NULL && free == [] && held == old(held)
      ensures old(free) != [] ==>
                buf == old(free)[0] && free == old(free)[1..] && buf !in old(held) && held == old(held) + {buf}
    {
      if headFq == NULL {
        return NULL;
      }
      TakenPartition(active, free, held);
      TakenFilled(txBuf[..], active, waiting, free);
      buf := UnlinkFree();
      held := held + {buf};
    }

    /** The list part of remove_tx_fq. */
    method UnlinkFree() returns (buf: nat)
      requires FreeList() && NoDuplicates(free) && free != []
      modifies this`headFq, this`tailFq, this`countFq, this`free
      ensures FreeList() && buf == old(free)[0] && free == old(free)[1..]
    {
      ghost var links := nexts[..];
      ChainedRest(headFq, links, free);
      TakenLast(headFq, links, free);
      if headFq == tailFq {
        tailFq := NULL;
      }
      buf := headFq;
      headFq := nexts[headFq];
      countFq := countFq - 1;
      free := free[1..];
      assert nexts[..] == links;
    }

    /** Takes the buffer at the head of the active list for sending, or NULL. */
    method RemoveTxAq() returns (buf: int)
      requires Valid()
      modifies this`headAq, this`tailAq, this`countAq, this`active, this`held, this`waiting
      ensures Valid() && Abstract() == Step(old(Abstract()), Remove)
      ensures free == old(free) && (buf == NULL <==> old(waiting) == [])
      ensures buf != NULL ==> buf in held && held == old(held) + {buf} && txBuf[buf].pkt == old(waiting)[0].packet
    {
      if headAq == NULL {
        return NULL;
      }
      buf := TakeActive();
    }

    /** The part of remove_tx_aq for a list that is not empty. */
    method TakeActive() returns (buf: nat)
      requires Valid() && active != [] && |waiting| == |active|
      modifies this`headAq, this`tailAq, this`countAq, this`active, this`held, this`waiting
      ensures Valid() && waiting == old(waiting)[1..] && buf !in old(held) && held == old(held) + {buf}
      ensures txBuf[buf].pkt == old(waiting)[0].packet
    {
      hide Partition, Filled, Chained, NoDuplicates;
      ghost var bufs := txBuf[..];
      SentPartition(active, free, held);
      SentFilled(bufs, active, waiting, free);
      buf := UnlinkActive();
      held := held + {buf};
      waiting := waiting[1..];
      assert txBuf[..] == bufs;
    }

    /** The list part of remove_tx_aq. */
    method UnlinkActive() returns (buf: nat)
      requires ActiveList() && NoDuplicates(active) && active != []
      modifies this`headAq, this`tailAq, this`countAq, this`active
      ensures ActiveList() && buf == old(active)[0] && active == old(active)[1..]
    {
      ghost var links := nexts[..];
      ChainedRest(headAq, links, active);
      TakenLast(headAq, links, active);
      if headAq == tailAq {
        tailAq := NULL;
      }
      buf := headAq;
      headAq := nexts[headAq];
      countAq := countAq - 1;
      active := active[1..];
      assert nexts[..] == links;
    }

    /** The search loop of insert_tx_aq: the buffers between which a packet goes. */
    method FindSlot(p: int) returns (prev: int, ptr: int, ghost k: nat)
      requires Valid()
      ensures k <= |active| && k == Slot(waiting, p)
      ensures ptr == NodeAt(active, k) && prev == if k == 0 then NULL else active[k - 1]
    {
      ghost var links := nexts[..];
      ptr := headAq;
      prev := NULL;
      k := 0;
      while ptr != NULL
        invariant k <= |active| && ptr == NodeAt(active, k) && prev == if k == 0 then NULL else active[k - 1]
        invariant forall j | 0 <= j < k :: waiting[j].packet.prio >= p
        decreases |active| - k
      {
        assert NextAt(links, active, k) && FullAt(txBuf[..], active[k], waiting[k]);
        if txBuf[ptr].prio < p {
          break;
        }
        prev := ptr;
        ptr := nexts[ptr];
        k := k + 1;
      }
      SlotIs(waiting, p, k);
    }

    /** insert_tx_aq: fails exactly when no buffer is free. */
    method InsertTxAq(p: Packet) returns (ok: bool)
      requires Valid()
      modifies this, txBuf, nexts
      ensures Valid() && ok == (old(free) != []) && held == old(held)
      ensures Abstract() == Step(old(Abstract()), Insert(p))
    {
      hide Partition, Filled, Chained, FullAt, Inserted, Slot;
      var buf := RemoveTxFq();
      if buf == NULL {
        return false;
      }
      var prev, ptr;
      ghost var k;
      prev, ptr, k := FindSlot(p.prio);
      Store(buf, p, prev, ptr, k);
      ok := true;
    }

    /** Fills buffer buf and puts it into the active list at place k. */
    method Store(buf: nat, p: Packet, prev: int, ptr: int, ghost k: nat)
      requires Valid() && buf in held && k == Slot(waiting, p.prio) && k <= |active|
      requires ptr == NodeAt(active, k) && prev == if k == 0 then NULL else active[k - 1]
      modifies this`headAq, this`tailAq, this`countAq, this`active, this`held, this`waiting, this`clock
      modifies txBuf, nexts
      ensures Valid() && held == old(held) - {buf} && clock == old(clock) + 1
      ensures waiting == Inserted(old(waiting), Arrival(p, old(clock)))
    {
      hide Partition, Filled, Chained, Inserted, Slot;
      ghost var bufs := txBuf[..];
      QueuedPartition(active, free, held, buf, k);
      StoredFilled(bufs, active, waiting, free, buf, Arrival(p, clock));
      Fill(buf, p);
      LinkActive(buf, prev, ptr, k);
      waiting := Inserted(waiting, Arrival(p, clock));
      clock := clock + 1;
      held := held - {buf};
      assert txBuf[..] == bufs[buf := TransmitBuffer(p, true, p.prio)];
    }

    /** The part of insert_tx_aq that fills the buffer. */
    method Fill(buf: nat, p: Packet)
      requires buf < txBuf.Length
      modifies txBuf
      ensures txBuf[..] == old(txBuf[..])[buf := TransmitBuffer(p, true, p.prio)]
    {
      txBuf[buf] := txBuf[buf].(pkt := p);
      txBuf[buf] := txBuf[buf].(full := true);
      txBuf[buf] := txBuf[buf].(prio := p.prio);
    }

    /** The list part of insert_tx_aq. */
    method LinkActive(buf: nat, prev: int, ptr: int, ghost k: nat)
      requires ActiveList() && FreeList() && NoDuplicates(active)
      requires buf !in active && buf !in free && buf < nexts.Length && forall n | n in active :: n !in free
      requires k <= |active| && ptr == NodeAt(active, k) && prev == if k == 0 then NULL else active[k - 1]
      modifies this`headAq, this`tailAq, this`countAq, this`active, nexts
      ensures ActiveList() && FreeList() && active == LinkedIn(old(active), buf, k) && txBuf[..] == old(txBuf[..])
    {
      ghost var links := nexts[..];
      LinkedForward(headAq, links, active, buf, k);
      LinkedLast(active, buf, k);
      LinkedApart(headFq, links, free, active, buf, k);
      if headAq == NULL {
        nexts[buf] := NULL;
        headAq, tailAq := buf, buf;
      } else {
        nexts[buf] := ptr;
        if prev == NULL {
          headAq := buf;
        } else {
          nexts[prev] := buf;
          if prev == tailAq {
            tailAq := buf;
          }
        }
      }
      countAq := countAq + 1;
      assert nexts[..] == LinkedNexts(links, active, buf, k);
      active := LinkedIn(active, buf, k);
    }
  }

  /** The links after buffer b is put at place k of list q. */
  ghost function LinkedNexts(links: seq<int>, q: seq<nat>, b: nat, k: nat): seq<int>
    requires b < |links| && k <= |q| && (k > 0 ==> q[k - 1] < |links|)
  {
    if k == 0 then links[b := NodeAt(q, 0)] else links[b := NodeAt(q, k)][q[k - 1] := b]
  }

  lemma LinkedApart(first: int, links: seq<int>, other: seq<nat>, q: seq<nat>, b: nat, k: nat)
    requires Chained(first, links, other) && b !in other && b < |links| && k <= |q|
    requires k > 0 ==> q[k - 1] < |links| && q[k - 1] !in other
    ensures Chained(first, LinkedNexts(links, q, b, k), other)
  {
    ChainedApart(first, links, other, b, NodeAt(q, k));
    if k > 0 { ChainedApart(first, links[b := NodeAt(q, k)], other, q[k - 1], b); }
  }

  lemma LinkedLast(q: seq<nat>, b: nat, k: nat)
    requires k <= |q| && NoDuplicates(q)
    ensures Last(LinkedIn(q, b, k)) == if k == |q| then b else Last(q)
    ensures k > 0 ==> (q[k - 1] == Last(q) <==> k == |q|)
  {
    LinkedInAt(q, b, k, |q|);
  }

  lemma TakenLast(first: int, links: seq<int>, q: seq<nat>)
    requires Chained(first, links, q) && q != [] && NoDuplicates(q)
    ensures first == Last(q) <==> |q| == 1
    ensures |q| > 1 ==> Last(q[1..]) == Last(q)
  {}

  lemma TakenFilled(bufs: seq<TransmitBuffer>, active: seq<nat>, waiting: seq<Arrival>, free: seq<nat>)
    requires Filled(bufs, active, waiting, free) && free != []
    ensures Filled(bufs, active, waiting, free[1..])
  {
    forall i | 0 <= i < |free[1..]| ensures EmptyAt(bufs, free[1..][i]) { assert EmptyAt(bufs, free[i + 1]); }
  }

  lemma SentFilled(bufs: seq<TransmitBuffer>, active: seq<nat>, waiting: seq<Arrival>, free: seq<nat>)
    requires Filled(bufs, active, waiting, free) && active != []
    ensures FullAt(bufs, active[0], waiting[0]) && Filled(bufs, active[1..], waiting[1..], free)
  {
    forall i | 0 <= i < |active[1..]| ensures FullAt(bufs, active[1..][i], waiting[1..][i]) {
      assert FullAt(bufs, active[i + 1], waiting[i + 1]);
    }
  }

  lemma StoredFilled(bufs: seq<TransmitBuffer>, active: seq<nat>, waiting: seq<Arrival>, free: seq<nat>,
                     b: nat, a: Arrival)
    requires Filled(bufs, active, waiting, free) && b < |bufs| && b !in active && b !in free
    ensures Filled(bufs[b := TransmitBuffer(a.packet, true, a.packet.prio)],
                   LinkedIn(active, b, Slot(waiting, a.packet.prio)), Inserted(waiting, a), free)
  {
    var bufs', k := bufs[b := TransmitBuffer(a.packet, true, a.packet.prio)], Slot(waiting, a.packet.prio);
    var all, all' := LinkedIn(active, b, k), Inserted(waiting, a);
    forall i | 0 <= i < |all| ensures FullAt(bufs', all[i], all'[i]) {
      LinkedInAt(active, b, k, i);
      InsertedAt(waiting, a, i);
      if i < k { assert FullAt(bufs, active[i], waiting[i]); }
      if i > k { assert FullAt(bufs, active[i - 1], waiting[i - 1]); }
    }
    forall i | 0 <= i < |free| ensures EmptyAt(bufs', free[i]) { assert EmptyAt(bufs, free[i]); }
  }

  /** The links after buffer b is put at the end of list q. */
  ghost function Appended(links: seq<int>, q: seq<nat>, b: nat): seq<int>
    requires b < |links| && (q != [] ==> q[|q| - 1] < |links|)
  {
    if q == [] then links[b := NULL] else links[b := NULL][q[|q| - 1] := b]
  }

  lemma AppendedChain(first: int, links: seq<int>, q: seq<nat>, b: nat)
    requires Chained(first, links, q) && NoDuplicates(q) && b !in q && b < |links|
    ensures q != [] ==> q[|q| - 1] < |links|
    ensures Chained(if q == [] then b else first, Appended(links, q, b), q + [b])
  {
    LinkedForward(first, links, q, b, |q|);
    assert LinkedIn(q, b, |q|) == q + [b];
  }

  lemma AppendedApart(first: int, links: seq<int>, other: seq<nat>, q: seq<nat>, b: nat)
    requires Chained(first, links, other) && b !in other && b < |links|
    requires q != [] ==> q[|q| - 1] < |links| && q[|q| - 1] !in other
    ensures Chained(first, Appended(links, q, b), other)
  {
    ChainedApart(first, links, other, b, NULL);
    if q != [] { ChainedApart(first, links[b := NULL], other, q[|q| - 1], b); }
  }

  /** The buffers after buffer b is emptied. */
  ghost function Emptied(bufs: seq<TransmitBuffer>, b: nat): seq<TransmitBuffer>
    requires b < |bufs|
  {
    bufs[b := TransmitBuffer(Blank(bufs[b].pkt), false, bufs[b].prio)]
  }

  lemma EmptiedFilled(bufs: seq<TransmitBuffer>, active: seq<nat>, waiting: seq<Arrival>, free: seq<nat>, b: nat)
    requires Filled(bufs, active, waiting, free) && b < |bufs| && b !in active
    ensures Filled(Emptied(bufs, b), active, waiting, free + [b])
  {
    var bufs' := Emptied(bufs, b);
    forall i | 0 <= i < |active| ensures FullAt(bufs', active[i], waiting[i]) {
      assert FullAt(bufs, active[i], waiting[i]);
    }
    forall i | 0 <= i < |free + [b]| ensures EmptyAt(bufs', (free + [b])[i]) {
      if i < |free| { assert EmptyAt(bufs, free[i]); }
    }
  }
}
