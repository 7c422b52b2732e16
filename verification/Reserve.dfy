/** Reserves: at most so many accesses to a resource per period. */
module Reserves {
  import opened Arithmetic

  type Access = i: int | -0x8000 <= i < 0x8000

  /** active is -1 for a reserve that has not been created. Ticks do not wrap. */
  datatype Reserve = Reserve(
    periodTicks: nat, setTime: nat, curTime: nat, setAccess: Access, curAccess: Access, active: int)

  datatype Status = Ok | Error

  /** _nrk_reserve_update at time now: a reserve that is past its period is replenished. */
  function Updated(r: Reserve, now: nat): Reserve {
    if now >= r.setTime then r.(curTime := now, setTime := now + r.periodTicks, curAccess := 0)
    else r.(curTime := now)
  }

  /** What is left to take before the next replenishment. */
  function Left(r: Reserve): nat {
    if r.setAccess > r.curAccess then r.setAccess - r.curAccess else 0
  }

  function Consumed(r: Reserve, now: nat): Reserve {
    var u := Updated(r, now);
    if u.setAccess > u.curAccess then u.(curAccess := u.curAccess + 1) else u
  }

  predicate Succeeds(r: Reserve, now: nat) {
    Left(Updated(r, now)) > 0
  }

  ghost predicate InUse(table: seq<Reserve>, id: nat) {
    id < |table| && table[id].active != -1
  }

  class ReserveTable {
    const reserves: array<Reserve>

    /** _nrk_reserve_init. */
    constructor (maxReserves: nat, any: Reserve)
      ensures fresh(reserves) && reserves.Length == maxReserves
      ensures forall id: nat :: !InUse(reserves[..], id)
    {
      reserves := new Reserve[maxReserves](i => any);
      new;
      for i := 0 to maxReserves
        invariant forall j | 0 <= j < i :: reserves[j].active == -1
      {
        reserves[i] := reserves[i].(active := -1);
      }
    }

    /** The first reserve not in use, or none. */
    method Create() returns (status: Status, id: nat)
      modifies reserves
      ensures status.Error? <==> forall i: nat | i < reserves.Length :: old(InUse(reserves[..], i))
      ensures status.Error? ==> reserves[..] == old(reserves[..])
      ensures status.Ok? ==> id < reserves.Length && !old(InUse(reserves[..], id)) && InUse(reserves[..], id)
                             && (forall i: nat | i < id :: old(InUse(reserves[..], i)))
                             && reserves[..] == old(reserves[..])[id := old(reserves[id]).(active := 1)]
    {
      ghost var before := reserves[..];
      for i := 0 to reserves.Length
        invariant reserves[..] == before
        invariant forall j: nat | j < i :: InUse(before, j)
      {
        if reserves[i].active == -1 {
          assert !InUse(before, i);
          reserves[i] := reserves[i].(active := 1);
          return Ok, i;
        }
      }
      return Error, 0;
    }

    method Update(id: nat, now: nat)
      requires id < reserves.Length
      modifies reserves
      ensures reserves[..] == old(reserves[..])[id := Updated(old(reserves[id]), now)]
    {
      reserves[id] := reserves[id].(curTime := now);
      if reserves[id].curTime >= reserves[id].setTime {
        reserves[id] := reserves[id].(setTime := reserves[id].curTime + reserves[id].periodTicks, curAccess := 0);
      }
    }

    /** The accesses left, in eight bits. */
    method Get(id: nat, now: nat) returns (left: nat)
      modifies reserves
      ensures if old(InUse(reserves[..], id))
              then left == Left(Updated(old(reserves[id]), now)) % 256
                   && reserves[..] == old(reserves[..])[id := Updated(old(reserves[id]), now)]
              else left == 0 && reserves[..] == old(reserves[..])
    {
      if id >= reserves.Length {
        return 0;
      }
      if reserves[id].active == -1 {
        return 0;
      }
      Update(id, now);
      if reserves[id].curAccess > reserves[id].setAccess {
        return 0;
      }
      left := (reserves[id].setAccess - reserves[id].curAccess) % 256;
    }

    method Consume(id: nat, now: nat) returns (status: Status)
      modifies reserves
      ensures status.Ok? <==> old(InUse(reserves[..], id)) && Succeeds(old(reserves[id]), now)
      ensures if old(InUse(reserves[..], id))
              then reserves[..] == old(reserves[..])[id := Consumed(old(reserves[id]), now)]
              else reserves[..] == old(reserves[..])
    {
      if id >= reserves.Length {
        return Error;
      }
      if reserves[id].active == -1 {
        return Error;
      }
      Update(id, now);
      if reserves[id].setAccess <= reserves[id].curAccess {
        return Error;
      }
      reserves[id] := reserves[id].(curAccess := reserves[id].curAccess + 1);
      return Ok;
    }

    method Set(id: nat, periodTicks: nat, accessCount: Access, now: nat) returns (status: Status)
      modifies reserves
      ensures status.Ok? <==> old(InUse(reserves[..], id))
      ensures reserves[..] == if status.Error? then old(reserves[..])
              else old(reserves[..])[id := Reserve(periodTicks, now + periodTicks, now, accessCount, 0,
                                                   old(reserves[id]).active)]
    {
      if id >= reserves.Length {
        return Error;
      }
      if reserves[id].active == -1 {
        return Error;
      }
      reserves[id] := reserves[id].(periodTicks := periodTicks, setAccess := accessCount, curAccess := 0);
      reserves[id] := reserves[id].(curTime := now);
      reserves[id] := reserves[id].(setTime := now + reserves[id].periodTicks);
      return Ok;
    }
  }

  // ----- runs -----

  /** A call on one reserve, and the time it reads from the clock. */
  datatype Call = Consume(now: nat) | Get(now: nat)

  function After(r: Reserve, c: Call): Reserve {
    match c
    case Consume(now) => Consumed(r, now)
    case Get(now) => Updated(r, now)
  }

  /** How many of the calls are consumptions that succeed. */
  function Successes(r: Reserve, calls: seq<Call>): nat
    decreases |calls|
  {
    if calls == [] then 0
    else (if calls[0].Consume? && Succeeds(r, calls[0].now) then 1 else 0) + Successes(After(r, calls[0]), calls[1..])
  }

  /** The clock does not run backwards, and all calls fall between from and to. */
  ghost predicate Timely(calls: seq<Call>, from: nat, to: nat) {
    calls == [] || (from <= calls[0].now <= to && Timely(calls[1..], calls[0].now, to))
  }

  function Max(a: int, b: int): int {
    if a >= b then a else b
  }

  /** How often the reserve can be replenished from time from up to and including time to. */
  function Refills(r: Reserve, from: nat, to: nat): nat
    requires r.periodTicks > 0
  {
    var first := Max(from, r.setTime);
    if to < first then 0 else (to - first) / r.periodTicks + 1
  }

  /** The most that can succeed: what is left now, and a full allowance for every refill. */
  function Allowance(r: Reserve, from: nat, to: nat): nat
    requires r.periodTicks > 0
  {
    Left(r) + Max(r.setAccess, 0) * Refills(r, from, to)
  }

  /** Waiting takes nothing away from, and a refill is paid for by, the refills still to come. */
  lemma RefillsStep(r: Reserve, from: nat, now: nat, to: nat)
    requires r.periodTicks > 0 && from <= now <= to
    ensures now < r.setTime ==> Refills(Updated(r, now), now, to) <= Refills(r, from, to)
    ensures now >= r.setTime ==> Refills(Updated(r, now), now, to) + 1 <= Refills(r, from, to)
  {
    var p, first := r.periodTicks, Max(from, r.setTime);
    if now >= r.setTime {
      DivideMonotone(to - now, to - first, p);
      if to >= now + p { OneLess(to - now, p); }
    }
  }

  lemma DivideMonotone(a: int, b: int, d: int)
    requires 0 <= a <= b && d > 0
    ensures 0 <= a / d <= b / d
  {
    var k := b / d - a / d;
    assert k * d == b / d * d - a / d * d;
    TimesAtLeast(k, d);
    assert a / d >= 0;
  }

  lemma OneLess(a: int, d: int)
    requires 0 < d <= a
    ensures (a - d) / d == a / d - 1
  {
    assert (a / d - 1) * d == a / d * d - d;
    DivisionUnique(a - d, d, a / d - 1, a % d);
  }

  lemma {:induction false} SuccessesBounded(r: Reserve, calls: seq<Call>, from: nat, to: nat)
    requires r.periodTicks > 0 && Timely(calls, from, to)
    ensures Successes(r, calls) <= Allowance(r, from, to)
    decreases |calls|
  {
    if calls == [] {
      assert Max(r.setAccess, 0) * Refills(r, from, to) >= 0;
    } else {
      var now := calls[0].now;
      SuccessesBounded(After(r, calls[0]), calls[1..], now, to);
      CallPays(r, calls[0], from, to);
    }
  }

  lemma CallPays(r: Reserve, c: Call, from: nat, to: nat)
    requires r.periodTicks > 0 && from <= c.now <= to
    ensures Allowance(After(r, c), c.now, to) + (if c.Consume? && Succeeds(r, c.now) then 1 else 0)
         <= Allowance(r, from, to)
  {
    RefillsStep(r, from, c.now, to);
    var u := Updated(r, c.now);
    assert Refills(After(r, c), c.now, to) == Refills(u, c.now, to);
    var full, n, m := Max(r.setAccess, 0), Refills(u, c.now, to), Refills(r, from, to);
    if c.now < r.setTime {
      TimesMonotone(full, n, m);
    } else {
      TimesMonotone(full, n + 1, m);
      assert full * (n + 1) == full * n + full;
    }
  }

  lemma TimesMonotone(k: nat, n: nat, m: nat)
    requires n <= m
    ensures k * n <= k * m
  {
    assert k * (m - n) >= 0;
  }

  /** In any interval of length len at most setAccess * (len / period + 2) accesses are granted. */
  lemma RateBound(r: Reserve, calls: seq<Call>, from: nat, len: nat)
    requires r.periodTicks > 0 && r.curAccess >= 0 && Timely(calls, from, from + len)
    ensures Successes(r, calls) <= Max(r.setAccess, 0) * (len / r.periodTicks + 2)
  {
    SuccessesBounded(r, calls, from, from + len);
    var first := Max(from, r.setTime);
    if from + len >= first { DivideMonotone(from + len - first, len, r.periodTicks); }
    DivideMonotone(0, len, r.periodTicks);
    TimesMonotone(Max(r.setAccess, 0), Refills(r, from, from + len), len / r.periodTicks + 1);
    var full, n := Max(r.setAccess, 0), len / r.periodTicks + 1;
    assert full * (n + 1) == full * n + full;
  }

  /** The reserve after a run of calls. */
  function AfterAll(r: Reserve, calls: seq<Call>): Reserve
    decreases |calls|
  {
    if calls == [] then r else AfterAll(After(r, calls[0]), calls[1..])
  }

  /** It shows the time of the last call. */
  lemma {:induction false} LastCallTime(r: Reserve, calls: seq<Call>)
    requires calls != []
    ensures AfterAll(r, calls).curTime == calls[|calls| - 1].now
    decreases |calls|
  {
    if |calls| > 1 { LastCallTime(After(r, calls[0]), calls[1..]); }
  }

  // ----- the bound is attained -----

  /** n consumptions at time t. */
  function Burst(t: nat, n: nat): seq<Call> {
    seq(n, i => Consume(t))
  }

  lemma {:induction false} Drained(r: Reserve, t: nat, n: nat, rest: seq<Call>) returns (r': Reserve)
    requires r.periodTicks > 0 && t < r.setTime && n <= Left(r)
    ensures r'.periodTicks == r.periodTicks && r'.setTime == r.setTime && r'.setAccess == r.setAccess
    ensures Successes(r, Burst(t, n) + rest) == n + Successes(r', rest)
    decreases n
  {
    if n == 0 {
      assert Burst(t, 0) + rest == rest;
      r' := r;
    } else {
      var later := Burst(t, n - 1) + rest;
      assert Burst(t, n) + rest == [Consume(t)] + later;
      assert ([Consume(t)] + later)[1..] == later;
      r' := Drained(Consumed(r, t), t, n - 1, rest);
    }
  }

  /** A full allowance at time t and at every period after it, n in all. */
  function Greedy(t: nat, period: nat, share: nat, n: nat): seq<Call>
    decreases n
  {
    if n == 0 then [] else Burst(t, share) + Greedy(t + period, period, share, n - 1)
  }

  lemma {:induction false} BurstTimely(t: nat, n: nat, rest: seq<Call>, from: nat, to: nat)
    requires from <= t <= to && Timely(rest, t, to)
    ensures Timely(Burst(t, n) + rest, from, to)
    decreases n
  {
    if n == 0 {
      assert Burst(t, 0) + rest == rest;
    } else {
      assert Burst(t, n) + rest == [Consume(t)] + (Burst(t, n - 1) + rest);
      BurstTimely(t, n - 1, rest, t, to);
    }
  }

  lemma {:induction false} GreedyTimely(t: nat, period: nat, share: nat, n: nat, from: nat, to: nat)
    requires from <= t && (n > 0 ==> t + (n - 1) * period <= to)
    ensures Timely(Greedy(t, period, share, n), from, to)
    decreases n
  {
    if n > 0 {
      assert (n - 1) * period == (n - 2) * period + period;
      assert n >= 2 ==> (n - 2) * period >= 0;
      GreedyTimely(t + period, period, share, n - 1, t, to);
      BurstTimely(t, share, Greedy(t + period, period, share, n - 1), from, to);
    }
  }

  lemma {:induction false} GreedySucceeds(r: Reserve, t: nat, n: nat)
    requires r.periodTicks > 0 && r.setAccess >= 0 && t >= r.setTime
    ensures Successes(r, Greedy(t, r.periodTicks, r.setAccess, n)) == r.setAccess * n
    decreases n
  {
    if n > 0 && r.setAccess > 0 {
      var share, rest := r.setAccess, Greedy(t + r.periodTicks, r.periodTicks, r.setAccess, n - 1);
      assert Burst(t, share) + rest == [Consume(t)] + (Burst(t, share - 1) + rest);
      var r' := Drained(Consumed(r, t), t, share - 1, rest);
      GreedySucceeds(r', t + r.periodTicks, n - 1);
      assert share * n == share + share * (n - 1);
    } else if n > 0 {
      assert Burst(t, 0) + Greedy(t + r.periodTicks, r.periodTicks, 0, n - 1)
          == Greedy(t + r.periodTicks, r.periodTicks, 0, n - 1);
      GreedySucceeds(r, t + r.periodTicks, n - 1);
    }
  }

  /** The bound cannot be improved: some calls within an interval of k periods and a tick reach it. */
  lemma RateBoundAttained(period: nat, share: Access, k: nat, from: nat, len: nat)
    returns (r: Reserve, calls: seq<Call>)
    requires period >= 2 && share >= 0 && len == k * period + 1
    ensures r.periodTicks == period && r.setAccess == share && r.curAccess == 0
    ensures Timely(calls, from, from + len) && Successes(r, calls) == share * (len / period + 2)
  {
    r := Reserve(period, from + 1, from, share, 0, 1);
    var rest := Greedy(from + 1, period, share, k + 1);
    calls := Burst(from, share) + rest;
    GreedyTimely(from + 1, period, share, k + 1, from, from + len);
    BurstTimely(from, share, rest, from, from + len);
    var r' := Drained(r, from, share, rest);
    GreedySucceeds(r', from + 1, k + 1);
    DivisionUnique(len, period, k, 1);
    OneMoreShare(share, k + 1);
  }

  lemma OneMoreShare(share: int, n: int)
    ensures share * (n + 1) == share + share * n
  {}
}
