/** The neighbour table: who has been heard from lately. */
module Neighbours {
  import opened Packets

  const MAX_NGBS: nat := 5
  const TIMEOUT_COUNTER := 5

  /** An entry with address BCAST_ADDR is vacant. */
  datatype Neighbor = Neighbor(addr: nat, rssi: int, lastReport: SignedByte, isNew: bool)

  datatype Table = Table(entries: seq<Neighbor>, count: SignedByte)

  datatype Status = Ok | Error | Trapped

  /** The address in entry e is due to go when somebody else reports. */
  predicate Dropped(e: Neighbor, n: Neighbor) {
    e.addr != n.addr && e.addr != BCAST_ADDR && e.lastReport == 1
  }

  /** What the first pass makes of an entry. */
  function Aged(e: Neighbor, n: Neighbor): Neighbor {
    if e.addr == n.addr then e.(lastReport := TIMEOUT_COUNTER, isNew := false, rssi := n.rssi)
    else if e.addr == BCAST_ADDR then e
    else if Dropped(e, n) then Neighbor(BCAST_ADDR, 0, 0, false)
    else e.(lastReport := Decremented(e.lastReport))
  }

  function AllAged(t: seq<Neighbor>, n: Neighbor): (a: seq<Neighbor>)
    ensures |a| == |t| && forall i | 0 <= i < |t| :: a[i] == Aged(t[i], n)
  {
    seq(|t|, i requires 0 <= i < |t| => Aged(t[i], n))
  }

  function Drops(t: seq<Neighbor>, n: Neighbor): nat {
    if t == [] then 0 else Drops(t[..|t| - 1], n) + if Dropped(t[|t| - 1], n) then 1 else 0
  }

  /** How many entries hold a neighbour. */
  function Held(t: seq<Neighbor>): nat {
    if t == [] then 0 else Held(t[..|t| - 1]) + if t[|t| - 1].addr != BCAST_ADDR then 1 else 0
  }

  predicate Present(t: seq<Neighbor>, addr: nat) {
    exists i :: 0 <= i < |t| && t[i].addr == addr
  }

  /** The first vacant entry, or the size of the table. */
  function Vacancy(t: seq<Neighbor>): (k: nat)
    ensures k <= |t| && (forall j | 0 <= j < k :: t[j].addr != BCAST_ADDR)
    ensures k < |t| ==> t[k].addr == BCAST_ADDR
  {
    if t == [] || t[0].addr == BCAST_ADDR then 0
    else
      var k := Vacancy(t[1..]);
      assert forall j | 0 < j < 1 + k :: t[j] == t[1..][j - 1];
      1 + k
  }

  function Entered(t: seq<Neighbor>, n: Neighbor): seq<Neighbor> {
    var k := Vacancy(t);
    if k < |t| then t[k := n.(lastReport := TIMEOUT_COUNTER, isNew := true)] else t
  }

  /** The table after the first pass. */
  function FirstPass(s: Table, n: Neighbor): Table {
    Table(AllAged(s.entries, n), Wrapped(s.count - Drops(s.entries, n)))
  }

  /** add_neighbor: the table afterwards. */
  function Report(s: Table, n: Neighbor): Table {
    var aged := FirstPass(s, n);
    if Present(s.entries, n.addr) || aged.count == MAX_NGBS then aged
    else if Vacancy(aged.entries) < |aged.entries| then Table(Entered(aged.entries, n), Wrapped(aged.count + 1))
    else aged
  }

  /** add_neighbor: its result. Trapped is the endless loop of its sanity check. */
  function Result(s: Table, n: Neighbor): Status {
    if Present(s.entries, n.addr) then Ok
    else if FirstPass(s, n).count == MAX_NGBS then Error
    else if Vacancy(AllAged(s.entries, n)) < |s.entries| then Ok
    else Trapped
  }

  ghost predicate Valid(s: Table) {
    |s.entries| == MAX_NGBS && s.count == Held(s.entries)
    && (forall i, j | 0 <= i < j < |s.entries| && s.entries[i].addr != BCAST_ADDR ::
          s.entries[i].addr != s.entries[j].addr)
    && forall i | 0 <= i < |s.entries| && s.entries[i].addr != BCAST_ADDR ::
          1 <= s.entries[i].lastReport <= TIMEOUT_COUNTER
  }

  lemma {:induction false} HeldAged(t: seq<Neighbor>, n: Neighbor)
    ensures Held(AllAged(t, n)) == Held(t) - Drops(t, n)
  {
    if t != [] {
      HeldAged(t[..|t| - 1], n);
      assert AllAged(t, n)[..|t| - 1] == AllAged(t[..|t| - 1], n);
    }
  }

  lemma {:induction false} HeldUpdate(t: seq<Neighbor>, k: nat, n: Neighbor)
    requires k < |t| && t[k].addr == BCAST_ADDR
    ensures Held(t[k := n]) == Held(t) + if n.addr != BCAST_ADDR then 1 else 0
  {
    var last := |t| - 1;
    if k < last {
      HeldUpdate(t[..last], k, n);
      assert t[k := n][..last] == t[..last][k := n];
    } else {
      assert t[k := n][..last] == t[..last];
    }
  }

  /** The table is full exactly when no entry is vacant. */
  lemma {:induction false} FullMeans(t: seq<Neighbor>)
    ensures Held(t) <= |t| && (Held(t) == |t| <==> !Present(t, BCAST_ADDR))
  {
    if t != [] {
      var last := |t| - 1;
      FullMeans(t[..last]);
      if Present(t[..last], BCAST_ADDR) {
        var i :| 0 <= i < last && t[..last][i].addr == BCAST_ADDR;
        assert t[i].addr == BCAST_ADDR;
      }
      if t[last].addr != BCAST_ADDR && Present(t, BCAST_ADDR) {
        var i :| 0 <= i < |t| && t[i].addr == BCAST_ADDR;
        assert t[..last][i].addr == BCAST_ADDR;
      }
    }
  }

  lemma {:induction false} DropsMeans(t: seq<Neighbor>, n: Neighbor)
    ensures Drops(t, n) > 0 <==> exists i :: 0 <= i < |t| && Dropped(t[i], n)
  {
    if t != [] {
      var last := |t| - 1;
      DropsMeans(t[..last], n);
      if i :| 0 <= i < last && Dropped(t[..last][i], n) { assert Dropped(t[i], n); }
      if i :| 0 <= i < last && Dropped(t[i], n) { assert Dropped(t[..last][i], n); }
    }
  }

  lemma AgedValid(s: Table, n: Neighbor)
    requires Valid(s)
    ensures Valid(FirstPass(s, n))
  {
    HeldAged(s.entries, n);
    FullMeans(s.entries);
  }

  /** The sanity check never fires on a consistent table, whatever is reported. */
  lemma NeverTrapped(s: Table, n: Neighbor)
    requires Valid(s)
    ensures Result(s, n) != Trapped
  {
    AgedValid(s, n);
    FullMeans(AllAged(s.entries, n));
  }

  /** A report keeps the table consistent, but for one case: a report with the broadcast address,
   *  to a full table, as a neighbour times out. */
  lemma ReportKeepsValidIff(s: Table, n: Neighbor)
    requires Valid(s)
    ensures Valid(Report(s, n)) <==>
            !(n.addr == BCAST_ADDR && s.count == MAX_NGBS
              && exists i :: 0 <= i < |s.entries| && s.entries[i].lastReport == 1)
  {
    var aged := FirstPass(s, n);
    AgedValid(s, n);
    FullMeans(s.entries);
    FullMeans(aged.entries);
    DropsMeans(s.entries, n);
    NeverTrapped(s, n);
    if n.addr == BCAST_ADDR && s.count == MAX_NGBS {
      forall i | 0 <= i < |s.entries| ensures Dropped(s.entries[i], n) <==> s.entries[i].lastReport == 1 {}
    }
    if !Present(s.entries, n.addr) && aged.count != MAX_NGBS {
      var k, entry := Vacancy(aged.entries), n.(lastReport := TIMEOUT_COUNTER, isNew := true);
      HeldUpdate(aged.entries, k, entry);
      if n.addr != BCAST_ADDR { EnteredValid(aged, n, k, entry); AgedStrangers(s.entries, n); }
    }
  }

  /** A full table of five neighbours, the last about to time out, hears from the broadcast address. */
  lemma BroadcastBreaks() returns (s: Table, n: Neighbor)
    ensures Valid(s) && n.addr == BCAST_ADDR && !Valid(Report(s, n))
  {
    var t := [Neighbor(1, 0, 5, false), Neighbor(2, 0, 4, false), Neighbor(3, 0, 3, false), Neighbor(4, 0, 2, false)];
    s, n := Table(t + [Neighbor(5, 0, 1, false)], 5), Neighbor(BCAST_ADDR, 0, 0, false);
    FullMeans(s.entries);
    assert s.entries[4].lastReport == 1;
    ReportKeepsValidIff(s, n);
  }

  lemma AgedStrangers(t: seq<Neighbor>, n: Neighbor)
    requires !Present(t, n.addr) && n.addr != BCAST_ADDR
    ensures !Present(AllAged(t, n), n.addr)
  {}

  lemma EnteredValid(s: Table, n: Neighbor, k: nat, entry: Neighbor)
    requires Valid(s) && k < |s.entries| && s.entries[k].addr == BCAST_ADDR && entry.addr == n.addr != BCAST_ADDR
    requires entry.lastReport == TIMEOUT_COUNTER
    ensures !Present(s.entries, n.addr) ==> Valid(Table(s.entries[k := entry], Wrapped(s.count + 1)))
  {
    FullMeans(s.entries);
    HeldUpdate(s.entries, k, entry);
    if !Present(s.entries, n.addr) {
      forall i | 0 <= i < |s.entries| ensures s.entries[i].addr != n.addr {}
    }
  }

  // ----- runs -----

  function Run(s: Table, reports: seq<Neighbor>): Table
    decreases |reports|
  {
    if reports == [] then s else Run(Report(s, reports[0]), reports[1..])
  }

  /** Over any run of reports from real addresses the count is right and no address is listed twice. */
  lemma {:induction false} RunValid(s: Table, reports: seq<Neighbor>)
    requires Valid(s) && forall n | n in reports :: n.addr != BCAST_ADDR
    ensures Valid(Run(s, reports))
    decreases |reports|
  {
    if reports != [] {
      ReportKeepsValidIff(s, reports[0]);
      RunValid(Report(s, reports[0]), reports[1..]);
    }
  }

  /** A neighbour with r reports to go is still listed after a run of reports by others if and only if
   *  there were fewer than r of them. */
  lemma {:induction false} ListedIff(s: Table, i: nat, reports: seq<Neighbor>)
    requires Valid(s) && i < |s.entries| && s.entries[i].addr != BCAST_ADDR
    requires forall n | n in reports :: n.addr != BCAST_ADDR && n.addr != s.entries[i].addr
    ensures Present(Run(s, reports).entries, s.entries[i].addr) <==> |reports| < s.entries[i].lastReport
    decreases |reports|
  {
    if reports != [] {
      var n, addr := reports[0], s.entries[i].addr;
      var s' := Report(s, n);
      ReportKeepsValidIff(s, n);
      if s.entries[i].lastReport == 1 {
        GoneAfter(s, i, n);
        StaysAway(s', addr, reports[1..]);
      } else {
        assert s'.entries[i] == s.entries[i].(lastReport := s.entries[i].lastReport - 1);
        ListedIff(s', i, reports[1..]);
      }
    }
  }

  lemma GoneAfter(s: Table, i: nat, n: Neighbor)
    requires Valid(s) && i < |s.entries| && s.entries[i].addr != BCAST_ADDR && s.entries[i].lastReport == 1
    requires n.addr != s.entries[i].addr
    ensures !Present(Report(s, n).entries, s.entries[i].addr)
  {
    var addr, s' := s.entries[i].addr, Report(s, n);
    forall j | 0 <= j < |s'.entries| ensures s'.entries[j].addr != addr {
      if j != i && s.entries[j].addr != BCAST_ADDR {
        assert s.entries[j].addr != addr;
      }
    }
  }

  /** Its entry is blank, unless the reporter has taken it. */
  lemma DroppedIsBlank(s: Table, i: nat, n: Neighbor)
    requires Valid(s) && i < |s.entries| && s.entries[i].addr != BCAST_ADDR && s.entries[i].lastReport == 1
    requires n.addr != s.entries[i].addr
    ensures var s' := Report(s, n);
            s'.entries[i] == Neighbor(BCAST_ADDR, 0, 0, false)
            || s'.entries[i] == n.(lastReport := TIMEOUT_COUNTER, isNew := true)
  {}

  lemma {:induction false} StaysAway(s: Table, addr: nat, reports: seq<Neighbor>)
    requires !Present(s.entries, addr) && addr != BCAST_ADDR && forall n | n in reports :: n.addr != addr
    ensures !Present(Run(s, reports).entries, addr)
    decreases |reports|
  {
    if reports != [] { StaysAway(Report(s, reports[0]), addr, reports[1..]); }
  }

  /** After an accepted report a neighbour leaves the table exactly when TIMEOUT_COUNTER reports by others follow. */
  lemma LeavesExactly(s: Table, n: Neighbor, others: seq<Neighbor>)
    requires Valid(s) && n.addr != BCAST_ADDR && Result(s, n) == Ok
    requires forall m | m in others :: m.addr != BCAST_ADDR && m.addr != n.addr
    ensures Present(Run(Report(s, n), others).entries, n.addr) <==> |others| < TIMEOUT_COUNTER
  {
    var s' := Report(s, n);
    ReportKeepsValidIff(s, n);
    var i: nat;
    if Present(s.entries, n.addr) {
      i :| 0 <= i < |s.entries| && s.entries[i].addr == n.addr;
    } else {
      i := Vacancy(AllAged(s.entries, n));
    }
    assert s'.entries[i].addr == n.addr && s'.entries[i].lastReport == TIMEOUT_COUNTER;
    ListedIff(s', i, others);
  }

  /** A report from a real address is accepted if and only if its neighbour is listed, or there is room, or room is made
      by one that is dropped; otherwise it is turned down. */
  lemma AcceptedIff(s: Table, n: Neighbor)
    requires Valid(s) && n.addr != BCAST_ADDR
    ensures var room := s.count < MAX_NGBS || exists i :: 0 <= i < |s.entries| && s.entries[i].lastReport == 1;
            Result(s, n) == if Present(s.entries, n.addr) || room then Ok else Error
  {
    NeverTrapped(s, n);
    FullMeans(s.entries);
    HeldAged(s.entries, n);
    DropsMeans(s.entries, n);
    if s.count == MAX_NGBS && !Present(s.entries, n.addr) {
      forall i | 0 <= i < |s.entries| ensures Dropped(s.entries[i], n) <==> s.entries[i].lastReport == 1 {}
    }
  }

  /** The entry of a neighbour with this address, signal strength and reports to go. */
  ghost predicate Lists(s: Table, i: nat, addr: nat, rssi: int, left: int, isNew: bool) {
    i < |s.entries| && s.entries[i] == Neighbor(addr, rssi, s.entries[i].lastReport, isNew)
    && s.entries[i].lastReport == left
  }

  ghost predicate OnRecord(s: Table, n: Neighbor, left: int, isNew: bool) {
    exists i :: Lists(s, i, n.addr, n.rssi, left, isNew)
  }

  /** Until it leaves, an entry keeps what its neighbour reported last, and counts down. */
  lemma {:induction false} EntryIsKept(s: Table, i: nat, e: Neighbor, reports: seq<Neighbor>)
    requires Valid(s) && Lists(s, i, e.addr, e.rssi, e.lastReport, e.isNew) && e.addr != BCAST_ADDR
    requires |reports| < e.lastReport
    requires forall n | n in reports :: n.addr != BCAST_ADDR && n.addr != e.addr
    ensures Lists(Run(s, reports), i, e.addr, e.rssi, e.lastReport - |reports|, e.isNew)
    decreases |reports|
  {
    if reports != [] {
      var e' := e.(lastReport := e.lastReport - 1);
      ReportKeepsValidIff(s, reports[0]);
      assert Lists(Report(s, reports[0]), i, e'.addr, e'.rssi, e'.lastReport, e'.isNew);
      EntryIsKept(Report(s, reports[0]), i, e', reports[1..]);
    }
  }

  /** An accepted report is on record, with its signal strength and whether the neighbour is new, until fewer than
      TIMEOUT_COUNTER reports by others have followed. */
  lemma ReportIsRecorded(s: Table, n: Neighbor, others: seq<Neighbor>)
    requires Valid(s) && n.addr != BCAST_ADDR && Result(s, n) == Ok && |others| < TIMEOUT_COUNTER
    requires forall m | m in others :: m.addr != BCAST_ADDR && m.addr != n.addr
    ensures OnRecord(Run(Report(s, n), others), n, TIMEOUT_COUNTER - |others|, !Present(s.entries, n.addr))
  {
    var i := ReportIsEntered(s, n);
    ReportKeepsValidIff(s, n);
    hide Report, Valid, Present;
    EntryIsKept(Report(s, n), i, Neighbor(n.addr, n.rssi, TIMEOUT_COUNTER, !Present(s.entries, n.addr)), others);
  }

  lemma ReportIsEntered(s: Table, n: Neighbor) returns (i: nat)
    requires Valid(s) && n.addr != BCAST_ADDR && Result(s, n) == Ok
    ensures Lists(Report(s, n), i, n.addr, n.rssi, TIMEOUT_COUNTER, !Present(s.entries, n.addr))
  {
    if Present(s.entries, n.addr) {
      i :| 0 <= i < |s.entries| && s.entries[i].addr == n.addr;
    } else {
      i := Vacancy(AllAged(s.entries, n));
    }
  }

  class NeighborList {
    const ngbs: array<Neighbor>
    var count: SignedByte

    ghost function Contents(): Table
      reads this, ngbs
    {
      Table(ngbs[..], count)
    }

    /** The neighbour part of initialise_network_layer. */
    constructor (any: Neighbor)
      ensures fresh(ngbs) && Valid(Contents()) && count == 0
    {
      count := 0;
      ngbs := new Neighbor[MAX_NGBS](i => any);
      new;
      for i := 0 to MAX_NGBS
        invariant count == 0
        invariant forall j | 0 <= j < i :: ngbs[j].addr == BCAST_ADDR
      {
        ngbs[i] := ngbs[i].(addr := BCAST_ADDR);
      }
      NoneHeld(ngbs[..]);
    }

    method AddNeighbor(n: Neighbor) returns (status: Status)
      requires ngbs.Length == MAX_NGBS
      modifies this`count, ngbs
      ensures Contents() == Report(old(Contents()), n) && status == Result(old(Contents()), n)
      ensures old(Valid(Contents())) ==> status != Trapped && (n.addr != BCAST_ADDR ==> Valid(Contents()))
    {
      if Valid(Contents()) {
        NeverTrapped(Contents(), n);
        ReportKeepsValidIff(Contents(), n);
      }
      var found := AgeAll(n);
      if found {
        return Ok;
      }
      if count == MAX_NGBS {
        return Error;
      }
      status := Enter(n);
    }

    /** The first pass. */
    method AgeAll(n: Neighbor) returns (found: bool)
      requires ngbs.Length == MAX_NGBS
      modifies this`count, ngbs
      ensures ngbs[..] == AllAged(old(ngbs[..]), n)
      ensures count == Wrapped(old(count) - Drops(old(ngbs[..]), n))
      ensures found == Present(old(ngbs[..]), n.addr)
    {
      ghost var t := ngbs[..];
      found := false;
      for i := 0 to MAX_NGBS
        invariant forall j | 0 <= j < MAX_NGBS :: ngbs[j] == if j < i then Aged(t[j], n) else t[j]
        invariant count == Wrapped(old(count) - Drops(t[..i], n))
        invariant found <==> exists j :: 0 <= j < i && t[j].addr == n.addr
      {
        assert t[..i + 1][..i] == t[..i];
        var hit := AgeOne(i, n);
        found := found || hit;
      }
      assert t[..MAX_NGBS] == t;
    }

    method AgeOne(i: nat, n: Neighbor) returns (hit: bool)
      requires i < ngbs.Length
      modifies this`count, ngbs
      ensures ngbs[i] == Aged(old(ngbs[i]), n)
      ensures forall j | 0 <= j < ngbs.Length && j != i :: ngbs[j] == old(ngbs[j])
      ensures count == if Dropped(old(ngbs[i]), n) then Decremented(old(count)) else old(count)
      ensures hit <==> old(ngbs[i]).addr == n.addr
    {
      hit := false;
      if ngbs[i].addr == n.addr {
        hit := true;
        ngbs[i] := ngbs[i].(lastReport := TIMEOUT_COUNTER);
        ngbs[i] := ngbs[i].(isNew := false);
        ngbs[i] := ngbs[i].(rssi := n.rssi);
      } else if ngbs[i].addr != BCAST_ADDR {
        ngbs[i] := ngbs[i].(lastReport := Decremented(ngbs[i].lastReport));
        if ngbs[i].lastReport == 0 {
          ngbs[i] := ngbs[i].(addr := BCAST_ADDR);
          ngbs[i] := ngbs[i].(rssi := 0);
          ngbs[i] := ngbs[i].(isNew := false);
          count := Decremented(count);
        }
      }
    }

    /** The second pass. */
    method Enter(n: Neighbor) returns (status: Status)
      requires ngbs.Length == MAX_NGBS
      modifies this`count, ngbs
      ensures ngbs[..] == Entered(old(ngbs[..]), n)
      ensures var k := Vacancy(old(ngbs[..]));
              if k < MAX_NGBS then status == Ok && count == Wrapped(old(count) + 1)
              else status == Trapped && count == old(count)
    {
      ghost var t := ngbs[..];
      var i := 0;
      while i < MAX_NGBS
        invariant i <= MAX_NGBS && ngbs[..] == t && count == old(count)
        invariant forall j | 0 <= j < i :: t[j].addr != BCAST_ADDR
      {
        if ngbs[i].addr == BCAST_ADDR {
          assert Vacancy(t) == i;
          ngbs[i] := n.(lastReport := TIMEOUT_COUNTER, isNew := true);
          count := Wrapped(count + 1);
          break;
        }
        i := i + 1;
      }
      status := if i == MAX_NGBS then Trapped else Ok;
    }
  }

  lemma {:induction false} NoneHeld(t: seq<Neighbor>)
    requires forall i | 0 <= i < |t| :: t[i].addr == BCAST_ADDR
    ensures Held(t) == 0
  {
    if t != [] { NoneHeld(t[..|t| - 1]); }
  }
}
