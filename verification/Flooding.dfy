/** The receive side of the network layer: what a node does with a packet it hears. */
module NetworkLayer {
  import opened Packets

  const UDP := 0x00
  const HELLO := 0x80
  const NGB_LIST := 0x88
  const ROUTE_CONFIG := 0x90
  const MAX_NETWORK_DIAMETER := 20

  datatype Route = Route(dest: nat, nextHop: nat, cost: nat)

  /** The contents of a ROUTE_CONFIG message. */
  datatype Config = Config(gateway: nat, node: nat, rt: seq<Route>)

  datatype Kind = Application | Control | Unknown

  datatype Outcome = Dropped | Delivered | Greeted | Configured | Expired | Forwarded(packet: Packet) | Halted

  function KindOf(kind: nat): Kind {
    if kind == UDP then Application
    else if kind == HELLO || kind == NGB_LIST || kind == ROUTE_CONFIG then Control
    else Unknown
  }

  /** The first valid entry for an address decides; without one the packet is broadcast. */
  ghost function NextHop(rt: seq<Route>, addr: nat): nat {
    if addr == BCAST_ADDR || rt == [] then BCAST_ADDR
    else if rt[0].dest == addr then rt[0].nextHop
    else NextHop(rt[1..], addr)
  }

  /** route_packet: the packet to send on, unless its time is up. */
  ghost function Routed(self: nat, rt: seq<Route>, p: Packet): Outcome {
    var ttl := Decremented(p.ttl);
    if ttl == 0 then Expired
    else Forwarded(p.(ttl := ttl, prevHop := self, nextHop := NextHop(rt, p.dest)))
  }

  ghost function Processed(self: nat, rt: seq<Route>, p: Packet, config: Config): Outcome {
    if p.kind == HELLO then Greeted
    else if p.kind == NGB_LIST then if p.src == self then Dropped else Routed(self, rt, p)
    else if config.node == self then Configured
    else Routed(self, rt, p)
  }

  ghost function Dispatched(self: nat, rt: seq<Route>, p: Packet, config: Config): Outcome {
    if KindOf(p.kind).Unknown? then Dropped
    else if p.dest == self || p.dest == BCAST_ADDR then
      if KindOf(p.kind).Application? then Delivered else Processed(self, rt, p, config)
    else if p.nextHop == self then if p.src == self then Halted else Routed(self, rt, p)
    else if p.nextHop == BCAST_ADDR then Routed(self, rt, p)
    else Dropped
  }

  class Node {
    const addr: nat
    const rt: array<Route>
    var gateway: nat

    constructor (addr: nat, entries: nat)
      ensures this.addr == addr && fresh(rt) && rt.Length == entries && gateway == BCAST_ADDR
      ensures forall a :: NextHop(rt[..], a) == BCAST_ADDR
    {
      this.addr := addr;
      gateway := BCAST_ADDR;
      rt := new Route[entries](i => Route(BCAST_ADDR, BCAST_ADDR, 100));
      new;
      forall a ensures NextHop(rt[..], a) == BCAST_ADDR {
        NoRoute(rt[..], a);
      }
    }

    method RouteAddr(to: nat) returns (hop: nat)
      ensures hop == NextHop(rt[..], to)
    {
      if to == BCAST_ADDR {
        return BCAST_ADDR;
      }
      for i := 0 to rt.Length
        invariant NextHop(rt[..], to) == NextHop(rt[i..], to)
      {
        assert rt[i..][1..] == rt[i + 1..];
        if rt[i].dest != BCAST_ADDR {
          if rt[i].dest == to {
            return rt[i].nextHop;
          }
        }
      }
      return BCAST_ADDR;
    }

    method RoutePacket(p: Packet) returns (out: Outcome)
      ensures out == Routed(addr, rt[..], p)
    {
      var ttl := Decremented(p.ttl);
      if ttl == 0 {
        return Expired;
      }
      var hop := RouteAddr(p.dest);
      out := Forwarded(p.(ttl := ttl, prevHop := addr, nextHop := hop));
    }

    method ProcessNwCtrlPkt(p: Packet, config: Config) returns (out: Outcome)
      requires KindOf(p.kind).Control? && |config.rt| == rt.Length
      modifies this`gateway, rt
      ensures out == Processed(addr, old(rt[..]), p, config)
      ensures gateway == if p.kind == ROUTE_CONFIG then config.gateway else old(gateway)
      ensures rt[..] == if out.Configured? then config.rt else old(rt[..])
    {
      if p.kind == HELLO {
        out := Greeted;
      } else if p.kind == NGB_LIST {
        if p.src == addr {
          out := Dropped;
        } else {
          out := RoutePacket(p);
        }
      } else {
        gateway := config.gateway;
        if config.node == addr {
          SetRoutingTable(config);
          out := Configured;
        } else {
          out := RoutePacket(p);
        }
      }
    }

    method SetRoutingTable(config: Config)
      requires |config.rt| == rt.Length
      modifies this`gateway, rt
      ensures gateway == config.gateway && rt[..] == config.rt
    {
      gateway := config.gateway;
      for i := 0 to rt.Length
        invariant gateway == config.gateway
        invariant forall j | 0 <= j < i :: rt[j] == config.rt[j]
      {
        rt[i] := config.rt[i];
      }
    }

    /** One turn of the receive loop. */
    method Receive(p: Packet, config: Config) returns (out: Outcome)
      requires |config.rt| == rt.Length
      modifies this`gateway, rt
      ensures out == Dispatched(addr, old(rt[..]), p, config)
      ensures rt[..] == if out.Configured? then config.rt else old(rt[..])
      ensures gateway == if p.kind == ROUTE_CONFIG && (p.dest == addr || p.dest == BCAST_ADDR) then config.gateway
                         else old(gateway)
    {
      if KindOf(p.kind).Application? {
        if p.dest == addr || p.dest == BCAST_ADDR {
          return Delivered;
        } else if p.nextHop == addr {
          if p.src == addr {
            return Halted;
          }
          out := RoutePacket(p);
        } else if p.nextHop == BCAST_ADDR {
          out := RoutePacket(p);
        } else {
          out := Dropped;
        }
      } else if KindOf(p.kind).Control? {
        if p.dest == addr || p.dest == BCAST_ADDR {
          out := ProcessNwCtrlPkt(p, config);
        } else if p.nextHop == addr {
          if p.src == addr {
            return Halted;
          }
          out := RoutePacket(p);
        } else if p.nextHop == BCAST_ADDR {
          out := RoutePacket(p);
        } else {
          out := Dropped;
        }
      } else {
        out := Dropped;
      }
    }
  }

  lemma {:induction false} NoRoute(rt: seq<Route>, a: nat)
    requires forall i | 0 <= i < |rt| :: rt[i].nextHop == BCAST_ADDR
    ensures NextHop(rt, a) == BCAST_ADDR
  {
    if rt != [] { NoRoute(rt[1..], a); }
  }
}

/** A network of such nodes: every packet put on the air dies out. */
module Flooding {
  import opened Packets
  import opened NetworkLayer

  /** A copy of the packet queued for sending, and how often it has been sent to get there. */
  datatype Copy = Copy(packet: Packet, hops: nat)

  /** A node that hears a transmission; queued is false when its transmit queue has no room. */
  datatype Reception = Reception(self: nat, rt: seq<Route>, config: Config, queued: bool)

  /** Copy number copy is sent and heard by some nodes. */
  datatype Transmission = Transmission(copy: nat, heardBy: seq<Reception>)

  ghost function Queued(c: Copy, r: Reception): seq<Copy> {
    var out := Dispatched(r.self, r.rt, c.packet, r.config);
    if out.Forwarded? && r.queued then [Copy(out.packet, c.hops + 1)] else []
  }

  ghost function AllQueued(c: Copy, heardBy: seq<Reception>): seq<Copy> {
    if heardBy == [] then [] else Queued(c, heardBy[0]) + AllQueued(c, heardBy[1..])
  }

  ghost function Step(net: seq<Copy>, t: Transmission): seq<Copy>
    requires t.copy < |net|
  {
    net[..t.copy] + net[t.copy + 1..] + AllQueued(net[t.copy], t.heardBy)
  }

  /** Each transmission sends a copy that is there and is heard by at most degree nodes. */
  ghost predicate Possible(net: seq<Copy>, ts: seq<Transmission>, degree: nat)
    decreases |ts|
  {
    ts == [] || (ts[0].copy < |net| && |ts[0].heardBy| <= degree && Possible(Step(net, ts[0]), ts[1..], degree))
  }

  ghost function Run(net: seq<Copy>, ts: seq<Transmission>, degree: nat): seq<Copy>
    requires Possible(net, ts, degree)
    decreases |ts|
  {
    if ts == [] then net else Run(Step(net, ts[0]), ts[1..], degree)
  }

  // ----- how long a copy can live -----

  /** How many decrements of a signed byte bring it to zero: 256 turns for a ttl of zero or less, less the start. */
  function Life(ttl: SignedByte): nat {
    if ttl >= 1 then ttl else ttl + 256
  }

  lemma ForwardedLives(c: Copy, r: Reception, d: Copy)
    requires d in Queued(c, r)
    ensures d.hops == c.hops + 1
    ensures 1 <= Life(d.packet.ttl) == Life(c.packet.ttl) - 1
  {}

  lemma {:induction false} AllForwardedLive(c: Copy, heardBy: seq<Reception>, d: Copy)
    requires d in AllQueued(c, heardBy)
    ensures d.hops == c.hops + 1
    ensures 1 <= Life(d.packet.ttl) == Life(c.packet.ttl) - 1
  {
    if d in Queued(c, heardBy[0]) {
      ForwardedLives(c, heardBy[0], d);
    } else {
      AllForwardedLive(c, heardBy[1..], d);
    }
  }

  /** Every copy in flight has life left, and its hops and its life add up to span. */
  ghost predicate Spans(net: seq<Copy>, span: int) {
    forall c | c in net :: Life(c.packet.ttl) >= 1 && c.hops + Life(c.packet.ttl) == span
  }

  lemma StepSpans(net: seq<Copy>, t: Transmission, span: int)
    requires Spans(net, span) && t.copy < |net|
    ensures Spans(Step(net, t), span)
  {
    forall d | d in Step(net, t)
      ensures Life(d.packet.ttl) >= 1 && d.hops + Life(d.packet.ttl) == span
    {
      if d in AllQueued(net[t.copy], t.heardBy) { AllForwardedLive(net[t.copy], t.heardBy, d); }
    }
  }

  lemma {:induction false} RunSpans(net: seq<Copy>, ts: seq<Transmission>, degree: nat, span: int)
    requires Spans(net, span) && Possible(net, ts, degree)
    ensures Spans(Run(net, ts, degree), span)
    decreases |ts|
  {
    if ts != [] {
      StepSpans(net, ts[0], span);
      RunSpans(Step(net, ts[0]), ts[1..], degree, span);
    }
  }

  /** A packet sent off with the usual ttl always has ttl at least 1 and never travels more than
   *  MAX_NETWORK_DIAMETER hops, whatever the routing tables say. */
  lemma HopsAreBounded(p: Packet, ts: seq<Transmission>, degree: nat, c: Copy)
    requires p.ttl == MAX_NETWORK_DIAMETER && Possible([Copy(p, 0)], ts, degree)
    requires c in Run([Copy(p, 0)], ts, degree)
    ensures c.packet.ttl >= 1 && c.hops + c.packet.ttl == MAX_NETWORK_DIAMETER
  {
    RunSpans([Copy(p, 0)], ts, degree, MAX_NETWORK_DIAMETER);
  }

  // ----- how many transmissions a packet can cause -----

  function Power(b: nat, e: nat): nat {
    if e == 0 then 1 else b * Power(b, e - 1)
  }

  /** The number of transmissions when every one of degree hearers sends on. */
  function Cost(life: nat, degree: nat): nat {
    if life == 0 then 0 else 1 + degree * Cost(life - 1, degree)
  }

  /** Two potentials of a copy: the transmissions it can cause, and a power of its life. */
  datatype Potential = Transmissions | Powers

  function Weight(m: Potential, life: nat, degree: nat): nat {
    match m
    case Transmissions => Cost(life, degree)
    case Powers => Power(degree + 1, life)
  }

  function CopyWeight(m: Potential, c: Copy, degree: nat): nat {
    Weight(m, Life(c.packet.ttl), degree)
  }

  function Total(m: Potential, net: seq<Copy>, degree: nat): nat {
    if net == [] then 0 else CopyWeight(m, net[0], degree) + Total(m, net[1..], degree)
  }

  lemma {:induction false} TotalJoin(m: Potential, a: seq<Copy>, b: seq<Copy>, degree: nat)
    ensures Total(m, a + b, degree) == Total(m, a, degree) + Total(m, b, degree)
  {
    if a == [] {
      assert a + b == b;
    } else {
      assert (a + b)[1..] == a[1..] + b;
      TotalJoin(m, a[1..], b, degree);
    }
  }

  lemma {:induction false} QueuedWeight(m: Potential, c: Copy, heardBy: seq<Reception>, degree: nat)
    ensures Total(m, AllQueued(c, heardBy), degree)
         == |AllQueued(c, heardBy)| * Weight(m, Life(c.packet.ttl) - 1, degree)
    ensures |AllQueued(c, heardBy)| <= |heardBy|
  {
    if heardBy != [] {
      var one, rest := Queued(c, heardBy[0]), AllQueued(c, heardBy[1..]);
      QueuedWeight(m, c, heardBy[1..], degree);
      TotalJoin(m, one, rest, degree);
      if one != [] {
        ForwardedLives(c, heardBy[0], one[0]);
        assert Total(m, one, degree) == CopyWeight(m, one[0], degree);
      }
      Distributes(|one|, |rest|, Weight(m, Life(c.packet.ttl) - 1, degree));
    }
  }

  lemma Distributes(a: int, b: int, w: int)
    ensures (a + b) * w == a * w + b * w
    ensures 0 * w == 0 && 1 * w == w
  {}

  /** The exact account of one transmission: the weight of the copy sent goes, that of the copies sent on comes. */
  lemma StepWeight(m: Potential, net: seq<Copy>, t: Transmission, degree: nat)
    requires t.copy < |net|
    ensures var c := net[t.copy];
            && Total(m, net, degree) + |AllQueued(c, t.heardBy)| * Weight(m, Life(c.packet.ttl) - 1, degree)
               == Total(m, Step(net, t), degree) + CopyWeight(m, c, degree)
    ensures |AllQueued(net[t.copy], t.heardBy)| <= |t.heardBy|
  {
    var c, before, after := net[t.copy], net[..t.copy], net[t.copy + 1..];
    QueuedWeight(m, c, t.heardBy, degree);
    TotalSplit(m, before, c, after, degree);
    assert net == before + ([c] + after);
    TotalJoin(m, before + after, AllQueued(c, t.heardBy), degree);
    TotalJoin(m, before, after, degree);
  }

  lemma TotalSplit(m: Potential, before: seq<Copy>, c: Copy, after: seq<Copy>, degree: nat)
    ensures Total(m, before + ([c] + after), degree)
         == Total(m, before, degree) + CopyWeight(m, c, degree) + Total(m, after, degree)
  {
    TotalJoin(m, before, [c] + after, degree);
    TotalJoin(m, [c], after, degree);
    assert Total(m, [c], degree) == CopyWeight(m, c, degree);
  }

  /** A copy weighs more than all the copies of one less life that degree hearers can make of it. */
  lemma Outweighs(m: Potential, life: nat, n: nat, degree: nat)
    requires life >= 1 && n <= degree
    ensures n * Weight(m, life - 1, degree) < Weight(m, life, degree)
    ensures m == Transmissions && n == degree ==> n * Weight(m, life - 1, degree) + 1 == Weight(m, life, degree)
  {
    var less := Weight(m, life - 1, degree);
    PowerPositive(degree + 1, life - 1);
    NonNegativeProduct(degree - n, less);
    assert (degree - n) * less == degree * less - n * less;
    assert (degree + 1) * less == degree * less + less;
  }

  lemma {:induction false} PowerPositive(b: nat, e: nat)
    requires b > 0
    ensures Power(b, e) > 0
  {
    if e > 0 {
      PowerPositive(b, e - 1);
      NonNegativeProduct(b - 1, Power(b, e - 1));
      assert b * Power(b, e - 1) == (b - 1) * Power(b, e - 1) + Power(b, e - 1);
    }
  }

  lemma NonNegativeProduct(x: int, y: int)
    requires x >= 0 && y >= 0
    ensures x * y >= 0
  {}

  /** With at most degree hearers per transmission both potentials fall with every transmission. */
  lemma PotentialFalls(m: Potential, net: seq<Copy>, t: Transmission, degree: nat)
    requires t.copy < |net| && |t.heardBy| <= degree
    ensures Total(m, Step(net, t), degree) < Total(m, net, degree)
  {
    StepWeight(m, net, t, degree);
    Outweighs(m, Life(net[t.copy].packet.ttl), |AllQueued(net[t.copy], t.heardBy)|, degree);
  }

  /** However the tables are set and whoever hears what, a run is no longer than the weight of what it starts from. */
  lemma {:induction false} RunBounded(m: Potential, net: seq<Copy>, ts: seq<Transmission>, degree: nat)
    requires Possible(net, ts, degree)
    ensures |ts| + Total(m, Run(net, ts, degree), degree) <= Total(m, net, degree)
    decreases |ts|
  {
    if ts != [] {
      PotentialFalls(m, net, ts[0], degree);
      RunBounded(m, Step(net, ts[0]), ts[1..], degree);
    }
  }

  /** Each packet causes finitely many transmissions, even one that arrives with a corrupt ttl. */
  lemma FloodingTerminates(p: Packet, ts: seq<Transmission>, degree: nat)
    requires Possible([Copy(p, 0)], ts, degree)
    ensures |ts| <= Cost(Life(p.ttl), degree) && |ts| <= Power(degree + 1, Life(p.ttl))
  {
    RunBounded(Transmissions, [Copy(p, 0)], ts, degree);
    RunBounded(Powers, [Copy(p, 0)], ts, degree);
    assert Total(Transmissions, [Copy(p, 0)], degree) == Cost(Life(p.ttl), degree);
    assert Total(Powers, [Copy(p, 0)], degree) == Power(degree + 1, Life(p.ttl));
  }

  /** A transmission that every one of degree nodes hears and, unless the time is up, sends on. */
  ghost predicate Floods(net: seq<Copy>, t: Transmission, degree: nat) {
    t.copy < |net| && |t.heardBy| == degree
    && (Life(net[t.copy].packet.ttl) > 1 ==> |AllQueued(net[t.copy], t.heardBy)| == degree)
  }

  ghost predicate AllFlood(net: seq<Copy>, ts: seq<Transmission>, degree: nat)
    decreases |ts|
  {
    ts == [] || (Floods(net, ts[0], degree) && AllFlood(Step(net, ts[0]), ts[1..], degree))
  }

  lemma FloodSpendsOne(net: seq<Copy>, t: Transmission, degree: nat)
    requires Floods(net, t, degree)
    ensures Total(Transmissions, Step(net, t), degree) + 1 == Total(Transmissions, net, degree)
  {
    var life, n := Life(net[t.copy].packet.ttl), |AllQueued(net[t.copy], t.heardBy)|;
    StepWeight(Transmissions, net, t, degree);
    Outweighs(Transmissions, life, degree, degree);
    if life == 1 {
      assert Weight(Transmissions, 0, degree) == 0;
      assert n * Weight(Transmissions, 0, degree) == 0 && degree * Weight(Transmissions, 0, degree) == 0;
    }
  }

  /** The bound is exact: when all hearers send on, the flood takes precisely that many transmissions. */
  lemma {:induction false} FloodTakesExactly(net: seq<Copy>, ts: seq<Transmission>, degree: nat)
    requires Possible(net, ts, degree) && AllFlood(net, ts, degree)
    ensures |ts| + Total(Transmissions, Run(net, ts, degree), degree) == Total(Transmissions, net, degree)
    decreases |ts|
  {
    if ts != [] {
      FloodSpendsOne(net, ts[0], degree);
      FloodTakesExactly(Step(net, ts[0]), ts[1..], degree);
    }
  }

  // ----- a flood that takes that many -----

  /** The sender of a copy is its previous hop. Every other node of a mesh hears the transmission, and nobody else. */
  ghost predicate MeshHears(c: Copy, t: Transmission, nodes: set<nat>) {
    c.packet.prevHop in nodes && |t.heardBy| == |nodes| - 1
    && (set r | r in t.heardBy :: r.self) == nodes - {c.packet.prevHop}
  }

  ghost predicate InMesh(net: seq<Copy>, ts: seq<Transmission>, nodes: set<nat>)
    decreases |ts|
  {
    ts == [] || (ts[0].copy < |net| && MeshHears(net[ts[0].copy], ts[0], nodes)
                 && InMesh(Step(net, ts[0]), ts[1..], nodes))
  }

  /** An application packet sent from within a mesh, for a node outside it and broadcast for want of a route. */
  predicate Floodable(c: Copy, dest: nat, nodes: set<nat>) {
    c.packet.kind == UDP && c.packet.dest == dest && c.packet.nextHop == BCAST_ADDR && c.packet.prevHop in nodes
    && dest != BCAST_ADDR && dest !in nodes && BCAST_ADDR !in nodes
  }

  /** These nodes hear it, each once, with no routes and with room in their queues. */
  lemma {:induction false} Listeners(nodes: set<nat>) returns (heardBy: seq<Reception>)
    ensures |heardBy| == |nodes| && (set r | r in heardBy :: r.self) == nodes
    ensures forall r | r in heardBy :: r.queued && r.rt == [] && r.self in nodes
  {
    if nodes == {} {
      heardBy := [];
    } else {
      var a :| a in nodes;
      var rest := Listeners(nodes - {a});
      var r := Reception(a, [], Config(BCAST_ADDR, BCAST_ADDR, []), true);
      heardBy := [r] + rest;
      assert forall x | x in heardBy :: x == r || x in rest;
      assert (set x | x in heardBy :: x.self) == {a} + (set x | x in rest :: x.self);
    }
  }

  lemma {:induction false} AllSendOn(c: Copy, dest: nat, nodes: set<nat>, heardBy: seq<Reception>)
    requires Floodable(c, dest, nodes)
    requires forall r | r in heardBy :: r.queued && r.rt == [] && r.self in nodes
    ensures |AllQueued(c, heardBy)| == if Life(c.packet.ttl) > 1 then |heardBy| else 0
    ensures forall d | d in AllQueued(c, heardBy) :: Floodable(d, dest, nodes)
  {
    if heardBy != [] {
      AllSendOn(c, dest, nodes, heardBy[1..]);
      assert heardBy[0] in heardBy;
    }
  }

  lemma {:induction false} FloodFirst(net: seq<Copy>, dest: nat, nodes: set<nat>) returns (t: Transmission)
    requires net != [] && nodes != {} && forall c | c in net :: Floodable(c, dest, nodes)
    ensures t.copy == 0 && Floods(net, t, |nodes| - 1) && |t.heardBy| == |nodes| - 1 && MeshHears(net[0], t, nodes)
    ensures forall c | c in Step(net, t) :: Floodable(c, dest, nodes)
  {
    hide AllQueued;
    var heardBy := Listeners(nodes - {net[0].packet.prevHop});
    t := Transmission(0, heardBy);
    AllSendOn(net[0], dest, nodes, heardBy);
  }

  lemma {:induction false} FloodOn(net: seq<Copy>, dest: nat, nodes: set<nat>) returns (ts: seq<Transmission>)
    requires nodes != {} && forall c | c in net :: Floodable(c, dest, nodes)
    ensures Possible(net, ts, |nodes| - 1) && AllFlood(net, ts, |nodes| - 1) && Run(net, ts, |nodes| - 1) == []
    ensures InMesh(net, ts, nodes)
    decreases Total(Transmissions, net, |nodes| - 1)
  {
    if net == [] {
      ts := [];
    } else {
      hide Floods, MeshHears, Total, Step, Floodable;
      var t := FloodFirst(net, dest, nodes);
      FloodSpendsOne(net, t, |nodes| - 1);
      var rest := FloodOn(Step(net, t), dest, nodes);
      ts := [t] + rest;
      assert ts[1..] == rest;
    }
  }

  /** The flood of packet p in a mesh of nodes, each of which hears all the others, ends, with as many transmissions as
      the bound allows. */
  ghost predicate FullFlood(p: Packet, nodes: set<nat>, ts: seq<Transmission>)
    requires nodes != {}
  {
    var net, degree := [Copy(p, 0)], |nodes| - 1;
    Possible(net, ts, degree) && AllFlood(net, ts, degree) && InMesh(net, ts, nodes)
    && Run(net, ts, degree) == [] && |ts| == Cost(Life(p.ttl), degree)
  }

  /** Every application packet without a route has such a flood, in every mesh around its sender. */
  lemma FloodExists(p: Packet, nodes: set<nat>)
    requires Floodable(Copy(p, 0), p.dest, nodes)
    ensures exists ts :: FullFlood(p, nodes, ts)
  {
    var net, degree := [Copy(p, 0)], |nodes| - 1;
    var ts := FloodOn(net, p.dest, nodes);
    FloodTakesExactly(net, ts, degree);
    assert Total(Transmissions, net, degree) == Cost(Life(p.ttl), degree);
    assert FullFlood(p, nodes, ts);
  }

  // ----- delivery along a route -----

  /** Entry e is the first of the table for an address. */
  predicate FirstEntry(rt: seq<Route>, addr: nat, e: int) {
    0 <= e < |rt| && rt[e].dest == addr && forall j | 0 <= j < e :: rt[j].dest != addr
  }

  predicate NoEntry(rt: seq<Route>, addr: nat) {
    forall j | 0 <= j < |rt| :: rt[j].dest != addr
  }

  lemma {:induction false} FirstEntryDecides(rt: seq<Route>, addr: nat, e: int)
    requires addr != BCAST_ADDR
    ensures FirstEntry(rt, addr, e) ==> NextHop(rt, addr) == rt[e].nextHop
    ensures NoEntry(rt, addr) ==> NextHop(rt, addr) == BCAST_ADDR
  {
    if rt != [] && rt[0].dest != addr { FirstEntryDecides(rt[1..], addr, e - 1); }
  }

  /** A node that a packet passes, with its table and with what a configuration message would tell it. */
  datatype Station = Station(addr: nat, rt: seq<Route>, config: Config)

  /** Of the stations on the way to the node dest, all but the last are other nodes, whose first entry for dest names
      the next station. */
  ghost predicate LeadsTo(route: seq<Station>, dest: nat) {
    && route != [] && route[|route| - 1].addr == dest != BCAST_ADDR
    && forall i | 0 <= i < |route| - 1 :: route[i].addr != dest && Names(route[i].rt, dest, route[i + 1].addr)
  }

  ghost predicate Names(rt: seq<Route>, dest: nat, hop: nat) {
    exists e :: FirstEntry(rt, dest, e) && rt[e].nextHop == hop
  }

  /** What the stations do with a packet, each hearing what the one before has sent on. */
  ghost function Travelled(route: seq<Station>, p: Packet): seq<Outcome> {
    if route == [] then []
    else
      var out := Dispatched(route[0].addr, route[0].rt, p, route[0].config);
      [out] + if out.Forwarded? then Travelled(route[1..], out.packet) else []
  }

  /** The packet that station i sends on to the next. */
  function SentOn(route: seq<Station>, p: Packet, i: nat): Packet
    requires i + 1 < |route|
  {
    p.(ttl := Wrapped(p.ttl - i - 1), prevHop := route[i].addr, nextHop := route[i + 1].addr)
  }

  /** What a station on the way does: only a packet that comes back to its source or has run out of time ends here. */
  ghost predicate PassesOn(route: seq<Station>, p: Packet, i: nat, out: Outcome)
    requires i + 1 < |route|
  {
    out == if route[i].addr == p.src then Halted
           else if Life(p.ttl) == i + 1 then Expired
           else Forwarded(SentOn(route, p, i))
  }

  /** What the last station does with the packet that reaches it with this ttl. */
  ghost predicate Arrives(s: Station, p: Packet, ttl: int, out: Outcome) {
    && (p.kind == UDP ==> out == Delivered)
    && (p.kind == HELLO ==> out == Greeted)
    && (p.kind == ROUTE_CONFIG && s.config.node == s.addr ==> out == Configured)
    && (p.kind == NGB_LIST && p.src == s.addr ==> out == Dropped)
    && ((p.kind == ROUTE_CONFIG && s.config.node != s.addr) || (p.kind == NGB_LIST && p.src != s.addr) ==>
          SentFurther(s, p, ttl, out))
  }

  /** A configuration meant for another node and a neighbour list are sent on even by the node they are addressed to. */
  ghost predicate SentFurther(s: Station, p: Packet, ttl: int, out: Outcome) {
    if ttl == 1 then out == Expired
    else
      && out.Forwarded?
      && out.packet == p.(ttl := Wrapped(ttl - 1), prevHop := s.addr, nextHop := out.packet.nextHop)
      && (NoEntry(s.rt, p.dest) ==> out.packet.nextHop == BCAST_ADDR)
      && forall e | FirstEntry(s.rt, p.dest, e) :: out.packet.nextHop == s.rt[e].nextHop
  }

  /** The four kinds of packet there are. */
  predicate IsKind(kind: nat) {
    kind == UDP || kind == HELLO || kind == NGB_LIST || kind == ROUTE_CONFIG
  }

  lemma PassedOn(route: seq<Station>, p: Packet)
    requires LeadsTo(route, p.dest) && p.nextHop == route[0].addr && IsKind(p.kind) && |route| > 1
    ensures PassesOn(route, p, 0, Dispatched(route[0].addr, route[0].rt, p, route[0].config))
  {
    var e :| FirstEntry(route[0].rt, p.dest, e) && route[0].rt[e].nextHop == route[1].addr;
    FirstEntryDecides(route[0].rt, p.dest, e);
  }

  lemma Arrived(s: Station, p: Packet)
    requires p.dest == s.addr != BCAST_ADDR && IsKind(p.kind)
    ensures Arrives(s, p, p.ttl, Dispatched(s.addr, s.rt, p, s.config))
  {
    FirstEntryDecides(s.rt, p.dest, 0);
    forall e | FirstEntry(s.rt, p.dest, e)
      ensures NextHop(s.rt, p.dest) == s.rt[e].nextHop
    {
      FirstEntryDecides(s.rt, p.dest, e);
    }
  }

  /** What happens along a route: every station before the last passes the packet on, until one ends its journey, and
      the last takes it. */
  ghost predicate Journey(route: seq<Station>, p: Packet, outs: seq<Outcome>) {
    var n := |route|;
    && 1 <= |outs| <= n
    && (forall i | 0 <= i < |outs| && i + 1 < n :: PassesOn(route, p, i, outs[i]))
    && (forall i | 0 <= i < |outs| - 1 :: outs[i].Forwarded?)
    && (|outs| < n ==> !outs[|outs| - 1].Forwarded?)
    && (|outs| == n ==> Arrives(route[n - 1], p, Wrapped(p.ttl - (n - 1)), outs[n - 1]))
  }

  lemma LaterStations(route: seq<Station>, dest: nat)
    requires LeadsTo(route, dest) && |route| > 1
    ensures LeadsTo(route[1..], dest)
  {
    var rest := route[1..];
    forall i | 0 <= i < |rest| - 1
      ensures rest[i].addr != dest && Names(rest[i].rt, dest, rest[i + 1].addr)
    {
      assert rest[i] == route[i + 1] && rest[i + 1] == route[i + 2];
    }
  }

  lemma WrapsOn(t: int, a: int, b: int)
    ensures Wrapped(Wrapped(t - a) - b) == Wrapped(t - a - b)
  {}

  lemma JourneyOn(route: seq<Station>, p: Packet, tail: seq<Outcome>)
    requires |route| > 1 && PassesOn(route, p, 0, Forwarded(SentOn(route, p, 0)))
    requires Journey(route[1..], SentOn(route, p, 0), tail)
    ensures Journey(route, p, [Forwarded(SentOn(route, p, 0))] + tail)
  {
    var n, rest, q := |route|, route[1..], SentOn(route, p, 0);
    var outs := [Forwarded(q)] + tail;
    assert outs[|outs| - 1] == tail[|tail| - 1];
    WrapsOn(p.ttl, 1, n - 2);
    ArrivesLater(route[n - 1], p, q, Wrapped(p.ttl - (n - 1)), outs[|outs| - 1]);
    forall i | 0 <= i < |outs| && i + 1 < n
      ensures PassesOn(route, p, i, outs[i])
    {
      if i > 0 {
        assert PassesOn(rest, q, i - 1, outs[i]);
        PassesLater(route, p, q, i, outs[i]);
      }
    }
  }

  lemma PassesLater(route: seq<Station>, p: Packet, q: Packet, i: nat, out: Outcome)
    requires 0 < i && i + 1 < |route| && q == SentOn(route, p, 0) && Life(p.ttl) != 1
    requires PassesOn(route[1..], q, i - 1, out)
    ensures PassesOn(route, p, i, out)
  {
    WrapsOn(p.ttl, 1, i);
    LessLife(p.ttl);
    hide Life, Wrapped;
  }

  lemma LessLife(t: SignedByte)
    requires Life(t) != 1
    ensures Life(Wrapped(t - 1)) == Life(t) - 1
  {}

  lemma ArrivesLater(s: Station, p: Packet, q: Packet, ttl: int, out: Outcome)
    requires q == p.(ttl := q.ttl, prevHop := q.prevHop, nextHop := q.nextHop)
    ensures Arrives(s, q, ttl, out) ==> Arrives(s, p, ttl, out)
  {}

  /** Hop by hop along a route from its first station. */
  lemma {:induction false} TravelsRoute(route: seq<Station>, p: Packet)
    requires LeadsTo(route, p.dest) && p.nextHop == route[0].addr && IsKind(p.kind)
    ensures Journey(route, p, Travelled(route, p))
  {
    hide Dispatched, KindOf, Arrives;
    if |route| == 1 {
      Arrived(route[0], p);
      assert Wrapped(p.ttl) == p.ttl;
    } else {
      PassedOn(route, p);
      LaterStations(route, p.dest);
      var out := Dispatched(route[0].addr, route[0].rt, p, route[0].config);
      if out.Forwarded? {
        hide LeadsTo, PassesOn, Journey;
        TravelsRoute(route[1..], out.packet);
        JourneyOn(route, p, Travelled(route[1..], out.packet));
      }
    }
  }

  /** The packet may be passed on by all the stations before the last. */
  ghost predicate Lasts(route: seq<Station>, p: Packet) {
    Life(p.ttl) >= |route| && forall i | 0 <= i < |route| - 1 :: route[i].addr != p.src
  }

  lemma RunsOutOfTime(route: seq<Station>, p: Packet, outs: seq<Outcome>)
    requires Journey(route, p, outs) && Life(p.ttl) < |route|
    ensures |outs| < |route|
  {
    var life := Life(p.ttl);
    if |outs| >= life { assert PassesOn(route, p, life - 1, outs[life - 1]); }
  }

  lemma JourneyEnds(route: seq<Station>, p: Packet, outs: seq<Outcome>)
    requires Journey(route, p, outs)
    ensures |outs| == |route| <==> Lasts(route, p)
  {
    hide Arrives;
    var n := |route|;
    if Life(p.ttl) < n {
      RunsOutOfTime(route, p, outs);
    }
    if |outs| < n {
      assert PassesOn(route, p, |outs| - 1, outs[|outs| - 1]);
    } else {
      forall i | 0 <= i < n - 1
        ensures route[i].addr != p.src
      {
        assert PassesOn(route, p, i, outs[i]);
      }
    }
  }

  lemma DeliveredLast(route: seq<Station>, p: Packet, outs: seq<Outcome>)
    requires Journey(route, p, outs) && p.kind == UDP
    ensures Delivered in outs <==> |outs| == |route|
  {
    var last := |outs| - 1;
    if |outs| < |route| { assert PassesOn(route, p, last, outs[last]); }
    assert Delivered in outs <==> outs[last] == Delivered;
  }

  /** The packet reaches the last station if and only if it does not come back to its source on the way and its ttl
      lasts for the stations before. */
  lemma ReachesIff(route: seq<Station>, p: Packet)
    requires LeadsTo(route, p.dest) && p.nextHop == route[0].addr && IsKind(p.kind)
    ensures |Travelled(route, p)| == |route| <==> Lasts(route, p)
    ensures p.kind == UDP ==> (Delivered in Travelled(route, p) <==> Lasts(route, p))
  {
    hide LeadsTo, Journey, Travelled;
    TravelsRoute(route, p);
    JourneyEnds(route, p, Travelled(route, p));
    if p.kind == UDP { DeliveredLast(route, p, Travelled(route, p)); }
  }

  /** An application packet from node 1 for node 9, sent to node 3, whose route leads over node 4. */
  lemma ThreeStations() returns (route: seq<Station>, p: Packet)
    ensures LeadsTo(route, 9) && |route| == 3 && p.ttl == 5 && p.src == 1 && p.dest == 9 && p.nextHop == 3
    ensures Travelled(route, p) == [Forwarded(p.(ttl := 4, prevHop := 3, nextHop := 4)),
                                    Forwarded(p.(ttl := 3, prevHop := 4, nextHop := 9)), Delivered]
  {
    var none := Config(BCAST_ADDR, BCAST_ADDR, []);
    var first, second := Station(3, [Route(9, 4, 1)], none), Station(4, [Route(9, 9, 1)], none);
    var last := Station(9, [], none);
    route, p := [first, second, last], Packet(1, 9, 1, 3, 5, UDP, 0, 0, []);
    assert FirstEntry(first.rt, 9, 0) && FirstEntry(second.rt, 9, 0);
    assert LeadsTo(route, 9);
    TravelsRoute(route, p);
    var outs := Travelled(route, p);
    ReachesIff(route, p);
    assert PassesOn(route, p, 0, outs[0]) && PassesOn(route, p, 1, outs[1]);
    assert Arrives(last, p, 3, outs[2]);
  }

  // ----- a routed packet does not multiply -----

  /** These are different nodes, and each has a route to dest. */
  ghost predicate Guided(heardBy: seq<Reception>, dest: nat) {
    && (forall i, j | 0 <= i < j < |heardBy| :: heardBy[i].self != heardBy[j].self)
    && forall r | r in heardBy :: exists hop :: hop != BCAST_ADDR && Names(r.rt, dest, hop)
  }

  ghost predicate AllGuided(ts: seq<Transmission>, dest: nat) {
    forall t | t in ts :: Guided(t.heardBy, dest)
  }

  /** An application packet on its way from hop to hop. */
  predicate Unicast(p: Packet, dest: nat) {
    p.kind == UDP && p.dest == dest != BCAST_ADDR && p.nextHop != BCAST_ADDR
  }

  lemma SentOnUnicast(c: Copy, r: Reception, dest: nat)
    requires Unicast(c.packet, dest) && exists hop :: hop != BCAST_ADDR && Names(r.rt, dest, hop)
    ensures r.self != c.packet.nextHop ==> Queued(c, r) == []
    ensures forall d | d in Queued(c, r) :: Unicast(d.packet, dest)
  {
    var hop :| hop != BCAST_ADDR && Names(r.rt, dest, hop);
    var e :| FirstEntry(r.rt, dest, e) && r.rt[e].nextHop == hop;
    FirstEntryDecides(r.rt, dest, e);
  }

  /** However many hear it, only the next hop sends it on. */
  lemma {:induction false} OnlyNextHopSendsOn(c: Copy, heardBy: seq<Reception>, dest: nat)
    requires Unicast(c.packet, dest) && Guided(heardBy, dest)
    ensures |AllQueued(c, heardBy)| <= 1
    ensures (forall r | r in heardBy :: r.self != c.packet.nextHop) ==> AllQueued(c, heardBy) == []
    ensures forall d | d in AllQueued(c, heardBy) :: Unicast(d.packet, dest)
  {
    if heardBy != [] {
      var r, rest := heardBy[0], heardBy[1..];
      assert forall i, j | 0 <= i < j < |rest| :: rest[i].self != rest[j].self;
      assert forall x | x in rest :: x.self != r.self;
      OnlyNextHopSendsOn(c, rest, dest);
      SentOnUnicast(c, r, dest);
    }
  }

  /** Where there are routes a packet never multiplies: it takes at most one transmission for each unit of its ttl. */
  lemma {:induction false} RoutedIsLinear(c: Copy, ts: seq<Transmission>, degree: nat)
    requires Unicast(c.packet, c.packet.dest) && AllGuided(ts, c.packet.dest) && Possible([c], ts, degree)
    ensures |Run([c], ts, degree)| <= 1
    ensures |ts| <= Life(c.packet.ttl)
    decreases |ts|
  {
    if ts != [] {
      var t, dest := ts[0], c.packet.dest;
      OnlyNextHopSendsOn(c, t.heardBy, dest);
      var next := AllQueued(c, t.heardBy);
      assert Step([c], t) == next;
      if next == [] {
        assert ts[1..] == [];
      } else {
        assert next == [next[0]];
        AllForwardedLive(c, t.heardBy, next[0]);
        RoutedIsLinear(next[0], ts[1..], degree);
      }
    }
  }

  /** An application packet or a greeting to everyone goes no further than those who hear it, and each of them takes
      it. */
  lemma {:induction false} BroadcastStaysLocal(c: Copy, heardBy: seq<Reception>)
    requires c.packet.dest == BCAST_ADDR && (c.packet.kind == UDP || c.packet.kind == HELLO)
    ensures AllQueued(c, heardBy) == []
    ensures forall r | r in heardBy :: Dispatched(r.self, r.rt, c.packet, r.config)
                                    == if c.packet.kind == UDP then Delivered else Greeted
  {
    if heardBy != [] { BroadcastStaysLocal(c, heardBy[1..]); }
  }

  /** Neighbour lists and configurations for everyone are broadcast on by every node but their source, or the node that
      is configured, until their time is up. */
  lemma BroadcastSpreads(p: Packet, s: Station)
    requires p.dest == BCAST_ADDR
    requires (p.kind == NGB_LIST && p.src != s.addr) || (p.kind == ROUTE_CONFIG && s.config.node != s.addr)
    ensures Dispatched(s.addr, s.rt, p, s.config) ==
            if p.ttl == 1 then Expired
            else Forwarded(p.(ttl := Wrapped(p.ttl - 1), prevHop := s.addr, nextHop := BCAST_ADDR))
  {}

  /** A packet of no kind is lost on everyone. */
  lemma {:induction false} UnknownIsLost(c: Copy, heardBy: seq<Reception>)
    requires !IsKind(c.packet.kind)
    ensures AllQueued(c, heardBy) == []
    ensures forall r | r in heardBy :: Dispatched(r.self, r.rt, c.packet, r.config) == Dropped
  {
    if heardBy != [] { UnknownIsLost(c, heardBy[1..]); }
  }
}
