/**
 Connection tracking shared by the two gateway engines: a forward map from flows to entries,
 a reverse map from external ports to flows, and the port pool, kept in step over any
 sequence of calls.
 */
module Conntrack {
  import opened Wrappers
  import opened PortPool
  import opened Bytes
  import Routing

  type NodeId = Routing.NodeId

  const PROTO_ICMP: nat := 1
  const PROTO_TCP: nat := 6
  const PROTO_UDP: nat := 17
  const PROTO_ICMPV6: nat := 58

  const SECOND: nat := 1_000_000_000

  type Ipv4 = a: seq<byte> | |a| == 4 witness [0, 0, 0, 0]
  type Ipv6 = a: seq<byte> | |a| == 16 witness [0, 0, 0, 0, 0, 0, 0, 0, 0, 0, 0, 0, 0, 0, 0, 0]

  /** Who sent a packet: an address, and for IPv6 also the mesh node it came from. */
  datatype Source = V4(address4: Ipv4) | V6(node: NodeId, address6: Ipv6)

  datatype Key = Key(proto: byte, source: Source, port: u16)

  datatype Entry = Entry(extPort: nat, lastSeen: nat, source: Source, port: u16, proto: byte)

  datatype Table = Table(forward: map<Key, Entry>, reverse: map<(nat, nat), Key>, pool: Pool)

  function Empty(): Table {
    Table(map[], map[], Pool(PORT_MIN, {}))
  }

  /** Nanoseconds a flow may stay idle; `icmp` is the echo protocol of the address family. */
  function IdleTimeout(proto: nat, icmp: nat): nat {
    if proto == PROTO_TCP then 300 * SECOND
    else if proto == PROTO_UDP then 30 * SECOND
    else if proto == icmp then 10 * SECOND
    else 30 * SECOND
  }

  predicate Expired(e: Entry, icmp: nat, now: nat) {
    now - e.lastSeen > IdleTimeout(e.proto, icmp)
  }

  // ---------------------------------------------------------------------
  // Operations

  function Touch(c: Table, key: Key, now: nat): Table
    requires key in c.forward
  {
    c.(forward := c.forward[key := c.forward[key].(lastSeen := now)])
  }

  /** Find or create the entry of an outbound flow. */
  ghost function Track(c: Table, key: Key, now: nat): (r: (Option<nat>, Table)) {
    if key in c.forward then (Some(c.forward[key].extPort), Touch(c, key, now))
    else
      match Allocation(c.pool)
      case (None, _) => (None, c)
      case (Some(port), pool) =>
        (Some(port),
         Table(c.forward[key := Entry(port, now, key.source, key.port, key.proto)],
               c.reverse[(key.proto, port) := key], pool))
  }

  /** Find the entry an inbound packet belongs to. */
  function Resolve(c: Table, proto: nat, port: nat, now: nat): (r: (Option<Entry>, Table)) {
    if (proto, port) in c.reverse && c.reverse[(proto, port)] in c.forward
    then
      var key := c.reverse[(proto, port)];
      (Some(c.forward[key].(lastSeen := now)), Touch(c, key, now))
    else (None, c)
  }

  ghost function Slots(c: Table, keys: set<Key>): set<(nat, nat)> {
    set k | k in keys && k in c.forward :: (c.forward[k].proto, c.forward[k].extPort)
  }

  ghost function Ports(c: Table, keys: set<Key>): set<nat> {
    set k | k in keys && k in c.forward :: c.forward[k].extPort
  }

  /** Forget the flows in `keys`, their reverse entries and their ports. */
  ghost function Forget(c: Table, keys: set<Key>): Table {
    Table(c.forward - keys, c.reverse - Slots(c, keys), c.pool.(inUse := c.pool.inUse - Ports(c, keys)))
  }

  ghost function ExpiredKeys(c: Table, icmp: nat, now: nat): set<Key> {
    set k | k in c.forward && Expired(c.forward[k], icmp, now)
  }

  ghost function Cleanup(c: Table, icmp: nat, now: nat): Table {
    Forget(c, ExpiredKeys(c, icmp, now))
  }

  // ---------------------------------------------------------------------
  // The bijection

  /** The entry of `key` repeats its key and is found again through its port. */
  predicate EntryOk(c: Table, key: Key)
    requires key in c.forward
  {
    var e := c.forward[key];
    && e.proto == key.proto && e.source == key.source && e.port == key.port
    && (e.proto, e.extPort) in c.reverse && c.reverse[(e.proto, e.extPort)] == key
    && e.extPort in c.pool.inUse
  }

  predicate SlotOk(c: Table, slot: (nat, nat))
    requires slot in c.reverse
  {
    var key := c.reverse[slot];
    key in c.forward && key.proto == slot.0 && c.forward[key].extPort == slot.1
  }

  /** Forward and reverse maps are mutually inverse, and the used ports are those of live entries. */
  ghost predicate Bijective(c: Table) {
    && PoolOk(c.pool)
    && (forall k :: k in c.forward ==> EntryOk(c, k))
    && (forall slot :: slot in c.reverse ==> SlotOk(c, slot))
    && DistinctPorts(c)
    && (forall p :: p in c.pool.inUse ==> exists k :: k in c.forward && c.forward[k].extPort == p)
  }

  lemma TouchKeepsBijective(c: Table, key: Key, now: nat)
    requires Bijective(c) && key in c.forward
    ensures Bijective(Touch(c, key, now))
  {
    var c' := Touch(c, key, now);
    forall k | k in c'.forward ensures EntryOk(c', k) { assert EntryOk(c, k); }
    forall slot | slot in c'.reverse ensures SlotOk(c', slot) { assert SlotOk(c, slot); }
    forall p | p in c'.pool.inUse ensures exists k :: k in c'.forward && c'.forward[k].extPort == p {
      var k :| k in c.forward && c.forward[k].extPort == p;
      assert k in c'.forward && c'.forward[k].extPort == p;
    }
  }

  /** `c'` is `c` with a new flow `key` on a port that was free. */
  ghost predicate Opens(c: Table, key: Key, port: nat, now: nat, c': Table) {
    && key !in c.forward && InRange(port) && port !in c.pool.inUse && PoolOk(c'.pool)
    && c'.forward == c.forward[key := Entry(port, now, key.source, key.port, key.proto)]
    && c'.reverse == c.reverse[(key.proto as nat, port) := key] && c'.pool.inUse == c.pool.inUse + {port}
  }

  lemma OpeningKeepsEntries(c: Table, key: Key, port: nat, now: nat, c': Table)
    requires Bijective(c) && Opens(c, key, port, now, c')
    ensures forall k :: k in c'.forward ==> EntryOk(c', k)
    ensures forall slot :: slot in c'.reverse ==> SlotOk(c', slot)
  {
    forall k | k in c'.forward ensures EntryOk(c', k) {
      if k != key { assert EntryOk(c, k); }
    }
    forall slot | slot in c'.reverse ensures SlotOk(c', slot) {
      if slot != (key.proto as nat, port) { assert SlotOk(c, slot); }
    }
  }

  lemma OpeningKeepsPorts(c: Table, key: Key, port: nat, now: nat, c': Table)
    requires Bijective(c) && Opens(c, key, port, now, c')
    ensures DistinctPorts(c')
    ensures forall p :: p in c'.pool.inUse ==> exists k :: k in c'.forward && c'.forward[k].extPort == p
  {
    forall k1, k2 | k1 in c'.forward && k2 in c'.forward && c'.forward[k1].extPort == c'.forward[k2].extPort
      ensures k1 == k2
    {
      if k1 != key { assert EntryOk(c, k1); }
      if k2 != key { assert EntryOk(c, k2); }
    }
    forall p | p in c'.pool.inUse ensures exists k :: k in c'.forward && c'.forward[k].extPort == p {
      if p == port {
        assert c'.forward[key].extPort == p;
      } else {
        var k :| k in c.forward && c.forward[k].extPort == p;
        assert c'.forward[k].extPort == p;
      }
    }
  }

  lemma TrackKeepsBijective(c: Table, key: Key, now: nat)
    requires Bijective(c)
    ensures Bijective(Track(c, key, now).1)
  {
    var (result, c') := Track(c, key, now);
    if key in c.forward {
      TouchKeepsBijective(c, key, now);
    } else if result.Some? {
      assert Opens(c, key, result.value, now, c');
      OpeningKeepsEntries(c, key, result.value, now, c');
      OpeningKeepsPorts(c, key, result.value, now, c');
    }
  }

  lemma ResolveKeepsBijective(c: Table, proto: nat, port: nat, now: nat)
    requires Bijective(c)
    ensures Bijective(Resolve(c, proto, port, now).1)
  {
    if (proto, port) in c.reverse && c.reverse[(proto, port)] in c.forward {
      TouchKeepsBijective(c, c.reverse[(proto, port)], now);
    }
  }

  lemma ForgetKeepsBijective(c: Table, keys: set<Key>)
    requires Bijective(c)
    ensures Bijective(Forget(c, keys))
  {
    var c' := Forget(c, keys);
    forall k | k in c'.forward ensures EntryOk(c', k) {
      assert EntryOk(c, k);
    }
    forall slot | slot in c'.reverse ensures SlotOk(c', slot) {
      assert SlotOk(c, slot);
      var k := c.reverse[slot];
      assert EntryOk(c, k);
      assert k in keys ==> slot in Slots(c, keys);
    }
    forall p | p in c'.pool.inUse ensures exists k :: k in c'.forward && c'.forward[k].extPort == p {
      var k :| k in c.forward && c.forward[k].extPort == p;
      assert k in c'.forward && c'.forward[k].extPort == p;
    }
  }

  lemma CleanupKeepsBijective(c: Table, icmp: nat, now: nat)
    requires Bijective(c)
    ensures Bijective(Cleanup(c, icmp, now))
  {
    ForgetKeepsBijective(c, ExpiredKeys(c, icmp, now));
  }

  // ---------------------------------------------------------------------
  // Counting

  lemma PortsSplit(c: Table, keys: set<Key>, k: Key)
    requires k in keys && k in c.forward
    ensures Ports(c, keys) == Ports(c, keys - {k}) + {c.forward[k].extPort}
    ensures Slots(c, keys) == Slots(c, keys - {k}) + {(c.forward[k].proto, c.forward[k].extPort)}
  {
    assert keys == keys - {k} + {k};
  }

  ghost predicate DistinctPorts(c: Table) {
    forall k1, k2 :: k1 in c.forward && k2 in c.forward && c.forward[k1].extPort == c.forward[k2].extPort ==> k1 == k2
  }

  lemma {:induction false} PortsCount(c: Table, keys: set<Key>)
    requires DistinctPorts(c) && keys <= c.forward.Keys
    ensures |Ports(c, keys)| == |keys| && |Slots(c, keys)| == |keys|
    decreases |keys|
  {
    if keys != {} {
      var k :| k in keys;
      PortsSplit(c, keys, k);
      PortsCount(c, keys - {k});
      assert c.forward[k].extPort !in Ports(c, keys - {k});
      assert (c.forward[k].proto, c.forward[k].extPort) !in Slots(c, keys - {k});
    }
  }

  /** Flows, reverse entries and used ports are equally many, and at most 30000. */
  lemma BijectiveCounts(c: Table)
    requires Bijective(c)
    ensures |c.forward| == |c.reverse| == |c.pool.inUse| <= 30000
  {
    PortsCount(c, c.forward.Keys);
    PoolIsBounded(c.pool);
    assert Ports(c, c.forward.Keys) == c.pool.inUse by {
      forall k | k in c.forward ensures c.forward[k].extPort in c.pool.inUse { assert EntryOk(c, k); }
    }
    assert Slots(c, c.forward.Keys) == c.reverse.Keys by {
      forall k | k in c.forward ensures (c.forward[k].proto, c.forward[k].extPort) in c.reverse {
        assert EntryOk(c, k);
      }
      forall slot | slot in c.reverse ensures slot in Slots(c, c.forward.Keys) {
        assert SlotOk(c, slot);
        assert EntryOk(c, c.reverse[slot]);
      }
    }
  }

  // ---------------------------------------------------------------------
  // Runs

  datatype Event =
    | Outbound(key: Key, now: nat)
    | Inbound(proto: nat, port: nat, now: nat)
    | Sweep(now: nat)
    | Nothing

  ghost function Step(c: Table, icmp: nat, event: Event): Table {
    match event
    case Outbound(key, now) => Track(c, key, now).1
    case Inbound(proto, port, now) => Resolve(c, proto, port, now).1
    case Sweep(now) => Cleanup(c, icmp, now)
    case Nothing => c
  }

  lemma StepKeepsBijective(c: Table, icmp: nat, event: Event)
    requires Bijective(c)
    ensures Bijective(Step(c, icmp, event))
  {
    match event
    case Outbound(key, now) => TrackKeepsBijective(c, key, now);
    case Inbound(proto, port, now) => ResolveKeepsBijective(c, proto, port, now);
    case Sweep(now) => CleanupKeepsBijective(c, icmp, now);
    case Nothing =>
  }

  /** The table after the first `k` events. It is defined for every sequence of events. */
  ghost function At(icmp: nat, events: seq<Event>, k: nat): Table
    requires k <= |events|
  {
    if k == 0 then Empty() else Step(At(icmp, events, k - 1), icmp, events[k-1])
  }

  lemma {:induction false} BijectiveAt(icmp: nat, events: seq<Event>, k: nat)
    requires k <= |events|
    ensures Bijective(At(icmp, events, k))
  {
    if k > 0 {
      BijectiveAt(icmp, events, k - 1);
      StepKeepsBijective(At(icmp, events, k - 1), icmp, events[k-1]);
    }
  }

  /** The maps stay a bijection, and within the pool's size, through every sequence of events. */
  lemma BijectiveForever(icmp: nat, events: seq<Event>, k: nat)
    requires k <= |events|
    ensures var c := At(icmp, events, k);
      Bijective(c) && |c.forward| == |c.reverse| == |c.pool.inUse| <= 30000
  {
    BijectiveAt(icmp, events, k);
    BijectiveCounts(At(icmp, events, k));
  }

  lemma TrackGivesPort(c: Table, key: Key, now: nat)
    requires PoolOk(c.pool) && Track(c, key, now).0.Some?
    ensures var c' := Track(c, key, now).1;
      key in c'.forward && c'.forward[key].extPort == Track(c, key, now).0.value && c'.forward[key].lastSeen == now
  {
  }

  predicate Timed(event: Event, since: nat) {
    match event
    case Outbound(_, now) => since <= now
    case Inbound(_, _, now) => since <= now
    case _ => true
  }

  /**
   A step forgets a flow exactly when it is a sweep that finds the flow idle too long; otherwise
   the flow keeps its port and its last use moves only forward.
   */
  lemma StepKeepsPort(c: Table, icmp: nat, event: Event, key: Key, since: nat)
    requires Bijective(c) && key in c.forward
    ensures var c' := Step(c, icmp, event);
      && (key in c'.forward <==> !(event.Sweep? && Expired(c.forward[key], icmp, event.now)))
      && (key in c'.forward ==> c'.forward[key].extPort == c.forward[key].extPort)
      && (key in c'.forward && Timed(event, since) && c.forward[key].lastSeen >= since ==>
            c'.forward[key].lastSeen >= since)
  {
  }

  /** Event `i` gave its flow the port `port`. */
  ghost predicate Opened(icmp: nat, events: seq<Event>, i: nat, key: Key, port: nat) {
    && i < |events| && events[i].Outbound? && events[i].key == key
    && Track(At(icmp, events, i), key, events[i].now).0 == Some(port)
  }

  /** The flow has not been swept away between event `i` and state `j`. */
  ghost predicate StillTracked(icmp: nat, events: seq<Event>, i: nat, j: nat, key: Key)
    requires j <= |events|
  {
    forall m: nat :: i < m <= j ==> key in At(icmp, events, m).forward
  }

  lemma OpeningGivesPort(icmp: nat, events: seq<Event>, i: nat, key: Key, port: nat)
    requires Opened(icmp, events, i, key, port)
    ensures var c := At(icmp, events, i + 1);
      key in c.forward && c.forward[key].extPort == port && c.forward[key].lastSeen == events[i].now
  {
    BijectiveAt(icmp, events, i);
    TrackGivesPort(At(icmp, events, i), key, events[i].now);
  }

  /** What event `k` does to a tracked flow. */
  lemma EventKeepsPort(icmp: nat, events: seq<Event>, k: nat, key: Key, since: nat)
    requires k < |events| && key in At(icmp, events, k).forward
    ensures var e, c' := At(icmp, events, k).forward[key], At(icmp, events, k + 1);
      && e.proto == key.proto
      && (key in c'.forward <==> !(events[k].Sweep? && Expired(e, icmp, events[k].now)))
      && (key in c'.forward ==> c'.forward[key].extPort == e.extPort)
      && (key in c'.forward && Timed(events[k], since) && e.lastSeen >= since ==> c'.forward[key].lastSeen >= since)
  {
    BijectiveAt(icmp, events, k);
    assert EntryOk(At(icmp, events, k), key);
    StepKeepsPort(At(icmp, events, k), icmp, events[k], key, since);
  }

  /** A flow keeps its port, whatever other flows do, until it is swept away. */
  lemma {:induction false} PortIsKept(icmp: nat, events: seq<Event>, i: nat, j: nat, key: Key, port: nat)
    requires Opened(icmp, events, i, key, port) && i < j <= |events| && StillTracked(icmp, events, i, j, key)
    ensures At(icmp, events, j).forward[key].extPort == port
    decreases j
  {
    if i + 1 == j {
      OpeningGivesPort(icmp, events, i, key, port);
    } else {
      PortIsKept(icmp, events, i, j - 1, key, port);
      EventKeepsPort(icmp, events, j - 1, key, 0);
    }
  }

  /** A packet to that port is then resolved to that flow and no other. */
  lemma ReplyFindsFlow(icmp: nat, events: seq<Event>, i: nat, j: nat, key: Key, port: nat, now: nat)
    requires Opened(icmp, events, i, key, port) && i < j <= |events| && StillTracked(icmp, events, i, j, key)
    ensures Resolve(At(icmp, events, j), key.proto, port, now).0
         == Some(Entry(port, now, key.source, key.port, key.proto))
  {
    PortIsKept(icmp, events, i, j, key, port);
    BijectiveAt(icmp, events, j);
    assert EntryOk(At(icmp, events, j), key);
  }

  /** Time does not run backwards and no sweep runs later than the idle timeout after `since`. */
  predicate Timely(event: Event, since: nat, timeout: nat) {
    Timed(event, since) && (event.Sweep? ==> event.now <= since + timeout)
  }

  /** A flow is still tracked while every sweep comes within its idle timeout of its opening. */
  lemma {:induction false} TimelySweepsKeepFlow(icmp: nat, events: seq<Event>, i: nat, j: nat, key: Key, port: nat)
    requires Opened(icmp, events, i, key, port) && i < j <= |events|
    requires forall m :: i < m < j ==> Timely(events[m], events[i].now, IdleTimeout(key.proto, icmp))
    ensures key in At(icmp, events, j).forward && At(icmp, events, j).forward[key].lastSeen >= events[i].now
    decreases j
  {
    if i + 1 == j {
      OpeningGivesPort(icmp, events, i, key, port);
    } else {
      TimelySweepsKeepFlow(icmp, events, i, j - 1, key, port);
      EventKeepsPort(icmp, events, j - 1, key, events[i].now);
    }
  }

  // ---------------------------------------------------------------------
  // Idle flows

  /** How long a flow may stay idle, in nanoseconds: 300 s for TCP, 10 s for echo packets, 30 s for the rest. */
  function IdleLimit(proto: nat, icmp: nat): nat {
    if proto == 6 then 300_000_000_000
    else if proto == 17 then 30_000_000_000
    else if proto == icmp then 10_000_000_000
    else 30_000_000_000
  }

  /** A sweep removes a flow, its reverse entry and its port exactly when it was idle for longer than that. */
  lemma SweepForgetsExactly(c: Table, icmp: nat, now: nat, key: Key)
    requires Bijective(c) && key in c.forward
    ensures var c', e := Cleanup(c, icmp, now), c.forward[key];
      && (key in c'.forward <==> now - e.lastSeen <= IdleLimit(key.proto, icmp))
      && (key in c'.forward ==> c'.forward[key] == e && e.extPort in c'.pool.inUse)
      && (key !in c'.forward ==> e.extPort !in c'.pool.inUse && (key.proto as nat, e.extPort) !in c'.reverse)
  {
    assert EntryOk(c, key);
    CleanupKeepsBijective(c, icmp, now);
    var c' := Cleanup(c, icmp, now);
    if key in c'.forward {
      assert EntryOk(c', key);
    } else {
      SweptPortIsFree(c, ExpiredKeys(c, icmp, now), key);
    }
  }

  lemma SweptPortIsFree(c: Table, keys: set<Key>, key: Key)
    requires key in keys && key in c.forward
    ensures var c', e := Forget(c, keys), c.forward[key];
      e.extPort !in c'.pool.inUse && (e.proto as nat, e.extPort) !in c'.reverse
  {
    assert c.forward[key].extPort in Ports(c, keys);
    assert (c.forward[key].proto as nat, c.forward[key].extPort) in Slots(c, keys);
  }

  /** Event `k` is a packet of the flow: sent by it, or addressed to the port it has. */
  predicate Uses(events: seq<Event>, k: nat, key: Key, port: nat)
    requires k < |events|
  {
    || (events[k].Outbound? && events[k].key == key)
    || (events[k].Inbound? && events[k].proto == key.proto && events[k].port == port)
  }

  /** The time of the last packet of the flow from event `i` on, before event `j`. */
  function LastUse(events: seq<Event>, i: nat, j: nat, key: Key, port: nat): nat
    requires i < j <= |events| && events[i].Outbound?
    decreases j
  {
    if j == i + 1 then events[i].now
    else if Uses(events, j - 1, key, port) then events[j-1].now
    else LastUse(events, i, j - 1, key, port)
  }

  /** A packet of a flow renews it; nothing else does. */
  lemma UseRenews(c: Table, icmp: nat, event: Event, key: Key)
    requires Bijective(c) && key in c.forward && key in Step(c, icmp, event).forward
    ensures var used := (event.Outbound? && event.key == key)
                        || (event.Inbound? && event.proto == key.proto && event.port == c.forward[key].extPort);
      Step(c, icmp, event).forward[key].lastSeen == if used then event.now else c.forward[key].lastSeen
  {
    assert EntryOk(c, key);
    if event.Inbound? && (event.proto, event.port) in c.reverse {
      assert SlotOk(c, (event.proto, event.port));
    }
  }

  /** A tracked flow remembers the time of its last packet, in either direction. */
  lemma {:induction false} LastSeenIsLastUse(icmp: nat, events: seq<Event>, i: nat, j: nat, key: Key, port: nat)
    requires Opened(icmp, events, i, key, port) && i < j <= |events| && StillTracked(icmp, events, i, j, key)
    ensures At(icmp, events, j).forward[key].lastSeen == LastUse(events, i, j, key, port)
    decreases j
  {
    if i + 1 == j {
      OpeningGivesPort(icmp, events, i, key, port);
    } else {
      LastSeenIsLastUse(icmp, events, i, j - 1, key, port);
      PortIsKept(icmp, events, i, j - 1, key, port);
      EventRenews(icmp, events, j - 1, key);
    }
  }

  lemma EventRenews(icmp: nat, events: seq<Event>, k: nat, key: Key)
    requires k < |events| && key in At(icmp, events, k).forward && key in At(icmp, events, k + 1).forward
    ensures var e := At(icmp, events, k).forward[key];
      At(icmp, events, k + 1).forward[key].lastSeen
        == if Uses(events, k, key, e.extPort) then events[k].now else e.lastSeen
  {
    BijectiveAt(icmp, events, k);
    UseRenews(At(icmp, events, k), icmp, events[k], key);
  }

  /**
   In every history a sweep removes a flow that is still tracked, with its port, exactly when its last
   packet in either direction came longer ago than the idle limit.
   */
  lemma IdleFlowIsSwept(icmp: nat, events: seq<Event>, i: nat, j: nat, key: Key, port: nat)
    requires Opened(icmp, events, i, key, port) && i < j < |events| && StillTracked(icmp, events, i, j, key)
    requires events[j].Sweep?
    ensures var c, idle := At(icmp, events, j + 1), events[j].now - LastUse(events, i, j, key, port);
      && (key in c.forward <==> idle <= IdleLimit(key.proto, icmp))
      && (key in c.forward <==> port in c.pool.inUse)
      && (key in c.forward <==> (key.proto as nat, port) in c.reverse)
  {
    LastSeenIsLastUse(icmp, events, i, j, key, port);
    PortIsKept(icmp, events, i, j, key, port);
    SweepAt(icmp, events, j, key);
  }

  lemma SweepAt(icmp: nat, events: seq<Event>, k: nat, key: Key)
    requires k < |events| && events[k].Sweep? && key in At(icmp, events, k).forward
    ensures var c, e := At(icmp, events, k + 1), At(icmp, events, k).forward[key];
      && (key in c.forward <==> events[k].now <= e.lastSeen + IdleLimit(key.proto, icmp))
      && (key in c.forward <==> e.extPort in c.pool.inUse)
      && (key in c.forward <==> (key.proto as nat, e.extPort) in c.reverse)
  {
    BijectiveAt(icmp, events, k);
    SweepForgetsExactly(At(icmp, events, k), icmp, events[k].now, key);
    BijectiveAt(icmp, events, k + 1);
    if key in At(icmp, events, k + 1).forward { assert EntryOk(At(icmp, events, k + 1), key); }
  }

  /** A flow that is gone stays gone while it sends nothing. */
  lemma {:induction false} GoneStaysGone(icmp: nat, events: seq<Event>, i: nat, j: nat, key: Key)
    requires i <= j <= |events| && key !in At(icmp, events, i).forward
    requires forall m :: i <= m < j ==> !(events[m].Outbound? && events[m].key == key)
    ensures key !in At(icmp, events, j).forward
  {
    if i < j {
      GoneStaysGone(icmp, events, i, j - 1, key);
    }
  }

  lemma {:induction false} QuietSince(events: seq<Event>, i: nat, j: nat, key: Key, port: nat)
    requires i < j <= |events| && events[i].Outbound?
    requires forall m :: i < m < j ==> !Uses(events, m, key, port)
    ensures LastUse(events, i, j, key, port) == events[i].now
    decreases j
  {
    if i + 1 < j { QuietSince(events, i, j - 1, key, port); }
  }

  /** A flow without a packet in either direction for longer than the idle limit is gone after the next sweep. */
  lemma QuietFlowIsGone(icmp: nat, events: seq<Event>, i: nat, j: nat, key: Key, port: nat)
    requires Opened(icmp, events, i, key, port) && i < j < |events| && events[j].Sweep?
    requires forall m :: i < m < j ==> !Uses(events, m, key, port)
    requires events[j].now > events[i].now + IdleLimit(key.proto, icmp)
    ensures key !in At(icmp, events, j + 1).forward
  {
    if StillTracked(icmp, events, i, j, key) {
      QuietSince(events, i, j, key, port);
      IdleFlowIsSwept(icmp, events, i, j, key, port);
    } else {
      var m: nat :| i < m <= j && key !in At(icmp, events, m).forward;
      forall l | m <= l < j + 1 ensures !(events[l].Outbound? && events[l].key == key) {
        if l < j { assert !Uses(events, l, key, port); }
      }
      GoneStaysGone(icmp, events, m, j + 1, key);
    }
  }
}
