/**
 The two userspace NAT engines. The IPv4 engine is modelled from the parsed flow on; the IPv6
 engine works on the packet bytes. Replies are shown to reach the original sender over whole runs.
 */
module Gateway {
  import opened Wrappers
  import opened Bytes
  import opened PortPool
  import opened Checksum
  import opened Conntrack
  import opened NatPackets

  // ---------------------------------------------------------------------
  // The IPv6 engine as a value

  datatype Engine = Engine(externalIp: Ipv6, table: Table)

  ghost predicate AllV6(c: Table) {
    forall k :: k in c.forward ==> k.source.V6?
  }

  ghost predicate EngineOk(e: Engine) {
    Bijective(e.table) && AllV6(e.table)
  }

  function FlowKey(flow: Flow, node: NodeId): Key {
    Key(flow.proto, V6(node, flow.address), flow.port)
  }

  datatype Translation<T> = Translation(result: Result<T, Error>, packet: Packet, engine: Engine)

  /** Rewrite an outbound packet to the external address and a port of the pool. */
  ghost function Masqueraded(e: Engine, p: Packet, node: NodeId, now: nat): Translation<nat>
    requires EngineOk(e)
  {
    match ParseFlow(p)
    case Err(error) => Translation(Err(error), p, e)
    case Ok(flow) =>
      match Track(e.table, FlowKey(flow, node), now)
      case (None, table) => Translation(Err(ConntrackFull), p, e.(table := table))
      case (Some(port), table) =>
        TrackedPortInRange(e.table, FlowKey(flow, node), now);
        var rewrite := Rewritten(p, Src, e.externalIp, port);
        Translation(if rewrite.error.None? then Ok(port) else Err(rewrite.error.value),
                    rewrite.packet, e.(table := table))
  }

  /** Rewrite an inbound packet back to the sender its port belongs to. */
  ghost function Delivered(e: Engine, p: Packet, now: nat): Translation<NodeId>
    requires EngineOk(e)
  {
    match NextHeader(p)
    case Err(error) => Translation(Err(error), p, e)
    case Ok(proto) =>
      match PortOf(p, proto, Dst)
      case Err(error) => Translation(Err(error), p, e)
      case Ok(port) =>
        match Resolve(e.table, proto, port, now)
        case (None, table) => Translation(Err(NoConntrackEntry(proto, port)), p, e.(table := table))
        case (Some(entry), table) =>
          assert EntryOk(e.table, e.table.reverse[(proto as nat, port as nat)]);
          var rewrite := Rewritten(p, Dst, entry.source.address6, entry.port);
          Translation(if rewrite.error.None? then Ok(entry.source.node) else Err(rewrite.error.value),
                      rewrite.packet, e.(table := table))
  }

  lemma TrackedPortInRange(c: Table, key: Key, now: nat)
    requires Bijective(c) && Track(c, key, now).0.Some?
    ensures InRange(Track(c, key, now).0.value)
  {
    if key in c.forward { assert EntryOk(c, key); }
  }

  ghost function Swept(e: Engine, now: nat): Engine {
    e.(table := Cleanup(e.table, PROTO_ICMPV6, now))
  }

  lemma OutboundKeepsOk(e: Engine, p: Packet, node: NodeId, now: nat)
    requires EngineOk(e)
    ensures EngineOk(Masqueraded(e, p, node, now).engine)
  {
    if ParseFlow(p).Ok? { TrackKeepsBijective(e.table, FlowKey(ParseFlow(p).value, node), now); }
  }

  lemma InboundKeepsOk(e: Engine, p: Packet, now: nat)
    requires EngineOk(e)
    ensures EngineOk(Delivered(e, p, now).engine)
  {
    if NextHeader(p).Ok? && PortOf(p, NextHeader(p).value, Dst).Ok? {
      ResolveKeepsBijective(e.table, NextHeader(p).value, PortOf(p, NextHeader(p).value, Dst).value, now);
    }
  }

  lemma CleanupKeepsOk(e: Engine, now: nat)
    requires EngineOk(e)
    ensures EngineOk(Swept(e, now))
  {
    CleanupKeepsBijective(e.table, PROTO_ICMPV6, now);
  }

  /**
   An outbound call succeeds exactly on rewritable packets whose flow gets a port, and then the
   packet carries the external address, that port and a valid checksum. A packet that can be
   parsed but not rewritten still opens its flow.
   */
  lemma OutboundIsMasqueraded(e: Engine, p: Packet, node: NodeId, now: nat)
    requires EngineOk(e)
    ensures var t := Masqueraded(e, p, node, now);
      && (t.result.Ok? <==> Rewritable(p) && Track(e.table, FlowKey(ParseFlow(p).value, node), now).0.Some?)
      && (t.result.Ok? ==>
            && InRange(t.result.value)
            && ParseFlow(t.packet) == Ok(Flow(NextHeader(p).value, e.externalIp, t.result.value))
            && Verifies(Pseudo(t.packet, NextHeader(p).value))
            && forall i :: 0 <= i < |p| && !Rewrites(NextHeader(p).value, Src, i) ==> t.packet[i] == p[i])
      && (ParseFlow(p).Ok? && t.result != Err(ConntrackFull) ==>
            FlowKey(ParseFlow(p).value, node) in t.engine.table.forward)
  {
    if ParseFlow(p).Ok? {
      var key := FlowKey(ParseFlow(p).value, node);
      if Track(e.table, key, now).0.Some? {
        TrackedPortInRange(e.table, key, now);
        RewriteIsCorrect(p, Src, e.externalIp, Track(e.table, key, now).0.value);
      }
    }
  }

  /**
   A refused packet changes the engine exactly when it can be parsed but not rewritten and its flow
   gets a port: then the flow is opened, or used again at a new time.
   */
  lemma RefusalOpensExactly(e: Engine, p: Packet, node: NodeId, now: nat)
    requires EngineOk(e)
    ensures var t := Masqueraded(e, p, node, now);
      && (t.result.Err? && t.engine != e <==>
            && ParseFlow(p).Ok? && !Rewritable(p)
            && var key := FlowKey(ParseFlow(p).value, node);
               if key in e.table.forward then e.table.forward[key].lastSeen != now
               else |e.table.pool.inUse| < POOL_SIZE)
      && (t.result.Err? && t.engine != e ==>
            var key := FlowKey(ParseFlow(p).value, node);
            key in t.engine.table.forward && t.engine.table.forward[key].lastSeen == now)
  {
    if ParseFlow(p).Ok? {
      var key := FlowKey(ParseFlow(p).value, node);
      TrackChangesExactly(e.table, key, now);
      if Track(e.table, key, now).0.Some? {
        TrackedPortInRange(e.table, key, now);
        RewriteIsCorrect(p, Src, e.externalIp, Track(e.table, key, now).0.value);
      }
    }
  }

  /** Looking up or opening a flow changes the table exactly when the flow is used at a new time or gets a port. */
  lemma TrackChangesExactly(c: Table, key: Key, now: nat)
    requires PoolOk(c.pool)
    ensures var (port, c') := Track(c, key, now);
      && (c' != c <==> if key in c.forward then c.forward[key].lastSeen != now else |c.pool.inUse| < POOL_SIZE)
      && (c' != c ==> port.Some? && key in c'.forward && c'.forward[key].lastSeen == now)
  {
    if key in c.forward {
      if c.forward[key].lastSeen == now {
        assert c.forward[key := c.forward[key].(lastSeen := now)] == c.forward;
      }
    } else {
      FailsExactlyWhenFull(c.pool);
      PoolIsBounded(c.pool);
    }
  }

  /** A TCP packet of 44 bytes: its ports are there, its checksum field is not. */
  function ShortTcp(): Packet {
    [0x60, 0, 0, 4, 0, 0, 6, 64] + seq(36, _ => 0)
  }

  /** Sent to a fresh engine it is refused as too short, and its flow is open afterwards. */
  lemma ShortTcpOpensFlow(externalIp: Ipv6, node: NodeId, now: nat)
    ensures ParseFlow(ShortTcp()).Ok? && !Rewritable(ShortTcp())
    ensures EngineOk(Engine(externalIp, Empty()))
    ensures var t := Masqueraded(Engine(externalIp, Empty()), ShortTcp(), node, now);
      t.result.Err? && FlowKey(ParseFlow(ShortTcp()).value, node) in t.engine.table.forward
  {
    ShortTcpParses();
    RefusalOpensExactly(Engine(externalIp, Empty()), ShortTcp(), node, now);
  }

  lemma ShortTcpParses()
    ensures ParseFlow(ShortTcp()).Ok? && !Rewritable(ShortTcp())
  {
    var p := ShortTcp();
    assert |p| == 44 && p[0] == 0x60 && p[6] == PROTO_TCP;
  }

  /**
   A packet that goes out, in byte positions: source address and port, or echo identifier, are replaced by
   the external address and the port returned; the destination and all else but the checksum stay.
   */
  lemma OutboundBytes(e: Engine, p: Packet, node: NodeId, now: nat)
    requires EngineOk(e) && Masqueraded(e, p, node, now).result.Ok?
    ensures var t := Masqueraded(e, p, node, now);
      && |p| >= 48 && 30_000 <= t.result.value <= 59_999
      && HasSource(p, t.packet, e.externalIp, t.result.value) && HasValidChecksum(t.packet)
  {
    OutboundIsMasqueraded(e, p, node, now);
    SourceRewriteBytes(p, e.externalIp, Masqueraded(e, p, node, now).result.value);
  }

  /** Why a packet does not go out, error by error; only `ConntrackFull` and a failed parse leave it untouched. */
  lemma OutboundRefused(e: Engine, p: Packet, node: NodeId, now: nat)
    requires EngineOk(e)
    ensures var t := Masqueraded(e, p, node, now);
      && (ParseFlow(p).Err? ==> t == Translation(Err(ParseFlow(p).error), p, e))
      && (t.result == Err(ConntrackFull) <==>
            && ParseFlow(p).Ok? && FlowKey(ParseFlow(p).value, node) !in e.table.forward
            && |e.table.pool.inUse| == 30_000)
      && (t.result == Err(ConntrackFull) ==> t.packet == p && t.engine == e)
      && (ParseFlow(p).Ok? && t.result != Err(ConntrackFull) && !Rewritable(p) ==>
            t.result == Err(PacketTooShort(|p|)))
  {
    if ParseFlow(p).Ok? {
      var key := FlowKey(ParseFlow(p).value, node);
      FailsExactlyWhenFull(e.table.pool);
      if Track(e.table, key, now).0.Some? {
        TrackedPortInRange(e.table, key, now);
        RewriteIsCorrect(p, Src, e.externalIp, Track(e.table, key, now).0.value);
      }
    }
  }

  /**
   A packet that comes in, in byte positions: it is handed over exactly when it can be rewritten and the
   destination port, or echo identifier, is one in use for its protocol. Then its destination address and
   port become those of that flow; the source and all else but the checksum stay.
   */
  lemma InboundBytes(e: Engine, p: Packet, now: nat)
    requires EngineOk(e)
    ensures var t := Delivered(e, p, now);
      && (t.result.Ok? <==>
            && Rewritable(p)
            && var at := if p[6] == 58 then 44 else 42;
               (p[6] as nat, 0x100 * (p[at] as nat) + p[at+1] as nat) in e.table.reverse)
      && (t.result.Ok? ==>
            var at := if p[6] == 58 then 44 else 42;
            var key := e.table.reverse[(p[6] as nat, 0x100 * (p[at] as nat) + p[at+1] as nat)];
            && key.source.V6? && t.result.value == key.source.node
            && |p| >= 48 && HasDestination(p, t.packet, key.source.address6, key.port) && HasValidChecksum(t.packet))
  {
    if Rewritable(p) {
      RewritableBytes(p);
      InboundSlot(e, p, now, ReplySlot(p));
    } else {
      InboundFails(e, p, now);
    }
  }

  /** Protocol and destination port, or echo identifier, of an inbound packet. */
  function ReplySlot(p: Packet): (nat, nat)
    requires |p| >= 48
  {
    var at := if p[6] == 58 then 44 else 42;
    (p[6] as nat, 0x100 * (p[at] as nat) + p[at+1] as nat)
  }

  lemma InboundFails(e: Engine, p: Packet, now: nat)
    requires EngineOk(e) && !Rewritable(p)
    ensures Delivered(e, p, now).result.Err?
  {
    if NextHeader(p).Ok? && PortOf(p, NextHeader(p).value, Dst).Ok? {
      var proto, port := NextHeader(p).value, PortOf(p, NextHeader(p).value, Dst).value;
      if (proto as nat, port as nat) in e.table.reverse {
        InboundByKey(e, p, now, proto, port, e.table.reverse[(proto as nat, port as nat)]);
      }
    }
  }

  lemma InboundSlot(e: Engine, p: Packet, now: nat, slot: (nat, nat))
    requires EngineOk(e) && Rewritable(p) && |p| >= 48 && slot == ReplySlot(p)
    ensures var t := Delivered(e, p, now);
      && (t.result.Ok? <==> slot in e.table.reverse)
      && (t.result.Ok? ==>
            var key := e.table.reverse[slot];
            && key.source.V6? && t.result.value == key.source.node
            && HasDestination(p, t.packet, key.source.address6, key.port) && HasValidChecksum(t.packet))
  {
    SlotIsRead(p);
    if slot in e.table.reverse {
      var key := e.table.reverse[slot];
      InboundByKey(e, p, now, p[6], slot.1, key);
      DestinationRewriteBytes(p, key.source.address6, key.port);
    }
  }

  lemma SlotIsRead(p: Packet)
    requires Rewritable(p) && |p| >= 48
    ensures 0 <= ReplySlot(p).1 < 0x1_0000
    ensures NextHeader(p) == Ok(p[6]) && PortOf(p, p[6], Dst) == Ok(ReplySlot(p).1)
  {
    RewritableBytes(p);
    ReplyPortBytes(p);
  }

  lemma InboundByKey(e: Engine, p: Packet, now: nat, proto: byte, port: u16, key: Key)
    requires EngineOk(e) && NextHeader(p) == Ok(proto) && PortOf(p, proto, Dst) == Ok(port)
    requires (proto as nat, port as nat) in e.table.reverse && key == e.table.reverse[(proto as nat, port as nat)]
    ensures key.source.V6?
    ensures var t := Delivered(e, p, now);
      && (t.result.Ok? <==> Rewritable(p))
      && (t.result.Ok? ==> t.result.value == key.source.node
                           && t.packet == Rewritten(p, Dst, key.source.address6, key.port).packet)
  {
    assert SlotOk(e.table, (proto as nat, port as nat)) && EntryOk(e.table, key);
    RewriteIsCorrect(p, Dst, key.source.address6, key.port);
  }

  /** A packet to a port that is not in use for its protocol is refused by name and changes nothing. */
  lemma InboundUnknown(e: Engine, p: Packet, now: nat)
    requires EngineOk(e) && NextHeader(p).Ok? && PortOf(p, NextHeader(p).value, Dst).Ok?
    requires (NextHeader(p).value as nat, PortOf(p, NextHeader(p).value, Dst).value as nat) !in e.table.reverse
    ensures Delivered(e, p, now)
         == Translation(Err(NoConntrackEntry(NextHeader(p).value, PortOf(p, NextHeader(p).value, Dst).value)), p, e)
  {
  }

  // ---------------------------------------------------------------------
  // Runs of the IPv6 engine

  datatype Call =
    | OutboundCall(packet: Packet, node: NodeId, now: nat)
    | InboundCall(packet: Packet, now: nat)
    | CleanupCall(now: nat)

  /** What a call means to the connection table; a packet that cannot be parsed means nothing. */
  function Effect(call: Call): Event {
    match call
    case OutboundCall(p, node, now) =>
      if ParseFlow(p).Ok? then Outbound(FlowKey(ParseFlow(p).value, node), now) else Nothing
    case InboundCall(p, now) =>
      if NextHeader(p).Ok? && PortOf(p, NextHeader(p).value, Dst).Ok?
      then Inbound(NextHeader(p).value, PortOf(p, NextHeader(p).value, Dst).value, now) else Nothing
    case CleanupCall(now) => Sweep(now)
  }

  /** The engine after a call: its connection table has gone through the call's effect. */
  ghost function AfterCall(e: Engine, call: Call): Engine {
    e.(table := Step(e.table, PROTO_ICMPV6, Effect(call)))
  }

  /** That is what the three operations leave behind, whether they succeed or fail, and it is well formed. */
  lemma CallHasEffect(e: Engine, call: Call)
    requires EngineOk(e)
    ensures AfterCall(e, call) == match call
      case OutboundCall(p, node, now) => Masqueraded(e, p, node, now).engine
      case InboundCall(p, now) => Delivered(e, p, now).engine
      case CleanupCall(now) => Swept(e, now)
    ensures EngineOk(AfterCall(e, call))
  {
    match call
    case OutboundCall(p, node, now) => OutboundKeepsOk(e, p, node, now);
    case InboundCall(p, now) => InboundKeepsOk(e, p, now);
    case CleanupCall(now) => CleanupKeepsOk(e, now);
  }

  /** The engine after the first `k` calls. It is defined for every sequence of calls. */
  ghost function EngineAt(externalIp: Ipv6, calls: seq<Call>, k: nat): Engine
    requires k <= |calls|
  {
    if k == 0 then Engine(externalIp, Empty()) else AfterCall(EngineAt(externalIp, calls, k - 1), calls[k-1])
  }

  lemma {:induction false} EngineAtOk(externalIp: Ipv6, calls: seq<Call>, k: nat)
    requires k <= |calls|
    ensures EngineOk(EngineAt(externalIp, calls, k))
  {
    if k > 0 {
      EngineAtOk(externalIp, calls, k - 1);
      CallHasEffect(EngineAt(externalIp, calls, k - 1), calls[k-1]);
    }
  }

  function Effects(calls: seq<Call>): seq<Event> {
    seq(|calls|, i requires 0 <= i < |calls| => Effect(calls[i]))
  }

  /** The connection table of the engine goes through the history of the calls' effects. */
  lemma {:induction false} RunIsHistory(externalIp: Ipv6, calls: seq<Call>, k: nat)
    requires k <= |calls|
    ensures EngineAt(externalIp, calls, k).table == At(PROTO_ICMPV6, Effects(calls), k)
    ensures EngineAt(externalIp, calls, k).externalIp == externalIp
  {
    if k > 0 {
      RunIsHistory(externalIp, calls, k - 1);
    }
  }

  /** The connection table of the engine is a bijection of at most 30000 flows after any calls on any packets. */
  lemma EngineStaysBijective(externalIp: Ipv6, calls: seq<Call>, k: nat)
    requires k <= |calls|
    ensures var c := EngineAt(externalIp, calls, k).table;
      Bijective(c) && |c.forward| == |c.reverse| == |c.pool.inUse| <= 30000
  {
    RunIsHistory(externalIp, calls, k);
    BijectiveForever(PROTO_ICMPV6, Effects(calls), k);
  }

  /** Call `i` sent a packet of `flow` out through `port`. */
  ghost predicate SentThrough(externalIp: Ipv6, calls: seq<Call>, i: nat, flow: Flow, port: nat) {
    && i < |calls| && calls[i].OutboundCall? && ParseFlow(calls[i].packet) == Ok(flow)
    && (EngineAtOk(externalIp, calls, i);
        Masqueraded(EngineAt(externalIp, calls, i), calls[i].packet, calls[i].node, calls[i].now).result == Ok(port))
  }

  /** The flow's entry has not been expired between call `i` and state `j`. */
  ghost predicate NotExpired(externalIp: Ipv6, calls: seq<Call>, i: nat, j: nat, key: Key)
    requires j <= |calls|
  {
    forall m: nat :: i < m <= j ==> key in EngineAt(externalIp, calls, m).table.forward
  }

  lemma PortWasGiven(externalIp: Ipv6, calls: seq<Call>, i: nat, flow: Flow, port: nat)
    requires SentThrough(externalIp, calls, i, flow, port)
    ensures Opened(PROTO_ICMPV6, Effects(calls), i, FlowKey(flow, calls[i].node), port)
  {
    EngineAtOk(externalIp, calls, i);
    RunIsHistory(externalIp, calls, i);
  }

  lemma StillThere(externalIp: Ipv6, calls: seq<Call>, i: nat, j: nat, key: Key)
    requires j <= |calls|
    ensures NotExpired(externalIp, calls, i, j, key) <==> StillTracked(PROTO_ICMPV6, Effects(calls), i, j, key)
  {
    forall m: nat | i < m <= j
      ensures EngineAt(externalIp, calls, m).table == At(PROTO_ICMPV6, Effects(calls), m)
    {
      RunIsHistory(externalIp, calls, m);
    }
  }

  /** The port still resolves to the flow. */
  lemma ReplyResolves(externalIp: Ipv6, calls: seq<Call>, i: nat, j: nat, flow: Flow, port: nat, now: nat)
    requires SentThrough(externalIp, calls, i, flow, port) && i < j <= |calls|
    requires NotExpired(externalIp, calls, i, j, FlowKey(flow, calls[i].node))
    ensures Resolve(EngineAt(externalIp, calls, j).table, flow.proto, port, now).0
         == Some(Entry(port, now, V6(calls[i].node, flow.address), flow.port, flow.proto))
  {
    var key := FlowKey(flow, calls[i].node);
    PortWasGiven(externalIp, calls, i, flow, port);
    StillThere(externalIp, calls, i, j, key);
    RunIsHistory(externalIp, calls, j);
    ReplyFindsFlow(PROTO_ICMPV6, Effects(calls), i, j, key, port, now);
  }

  /** A rewritable packet whose port resolves to an entry is delivered to that entry's sender. */
  lemma DeliveredToEntry(e: Engine, reply: Packet, proto: byte, port: u16, entry: Entry, now: nat)
    requires EngineOk(e) && Resolve(e.table, proto, port, now).0 == Some(entry) && entry.source.V6?
    requires Rewritable(reply) && NextHeader(reply) == Ok(proto) && PortOf(reply, proto, Dst) == Ok(port)
    ensures var t := Delivered(e, reply, now);
      && t.result == Ok(entry.source.node)
      && |t.packet| == |reply|
      && AddressOf(t.packet, Dst) == entry.source.address6 && PortOf(t.packet, proto, Dst) == Ok(entry.port)
      && Verifies(Pseudo(t.packet, proto))
      && (forall b :: 0 <= b < |reply| && !Rewrites(proto, Dst, b) ==> t.packet[b] == reply[b])
  {
    RewriteIsCorrect(reply, Dst, entry.source.address6, entry.port);
  }

  /**
   Replies reach the sender. Once a packet of a flow has gone out through `port`, and as long as the
   flow has not expired, a rewritable packet of its protocol to that port is rewritten to the flow's
   original address and port with a valid checksum and attributed to the flow's node, whatever
   other calls happened in between.
   */
  lemma ReplyReachesSender(externalIp: Ipv6, calls: seq<Call>, i: nat, j: nat, flow: Flow, port: u16,
                           reply: Packet, now: nat)
    requires SentThrough(externalIp, calls, i, flow, port) && i < j <= |calls|
    requires NotExpired(externalIp, calls, i, j, FlowKey(flow, calls[i].node))
    requires Rewritable(reply) && NextHeader(reply) == Ok(flow.proto) && PortOf(reply, flow.proto, Dst) == Ok(port)
    ensures EngineOk(EngineAt(externalIp, calls, j))
    ensures var t := Delivered(EngineAt(externalIp, calls, j), reply, now);
      && t.result == Ok(calls[i].node)
      && |t.packet| == |reply|
      && AddressOf(t.packet, Dst) == flow.address && PortOf(t.packet, flow.proto, Dst) == Ok(flow.port)
      && Verifies(Pseudo(t.packet, flow.proto))
      && (forall b :: 0 <= b < |reply| && !Rewrites(flow.proto, Dst, b) ==> t.packet[b] == reply[b])
  {
    ReplyResolves(externalIp, calls, i, j, flow, port, now);
    EngineAtOk(externalIp, calls, j);
    var entry := Entry(port, now, V6(calls[i].node, flow.address), flow.port, flow.proto);
    DeliveredToEntry(EngineAt(externalIp, calls, j), reply, flow.proto, port, entry, now);
  }

  /** Where the port a packet is sent from, or its echo identifier, sits. */
  function SourcePort(p: Packet): seq<byte>
    requires |p| >= 48
  {
    if p[6] == 58 then p[44..46] else p[40..42]
  }

  /** Where the port a packet is sent to, or its echo identifier, sits. */
  function DestinationPort(p: Packet): seq<byte>
    requires |p| >= 48
  {
    if p[6] == 58 then p[44..46] else p[42..44]
  }

  /** The packet that call `i` sent out. */
  ghost function SentPacket(externalIp: Ipv6, calls: seq<Call>, i: nat): Packet
    requires i < |calls| && calls[i].OutboundCall?
  {
    EngineAtOk(externalIp, calls, i);
    Masqueraded(EngineAt(externalIp, calls, i), calls[i].packet, calls[i].node, calls[i].now).packet
  }

  lemma SamePortBytes(a: seq<byte>, b: seq<byte>)
    requires |a| == |b| == 2 && 0x100 * (a[0] as nat) + a[1] as nat == 0x100 * (b[0] as nat) + b[1] as nat
    ensures a == b
  {
  }

  /**
   There and back, in byte positions. A packet went out in call `i`, and its flow has not expired by state
   `j`. A reply of the same protocol to the port the packet left with is then handed to the node that sent
   the packet, addressed to the very address and port it was sent from.
   */
  lemma ReplyComesHome(externalIp: Ipv6, calls: seq<Call>, i: nat, j: nat, flow: Flow, port: u16,
                       reply: Packet, now: nat)
    requires SentThrough(externalIp, calls, i, flow, port) && i < j <= |calls|
    requires NotExpired(externalIp, calls, i, j, FlowKey(flow, calls[i].node)) && Rewritable(reply)
    requires |SentPacket(externalIp, calls, i)| >= 48 && |reply| >= 48 && reply[6] == calls[i].packet[6]
    requires DestinationPort(reply) == SourcePort(SentPacket(externalIp, calls, i))
    ensures EngineOk(EngineAt(externalIp, calls, j))
    ensures |calls[i].packet| >= 48
    ensures var p, t := calls[i].packet, Delivered(EngineAt(externalIp, calls, j), reply, now);
      && t.result == Ok(calls[i].node) && |t.packet| == |reply| && t.packet[6] == reply[6]
      && t.packet[24..40] == p[8..24] && DestinationPort(t.packet) == SourcePort(p)
      && t.packet[8..24] == reply[8..24] && HasValidChecksum(t.packet)
  {
    ReplyIsAddressed(externalIp, calls, i, flow, port, reply);
    ReplyReachesSender(externalIp, calls, i, j, flow, port, reply, now);
    HomeBytes(EngineAt(externalIp, calls, j), reply, flow, port, calls[i].node, now, calls[i].packet);
  }

  /** A reply to the port a packet left with carries the number of that port. */
  lemma ReplyIsAddressed(externalIp: Ipv6, calls: seq<Call>, i: nat, flow: Flow, port: u16, reply: Packet)
    requires SentThrough(externalIp, calls, i, flow, port) && Rewritable(reply)
    requires |SentPacket(externalIp, calls, i)| >= 48 && |reply| >= 48 && reply[6] == calls[i].packet[6]
    requires DestinationPort(reply) == SourcePort(SentPacket(externalIp, calls, i))
    ensures |calls[i].packet| >= 48 && ParseFlow(calls[i].packet) == Ok(flow)
    ensures NextHeader(reply) == Ok(flow.proto) && PortOf(reply, flow.proto, Dst) == Ok(port)
  {
    EngineAtOk(externalIp, calls, i);
    PortLeftWith(EngineAt(externalIp, calls, i), calls[i].packet, calls[i].node, calls[i].now, flow, port, reply);
  }

  lemma PortLeftWith(e: Engine, p: Packet, node: NodeId, now: nat, flow: Flow, port: u16, reply: Packet)
    requires EngineOk(e) && ParseFlow(p) == Ok(flow) && Masqueraded(e, p, node, now).result == Ok(port)
    requires |Masqueraded(e, p, node, now).packet| >= 48 && |reply| >= 48 && reply[6] == p[6] && Rewritable(reply)
    requires DestinationPort(reply) == SourcePort(Masqueraded(e, p, node, now).packet)
    ensures |p| >= 48 && NextHeader(reply) == Ok(flow.proto) && PortOf(reply, flow.proto, Dst) == Ok(port)
  {
    OutboundBytes(e, p, node, now);
    PortRead(p, Masqueraded(e, p, node, now).packet, reply, e.externalIp, port);
    FlowBytes(p);
  }

  lemma PortRead(p: Packet, out: Packet, reply: Packet, address: Ipv6, port: u16)
    requires |p| >= 48 && |reply| >= 48 && |out| >= 48 && HasSource(p, out, address, port)
    requires reply[6] == p[6] && Rewritable(reply) && DestinationPort(reply) == SourcePort(out)
    ensures NextHeader(reply) == Ok(p[6]) && PortOf(reply, p[6], Dst) == Ok(port)
  {
    assert out[6] == p[6];
    assert DestinationPort(reply)[0] == SourcePort(out)[0] && DestinationPort(reply)[1] == SourcePort(out)[1];
    ReplyPortBytes(reply);
    RewritableBytes(reply);
  }

  /** The byte positions of a reply that was delivered to `flow`, the flow of `p`. */
  lemma HomeBytes(e: Engine, reply: Packet, flow: Flow, port: u16, node: NodeId, now: nat, p: Packet)
    requires EngineOk(e) && Rewritable(reply) && |reply| >= 48 && |p| >= 48 && ParseFlow(p) == Ok(flow)
    requires Delivered(e, reply, now).result == Ok(node) && reply[6] == p[6]
    requires |Delivered(e, reply, now).packet| == |reply|
    requires AddressOf(Delivered(e, reply, now).packet, Dst) == flow.address
    requires PortOf(Delivered(e, reply, now).packet, flow.proto, Dst) == Ok(flow.port)
    ensures var q := Delivered(e, reply, now).packet;
      && q[6] == reply[6] && q[24..40] == p[8..24] && DestinationPort(q) == SourcePort(p)
      && q[8..24] == reply[8..24] && HasValidChecksum(q)
  {
    InboundBytes(e, reply, now);
    FlowBytes(p);
    var q := Delivered(e, reply, now).packet;
    assert q[6] == reply[6];
    ReplyPortBytes(q);
    SamePortBytes(DestinationPort(q), SourcePort(p));
  }

  /** The first flow of a fresh engine leaves through port 30000. */
  lemma FirstFlowGets30000(externalIp: Ipv6, p: Packet, node: NodeId, now: nat)
    requires Rewritable(p)
    ensures EngineOk(Engine(externalIp, Empty())) && |p| >= 48
    ensures var t := Masqueraded(Engine(externalIp, Empty()), p, node, now);
      t.result == Ok(30_000) && |t.packet| == |p| && SourcePort(t.packet) == [0x75, 0x30]
  {
    var e := Engine(externalIp, Empty());
    PortsInLiteralRange(Pool(30_000, {}));
    OutboundIsMasqueraded(e, p, node, now);
    OutboundBytes(e, p, node, now);
    var q := Masqueraded(e, p, node, now).packet;
    assert q[6] == p[6];
    SamePortBytes(SourcePort(q), [0x75, 0x30]);
  }

  /** Call `m` carries no packet of the flow, in either direction. */
  predicate NotOf(call: Call, key: Key, port: nat) {
    match call
    case OutboundCall(p, node, _) => ParseFlow(p).Err? || FlowKey(ParseFlow(p).value, node) != key
    case InboundCall(p, _) =>
      NextHeader(p).Err? || NextHeader(p).value != key.proto || PortOf(p, key.proto, Dst).Err?
      || PortOf(p, key.proto, Dst).value != port
    case CleanupCall(_) => true
  }

  lemma NoUse(calls: seq<Call>, m: nat, key: Key, port: nat)
    requires m < |calls| && NotOf(calls[m], key, port)
    ensures !Uses(Effects(calls), m, key, port)
  {
  }

  /**
   A flow without a packet in either direction for more than 300 seconds (TCP), 30 seconds (UDP) or 10
   seconds (echo packets) is gone after the next cleanup.
   */
  lemma EngineForgetsIdleFlow(externalIp: Ipv6, calls: seq<Call>, i: nat, j: nat, flow: Flow, port: nat)
    requires SentThrough(externalIp, calls, i, flow, port) && i < j < |calls| && calls[j].CleanupCall?
    requires forall m :: i < m < j ==> NotOf(calls[m], FlowKey(flow, calls[i].node), port)
    requires calls[j].now - calls[i].now
           > if flow.proto == 6 then 300_000_000_000 else if flow.proto == 17 then 30_000_000_000 else 10_000_000_000
    ensures FlowKey(flow, calls[i].node) !in EngineAt(externalIp, calls, j + 1).table.forward
  {
    FlowProtocols(calls[i].packet, flow);
    IdleCalls(externalIp, calls, i, j, flow, port);
  }

  lemma FlowProtocols(p: Packet, flow: Flow)
    requires ParseFlow(p) == Ok(flow)
    ensures flow.proto == 6 || flow.proto == 17 || flow.proto == 58
  {
    FlowBytes(p);
  }

  lemma IdleCalls(externalIp: Ipv6, calls: seq<Call>, i: nat, j: nat, flow: Flow, port: nat)
    requires SentThrough(externalIp, calls, i, flow, port) && i < j < |calls| && calls[j].CleanupCall?
    requires forall m :: i < m < j ==> NotOf(calls[m], FlowKey(flow, calls[i].node), port)
    requires calls[j].now - calls[i].now > IdleLimit(flow.proto, 58)
    ensures FlowKey(flow, calls[i].node) !in EngineAt(externalIp, calls, j + 1).table.forward
  {
    PortWasGiven(externalIp, calls, i, flow, port);
    IdleEffects(calls, i, j, FlowKey(flow, calls[i].node), port);
    RunIsHistory(externalIp, calls, j + 1);
  }

  lemma IdleEffects(calls: seq<Call>, i: nat, j: nat, key: Key, port: nat)
    requires Opened(PROTO_ICMPV6, Effects(calls), i, key, port) && i < j < |calls| && calls[j].CleanupCall?
    requires forall m :: i < m < j ==> NotOf(calls[m], key, port)
    requires calls[j].now - calls[i].now > IdleLimit(key.proto, 58)
    ensures key !in At(PROTO_ICMPV6, Effects(calls), j + 1).forward
  {
    forall m | i < m < j ensures !Uses(Effects(calls), m, key, port) { NoUse(calls, m, key, port); }
    assert Effects(calls)[i] == Effect(calls[i]) && Effects(calls)[j] == Sweep(calls[j].now);
    QuietFlowIsGone(PROTO_ICMPV6, Effects(calls), i, j, key, port);
  }

  /** Over IPv4 and IPv6 alike, what one cleanup removes: entry, reverse entry and port, by the idle time. */
  lemma CleanupRemovesExactly(c: Table, now: nat, key: Key, echo: nat)
    requires Bijective(c) && key in c.forward && echo in {1, 58}
    ensures PROTO_ICMP == 1 && PROTO_ICMPV6 == 58
    ensures var c', e := Cleanup(c, echo, now), c.forward[key];
      && (key in c'.forward <==>
            now - e.lastSeen <= if key.proto == 6 then 300_000_000_000 else if key.proto == 17 then 30_000_000_000
                                else if key.proto as nat == echo then 10_000_000_000 else 30_000_000_000)
      && (key in c'.forward ==> c'.forward[key] == e)
      && (key !in c'.forward ==> e.extPort !in c'.pool.inUse && (key.proto as nat, e.extPort) !in c'.reverse)
  {
    SweepForgetsExactly(c, echo, now, key);
  }

  /** Between call `i` and state `j` time does not run backwards and no sweep comes later than the idle timeout. */
  predicate SweptInTime(calls: seq<Call>, i: nat, j: nat, proto: nat) {
    && i < |calls| && j <= |calls|
    && forall m :: i < m < j ==>
         && calls[i].now <= calls[m].now
         && (calls[m].CleanupCall? ==> calls[m].now <= calls[i].now + IdleTimeout(proto, PROTO_ICMPV6))
  }

  lemma SweepsAreTimely(calls: seq<Call>, i: nat, j: nat, proto: nat, m: nat)
    requires SweptInTime(calls, i, j, proto) && i < m < j
    ensures Timely(Effects(calls)[m], calls[i].now, IdleTimeout(proto, PROTO_ICMPV6))
  {
  }

  /** A flow has not expired while every sweep comes within its idle timeout of its last outbound packet. */
  lemma FlowSurvivesTimelySweeps(externalIp: Ipv6, calls: seq<Call>, i: nat, j: nat, flow: Flow, port: nat)
    requires SentThrough(externalIp, calls, i, flow, port) && i < j && SweptInTime(calls, i, j, flow.proto)
    ensures NotExpired(externalIp, calls, i, j, FlowKey(flow, calls[i].node))
  {
    var key := FlowKey(flow, calls[i].node);
    PortWasGiven(externalIp, calls, i, flow, port);
    forall m: nat | i < m <= j ensures key in At(PROTO_ICMPV6, Effects(calls), m).forward {
      forall l | i < l < m
        ensures Timely(Effects(calls)[l], calls[i].now, IdleTimeout(key.proto, PROTO_ICMPV6))
      {
        SweepsAreTimely(calls, i, j, flow.proto, l);
      }
      TimelySweepsKeepFlow(PROTO_ICMPV6, Effects(calls), i, m, key, port);
    }
    StillThere(externalIp, calls, i, j, key);
  }

  // ---------------------------------------------------------------------
  // The engines as objects

  /** Forgetting flows one at a time or all together makes no difference. */
  lemma ForgetOneMore(c: Table, keys: set<Key>, k: Key)
    ensures Forget(Forget(c, keys), {k}) == Forget(c, keys + {k})
  {
    var c1 := Forget(c, keys);
    assert c1.forward - {k} == c.forward - (keys + {k});
    assert Slots(c, keys + {k}) == Slots(c, keys) + Slots(c1, {k});
    assert Ports(c, keys + {k}) == Ports(c, keys) + Ports(c1, {k});
    assert c1.reverse - Slots(c1, {k}) == c.reverse - Slots(c, keys + {k});
    assert c1.pool.inUse - Ports(c1, {k}) == c.pool.inUse - Ports(c, keys + {k});
  }

  lemma ForgetSingle(c: Table, k: Key)
    requires k in c.forward
    ensures var e := c.forward[k];
      Forget(c, {k}) == Table(c.forward - {k}, c.reverse - {(e.proto as nat, e.extPort)}, Released(c.pool, e.extPort))
  {
    assert Slots(c, {k}) == {(c.forward[k].proto as nat, c.forward[k].extPort)};
    assert Ports(c, {k}) == {c.forward[k].extPort};
  }

  lemma ForgetNone(c: Table)
    ensures Forget(c, {}) == c
  {
    assert Slots(c, {}) == {} && Ports(c, {}) == {};
    assert c.forward - {} == c.forward && c.reverse - {} == c.reverse;
  }

  /** The IPv4 engine, from the parsed flow on. */
  class GatewayEngine {
    var forward: map<Key, Entry>
    var reverse: map<(nat, nat), Key>
    const ports: PortPoolV4

    function Model(): (c: Table)
      reads this, ports
    {
      Table(forward, reverse, ports.Model())
    }

    constructor ()
      ensures fresh(ports) && Model() == Empty() && Bijective(Model())
    {
      forward, reverse := map[], map[];
      ports := new PortPoolV4();
    }

    method TrackOutbound(key: Key, now: nat) returns (result: Option<nat>)
      requires Bijective(Model())
      modifies this, ports
      ensures (result, Model()) == Track(old(Model()), key, now) && Bijective(Model())
    {
      TrackKeepsBijective(Model(), key, now);
      result := FindOrOpen(key, now);
    }

    /** The maps' part of an outbound call. */
    method FindOrOpen(key: Key, now: nat) returns (result: Option<nat>)
      requires PoolOk(ports.Model())
      modifies this, ports
      ensures (result, Model()) == Track(old(Model()), key, now)
    {
      if key in forward {
        forward := forward[key := forward[key].(lastSeen := now)];
        return Some(forward[key].extPort);
      }
      result := ports.Allocate();
      if result.Some? {
        reverse := reverse[(key.proto as nat, result.value) := key];
        forward := forward[key := Entry(result.value, now, key.source, key.port, key.proto)];
      }
    }

    method ResolveInbound(proto: byte, port: u16, now: nat) returns (result: Option<Entry>)
      requires Bijective(Model())
      modifies this
      ensures (result, Model()) == Resolve(old(Model()), proto, port, now) && Bijective(Model())
    {
      ResolveKeepsBijective(Model(), proto, port, now);
      if (proto as nat, port as nat) !in reverse {
        return None;
      }
      var key := reverse[(proto as nat, port as nat)];
      if key !in forward {
        return None;
      }
      forward := forward[key := forward[key].(lastSeen := now)];
      return Some(forward[key]);
    }

    /** Drop one flow from both maps and return its port. */
    method RemoveFlow(key: Key)
      requires key in forward
      modifies this, ports
      ensures Model() == Forget(old(Model()), {key})
    {
      ForgetSingle(Model(), key);
      var entry := forward[key];
      forward := forward - {key};
      reverse := reverse - {(entry.proto as nat, entry.extPort)};
      ports.Release(entry.extPort);
    }

    method RemoveFlows(keys: set<Key>)
      requires keys <= forward.Keys
      modifies this, ports
      ensures Model() == Forget(old(Model()), keys)
    {
      ghost var start := Model();
      ForgetNone(start);
      var remaining := keys;
      while remaining != {}
        invariant remaining <= keys && Model() == Forget(start, keys - remaining)
        decreases remaining
      {
        var key :| key in remaining;
        ForgetOneMore(start, keys - remaining, key);
        assert keys - remaining + {key} == keys - (remaining - {key});
        RemoveFlow(key);
        remaining := remaining - {key};
      }
      assert keys - {} == keys;
    }

    method CleanupExpired(now: nat)
      requires Bijective(Model())
      modifies this, ports
      ensures Model() == Cleanup(old(Model()), PROTO_ICMP, now) && Bijective(Model())
    {
      CleanupKeepsBijective(Model(), PROTO_ICMP, now);
      var expired := set k | k in forward && Expired(forward[k], PROTO_ICMP, now);
      assert expired == ExpiredKeys(Model(), PROTO_ICMP, now);
      RemoveFlows(expired);
    }
  }

  /** The IPv6 engine, on packet bytes. */
  class GatewayEngineV6 {
    const externalIp: Ipv6
    var forward: map<Key, Entry>
    var reverse: map<(nat, nat), Key>
    const ports: PortPoolV6

    function Model(): (e: Engine)
      reads this, ports
    {
      Engine(externalIp, Table(forward, reverse, ports.Model()))
    }

    constructor (externalIp: Ipv6)
      ensures fresh(ports) && Model() == Engine(externalIp, Empty()) && EngineOk(Model())
    {
      this.externalIp := externalIp;
      forward, reverse := map[], map[];
      ports := new PortPoolV6();
    }

    method TrackOutbound(key: Key, now: nat) returns (result: Option<nat>)
      requires PoolOk(ports.Model())
      modifies this, ports
      ensures (result, Model().table) == Track(old(Model()).table, key, now)
    {
      if key in forward {
        forward := forward[key := forward[key].(lastSeen := now)];
        return Some(forward[key].extPort);
      }
      result := ports.Allocate();
      if result.Some? {
        reverse := reverse[(key.proto as nat, result.value) := key];
        forward := forward[key := Entry(result.value, now, key.source, key.port, key.proto)];
      }
    }

    method TranslateOutbound(packet: array<byte>, node: NodeId, now: nat) returns (result: Result<nat, Error>)
      requires EngineOk(Model()) && packet.Length <= 131074
      modifies this, ports, packet
      ensures Translation(result, packet[..], Model()) == Masqueraded(old(Model()), old(packet[..]), node, now)
      ensures EngineOk(Model())
    {
      OutboundKeepsOk(Model(), packet[..], node, now);
      var parsed := ParseFlow(packet[..]);
      if parsed.Err? {
        return Err(parsed.error);
      }
      var flow := parsed.value;
      var key := Key(flow.proto, V6(node, flow.address), flow.port);
      var extPort := TrackOutbound(key, now);
      if extPort.None? {
        return Err(ConntrackFull);
      }
      TrackedPortInRange(old(Model()).table, key, now);
      var error := RewriteInPlace(packet, Src, externalIp, extPort.value);
      if error.Some? {
        return Err(error.value);
      }
      return Ok(extPort.value);
    }

    method TranslateInbound(packet: array<byte>, now: nat) returns (result: Result<NodeId, Error>)
      requires EngineOk(Model()) && packet.Length <= 131074
      modifies this, packet
      ensures Translation(result, packet[..], Model()) == Delivered(old(Model()), old(packet[..]), now)
      ensures EngineOk(Model())
    {
      InboundKeepsOk(Model(), packet[..], now);
      var header := NextHeader(packet[..]);
      if header.Err? {
        return Err(header.error);
      }
      var proto := header.value;
      var dstPort := PortOf(packet[..], proto, Dst);
      if dstPort.Err? {
        return Err(dstPort.error);
      }
      var slot := (proto as nat, dstPort.value as nat);
      if slot !in reverse || reverse[slot] !in forward {
        return Err(NoConntrackEntry(proto, dstPort.value));
      }
      var key := reverse[slot];
      assert EntryOk(Model().table, key);
      forward := forward[key := forward[key].(lastSeen := now)];
      var entry := forward[key];
      var error := RewriteInPlace(packet, Dst, entry.source.address6, entry.port);
      if error.Some? {
        return Err(error.value);
      }
      return Ok(entry.source.node);
    }

    /** Drop one flow from both maps and return its port. */
    method RemoveFlow(key: Key)
      requires key in forward
      modifies this, ports
      ensures Model().table == Forget(old(Model().table), {key})
    {
      ForgetSingle(Model().table, key);
      var entry := forward[key];
      forward := forward - {key};
      reverse := reverse - {(entry.proto as nat, entry.extPort)};
      ports.Release(entry.extPort);
    }

    method RemoveFlows(keys: set<Key>)
      requires keys <= forward.Keys
      modifies this, ports
      ensures Model().table == Forget(old(Model().table), keys)
    {
      ghost var start := Model().table;
      ForgetNone(start);
      var remaining := keys;
      while remaining != {}
        invariant remaining <= keys && Model().table == Forget(start, keys - remaining)
        decreases remaining
      {
        var key :| key in remaining;
        ForgetOneMore(start, keys - remaining, key);
        assert keys - remaining + {key} == keys - (remaining - {key});
        RemoveFlow(key);
        remaining := remaining - {key};
      }
      assert keys - {} == keys;
    }

    method CleanupExpired(now: nat)
      requires EngineOk(Model())
      modifies this, ports
      ensures Model() == Swept(old(Model()), now) && EngineOk(Model())
    {
      CleanupKeepsOk(Model(), now);
      var expired := set k | k in forward && Expired(forward[k], PROTO_ICMPV6, now);
      assert expired == ExpiredKeys(Model().table, PROTO_ICMPV6, now);
      RemoveFlows(expired);
    }
  }
}
