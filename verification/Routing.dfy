/**
 The distance-vector routing table of one node as a value, the operations the
 daemon performs on it as functions, and the invariant every operation keeps.
 */
module Routing {
  import opened Wrappers

  // Node identifiers, mesh addresses and address prefixes are only compared.
  type NodeId(==, !new)
  type Addr(==, !new)
  type Prefix(==, !new)

  /** Hop count that means "unreachable". */
  const INFINITY: nat := 16

  /** One installed route. */
  datatype Route = Route(
    nextHop: NodeId,
    hops: nat,
    isGateway: bool,
    lastSeen: nat,
    learnedFrom: NodeId,
    sequence: nat,
    gatewayLoad: nat,
    rttMs: Option<nat>,
    meshIp: Option<Addr>)

  /** One line of an advertisement; an unspecified mesh address is `None`. */
  datatype Entry = Entry(destination: NodeId, hops: nat, isGateway: bool, meshIp: Option<Addr>)

  datatype Frame = Frame(originId: NodeId, sequence: nat, entries: seq<Entry>)

  datatype UpdateResult = Changed | Unchanged

  datatype Table = Table(
    selfId: NodeId,
    isGateway: bool,
    derive: (NodeId, Prefix) -> Addr,
    routes: map<NodeId, Route>,
    directPeers: set<NodeId>,
    sequence: nat,
    peerMaxSeq: map<NodeId, nat>,
    blacklisted: set<NodeId>,
    selfMeshIp: Option<Addr>,
    meshIpIndex: map<Addr, NodeId>,
    prefix: Prefix,
    collisions: nat)

  // ---------------------------------------------------------------------
  // Operations

  function New(selfId: NodeId, isGateway: bool, derive: (NodeId, Prefix) -> Addr, prefix: Prefix): Table {
    Table(selfId, isGateway, derive, map[], {}, 0, map[], {}, None, map[], prefix, 0)
  }

  /** The index after the address stored for `dst` has been superseded by `derived`. */
  function IndexWithoutOld(t: Table, dst: NodeId, derived: Addr): map<Addr, NodeId> {
    if dst in t.routes && t.routes[dst].meshIp.Some? && t.routes[dst].meshIp != Some(derived)
    then t.meshIpIndex - {t.routes[dst].meshIp.value}
    else t.meshIpIndex
  }

  /** Install `route`; the first node to claim an address keeps it in the index. */
  function InsertRoute(t: Table, dst: NodeId, route: Route): Table {
    var derived := t.derive(dst, t.prefix);
    var index := IndexWithoutOld(t, dst, derived);
    var collides := derived in index && index[derived] != dst;
    t.(routes := t.routes[dst := route.(meshIp := Some(derived))],
       meshIpIndex := if collides then index else index[derived := dst],
       collisions := if collides then t.collisions + 1 else t.collisions)
  }

  /** True when the index entry `ip` belongs to an installed route of a member of `dsts`. */
  predicate OwnedBy(t: Table, ip: Addr, dsts: set<NodeId>)
    requires ip in t.meshIpIndex
  {
    var d := t.meshIpIndex[ip];
    d in dsts && d in t.routes && t.routes[d].meshIp == Some(ip)
  }

  /** Remove the routes to all of `dsts` together with the index entries they own. */
  function RemoveRoutes(t: Table, dsts: set<NodeId>): Table {
    t.(routes := t.routes - dsts,
       meshIpIndex := map ip | ip in t.meshIpIndex && !OwnedBy(t, ip, dsts) :: t.meshIpIndex[ip])
  }

  function DirectRoute(peer: NodeId, sequence: nat, now: nat): Route {
    Route(peer, 1, false, now, peer, sequence, 0, None, None)
  }

  function AddPeer(t: Table, peer: NodeId, now: nat): Table {
    InsertRoute(t.(directPeers := t.directPeers + {peer}), peer, DirectRoute(peer, 0, now))
  }

  function Via(t: Table, peer: NodeId): set<NodeId> {
    set d | d in t.routes && t.routes[d].nextHop == peer
  }

  function RemoveRoutesVia(t: Table, peer: NodeId): Table {
    RemoveRoutes(t, Via(t, peer))
  }

  function RemovePeer(t: Table, peer: NodeId): Table {
    RemoveRoutesVia(t.(directPeers := t.directPeers - {peer}, peerMaxSeq := t.peerMaxSeq - {peer}), peer)
  }

  function BlacklistPeer(t: Table, peer: NodeId): Table {
    RemoveRoutesVia(t.(blacklisted := t.blacklisted + {peer}), peer)
  }

  function Stale(t: Table, maxAge: nat, now: nat): set<NodeId> {
    set d | d in t.routes && now - t.routes[d].lastSeen > maxAge
  }

  function ExpireStale(t: Table, maxAge: nat, now: nat): Table {
    RemoveRoutes(t, Stale(t, maxAge, now))
  }

  /** Highest sequence number accepted from `peer`, 0 when none was. */
  function MaxSeq(t: Table, peer: NodeId): nat {
    if peer in t.peerMaxSeq then t.peerMaxSeq[peer] else 0
  }

  /** Origin and replay checks: only frames passing both are recorded. */
  predicate Fresh(t: Table, update: Frame, from: NodeId) {
    update.originId == from && update.sequence > MaxSeq(t, from)
  }

  /** A claim of zero hops to a node other than the sender. */
  predicate Suspicious(update: Frame) {
    exists i :: 0 <= i < |update.entries|
      && update.entries[i].hops == 0 && update.entries[i].destination != update.originId
  }

  predicate Accepted(t: Table, update: Frame, from: NodeId) {
    Fresh(t, update, from) && !Suspicious(update)
  }

  /** Refresh the sender's own route, or install it at one hop. */
  function TouchSender(t: Table, from: NodeId, sequence: nat, now: nat): Table {
    if from in t.routes
    then t.(routes := t.routes[from := t.routes[from].(lastSeen := now)])
    else InsertRoute(t, from, DirectRoute(from, sequence, now))
  }

  /** Hop count of a path through a peer that advertises `hops`, capped at infinity. */
  function ThroughPeer(hops: nat): nat {
    Min(hops + 1, INFINITY)
  }

  /** Whether the advertised line replaces the installed route. */
  predicate Replaces(cur: Option<Route>, e: Entry, from: NodeId, sequence: nat) {
    cur.None?
    || ThroughPeer(e.hops) < cur.value.hops
    || (sequence > cur.value.sequence && cur.value.nextHop == from)
  }

  /** The route installed for an advertised line. Load and latency survive a refresh of a gateway. */
  function Replacement(cur: Option<Route>, e: Entry, from: NodeId, sequence: nat, now: nat): Route {
    var keep := cur.Some? && cur.value.isGateway && ThroughPeer(e.hops) >= cur.value.hops;
    Route(from, ThroughPeer(e.hops), e.isGateway, now, from, sequence,
          if keep then cur.value.gatewayLoad else 0,
          if keep then cur.value.rttMs else None, None)
  }

  /** One pass of the relaxation loop. */
  function ApplyEntry(t: Table, e: Entry, from: NodeId, sequence: nat, now: nat): Table {
    var dst := e.destination;
    var cur := Get(t.routes, dst);
    if dst == t.selfId then t
    else if ThroughPeer(e.hops) >= INFINITY then
      if cur.Some? && cur.value.nextHop == from then RemoveRoutes(t, {dst}) else t
    else if Replaces(cur, e, from, sequence) then
      InsertRoute(t, dst, Replacement(cur, e, from, sequence, now))
    else t
  }

  /** Whether that pass asks for a triggered update. */
  predicate EntryChanges(t: Table, e: Entry, from: NodeId, sequence: nat) {
    var cur := Get(t.routes, e.destination);
    && e.destination != t.selfId
    && if ThroughPeer(e.hops) >= INFINITY then cur.Some? && cur.value.nextHop == from
       else
         && Replaces(cur, e, from, sequence)
         && (cur.None? || ThroughPeer(e.hops) < cur.value.hops || cur.value.isGateway != e.isGateway)
  }

  /** The relaxation loop over the advertised lines, in order. */
  function ApplyEntries(t: Table, entries: seq<Entry>, from: NodeId, sequence: nat, now: nat): Table {
    if entries == [] then t
    else ApplyEntry(ApplyEntries(t, entries[..|entries|-1], from, sequence, now),
                    entries[|entries|-1], from, sequence, now)
  }

  predicate EntriesChange(t: Table, entries: seq<Entry>, from: NodeId, sequence: nat, now: nat) {
    entries != [] &&
    (|| EntriesChange(t, entries[..|entries|-1], from, sequence, now)
     || EntryChanges(ApplyEntries(t, entries[..|entries|-1], from, sequence, now),
                     entries[|entries|-1], from, sequence))
  }

  predicate Lists(entries: seq<Entry>, d: NodeId) {
    exists i :: 0 <= i < |entries| && entries[i].destination == d
  }

  /** Routes learned from the sender that its full update no longer lists. */
  function Withdrawn(t: Table, entries: seq<Entry>, from: NodeId): set<NodeId> {
    set d | d in t.routes && t.routes[d].learnedFrom == from && d != from && !Lists(entries, d)
  }

  /** The table just before the relaxation loop of an accepted update. */
  function BeforeEntries(t: Table, update: Frame, from: NodeId, now: nat): Table {
    TouchSender(t.(peerMaxSeq := t.peerMaxSeq[from := update.sequence]), from, update.sequence, now)
  }

  /** The table just after the relaxation loop of an accepted update. */
  function AfterEntries(t: Table, update: Frame, from: NodeId, now: nat): Table {
    ApplyEntries(BeforeEntries(t, update, from, now), update.entries, from, update.sequence, now)
  }

  function ApplyUpdate(t: Table, update: Frame, from: NodeId, now: nat): Table {
    if !Fresh(t, update, from) then t
    else if Suspicious(update) then t.(peerMaxSeq := t.peerMaxSeq[from := update.sequence])
    else
      var relaxed := AfterEntries(t, update, from, now);
      RemoveRoutes(relaxed, Withdrawn(relaxed, update.entries, from))
  }

  function ApplyUpdateResult(t: Table, update: Frame, from: NodeId, now: nat): UpdateResult {
    if Accepted(t, update, from) &&
       (|| from !in t.routes
        || EntriesChange(BeforeEntries(t, update, from, now), update.entries, from, update.sequence, now)
        || Withdrawn(AfterEntries(t, update, from, now), update.entries, from) != {})
    then Changed else Unchanged
  }

  /** Split horizon with poison reverse: what `t` tells `to` about its route to `d`. */
  function Advertised(t: Table, to: NodeId, d: NodeId): Entry
    requires d in t.routes
  {
    var r := t.routes[d];
    Entry(d, if r.learnedFrom == to then INFINITY else r.hops, r.isGateway, r.meshIp)
  }

  predicate Distinct(entries: seq<Entry>) {
    forall i, j :: 0 <= i < j < |entries| ==> entries[i].destination != entries[j].destination
  }

  /**
   `f` is an advertisement `t` may generate for `to`: the node itself first, then
   every other route except the one to `to`, once each, in any order.
   */
  ghost predicate Advertisement(t: Table, to: NodeId, f: Frame) {
    && f.originId == t.selfId
    && f.sequence == t.sequence + 1
    && Distinct(f.entries)
    && |f.entries| > 0
    && f.entries[0] == Entry(t.selfId, 0, t.isGateway, t.selfMeshIp)
    && (forall i :: 1 <= i < |f.entries| ==>
          && f.entries[i].destination in t.routes
          && f.entries[i].destination != to
          && f.entries[i] == Advertised(t, to, f.entries[i].destination))
    && (forall d :: d in t.routes && d != to ==> Lists(f.entries, d))
  }

  function Lookup(t: Table, dst: NodeId): Option<NodeId> {
    if dst != t.selfId && dst in t.routes && t.routes[dst].nextHop !in t.blacklisted
    then Some(t.routes[dst].nextHop) else None
  }

  function LookupMeshIp(t: Table, ip: Addr): Option<(NodeId, NodeId)> {
    if ip in t.meshIpIndex && t.meshIpIndex[ip] in t.routes
       && t.routes[t.meshIpIndex[ip]].nextHop !in t.blacklisted
    then Some((t.meshIpIndex[ip], t.routes[t.meshIpIndex[ip]].nextHop)) else None
  }

  // ---------------------------------------------------------------------
  // Invariant

  /** What holds of every installed route. */
  predicate RouteOk(t: Table, d: NodeId)
    requires d in t.routes
  {
    var r := t.routes[d];
    && d != t.selfId
    && 1 <= r.hops < INFINITY
    && r.learnedFrom == r.nextHop
    && r.nextHop != t.selfId
    && r.sequence <= MaxSeq(t, r.nextHop)
    && (r.hops == 1 ==> r.nextHop == d)
  }

  predicate RoutesOk(t: Table) {
    forall d :: d in t.routes ==> RouteOk(t, d)
  }

  /** Every index entry points at a live route whose stored address is that key. */
  predicate IndexSound(t: Table) {
    forall ip :: ip in t.meshIpIndex ==>
      t.meshIpIndex[ip] in t.routes && t.routes[t.meshIpIndex[ip]].meshIp == Some(ip)
  }

  predicate Valid(t: Table) {
    RoutesOk(t) && IndexSound(t)
  }
}
