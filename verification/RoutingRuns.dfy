/**
 Whole histories of one routing table: any sequence of the calls the daemon makes,
 in any order, with any arguments. Shows the invariant in every reachable state and
 when the mesh-address index is a faithful inverse of the stored addresses.
 */
module RoutingRuns {
  import opened Wrappers
  import opened Routing
  import opened RoutingProperties

  datatype Op =
    | OpAddPeer(peer: NodeId, now: nat)
    | OpRemovePeer(peer: NodeId)
    | OpUpdate(update: Frame, from: NodeId, now: nat)
    | OpGenerate
    | OpExpire(maxAge: nat, now: nat)
    | OpBlacklist(peer: NodeId)
    | OpUnblacklist(peer: NodeId)
    | OpSetPrefix(prefix: Prefix)
    | OpSetSelfMeshIp(ip: Addr)
    | OpGatewayLoad(gateway: NodeId, load: nat)
    | OpGatewayRtt(gateway: NodeId, rtt: nat)

  function UpdateGatewayLoad(t: Table, gateway: NodeId, load: nat): Table {
    if gateway in t.routes && t.routes[gateway].isGateway
    then t.(routes := t.routes[gateway := t.routes[gateway].(gatewayLoad := load)])
    else t
  }

  function UpdateGatewayRtt(t: Table, gateway: NodeId, rtt: nat): Table {
    if gateway in t.routes && t.routes[gateway].isGateway
    then t.(routes := t.routes[gateway := t.routes[gateway].(rttMs := Some(rtt))])
    else t
  }

  function Perform(t: Table, op: Op): Table {
    match op
    case OpAddPeer(peer, now) => AddPeer(t, peer, now)
    case OpRemovePeer(peer) => RemovePeer(t, peer)
    case OpUpdate(update, from, now) => ApplyUpdate(t, update, from, now)
    case OpGenerate => t.(sequence := t.sequence + 1)
    case OpExpire(maxAge, now) => ExpireStale(t, maxAge, now)
    case OpBlacklist(peer) => BlacklistPeer(t, peer)
    case OpUnblacklist(peer) => t.(blacklisted := t.blacklisted - {peer})
    case OpSetPrefix(prefix) => t.(prefix := prefix)
    case OpSetSelfMeshIp(ip) => t.(selfMeshIp := Some(ip))
    case OpGatewayLoad(gateway, load) => UpdateGatewayLoad(t, gateway, load)
    case OpGatewayRtt(gateway, rtt) => UpdateGatewayRtt(t, gateway, rtt)
  }

  function Run(t: Table, ops: seq<Op>): Table {
    if ops == [] then t else Perform(Run(t, ops[..|ops|-1]), ops[|ops|-1])
  }

  /** Peers are other nodes: the one thing the table leaves to its callers. */
  predicate NotSelf(selfId: NodeId, op: Op) {
    (op.OpAddPeer? ==> op.peer != selfId) && (op.OpUpdate? ==> op.from != selfId)
  }

  predicate LegalOps(selfId: NodeId, ops: seq<Op>) {
    forall i :: 0 <= i < |ops| ==> NotSelf(selfId, ops[i])
  }

  // ---------------------------------------------------------------------
  // Completeness of the address index

  /** Every installed route is found in the index under its stored address. */
  predicate IndexComplete(t: Table) {
    forall d :: d in t.routes ==>
      t.routes[d].meshIp.Some? && Get(t.meshIpIndex, t.routes[d].meshIp.value) == Some(d)
  }

  predicate Tracked(t: Table) {
    IndexSound(t) && (t.collisions == 0 ==> IndexComplete(t))
  }

  /** `d` is found in the index under the address its route stores. */
  predicate Indexed(t: Table, d: NodeId) {
    d in t.routes && t.routes[d].meshIp.Some? && Get(t.meshIpIndex, t.routes[d].meshIp.value) == Some(d)
  }

  /** Inserting a route to `dst` gives up the address it stored before, which is also that of `d`. */
  predicate Supersedes(t: Table, dst: NodeId, d: NodeId)
    requires d in t.routes
  {
    && dst in t.routes && t.routes[dst].meshIp.Some?
    && t.routes[dst].meshIp != Some(t.derive(dst, t.prefix))
    && t.routes[dst].meshIp == t.routes[d].meshIp
  }

  /**
   What an insertion does to the index of any sound table. The new route is indexed exactly when no
   other indexed route holds its address. Another indexed route stays indexed exactly when its
   address is not one the inserted destination gives up; no other route becomes indexed.
   */
  lemma InsertIndexesExactly(t: Table, dst: NodeId, route: Route, d: NodeId)
    requires IndexSound(t)
    ensures var t', derived := InsertRoute(t, dst, route), Some(t.derive(dst, t.prefix));
      && (Indexed(t', dst) <==> !exists o :: o != dst && Indexed(t, o) && t.routes[o].meshIp == derived)
      && (d != dst ==> (Indexed(t', d) <==> Indexed(t, d) && !Supersedes(t, dst, d)))
  {
    var derived := t.derive(dst, t.prefix);
    if derived in t.meshIpIndex { assert Indexed(t, t.meshIpIndex[derived]); }
  }

  /** A removal takes out of the index only what it removes. */
  lemma RemoveIndexesExactly(t: Table, dsts: set<NodeId>, d: NodeId)
    ensures Indexed(RemoveRoutes(t, dsts), d) <==> Indexed(t, d) && d !in dsts
  {
  }

  /** An insertion breaks a complete index exactly when another live route holds the derived address. */
  lemma InsertKeepsCompleteExactly(t: Table, dst: NodeId, route: Route)
    requires IndexSound(t) && IndexComplete(t)
    ensures IndexComplete(InsertRoute(t, dst, route))
       <==> !exists d :: d in t.routes && d != dst && t.routes[d].meshIp == Some(t.derive(dst, t.prefix))
  {
    var t' := InsertRoute(t, dst, route);
    var derived := t.derive(dst, t.prefix);
    if d :| d in t.routes && d != dst && t.routes[d].meshIp == Some(derived) {
      assert t'.meshIpIndex[derived] == d;
      assert dst in t'.routes;
    } else {
      assert Get(t'.meshIpIndex, derived) == Some(dst);
      forall d | d in t'.routes && d != dst
        ensures t'.routes[d].meshIp.Some? && Get(t'.meshIpIndex, t'.routes[d].meshIp.value) == Some(d)
      {
        assert d in t.routes;
      }
    }
  }

  lemma InsertKeepsTracked(t: Table, dst: NodeId, route: Route)
    requires Tracked(t)
    ensures Tracked(InsertRoute(t, dst, route))
  {
    InsertKeepsIndexSound(t, dst, route);
    if InsertRoute(t, dst, route).collisions == 0 {
      InsertKeepsCompleteExactly(t, dst, route);
    }
  }

  lemma RemoveKeepsTracked(t: Table, dsts: set<NodeId>)
    requires Tracked(t)
    ensures Tracked(RemoveRoutes(t, dsts))
  {
  }

  lemma {:induction false} EntriesKeepTracked(t: Table, entries: seq<Entry>, from: NodeId, sequence: nat, now: nat)
    requires Tracked(t)
    ensures Tracked(ApplyEntries(t, entries, from, sequence, now))
  {
    if entries != [] {
      var mid, e := ApplyEntries(t, entries[..|entries|-1], from, sequence, now), entries[|entries|-1];
      EntriesKeepTracked(t, entries[..|entries|-1], from, sequence, now);
      InsertKeepsTracked(mid, e.destination, Replacement(Get(mid.routes, e.destination), e, from, sequence, now));
      RemoveKeepsTracked(mid, {e.destination});
    }
  }

  lemma BeforeEntriesTracked(t: Table, update: Frame, from: NodeId, now: nat)
    requires Tracked(t)
    ensures Tracked(BeforeEntries(t, update, from, now))
  {
    var t0 := t.(peerMaxSeq := t.peerMaxSeq[from := update.sequence]);
    InsertKeepsTracked(t0, from, DirectRoute(from, update.sequence, now));
  }

  lemma UpdateKeepsTracked(t: Table, update: Frame, from: NodeId, now: nat)
    requires Tracked(t)
    ensures Tracked(ApplyUpdate(t, update, from, now))
  {
    if Accepted(t, update, from) {
      BeforeEntriesTracked(t, update, from, now);
      EntriesKeepTracked(BeforeEntries(t, update, from, now), update.entries, from, update.sequence, now);
      var relaxed := AfterEntries(t, update, from, now);
      RemoveKeepsTracked(relaxed, Withdrawn(relaxed, update.entries, from));
    }
  }

  lemma PerformKeepsTracked(t: Table, op: Op)
    requires Tracked(t)
    ensures Tracked(Perform(t, op))
  {
    match op
    case OpAddPeer(peer, now) =>
      InsertKeepsTracked(t.(directPeers := t.directPeers + {peer}), peer, DirectRoute(peer, 0, now));
    case OpRemovePeer(peer) =>
      var t0 := t.(directPeers := t.directPeers - {peer}, peerMaxSeq := t.peerMaxSeq - {peer});
      RemoveKeepsTracked(t0, Via(t0, peer));
    case OpUpdate(update, from, now) => UpdateKeepsTracked(t, update, from, now);
    case OpExpire(maxAge, now) => RemoveKeepsTracked(t, Stale(t, maxAge, now));
    case OpBlacklist(peer) =>
      var t0 := t.(blacklisted := t.blacklisted + {peer});
      RemoveKeepsTracked(t0, Via(t0, peer));
    case _ =>
  }

  /** Calls that touch neither hop counts, next hops nor addresses. */
  lemma MinorOpKeepsValid(t: Table, t': Table)
    requires Valid(t) && t'.selfId == t.selfId && t'.peerMaxSeq == t.peerMaxSeq && t'.meshIpIndex == t.meshIpIndex
    requires t'.routes.Keys == t.routes.Keys
    requires forall d :: d in t.routes ==>
      t'.routes[d] == t.routes[d].(gatewayLoad := t'.routes[d].gatewayLoad, rttMs := t'.routes[d].rttMs)
    ensures Valid(t')
  {
    forall d | d in t'.routes ensures RouteOk(t', d) {
      assert RouteOk(t, d);
    }
  }

  lemma BlacklistKeepsValid(t: Table, peer: NodeId)
    requires Valid(t)
    ensures Valid(BlacklistPeer(t, peer))
  {
    var t0 := t.(blacklisted := t.blacklisted + {peer});
    MinorOpKeepsValid(t, t0);
    RemoveKeepsValid(t0, Via(t0, peer));
  }

  lemma PerformKeepsValid(t: Table, op: Op)
    requires Valid(t) && NotSelf(t.selfId, op)
    ensures Valid(Perform(t, op))
  {
    match op
    case OpAddPeer(peer, now) => AddPeerKeepsValid(t, peer, now);
    case OpRemovePeer(peer) => RemovePeerKeepsValid(t, peer);
    case OpUpdate(update, from, now) => UpdateKeepsValid(t, update, from, now);
    case OpExpire(maxAge, now) => RemoveKeepsValid(t, Stale(t, maxAge, now));
    case OpBlacklist(peer) => BlacklistKeepsValid(t, peer);
    case _ => MinorOpKeepsValid(t, Perform(t, op));
  }

  lemma {:induction false} EntriesKeepIdentity(t: Table, entries: seq<Entry>, from: NodeId, sequence: nat, now: nat)
    ensures SameSetting(t, ApplyEntries(t, entries, from, sequence, now))
  {
    if entries != [] { EntriesKeepIdentity(t, entries[..|entries|-1], from, sequence, now); }
  }

  lemma PerformKeepsIdentity(t: Table, op: Op)
    ensures Perform(t, op).selfId == t.selfId && Perform(t, op).derive == t.derive
    ensures !op.OpSetPrefix? ==> Perform(t, op).prefix == t.prefix
  {
    if op.OpUpdate? {
      var before := BeforeEntries(t, op.update, op.from, op.now);
      EntriesKeepIdentity(before, op.update.entries, op.from, op.update.sequence, op.now);
    }
  }

  /** After any history of calls, including prefix changes, the table satisfies its invariant. */
  lemma {:induction false} RunKeepsInvariant(t: Table, ops: seq<Op>)
    requires Valid(t) && Tracked(t) && LegalOps(t.selfId, ops)
    ensures Valid(Run(t, ops)) && Tracked(Run(t, ops)) && Run(t, ops).selfId == t.selfId
  {
    if ops != [] {
      RunKeepsInvariant(t, ops[..|ops|-1]);
      var mid, op := Run(t, ops[..|ops|-1]), ops[|ops|-1];
      PerformKeepsValid(mid, op);
      PerformKeepsTracked(mid, op);
      PerformKeepsIdentity(mid, op);
    }
  }

  /**
   In every state a fresh table can reach, an address lookup returns only a live route that
   stores that address; no two addresses lead to one destination; and while the collision
   counter is zero the lookup finds every usable route a scan of the table would find.
   */
  lemma LookupMeshIpIsScan(selfId: NodeId, isGateway: bool, derive: (NodeId, Prefix) -> Addr, prefix: Prefix,
                           ops: seq<Op>, ip: Addr, d: NodeId, hop: NodeId)
    requires LegalOps(selfId, ops)
    ensures var t := Run(New(selfId, isGateway, derive, prefix), ops);
      var scanned :=
        d in t.routes && t.routes[d].meshIp == Some(ip) && t.routes[d].nextHop == hop && hop !in t.blacklisted;
      && (LookupMeshIp(t, ip) == Some((d, hop)) ==> scanned)
      && (t.collisions == 0 && scanned ==> LookupMeshIp(t, ip) == Some((d, hop)))
      && (forall ip' :: ip in t.meshIpIndex && ip' in t.meshIpIndex && t.meshIpIndex[ip] == t.meshIpIndex[ip'] ==>
            ip == ip')
  {
    RunKeepsInvariant(New(selfId, isGateway, derive, prefix), ops);
  }

  // ---------------------------------------------------------------------
  // When the collision counter stays at zero

  /** The call names no node outside `ids` and leaves the prefix alone. */
  predicate Within(op: Op, ids: iset<NodeId>) {
    match op
    case OpAddPeer(peer, _) => peer in ids
    case OpUpdate(update, from, _) =>
      from in ids && forall i :: 0 <= i < |update.entries| ==> update.entries[i].destination in ids
    case OpSetPrefix(_) => false
    case _ => true
  }

  ghost predicate InjectiveOn(t: Table, ids: iset<NodeId>) {
    forall a, b :: a in ids && b in ids && t.derive(a, t.prefix) == t.derive(b, t.prefix) ==> a == b
  }

  /** All stored addresses are current, all destinations known, nothing has collided. */
  predicate CollisionFree(t: Table, ids: iset<NodeId>) {
    && IndexSound(t) && t.collisions == 0
    && forall d :: d in t.routes ==> d in ids && t.routes[d].meshIp == Some(t.derive(d, t.prefix))
  }

  lemma InsertKeepsCollisionFree(t: Table, ids: iset<NodeId>, dst: NodeId, route: Route)
    requires CollisionFree(t, ids) && InjectiveOn(t, ids) && dst in ids
    ensures CollisionFree(InsertRoute(t, dst, route), ids)
  {
  }

  lemma {:induction false} EntriesKeepCollisionFree(t: Table, ids: iset<NodeId>, entries: seq<Entry>, from: NodeId,
                                                    sequence: nat, now: nat)
    requires CollisionFree(t, ids) && InjectiveOn(t, ids)
    requires forall i :: 0 <= i < |entries| ==> entries[i].destination in ids
    ensures CollisionFree(ApplyEntries(t, entries, from, sequence, now), ids)
  {
    EntriesKeepIdentity(t, entries, from, sequence, now);
    if entries != [] {
      var mid, e := ApplyEntries(t, entries[..|entries|-1], from, sequence, now), entries[|entries|-1];
      EntriesKeepIdentity(t, entries[..|entries|-1], from, sequence, now);
      EntriesKeepCollisionFree(t, ids, entries[..|entries|-1], from, sequence, now);
      var route := Replacement(Get(mid.routes, e.destination), e, from, sequence, now);
      InsertKeepsCollisionFree(mid, ids, e.destination, route);
    }
  }

  lemma RemoveKeepsCollisionFree(t: Table, ids: iset<NodeId>, dsts: set<NodeId>)
    requires CollisionFree(t, ids)
    ensures CollisionFree(RemoveRoutes(t, dsts), ids)
  {
  }

  lemma BeforeEntriesCollisionFree(t: Table, ids: iset<NodeId>, update: Frame, from: NodeId, now: nat)
    requires CollisionFree(t, ids) && InjectiveOn(t, ids) && from in ids
    ensures var before := BeforeEntries(t, update, from, now); CollisionFree(before, ids) && InjectiveOn(before, ids)
  {
    TouchKeepsCollisionFree(t.(peerMaxSeq := t.peerMaxSeq[from := update.sequence]), ids, from, update.sequence, now);
  }

  lemma TouchKeepsCollisionFree(t: Table, ids: iset<NodeId>, from: NodeId, sequence: nat, now: nat)
    requires CollisionFree(t, ids) && InjectiveOn(t, ids) && from in ids
    ensures var t' := TouchSender(t, from, sequence, now); CollisionFree(t', ids) && InjectiveOn(t', ids)
  {
    if from !in t.routes { InsertKeepsCollisionFree(t, ids, from, DirectRoute(from, sequence, now)); }
  }

  lemma UpdateKeepsCollisionFree(t: Table, ids: iset<NodeId>, update: Frame, from: NodeId, now: nat)
    requires CollisionFree(t, ids) && InjectiveOn(t, ids) && Within(OpUpdate(update, from, now), ids)
    ensures CollisionFree(ApplyUpdate(t, update, from, now), ids)
  {
    if Accepted(t, update, from) {
      var relaxed := AfterEntries(t, update, from, now);
      BeforeEntriesCollisionFree(t, ids, update, from, now);
      EntriesKeepCollisionFree(BeforeEntries(t, update, from, now), ids, update.entries, from, update.sequence, now);
      RemoveKeepsCollisionFree(relaxed, ids, Withdrawn(relaxed, update.entries, from));
    }
  }

  lemma PerformKeepsCollisionFree(t: Table, ids: iset<NodeId>, op: Op)
    requires CollisionFree(t, ids) && InjectiveOn(t, ids) && Within(op, ids)
    ensures CollisionFree(Perform(t, op), ids)
  {
    match op
    case OpAddPeer(peer, now) =>
      InsertKeepsCollisionFree(t.(directPeers := t.directPeers + {peer}), ids, peer, DirectRoute(peer, 0, now));
    case OpRemovePeer(peer) =>
      var t0 := t.(directPeers := t.directPeers - {peer}, peerMaxSeq := t.peerMaxSeq - {peer});
      RemoveKeepsCollisionFree(t0, ids, Via(t0, peer));
    case OpUpdate(update, from, now) => UpdateKeepsCollisionFree(t, ids, update, from, now);
    case OpExpire(maxAge, now) => RemoveKeepsCollisionFree(t, ids, Stale(t, maxAge, now));
    case OpBlacklist(peer) =>
      var t0 := t.(blacklisted := t.blacklisted + {peer});
      RemoveKeepsCollisionFree(t0, ids, Via(t0, peer));
    case _ =>
  }

  /** With a fixed prefix and an injective derivation over the nodes involved, nothing ever collides. */
  lemma {:induction false} InjectiveDerivationNeverCollides(t: Table, ids: iset<NodeId>, ops: seq<Op>)
    requires CollisionFree(t, ids) && InjectiveOn(t, ids)
    requires forall i :: 0 <= i < |ops| ==> Within(ops[i], ids)
    ensures CollisionFree(Run(t, ops), ids) && InjectiveOn(Run(t, ops), ids)
  {
    if ops != [] {
      InjectiveDerivationNeverCollides(t, ids, ops[..|ops|-1]);
      PerformKeepsCollisionFree(Run(t, ops[..|ops|-1]), ids, ops[|ops|-1]);
      PerformKeepsIdentity(Run(t, ops[..|ops|-1]), ops[|ops|-1]);
    }
  }

  /** From a fresh table, with a fixed prefix and an injective derivation, a lookup is a scan of the routes. */
  lemma InjectiveLookupIsScan(selfId: NodeId, isGateway: bool, derive: (NodeId, Prefix) -> Addr, prefix: Prefix,
                              ids: iset<NodeId>, ops: seq<Op>, ip: Addr, d: NodeId, hop: NodeId)
    requires LegalOps(selfId, ops) && forall i :: 0 <= i < |ops| ==> Within(ops[i], ids)
    requires InjectiveOn(New(selfId, isGateway, derive, prefix), ids)
    ensures var t := Run(New(selfId, isGateway, derive, prefix), ops);
      LookupMeshIp(t, ip) == Some((d, hop))
      <==> d in t.routes && derive(d, prefix) == ip && t.routes[d].nextHop == hop && hop !in t.blacklisted
  {
    InjectiveDerivationNeverCollides(New(selfId, isGateway, derive, prefix), ids, ops);
    LookupMeshIpIsScan(selfId, isGateway, derive, prefix, ops, ip, d, hop);
    RunKeepsSetting(New(selfId, isGateway, derive, prefix), ids, ops);
  }

  lemma {:induction false} RunKeepsSetting(t: Table, ids: iset<NodeId>, ops: seq<Op>)
    requires forall i :: 0 <= i < |ops| ==> Within(ops[i], ids)
    ensures Run(t, ops).derive == t.derive && Run(t, ops).prefix == t.prefix
  {
    if ops != [] {
      RunKeepsSetting(t, ids, ops[..|ops|-1]);
      PerformKeepsIdentity(Run(t, ops[..|ops|-1]), ops[|ops|-1]);
    }
  }

  // ---------------------------------------------------------------------
  // Collisions at work

  /** The table after meeting two nodes with one address: the first is indexed, the second is not. */
  lemma TwoMet(selfId: NodeId, derive: (NodeId, Prefix) -> Addr, prefix: Prefix, winner: NodeId, loser: NodeId)
      returns (t: Table)
    requires winner != loser && derive(winner, prefix) == derive(loser, prefix)
    ensures t == Run(New(selfId, false, derive, prefix), [OpAddPeer(winner, 0), OpAddPeer(loser, 0)])
    ensures t.derive == derive && t.prefix == prefix && t.selfId == selfId && t.blacklisted == {} && t.collisions == 1
    ensures t.routes.Keys == {winner, loser} && t.meshIpIndex == map[derive(winner, prefix) := winner]
    ensures forall d :: d in t.routes ==> t.routes[d] == DirectRoute(d, 0, 0).(meshIp := Some(derive(d, prefix)))
  {
    var t0, ops := New(selfId, false, derive, prefix), [OpAddPeer(winner, 0), OpAddPeer(loser, 0)];
    assert ops[..1] == [OpAddPeer(winner, 0)];
    assert Run(t0, [OpAddPeer(winner, 0)]) == AddPeer(t0, winner, 0);
    t := AddPeer(AddPeer(t0, winner, 0), loser, 0);
  }

  /** One more call at the end of a history. */
  lemma RunOneMore(t: Table, ops: seq<Op>, op: Op)
    ensures Run(t, ops + [op]) == Perform(Run(t, ops), op)
  {
    assert (ops + [op])[..|ops|] == ops;
  }

  /**
   The loser of a collision stays unreachable by address when the winner leaves, until the next
   insertion of its route, which indexes it.
   */
  lemma LoserWaitsForRefresh(selfId: NodeId, derive: (NodeId, Prefix) -> Addr, prefix: Prefix,
                             winner: NodeId, loser: NodeId)
    requires winner != loser && selfId !in {winner, loser}
    requires derive(winner, prefix) == derive(loser, prefix)
    ensures var t0, ip := New(selfId, false, derive, prefix), derive(loser, prefix);
      var left := [OpAddPeer(winner, 0), OpAddPeer(loser, 0), OpRemovePeer(winner)];
      && Run(t0, left).routes.Keys == {loser} && LookupMeshIp(Run(t0, left), ip) == None
      && LookupMeshIp(Run(t0, left + [OpAddPeer(loser, 0)]), ip) == Some((loser, loser))
  {
    var t0, met := New(selfId, false, derive, prefix), [OpAddPeer(winner, 0), OpAddPeer(loser, 0)];
    var t := TwoMet(selfId, derive, prefix, winner, loser);
    RunOneMore(t0, met, OpRemovePeer(winner));
    assert met + [OpRemovePeer(winner)] == [OpAddPeer(winner, 0), OpAddPeer(loser, 0), OpRemovePeer(winner)];
    assert Via(t.(directPeers := t.directPeers - {winner}, peerMaxSeq := t.peerMaxSeq - {winner}), winner) == {winner};
    RunOneMore(t0, met + [OpRemovePeer(winner)], OpAddPeer(loser, 0));
  }

  /**
   After a prefix change, refreshing the loser gives up the address both stored, and with it the
   index entry of the winner, whose route is still there.
   */
  lemma RefreshEvictsWinner(selfId: NodeId, derive: (NodeId, Prefix) -> Addr, prefix: Prefix, prefix': Prefix,
                            winner: NodeId, loser: NodeId)
    requires winner != loser && selfId !in {winner, loser}
    requires derive(winner, prefix) == derive(loser, prefix) && derive(loser, prefix') != derive(loser, prefix)
    ensures var t0, ip := New(selfId, false, derive, prefix), derive(winner, prefix);
      var changed := [OpAddPeer(winner, 0), OpAddPeer(loser, 0), OpSetPrefix(prefix')];
      && LookupMeshIp(Run(t0, changed), ip) == Some((winner, winner))
      && LookupMeshIp(Run(t0, changed + [OpAddPeer(loser, 0)]), ip) == None
      && winner in Run(t0, changed + [OpAddPeer(loser, 0)]).routes
      && Run(t0, changed + [OpAddPeer(loser, 0)]).routes[winner].meshIp == Some(ip)
  {
    var t0, met := New(selfId, false, derive, prefix), [OpAddPeer(winner, 0), OpAddPeer(loser, 0)];
    var t := TwoMet(selfId, derive, prefix, winner, loser);
    RunOneMore(t0, met, OpSetPrefix(prefix'));
    assert met + [OpSetPrefix(prefix')] == [OpAddPeer(winner, 0), OpAddPeer(loser, 0), OpSetPrefix(prefix')];
    RunOneMore(t0, met + [OpSetPrefix(prefix')], OpAddPeer(loser, 0));
  }

  // ---------------------------------------------------------------------
  // Replay protection

  /** Call `k` is an update from `p` that passes the origin and replay checks and is recorded. */
  predicate Records(t: Table, ops: seq<Op>, k: nat, p: NodeId) {
    k < |ops| && ops[k].OpUpdate? && ops[k].from == p && Fresh(Run(t, ops[..k]), ops[k].update, p)
  }

  /** A call never lowers the sequence number on record for `p`, unless it removes `p`. */
  lemma PerformKeepsMaxSeq(t: Table, op: Op, p: NodeId)
    ensures MaxSeq(Perform(t, op), p)
         == if op == OpRemovePeer(p) then 0
            else if op.OpUpdate? && op.from == p && Fresh(t, op.update, p) then op.update.sequence
            else MaxSeq(t, p)
  {
    if op.OpUpdate? {
      var before := BeforeEntries(t, op.update, op.from, op.now);
      EntriesKeepIdentity(before, op.update.entries, op.from, op.update.sequence, op.now);
    }
  }

  lemma MaxSeqSteps(t: Table, ops: seq<Op>, k: nat, p: NodeId)
    requires k < |ops| && ops[k] != OpRemovePeer(p)
    ensures MaxSeq(Run(t, ops[..k]), p) <= MaxSeq(Run(t, ops[..k+1]), p)
    ensures Records(t, ops, k, p) ==> MaxSeq(Run(t, ops[..k+1]), p) == ops[k].update.sequence
  {
    assert ops[..k+1] == ops[..k] + [ops[k]];
    RunOneMore(t, ops[..k], ops[k]);
    PerformKeepsMaxSeq(Run(t, ops[..k]), ops[k], p);
  }

  lemma {:induction false} MaxSeqGrows(t: Table, ops: seq<Op>, i: nat, j: nat, p: NodeId)
    requires i <= j <= |ops| && forall k :: i <= k < j ==> ops[k] != OpRemovePeer(p)
    ensures MaxSeq(Run(t, ops[..i]), p) <= MaxSeq(Run(t, ops[..j]), p)
  {
    if i < j {
      MaxSeqGrows(t, ops, i, j - 1, p);
      MaxSeqSteps(t, ops, j - 1, p);
    }
  }

  /** In every history the sequence numbers recorded from a peer strictly increase until the peer is removed. */
  lemma RecordedStrictlyIncrease(t: Table, ops: seq<Op>, i: nat, j: nat, p: NodeId)
    requires i < j && Records(t, ops, i, p) && Records(t, ops, j, p)
    requires forall k :: i <= k < j ==> ops[k] != OpRemovePeer(p)
    ensures ops[i].update.sequence < ops[j].update.sequence
  {
    MaxSeqSteps(t, ops, i, p);
    MaxSeqGrows(t, ops, i + 1, j, p);
  }

  /** Right after a peer is removed, every frame of its own is fresh again, except one numbered 0. */
  lemma RemovalForgetsSequence(t: Table, p: NodeId, update: Frame)
    ensures Fresh(RemovePeer(t, p), update, p) <==> update.originId == p && update.sequence > 0
  {
    PerformKeepsMaxSeq(t, OpRemovePeer(p), p);
  }

  /** A frame accepted once is accepted again after its sender was removed, whatever was accepted in between. */
  lemma RemovalAcceptsAgain(t: Table, later: Table, p: NodeId, update: Frame)
    requires Accepted(t, update, p)
    ensures Accepted(RemovePeer(later, p), update, p)
  {
    RemovalForgetsSequence(later, p, update);
  }

  // ---------------------------------------------------------------------
  // Blacklisted senders

  /**
   Updates of a blacklisted peer are applied like any other. Such an update takes a usable route away
   exactly when it offers a strictly shorter path.
   */
  lemma BlacklistedSenderTakesExactly(t: Table, update: Frame, from: NodeId, now: nat, d: NodeId)
    requires Valid(t) && from != t.selfId && from in t.blacklisted
    requires Accepted(t, update, from) && Distinct(update.entries)
    requires Lookup(t, d).Some?
    ensures var line := Line(update.entries, d);
      Lookup(ApplyUpdate(t, update, from, now), d).None?
      <==> line.Some? && ThroughPeer(line.value.hops) < t.routes[d].hops
  {
    assert RouteOk(t, d);
    EntriesKeepIdentity(BeforeEntries(t, update, from, now), update.entries, from, update.sequence, now);
    if d == from {
      UpdateAtSender(t, update, from, now);
    } else {
      UpdateIsBellmanFord(t, update, from, now, d);
    }
  }

  // ---------------------------------------------------------------------
  // Changes that are not reported

  /** A frame in which `p` offers a path of `hops` hops to `d`. */
  function OfferFrame(p: NodeId, sequence: nat, d: NodeId, hops: nat): Frame {
    Frame(p, sequence, [Entry(p, 0, false, None), Entry(d, hops, false, None)])
  }

  /** The table after a peer was added and offered a path of one hop to `d`. */
  lemma Offered(selfId: NodeId, derive: (NodeId, Prefix) -> Addr, prefix: Prefix, p: NodeId,
                d: NodeId) returns (t: Table)
    requires selfId != p && p != d && d != selfId
    ensures t == Run(New(selfId, false, derive, prefix), [OpAddPeer(p, 0), OpUpdate(OfferFrame(p, 1, d, 1), p, 0)])
    ensures Valid(t) && t.selfId == selfId && MaxSeq(t, p) == 1 && MaxSeq(t, d) == 0 && t.blacklisted == {}
    ensures t.routes.Keys == {p, d} && t.routes[p].hops == 1 && t.routes[p].nextHop == p && !t.routes[p].isGateway
    ensures t.routes[d].hops == 2 && t.routes[d].nextHop == p && !t.routes[d].isGateway
  {
    var t0, f := New(selfId, false, derive, prefix), OfferFrame(p, 1, d, 1);
    var t1 := AddPeer(t0, p, 0);
    RunOneMore(t0, [], OpAddPeer(p, 0));
    RunOneMore(t0, [OpAddPeer(p, 0)], OpUpdate(f, p, 0));
    assert [OpAddPeer(p, 0)] + [OpUpdate(f, p, 0)] == [OpAddPeer(p, 0), OpUpdate(f, p, 0)];
    assert [] + [OpAddPeer(p, 0)] == [OpAddPeer(p, 0)];
    t := ApplyUpdate(t1, f, p, 0);
    AddPeerKeepsValid(t0, p, 0);
    UpdateKeepsValid(t1, f, p, 0);
    PerformKeepsMaxSeq(t1, OpUpdate(f, p, 0), p);
    PerformKeepsMaxSeq(t1, OpUpdate(f, p, 0), d);
    EntriesKeepIdentity(BeforeEntries(t1, f, p, 0), f.entries, p, f.sequence, 0);
    OfferedRoutes(t1, f, p, d, 0);
  }

  /** What a frame that offers a path to `d` does to a table that knows at most the sender and `d`, via the sender. */
  lemma OfferedRoutes(t: Table, f: Frame, p: NodeId, d: NodeId, now: nat)
    requires Valid(t) && t.routes.Keys <= {p, d} && p in t.routes && p != d && t.selfId !in {p, d}
    requires t.routes[p].nextHop == p && (d in t.routes ==> t.routes[d].nextHop == p)
    requires exists hops: nat :: hops > 0 && hops < 15 && f == OfferFrame(p, f.sequence, d, hops)
    requires f.sequence > MaxSeq(t, p)
    ensures var t' := ApplyUpdate(t, f, p, now);
      && t'.selfId == t.selfId && t'.routes.Keys == {p, d}
      && t'.routes[p].hops == 1 && t'.routes[p].nextHop == p && !t'.routes[p].isGateway
      && t'.routes[d].hops == f.entries[1].hops + 1 && t'.routes[d].nextHop == p && !t'.routes[d].isGateway
  {
    var t' := ApplyUpdate(t, f, p, now);
    assert !Suspicious(f);
    LineIsUnique(f.entries, 0);
    LineIsUnique(f.entries, 1);
    assert RouteOk(t, p);
    PerformKeepsIdentity(t, OpUpdate(f, p, now));
    UpdateAtSender(t, f, p, now);
    UpdateIsBellmanFord(t, f, p, now, d);
    forall n | n !in {p, d} ensures n !in t'.routes {
      UpdateIsBellmanFord(t, f, p, now, n);
      LineIsListed(f.entries, n);
    }
    assert Get(t'.routes, p).Some? && Get(t'.routes, d).Some?;
  }

  /** A history in which the path through a peer gets longer and the update is reported as no change. */
  lemma LongerRouteIsUnreported(selfId: NodeId, derive: (NodeId, Prefix) -> Addr, prefix: Prefix, p: NodeId, d: NodeId)
    requires selfId != p && p != d && d != selfId
    ensures var t := Run(New(selfId, false, derive, prefix), [OpAddPeer(p, 0), OpUpdate(OfferFrame(p, 1, d, 1), p, 0)]);
      var t' := ApplyUpdate(t, OfferFrame(p, 2, d, 3), p, 0);
      && ApplyUpdateResult(t, OfferFrame(p, 2, d, 3), p, 0) == Unchanged
      && d in t.routes && t.routes[d].hops == 2
      && d in t'.routes && t'.routes[d].hops == 4
  {
    var f := OfferFrame(p, 2, d, 3);
    var t := Offered(selfId, derive, prefix, p, d);
    assert RouteOk(t, d) && RouteOk(t, p);
    assert !Suspicious(f) && Distinct(f.entries);
    OfferedRoutes(t, f, p, d, 0);
    ChangedExactly(t, f, p, 0);
  }

  /** A history in which a blacklisted node, reached through another, announces itself and becomes unreachable. */
  lemma BlacklistedSenderTakesRoute(selfId: NodeId, derive: (NodeId, Prefix) -> Addr, prefix: Prefix,
                                    p: NodeId, q: NodeId)
    requires selfId != p && p != q && q != selfId
    ensures var t0, f := New(selfId, false, derive, prefix), Frame(q, 1, [Entry(q, 0, false, None)]);
      var t := BlacklistPeer(Run(t0, [OpAddPeer(p, 0), OpUpdate(OfferFrame(p, 1, q, 1), p, 0)]), q);
      && Accepted(t, f, q)
      && Lookup(t, q) == Some(p) && Lookup(ApplyUpdate(t, f, q, 0), q) == None
  {
    var f := Frame(q, 1, [Entry(q, 0, false, None)]);
    var t1 := Offered(selfId, derive, prefix, p, q);
    var t := BlacklistPeer(t1, q);
    assert Via(t1.(blacklisted := t1.blacklisted + {q}), q) == {};
    BlacklistKeepsValid(t1, q);
    assert !Suspicious(f) && Distinct(f.entries);
    LineIsUnique(f.entries, 0);
    BlacklistedSenderTakesExactly(t, f, q, 0, q);
  }

  /** A frame that takes a path back and offers it again in one go is reported, though every route is as before. */
  lemma RepeatedLineIsReported(selfId: NodeId, derive: (NodeId, Prefix) -> Addr, prefix: Prefix, p: NodeId, d: NodeId)
    requires selfId != p && p != d && d != selfId
    ensures var t := Run(New(selfId, false, derive, prefix), [OpAddPeer(p, 0), OpUpdate(OfferFrame(p, 1, d, 1), p, 0)]);
      var f := Frame(p, 2, [Entry(p, 0, false, None), Entry(d, INFINITY, false, None), Entry(d, 1, false, None)]);
      && Accepted(t, f, p) && ApplyUpdateResult(t, f, p, 0) == Changed
      && forall n :: !Reported(Get(t.routes, n), Get(ApplyUpdate(t, f, p, 0).routes, n))
  {
    var t := Offered(selfId, derive, prefix, p, d);
    var entries := [Entry(p, 0, false, None), Entry(d, INFINITY, false, None), Entry(d, 1, false, None)];
    var f := Frame(p, 2, entries);
    assert RouteOk(t, d) && RouteOk(t, p) && !Suspicious(f);
    var t0 := BeforeEntries(t, f, p, 0);
    var t1 := ApplyEntry(t0, entries[0], p, 2, 0);
    var t2 := ApplyEntry(t1, entries[1], p, 2, 0);
    var t3 := ApplyEntry(t2, entries[2], p, 2, 0);
    assert entries[..3] == entries && entries[..3][..2] == entries[..2];
    assert entries[..2][..1] == entries[..1] && entries[..1][..0] == [];
    assert ApplyEntries(t0, entries[..1], p, 2, 0) == t1;
    assert ApplyEntries(t0, entries[..2], p, 2, 0) == t2;
    assert AfterEntries(t, f, p, 0) == t3;
    assert EntryChanges(t1, entries[1], p, 2);
    assert entries[0].destination == p && entries[1].destination == d;
    assert t3.routes.Keys == {p, d};
    assert Withdrawn(t3, entries, p) == {};
  }

  // ---------------------------------------------------------------------
  // Calls that change one thing

  /** What the remaining calls change, and that they change nothing else. */
  lemma MinorCallExactly(t: Table, op: Op)
    ensures match op
      case OpGenerate => Perform(t, op).sequence == t.sequence + 1 && Perform(t, op) == t.(sequence := t.sequence + 1)
      case OpUnblacklist(peer) => Perform(t, op) == t.(blacklisted := t.blacklisted - {peer})
      case OpSetPrefix(prefix) => Perform(t, op) == t.(prefix := prefix)
      case OpSetSelfMeshIp(ip) => Perform(t, op) == t.(selfMeshIp := Some(ip))
      case OpGatewayLoad(gateway, load) =>
        && Perform(t, op) == t.(routes := Perform(t, op).routes) && Perform(t, op).routes.Keys == t.routes.Keys
        && forall d :: d in t.routes ==>
             Perform(t, op).routes[d]
               == if d == gateway && t.routes[d].isGateway then t.routes[d].(gatewayLoad := load) else t.routes[d]
      case OpGatewayRtt(gateway, rtt) =>
        && Perform(t, op) == t.(routes := Perform(t, op).routes) && Perform(t, op).routes.Keys == t.routes.Keys
        && forall d :: d in t.routes ==>
             Perform(t, op).routes[d]
               == if d == gateway && t.routes[d].isGateway then t.routes[d].(rttMs := Some(rtt)) else t.routes[d]
      case _ => true
  {
  }

  /** A peer that is pardoned is used again as soon as it offers a path; blacklisting alone hides everything via it. */
  lemma PardonRestoresExactly(t: Table, peer: NodeId, d: NodeId)
    requires Valid(t)
    ensures Lookup(Perform(t, OpBlacklist(peer)), d)
         == if Lookup(t, d) == Some(peer) then None else Lookup(t, d)
    ensures d in t.routes && t.routes[d].nextHop == peer ==>
      Lookup(Perform(t, OpUnblacklist(peer)), d) == Some(peer)
    ensures d in t.routes && t.routes[d].nextHop != peer ==> Lookup(Perform(t, OpUnblacklist(peer)), d) == Lookup(t, d)
  {
    if d in t.routes { assert RouteOk(t, d); }
  }

  /** How many frames a history generates. */
  function Generated(ops: seq<Op>): nat {
    if ops == [] then 0 else Generated(ops[..|ops|-1]) + (if ops[|ops|-1].OpGenerate? then 1 else 0)
  }

  /** Numbers are handed out one by one from zero: the number of a table is how many frames it has generated. */
  lemma {:induction false} SequenceCountsFrames(
    selfId: NodeId, isGateway: bool, derive: (NodeId, Prefix) -> Addr, prefix: Prefix, ops: seq<Op>)
    ensures Run(New(selfId, isGateway, derive, prefix), ops).sequence == Generated(ops)
  {
    if ops != [] {
      var t0, n := New(selfId, isGateway, derive, prefix), |ops| - 1;
      SequenceCountsFrames(selfId, isGateway, derive, prefix, ops[..n]);
      assert ops == ops[..n] + [ops[n]];
      RunOneMore(t0, ops[..n], ops[n]);
      NumberAfterCall(Run(t0, ops[..n]), ops[n]);
    }
  }

  lemma NumberAfterCall(t: Table, op: Op)
    ensures Perform(t, op).sequence == t.sequence + (if op.OpGenerate? then 1 else 0)
  {
    if op.OpUpdate? && Accepted(t, op.update, op.from) {
      EntriesKeepNumber(BeforeEntries(t, op.update, op.from, op.now), op.update.entries,
                        op.from, op.update.sequence, op.now);
    }
  }

  lemma {:induction false} EntriesKeepNumber(t: Table, entries: seq<Entry>, from: NodeId, sequence: nat, now: nat)
    ensures ApplyEntries(t, entries, from, sequence, now).sequence == t.sequence
  {
    if entries != [] { EntriesKeepNumber(t, entries[..|entries|-1], from, sequence, now); }
  }
}
