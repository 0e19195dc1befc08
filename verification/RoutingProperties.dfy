/**
 What the operations on one routing table guarantee: the invariant is kept, an
 accepted update is a pointwise Bellman-Ford step, and the reverse index agrees
 with a scan of the routes for as long as no collision has been counted.
 */
module RoutingProperties {
  import opened Wrappers
  import opened Routing

  // ---------------------------------------------------------------------
  // The invariant is kept

  lemma InsertKeepsIndexSound(t: Table, dst: NodeId, route: Route)
    requires IndexSound(t)
    ensures IndexSound(InsertRoute(t, dst, route))
  {
  }

  lemma RemoveKeepsValid(t: Table, dsts: set<NodeId>)
    requires Valid(t)
    ensures Valid(RemoveRoutes(t, dsts))
  {
    var t' := RemoveRoutes(t, dsts);
    forall d | d in t'.routes ensures RouteOk(t', d) {
      assert RouteOk(t, d);
    }
  }

  /** Adding a peer keeps the invariant exactly when the peer is another node. */
  lemma AddPeerKeepsValid(t: Table, peer: NodeId, now: nat)
    requires Valid(t)
    ensures Valid(AddPeer(t, peer, now)) <==> peer != t.selfId
  {
    var t' := AddPeer(t, peer, now);
    InsertKeepsIndexSound(t.(directPeers := t.directPeers + {peer}), peer, DirectRoute(peer, 0, now));
    assert peer in t'.routes;
    if peer != t.selfId {
      forall d | d in t'.routes ensures RouteOk(t', d) {
        assert d != peer ==> RouteOk(t, d);
      }
    } else {
      assert !RouteOk(t', peer);
    }
  }

  lemma RemovePeerKeepsValid(t: Table, peer: NodeId)
    requires Valid(t)
    ensures Valid(RemovePeer(t, peer))
    ensures Via(RemovePeer(t, peer), peer) == {}
  {
    var t' := RemovePeer(t, peer);
    forall d | d in t'.routes ensures RouteOk(t', d) {
      assert RouteOk(t, d);
      assert t.routes[d].nextHop != peer;
    }
  }

  /** What an update from `from` may leave behind between two passes of its loops. */
  predicate DuringUpdate(t: Table, from: NodeId, sequence: nat) {
    Valid(t) && from != t.selfId && sequence > 0 && MaxSeq(t, from) == sequence
  }

  lemma EntryKeepsValid(t: Table, e: Entry, from: NodeId, sequence: nat, now: nat)
    requires DuringUpdate(t, from, sequence)
    requires e.hops == 0 ==> e.destination == from
    ensures DuringUpdate(ApplyEntry(t, e, from, sequence, now), from, sequence)
  {
    var t' := ApplyEntry(t, e, from, sequence, now);
    RemoveKeepsValid(t, {e.destination});
    if e.destination != t.selfId && ThroughPeer(e.hops) < INFINITY {
      InsertKeepsIndexSound(t, e.destination, Replacement(Get(t.routes, e.destination), e, from, sequence, now));
      forall d | d in t'.routes ensures RouteOk(t', d) {
        if d in t.routes { assert RouteOk(t, d); }
      }
    }
  }

  lemma {:induction false} EntriesKeepValid(t: Table, entries: seq<Entry>, from: NodeId, sequence: nat, now: nat)
    requires DuringUpdate(t, from, sequence)
    requires forall i :: 0 <= i < |entries| && entries[i].hops == 0 ==> entries[i].destination == from
    ensures DuringUpdate(ApplyEntries(t, entries, from, sequence, now), from, sequence)
  {
    if entries != [] {
      EntriesKeepValid(t, entries[..|entries|-1], from, sequence, now);
      EntryKeepsValid(ApplyEntries(t, entries[..|entries|-1], from, sequence, now),
                      entries[|entries|-1], from, sequence, now);
    }
  }

  /** Recording a higher sequence number for a peer keeps the invariant. */
  lemma RecordKeepsValid(t: Table, from: NodeId, sequence: nat)
    requires Valid(t) && sequence > MaxSeq(t, from)
    ensures Valid(t.(peerMaxSeq := t.peerMaxSeq[from := sequence]))
  {
    var t0 := t.(peerMaxSeq := t.peerMaxSeq[from := sequence]);
    forall d | d in t0.routes ensures RouteOk(t0, d) {
      assert RouteOk(t, d);
    }
  }

  lemma TouchKeepsValid(t: Table, from: NodeId, sequence: nat, now: nat)
    requires DuringUpdate(t, from, sequence)
    ensures DuringUpdate(TouchSender(t, from, sequence, now), from, sequence)
  {
    var t' := TouchSender(t, from, sequence, now);
    InsertKeepsIndexSound(t, from, DirectRoute(from, sequence, now));
    forall d | d in t'.routes ensures RouteOk(t', d) {
      if d in t.routes { assert RouteOk(t, d); }
    }
  }

  lemma BeforeEntriesValid(t: Table, update: Frame, from: NodeId, now: nat)
    requires Valid(t) && from != t.selfId && Fresh(t, update, from)
    ensures DuringUpdate(BeforeEntries(t, update, from, now), from, update.sequence)
  {
    RecordKeepsValid(t, from, update.sequence);
    TouchKeepsValid(t.(peerMaxSeq := t.peerMaxSeq[from := update.sequence]), from, update.sequence, now);
  }

  /** Any frame from another node, forged or not, keeps the invariant. */
  lemma UpdateKeepsValid(t: Table, update: Frame, from: NodeId, now: nat)
    requires Valid(t) && from != t.selfId
    ensures Valid(ApplyUpdate(t, update, from, now))
  {
    if Fresh(t, update, from) {
      if Suspicious(update) {
        RecordKeepsValid(t, from, update.sequence);
      } else {
        BeforeEntriesValid(t, update, from, now);
        EntriesKeepValid(BeforeEntries(t, update, from, now), update.entries, from, update.sequence, now);
        var relaxed := AfterEntries(t, update, from, now);
        RemoveKeepsValid(relaxed, Withdrawn(relaxed, update.entries, from));
      }
    }
  }

  // ---------------------------------------------------------------------
  // An accepted update, destination by destination

  /** The line an update holds for `d`. */
  function Line(entries: seq<Entry>, d: NodeId): Option<Entry> {
    if entries == [] then None
    else if entries[|entries|-1].destination == d then Some(entries[|entries|-1])
    else Line(entries[..|entries|-1], d)
  }

  lemma {:induction false} LineIsListed(entries: seq<Entry>, d: NodeId)
    ensures Line(entries, d).Some? <==> Lists(entries, d)
    ensures Line(entries, d).Some? ==> Line(entries, d).value in entries && Line(entries, d).value.destination == d
  {
    if entries != [] {
      var init := entries[..|entries|-1];
      LineIsListed(init, d);
      if entries[|entries|-1].destination != d && Lists(entries, d) {
        var i :| 0 <= i < |entries| && entries[i].destination == d;
        assert init[i].destination == d;
      }
    }
  }

  /** With distinct destinations the line for `d` is the only one there is. */
  lemma LineIsUnique(entries: seq<Entry>, i: int)
    requires Distinct(entries) && 0 <= i < |entries|
    ensures Line(entries, entries[i].destination) == Some(entries[i])
  {
    LineIsListed(entries, entries[i].destination);
  }

  ghost predicate SameSetting(t: Table, t': Table) {
    t'.selfId == t.selfId && t'.isGateway == t.isGateway && t'.derive == t.derive && t'.prefix == t.prefix
    && t'.directPeers == t.directPeers && t'.sequence == t.sequence && t'.peerMaxSeq == t.peerMaxSeq
    && t'.blacklisted == t.blacklisted && t'.selfMeshIp == t.selfMeshIp
  }

  /** One destination's share of one pass of the relaxation loop. */
  function StepFor(cur: Option<Route>, line: Option<Entry>, from: NodeId, sequence: nat, now: nat,
                   ip: Addr): Option<Route> {
    if line.None? then cur
    else if ThroughPeer(line.value.hops) >= INFINITY then
      if cur.Some? && cur.value.nextHop == from then None else cur
    else if Replaces(cur, line.value, from, sequence) then
      Some(Replacement(cur, line.value, from, sequence, now).(meshIp := Some(ip)))
    else cur
  }

  /** The relaxation loop treats every destination on its own. */
  lemma {:induction false} EntriesPointwise(t: Table, entries: seq<Entry>, from: NodeId, sequence: nat, now: nat,
                                            d: NodeId)
    requires Distinct(entries)
    ensures SameSetting(t, ApplyEntries(t, entries, from, sequence, now))
    ensures Get(ApplyEntries(t, entries, from, sequence, now).routes, d)
         == if d == t.selfId then Get(t.routes, d)
            else StepFor(Get(t.routes, d), Line(entries, d), from, sequence, now, t.derive(d, t.prefix))
  {
    if entries != [] {
      var init, last := entries[..|entries|-1], entries[|entries|-1];
      EntriesPointwise(t, init, from, sequence, now, d);
      if last.destination == d {
        LineIsListed(init, d);
      }
    }
  }

  /**
   The Bellman-Ford rule: adopt the line if there is no route, if it is shorter, or
   if the route already goes through the sender; drop a route through the sender that
   is poisoned or no longer listed; otherwise keep what is there.
   */
  function BellmanFord(t: Table, d: NodeId, line: Option<Entry>, from: NodeId, sequence: nat, now: nat): Option<Route> {
    var cur := Get(t.routes, d);
    var viaSender := cur.Some? && cur.value.nextHop == from;
    if line.None? || ThroughPeer(line.value.hops) >= INFINITY then
      if viaSender then None else cur
    else if cur.None? || viaSender || ThroughPeer(line.value.hops) < cur.value.hops then
      Some(Replacement(cur, line.value, from, sequence, now).(meshIp := Some(t.derive(d, t.prefix))))
    else cur
  }

  lemma RelaxationIsStep(t: Table, update: Frame, from: NodeId, now: nat, d: NodeId)
    requires Distinct(update.entries) && d != from
    ensures Get(AfterEntries(t, update, from, now).routes, d)
         == if d == t.selfId then Get(t.routes, d)
            else StepFor(Get(t.routes, d), Line(update.entries, d), from, update.sequence, now, t.derive(d, t.prefix))
  {
    EntriesPointwise(BeforeEntries(t, update, from, now), update.entries, from, update.sequence, now, d);
  }

  lemma WithdrawalDrops(t: Table, entries: seq<Entry>, from: NodeId, d: NodeId)
    ensures Get(RemoveRoutes(t, Withdrawn(t, entries, from)).routes, d)
         == if d in t.routes && t.routes[d].learnedFrom == from && d != from && !Lists(entries, d) then None
            else Get(t.routes, d)
  {
  }

  /** An accepted update applies the Bellman-Ford rule at every destination but the sender. */
  lemma UpdateIsBellmanFord(t: Table, update: Frame, from: NodeId, now: nat, d: NodeId)
    requires RoutesOk(t) && Accepted(t, update, from) && Distinct(update.entries)
    requires d != from
    ensures Get(ApplyUpdate(t, update, from, now).routes, d)
         == if d == t.selfId then None
            else BellmanFord(t, d, Line(update.entries, d), from, update.sequence, now)
  {
    RelaxationIsStep(t, update, from, now, d);
    WithdrawalDrops(AfterEntries(t, update, from, now), update.entries, from, d);
    LineIsListed(update.entries, d);
    if d in t.routes { assert RouteOk(t, d); }
  }

  /** The sender's own route: refreshed or installed, then offered its own line. */
  function SenderRoute(t: Table, line: Option<Entry>, from: NodeId, sequence: nat, now: nat): Option<Route> {
    var ip := t.derive(from, t.prefix);
    var touched := if from in t.routes then t.routes[from].(lastSeen := now)
                   else DirectRoute(from, sequence, now).(meshIp := Some(ip));
    StepFor(Some(touched), line, from, sequence, now, ip)
  }

  lemma UpdateAtSender(t: Table, update: Frame, from: NodeId, now: nat)
    requires Accepted(t, update, from) && Distinct(update.entries) && from != t.selfId
    ensures Get(ApplyUpdate(t, update, from, now).routes, from)
         == SenderRoute(t, Line(update.entries, from), from, update.sequence, now)
  {
    EntriesPointwise(BeforeEntries(t, update, from, now), update.entries, from, update.sequence, now, from);
  }

  lemma LineCarriesOver(entries: seq<Entry>, shuffled: seq<Entry>, d: NodeId)
    requires Distinct(shuffled) && multiset(entries) == multiset(shuffled)
    requires Line(entries, d).Some?
    ensures Line(shuffled, d) == Line(entries, d)
  {
    LineIsListed(entries, d);
    var e := Line(entries, d).value;
    assert e in multiset(entries);
    assert e in shuffled;
    var i :| 0 <= i < |shuffled| && shuffled[i] == e;
    LineIsUnique(shuffled, i);
  }

  lemma LineIgnoresOrder(entries: seq<Entry>, shuffled: seq<Entry>, d: NodeId)
    requires Distinct(entries) && Distinct(shuffled) && multiset(entries) == multiset(shuffled)
    ensures Line(entries, d) == Line(shuffled, d)
  {
    if Line(entries, d).Some? {
      LineCarriesOver(entries, shuffled, d);
    } else if Line(shuffled, d).Some? {
      LineCarriesOver(shuffled, entries, d);
    }
  }

  /** The order in which an update lists its destinations does not change the routes. */
  lemma UpdateIgnoresOrder(t: Table, update: Frame, shuffled: seq<Entry>, from: NodeId, now: nat)
    requires RoutesOk(t) && from != t.selfId && Accepted(t, update, from)
    requires Distinct(update.entries) && Distinct(shuffled) && multiset(update.entries) == multiset(shuffled)
    ensures ApplyUpdate(t, update.(entries := shuffled), from, now).routes == ApplyUpdate(t, update, from, now).routes
  {
    var other := update.(entries := shuffled);
    assert !Suspicious(other) by {
      assert forall i :: 0 <= i < |shuffled| ==> shuffled[i] in multiset(update.entries);
    }
    var r, r' := ApplyUpdate(t, update, from, now).routes, ApplyUpdate(t, other, from, now).routes;
    forall d ensures Get(r, d) == Get(r', d) {
      LineIgnoresOrder(update.entries, shuffled, d);
      if d == from {
        UpdateAtSender(t, update, from, now);
        UpdateAtSender(t, other, from, now);
      } else {
        UpdateIsBellmanFord(t, update, from, now, d);
        UpdateIsBellmanFord(t, other, from, now, d);
      }
    }
    GetDetermines(r, r');
  }

  lemma GetDetermines<K(!new), V>(m: map<K, V>, m': map<K, V>)
    requires forall k :: Get(m, k) == Get(m', k)
    ensures m == m'
  {
    forall k ensures k in m <==> k in m' {
      assert Get(m, k) == Get(m', k);
    }
    forall k | k in m ensures m[k] == m'[k] {
      assert Get(m, k) == Get(m', k);
    }
  }

  // ---------------------------------------------------------------------
  // When an update is reported as a change

  lemma {:induction false} EntriesChangePointwise(t: Table, entries: seq<Entry>, from: NodeId, sequence: nat, now: nat)
    requires Distinct(entries)
    ensures EntriesChange(t, entries, from, sequence, now)
       <==> exists i :: 0 <= i < |entries| && EntryChanges(t, entries[i], from, sequence)
  {
    if entries != [] {
      var init, last := entries[..|entries|-1], entries[|entries|-1];
      EntriesChangePointwise(t, init, from, sequence, now);
      EntriesPointwise(t, init, from, sequence, now, last.destination);
      LineIsListed(init, last.destination);
      var mid := ApplyEntries(t, init, from, sequence, now);
      assert EntryChanges(mid, last, from, sequence) <==> EntryChanges(t, last, from, sequence);
      assert forall i :: 0 <= i < |init| ==> init[i] == entries[i];
      assert last == entries[|entries|-1];
    }
  }

  /** A route appeared or vanished, got shorter, or its gateway flag flipped. */
  predicate Reported(before: Option<Route>, after: Option<Route>) {
    || before.Some? != after.Some?
    || (before.Some? && (after.value.hops < before.value.hops || after.value.isGateway != before.value.isGateway))
  }

  /** A pass of the loop that asks for no triggered update changes no route reportably. */
  lemma {:induction false} QuietEntries(t: Table, entries: seq<Entry>, from: NodeId, sequence: nat, now: nat, d: NodeId)
    requires !EntriesChange(t, entries, from, sequence, now)
    ensures !Reported(Get(t.routes, d), Get(ApplyEntries(t, entries, from, sequence, now).routes, d))
  {
    if entries != [] {
      QuietEntries(t, entries[..|entries|-1], from, sequence, now, d);
    }
  }

  /** No reportable change is missed, whatever the frame: lines may repeat, the sender may lie about itself. */
  lemma ReportedIsChanged(t: Table, update: Frame, from: NodeId, now: nat, d: NodeId)
    requires Accepted(t, update, from)
    requires Reported(Get(t.routes, d), Get(ApplyUpdate(t, update, from, now).routes, d))
    ensures ApplyUpdateResult(t, update, from, now) == Changed
  {
    if ApplyUpdateResult(t, update, from, now) == Unchanged {
      QuietEntries(BeforeEntries(t, update, from, now), update.entries, from, update.sequence, now, d);
      WithdrawalDrops(AfterEntries(t, update, from, now), update.entries, from, d);
    }
  }

  /**
   `Changed` is returned exactly when the sender had no route or some route appeared, vanished, got
   shorter or flipped its gateway flag. A route that only got longer is not reported.
   */
  lemma ChangedExactly(t: Table, update: Frame, from: NodeId, now: nat)
    requires Valid(t) && from != t.selfId && Accepted(t, update, from)
    requires Distinct(update.entries)
    ensures ApplyUpdateResult(t, update, from, now) == Changed
       <==> || from !in t.routes
            || exists d :: Reported(Get(t.routes, d), Get(ApplyUpdate(t, update, from, now).routes, d))
  {
    var routes' := ApplyUpdate(t, update, from, now).routes;
    if d :| Reported(Get(t.routes, d), Get(routes', d)) {
      ReportedIsChanged(t, update, from, now, d);
    }
    if ApplyUpdateResult(t, update, from, now) == Changed && from in t.routes {
      var d := ChangedWitness(t, update, from, now);
    }
  }

  /** A line asks for a triggered update before the sender was touched exactly when it does so afterwards. */
  lemma ChangesBeforehand(t: Table, update: Frame, from: NodeId, now: nat, e: Entry)
    requires from in t.routes
    ensures EntryChanges(BeforeEntries(t, update, from, now), e, from, update.sequence)
       <==> EntryChanges(t, e, from, update.sequence)
  {
  }

  /** What will be withdrawn can be read off the table before the call. */
  lemma WithdrawnBeforehand(t: Table, update: Frame, from: NodeId, now: nat)
    requires RoutesOk(t) && Distinct(update.entries)
    ensures Withdrawn(AfterEntries(t, update, from, now), update.entries, from) == Withdrawn(t, update.entries, from)
  {
    var relaxed := AfterEntries(t, update, from, now);
    forall d | d != from && !Lists(update.entries, d) ensures Get(relaxed.routes, d) == Get(t.routes, d) {
      LineIsListed(update.entries, d);
      RelaxationIsStep(t, update, from, now, d);
    }
    forall d ensures d in Withdrawn(relaxed, update.entries, from) <==> d in Withdrawn(t, update.entries, from) {
      if d != from && !Lists(update.entries, d) { assert Get(relaxed.routes, d) == Get(t.routes, d); }
    }
  }

  /** Whether `Changed` will be returned, in terms of the frame and the table before the call. */
  lemma ChangedBeforehand(t: Table, update: Frame, from: NodeId, now: nat)
    requires Valid(t) && Accepted(t, update, from) && Distinct(update.entries)
    ensures ApplyUpdateResult(t, update, from, now) == Changed
       <==> || from !in t.routes
            || (exists i :: 0 <= i < |update.entries| && EntryChanges(t, update.entries[i], from, update.sequence))
            || Withdrawn(t, update.entries, from) != {}
  {
    if from in t.routes {
      EntriesChangePointwise(BeforeEntries(t, update, from, now), update.entries, from, update.sequence, now);
      forall i | 0 <= i < |update.entries|
        ensures EntryChanges(BeforeEntries(t, update, from, now), update.entries[i], from, update.sequence)
           <==> EntryChanges(t, update.entries[i], from, update.sequence)
      {
        ChangesBeforehand(t, update, from, now, update.entries[i]);
      }
      WithdrawnBeforehand(t, update, from, now);
    }
  }

  lemma ChangedWitness(t: Table, update: Frame, from: NodeId, now: nat) returns (d: NodeId)
    requires Valid(t) && from != t.selfId && Accepted(t, update, from)
    requires Distinct(update.entries) && from in t.routes
    requires ApplyUpdateResult(t, update, from, now) == Changed
    ensures Reported(Get(t.routes, d), Get(ApplyUpdate(t, update, from, now).routes, d))
  {
    var before, relaxed := BeforeEntries(t, update, from, now), AfterEntries(t, update, from, now);
    EntriesChangePointwise(before, update.entries, from, update.sequence, now);
    if i :| 0 <= i < |update.entries| && EntryChanges(before, update.entries[i], from, update.sequence) {
      d := update.entries[i].destination;
      LineIsUnique(update.entries, i);
      if d in t.routes { assert RouteOk(t, d); }
      if d == from { UpdateAtSender(t, update, from, now); } else { UpdateIsBellmanFord(t, update, from, now, d); }
    } else {
      d :| d in Withdrawn(relaxed, update.entries, from);
      RelaxationIsStep(t, update, from, now, d);
      LineIsListed(update.entries, d);
      WithdrawalDrops(relaxed, update.entries, from, d);
    }
  }

  // ---------------------------------------------------------------------
  // Field by field

  /** The line for `d` is adopted: a finite path where there was none, or none as short, or one via the sender. */
  predicate Adopts(t: Table, entries: seq<Entry>, from: NodeId, d: NodeId) {
    var line := Line(entries, d);
    && line.Some? && line.value.hops + 1 < 16
    && (d !in t.routes || t.routes[d].nextHop == from || line.value.hops + 1 < t.routes[d].hops)
  }

  /** The route that comes of a line, field by field; load and latency outlive a gateway's refresh. */
  predicate RouteOfLine(t: Table, d: NodeId, line: Entry, from: NodeId, sequence: nat, now: nat, r: Route) {
    && r.nextHop == from && r.learnedFrom == from && r.hops == line.hops + 1
    && r.isGateway == line.isGateway && r.sequence == sequence && r.lastSeen == now
    && r.meshIp == Some(t.derive(d, t.prefix))
    && if d in t.routes && t.routes[d].isGateway && line.hops + 1 >= t.routes[d].hops
       then r.gatewayLoad == t.routes[d].gatewayLoad && r.rttMs == t.routes[d].rttMs
       else r.gatewayLoad == 0 && r.rttMs == None
  }

  /** What an accepted update leaves for a destination other than the sender: adopted, dropped or as it was. */
  lemma UpdateFieldByField(t: Table, update: Frame, from: NodeId, now: nat, d: NodeId)
    requires RoutesOk(t) && Accepted(t, update, from) && Distinct(update.entries) && d != from && d != t.selfId
    ensures var routes', line := ApplyUpdate(t, update, from, now).routes, Line(update.entries, d);
      if Adopts(t, update.entries, from, d)
      then d in routes' && RouteOfLine(t, d, line.value, from, update.sequence, now, routes'[d])
      else if d in t.routes && t.routes[d].nextHop == from then d !in routes'
      else Get(routes', d) == Get(t.routes, d)
  {
    UpdateIsBellmanFord(t, update, from, now, d);
  }

  /**
   And for the sender. If it had a route, its own line is treated like any other, and a route that is kept
   is renewed. If it had none, it gets a plain direct route, whatever its line says, unless that is poisoned.
   */
  lemma SenderFieldByField(t: Table, update: Frame, from: NodeId, now: nat)
    requires Valid(t) && from != t.selfId && Accepted(t, update, from) && Distinct(update.entries)
    ensures var routes', line := ApplyUpdate(t, update, from, now).routes, Line(update.entries, from);
      var poisoned := line.Some? && line.value.hops + 1 >= 16;
      if from in t.routes && Adopts(t, update.entries, from, from)
      then from in routes' && RouteOfLine(t, from, line.value, from, update.sequence, now, routes'[from])
      else if from in t.routes then
        if poisoned && t.routes[from].nextHop == from then from !in routes'
        else from in routes' && routes'[from] == t.routes[from].(lastSeen := now)
      else if poisoned then from !in routes'
      else
        from in routes'
        && routes'[from] == Route(from, 1, false, now, from, update.sequence, 0, None, Some(t.derive(from, t.prefix)))
  {
    UpdateAtSender(t, update, from, now);
    if from in t.routes { assert RouteOk(t, from); }
  }

  /** A peer is added as a direct route, and no other route changes. */
  lemma AddPeerFieldByField(t: Table, peer: NodeId, now: nat, d: NodeId)
    ensures var t' := AddPeer(t, peer, now);
      && t'.directPeers == t.directPeers + {peer} && t'.peerMaxSeq == t.peerMaxSeq
      && Get(t'.routes, d)
         == if d == peer then Some(Route(peer, 1, false, now, peer, 0, 0, None, Some(t.derive(peer, t.prefix))))
            else Get(t.routes, d)
  {
  }

  /** Removing a peer drops the routes through it, and no others. */
  lemma RemovePeerExactly(t: Table, peer: NodeId, d: NodeId)
    ensures var t' := RemovePeer(t, peer);
      && t'.directPeers == t.directPeers - {peer} && t'.peerMaxSeq == t.peerMaxSeq - {peer}
      && Get(t'.routes, d)
         == if d in t.routes && t.routes[d].nextHop == peer then None else Get(t.routes, d)
  {
  }

  /** Blacklisting a peer drops the routes through it, and no others, and hides what comes through it later. */
  lemma BlacklistExactly(t: Table, peer: NodeId, d: NodeId)
    ensures var t' := BlacklistPeer(t, peer);
      && t'.blacklisted == t.blacklisted + {peer} && t'.directPeers == t.directPeers
      && Get(t'.routes, d)
         == if d in t.routes && t.routes[d].nextHop == peer then None else Get(t.routes, d)
  {
  }

  /** The way to a destination is the next hop of its route, unless that hop is blacklisted. */
  lemma LookupExactly(t: Table, d: NodeId, hop: NodeId)
    requires Valid(t)
    ensures Lookup(t, d) == Some(hop) <==> d in t.routes && t.routes[d].nextHop == hop && hop !in t.blacklisted
  {
    if d in t.routes { assert RouteOk(t, d); }
  }

  /** A route expires exactly when it was last renewed more than `maxAge` ago; no other route changes. */
  lemma ExpireExactly(t: Table, maxAge: nat, now: nat, d: NodeId)
    ensures Get(ExpireStale(t, maxAge, now).routes, d)
         == if d in t.routes && now > t.routes[d].lastSeen + maxAge then None else Get(t.routes, d)
  {
  }
}
