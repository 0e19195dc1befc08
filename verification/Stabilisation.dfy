/**
 Recovery after any change: once the links stay fixed, whatever the tables hold, stale routes are
 gone after 15 rounds and after 31 rounds every table holds exactly the shortest paths.
 */
module Stabilisation {
  import opened Wrappers
  import opened Routing
  import opened RoutingProperties
  import opened RoutingRuns
  import opened Mesh
  import opened Rounds
  import opened Convergence

  // ---------------------------------------------------------------------
  // What one neighbour's frame does

  /** The hop count `tp` offers its neighbour `n` for `d`: nothing that leads back or is out of range. */
  function Offer(tp: Table, n: NodeId, d: NodeId): Option<nat> {
    if d == n then None
    else if d == tp.selfId then Some(0)
    else if d in tp.routes && tp.routes[d].learnedFrom != n && tp.routes[d].hops < 15 then Some(tp.routes[d].hops)
    else None
  }

  /** `r` is the same path as `cur`. */
  predicate SamePath(cur: Option<Route>, r: Option<Route>) {
    cur.Some? == r.Some? && (r.Some? ==> r.value.nextHop == cur.value.nextHop && r.value.hops == cur.value.hops)
  }

  /** The route to `d` after hearing `p`: its offer if adopted, nothing if `p` took it back, else as before. */
  predicate Outcome(cur: Option<Route>, offer: Option<nat>, p: NodeId, r: Option<Route>) {
    var viaP := cur.Some? && cur.value.nextHop == p;
    if offer.Some? && (cur.None? || viaP || offer.value + 1 < cur.value.hops) then
      r.Some? && r.value.nextHop == p && r.value.hops == offer.value + 1
    else if viaP then r.None?
    else SamePath(cur, r)
  }

  lemma OutcomeAtSender(t: Table, tp: Table, f: Frame, now: nat)
    requires Valid(t) && t.selfId != tp.selfId
    requires Advertisement(tp, t.selfId, f) && Accepted(t, f, tp.selfId)
    ensures Outcome(Get(t.routes, tp.selfId), Offer(tp, t.selfId, tp.selfId), tp.selfId,
                    Get(ApplyUpdate(t, f, tp.selfId, now).routes, tp.selfId))
  {
    if tp.selfId in t.routes { assert RouteOk(t, tp.selfId); }
    LineIsUnique(f.entries, 0);
    UpdateAtSender(t, f, tp.selfId, now);
  }

  /** Hearing an advertisement has the same outcome for every destination: adopt, drop or keep. */
  lemma HearingOutcome(t: Table, tp: Table, f: Frame, now: nat, d: NodeId)
    requires Valid(t) && Valid(tp) && t.selfId != tp.selfId && d != t.selfId
    requires Advertisement(tp, t.selfId, f) && Accepted(t, f, tp.selfId)
    ensures Outcome(Get(t.routes, d), Offer(tp, t.selfId, d), tp.selfId,
                    Get(ApplyUpdate(t, f, tp.selfId, now).routes, d))
  {
    if d == tp.selfId {
      OutcomeAtSender(t, tp, f, now);
    } else {
      if d in t.routes { assert RouteOk(t, d); }
      if d in tp.routes { assert RouteOk(tp, d); }
      LineOfAdvertisement(tp, t.selfId, f, d);
      UpdateIsBellmanFord(t, f, tp.selfId, now, d);
    }
  }

  // ---------------------------------------------------------------------
  // Where the routes of a round come from

  /** All next hops are neighbours. */
  ghost predicate Linked(links: Links, t: Table) {
    forall d :: d in t.routes ==> (t.selfId, t.routes[d].nextHop) in links
  }

  /** A network about to run rounds on `links`. */
  ghost predicate Ready(links: Links, s: Tables) {
    Steady(links, s) && forall n :: n in s ==> Linked(links, s[n])
  }

  /** A route through a neighbour already heard repeats its offer; any other is left from before the round. */
  predicate Traced(s: Tables, n: NodeId, t: Table, heard: set<NodeId>, d: NodeId)
    requires n in s && d in t.routes
  {
    var r := t.routes[d];
    if r.nextHop in heard then r.nextHop in s && r.hops >= 1 && Offer(s[r.nextHop], n, d) == Some(r.hops - 1)
    else SamePath(Get(s[n].routes, d), Some(r))
  }

  predicate AllTraced(s: Tables, n: NodeId, t: Table, heard: set<NodeId>)
    requires n in s
  {
    forall d :: d in t.routes ==> Traced(s, n, t, heard, d)
  }

  lemma OutcomeIsTraced(s: Tables, n: NodeId, t: Table, t': Table, heard: set<NodeId>, p: NodeId, d: NodeId)
    requires n in s && p in s && p !in heard && d in t'.routes && (d in t.routes ==> Traced(s, n, t, heard, d))
    requires Outcome(Get(t.routes, d), Offer(s[p], n, d), p, Get(t'.routes, d))
    ensures Traced(s, n, t', heard + {p}, d)
  {
  }

  lemma DeliveredRouteIsTraced(s: Tables, t: Table, tp: Table, heard: set<NodeId>, delivery: Delivery, d: NodeId)
    requires Valid(t) && Valid(tp) && t.selfId in s && delivery.from in s && s[delivery.from].selfId == delivery.from
    requires tp == s[delivery.from].(sequence := tp.sequence) && delivery.from !in heard + {t.selfId} && d != t.selfId
    requires Advertisement(tp, t.selfId, delivery.frame) && Accepted(t, delivery.frame, delivery.from)
    requires d in t.routes ==> Traced(s, t.selfId, t, heard, d)
    requires d in ApplyUpdate(t, delivery.frame, delivery.from, delivery.now).routes
    ensures Traced(s, t.selfId, ApplyUpdate(t, delivery.frame, delivery.from, delivery.now), heard + {delivery.from}, d)
  {
    HearingOutcome(t, tp, delivery.frame, delivery.now, d);
    assert Offer(tp, t.selfId, d) == Offer(s[delivery.from], t.selfId, d);
    var t' := ApplyUpdate(t, delivery.frame, delivery.from, delivery.now);
    OutcomeIsTraced(s, t.selfId, t, t', heard, delivery.from, d);
  }

  lemma DeliveryIsTraced(links: Links, s: Tables, n: NodeId, t: Table, heard: set<NodeId>, delivery: Delivery)
    requires Steady(links, s) && n in s && NextDelivery(links, s, n, heard, delivery)
    requires Booked(links, s, n, t, heard) && AllTraced(s, n, t, heard)
    ensures AllTraced(s, n, ApplyUpdate(t, delivery.frame, delivery.from, delivery.now), heard + {delivery.from})
    ensures Booked(links, s, n, ApplyUpdate(t, delivery.frame, delivery.from, delivery.now), heard + {delivery.from})
  {
    var p, t' := delivery.from, ApplyUpdate(t, delivery.frame, delivery.from, delivery.now);
    var tp := DeliveryIsBooked(links, s, n, t, heard, delivery);
    forall d | d in t'.routes ensures Traced(s, n, t', heard + {p}, d) {
      assert RouteOk(t', d);
      DeliveredRouteIsTraced(s, t, tp, heard, delivery, d);
    }
  }

  lemma {:induction false} InboxIsTraced(links: Links, s: Tables, n: NodeId, inbox: seq<Delivery>)
    requires Steady(links, s) && n in s && n !in Neighbours(links, n) && PartialInbox(links, s, n, inbox)
    ensures Booked(links, s, n, Receive(Announced(s[n]), inbox), Senders(inbox))
    ensures AllTraced(s, n, Receive(Announced(s[n]), inbox), Senders(inbox))
  {
    if inbox == [] {
      BooksOpen(links, s, n);
    } else {
      var init, last := inbox[..|inbox|-1], inbox[|inbox|-1];
      assert PartialInbox(links, s, n, init);
      InboxIsTraced(links, s, n, init);
      SendersSplit(inbox);
      DeliveryIsTraced(links, s, n, Receive(Announced(s[n]), init), Senders(init), last);
    }
  }

  /** After a round every route goes through a neighbour and is one hop longer than what it offered. */
  ghost predicate Sourced(links: Links, s: Tables, t: Table) {
    forall d :: d in t.routes ==>
      var r := t.routes[d];
      && (t.selfId, r.nextHop) in links && r.nextHop in s
      && r.hops >= 1 && Offer(s[r.nextHop], t.selfId, d) == Some(r.hops - 1)
  }

  lemma RoundSources(nodes: set<NodeId>, links: Links, s: Tables, s': Tables)
    requires Topology(nodes, links) && s.Keys == nodes && Ready(links, s) && Round(links, s, s')
    ensures Ready(links, s') && forall n :: n in s' ==> Sourced(links, s, s'[n])
  {
    forall n | n in s
      ensures Booked(links, s, n, s'[n], Neighbours(links, n)) && Sourced(links, s, s'[n])
    {
      assert (n, n) !in links;
      var inbox :| FullInbox(links, s, n, inbox) && s'[n] == Receive(Announced(s[n]), inbox);
      InboxIsTraced(links, s, n, inbox);
      AllHeard(links, s, n, inbox);
      forall d | d in s'[n].routes ensures s'[n].routes[d].nextHop in Neighbours(links, n) {
        assert Traced(s, n, s'[n], Neighbours(links, n), d);
        assert d in s[n].routes ==> (n, s[n].routes[d].nextHop) in links;
      }
    }
    BooksBalance(links, s, s');
  }

  // ---------------------------------------------------------------------
  // Stale routes age out

  /** There is a walk of at most `k` links. */
  ghost predicate Reaches(links: Links, a: NodeId, b: NodeId, k: nat) {
    exists j: nat :: j <= k && Walk(links, a, b, j)
  }

  lemma ReachesFurther(links: Links, n: NodeId, p: NodeId, d: NodeId, k: nat)
    requires (n, p) in links && Reaches(links, p, d, k)
    ensures Reaches(links, n, d, k + 1)
  {
    var j: nat :| j <= k && Walk(links, p, d, j);
    assert Walk(links, n, d, j + 1);
  }

  /** After `k` rounds a route either is no shorter than the true distance or claims more than `k` hops. */
  ghost predicate Aged(links: Links, t: Table, k: nat) {
    forall d :: d in t.routes ==> Reaches(links, t.selfId, d, t.routes[d].hops) || t.routes[d].hops > k
  }

  lemma RoutesAge(links: Links, s: Tables, t: Table, k: nat)
    requires Steady(links, s) && Sourced(links, s, t) && forall n :: n in s ==> Aged(links, s[n], k)
    ensures Aged(links, t, k + 1)
  {
    var n := t.selfId;
    forall d | d in t.routes ensures Reaches(links, n, d, t.routes[d].hops) || t.routes[d].hops > k + 1 {
      var p := t.routes[d].nextHop;
      if d == p {
        assert Walk(links, d, d, 0) && Reaches(links, p, d, 0);
        ReachesFurther(links, n, p, d, 0);
      } else if Reaches(links, p, d, s[p].routes[d].hops) {
        ReachesFurther(links, n, p, d, s[p].routes[d].hops);
      }
    }
  }

  /** No route is shorter than the true distance. */
  ghost predicate Sober(links: Links, t: Table) {
    forall d :: d in t.routes ==> Reaches(links, t.selfId, d, t.routes[d].hops)
  }

  ghost predicate AllSober(links: Links, s: Tables) {
    forall n :: n in s ==> Sober(links, s[n])
  }

  lemma AgedOut(links: Links, t: Table, k: nat)
    requires Valid(t) && Aged(links, t, k) && k >= 15
    ensures Sober(links, t)
  {
    forall d | d in t.routes ensures Reaches(links, t.selfId, d, t.routes[d].hops) {
      assert RouteOk(t, d);
    }
  }

  // ---------------------------------------------------------------------
  // Shortest paths spread out

  /** A route as short as possible leads to a node one hop closer. */
  ghost predicate Tight(links: Links, t: Table) {
    forall d :: d in t.routes && AtDistance(links, t.selfId, d, t.routes[d].hops) ==>
      t.routes[d].hops >= 1 && AtDistance(links, t.routes[d].nextHop, d, t.routes[d].hops - 1)
  }

  /** If a neighbour reaches `d` within one hop less than the distance, it is exactly one hop closer. */
  lemma CloserExactly(links: Links, n: NodeId, p: NodeId, d: NodeId, h: nat)
    requires (n, p) in links && h >= 1 && AtDistance(links, n, d, h) && Reaches(links, p, d, h - 1)
    ensures AtDistance(links, p, d, h - 1)
  {
    var j: nat :| j <= h - 1 && Walk(links, p, d, j);
    var i := WalkHasDistance(links, p, d, j);
    var i' := NeighbourDistance(links, n, p, d, i);
    DistanceIsUnique(links, n, d, h, i');
  }

  /** A reachable offer is never below the neighbour's distance. */
  lemma OfferReaches(links: Links, tp: Table, n: NodeId, d: NodeId)
    requires Sober(links, tp) && Offer(tp, n, d).Some?
    ensures Reaches(links, tp.selfId, d, Offer(tp, n, d).value)
  {
    if d == tp.selfId { assert Walk(links, d, d, 0); }
  }

  lemma SourcedIsTight(links: Links, s: Tables, t: Table)
    requires Steady(links, s) && Sourced(links, s, t) && AllSober(links, s)
    ensures Tight(links, t)
  {
    forall d | d in t.routes && AtDistance(links, t.selfId, d, t.routes[d].hops)
      ensures t.routes[d].hops >= 1 && AtDistance(links, t.routes[d].nextHop, d, t.routes[d].hops - 1)
    {
      var p := t.routes[d].nextHop;
      OfferReaches(links, s[p], t.selfId, d);
      CloserExactly(links, t.selfId, p, d, t.routes[d].hops);
    }
  }

  /** All destinations up to distance `h` have their shortest path. */
  ghost predicate CorrectUpTo(links: Links, t: Table, h: nat) {
    forall d, j :: 1 <= j <= h && AtDistance(links, t.selfId, d, j) ==> HasShortest(links, t, d, j)
  }

  ghost predicate HasShortest(links: Links, t: Table, d: NodeId, j: nat) {
    j >= 1 && d in t.routes && t.routes[d].hops == j && AtDistance(links, t.routes[d].nextHop, d, j - 1)
  }

  /** Part-way through a round: nothing too short, and the shortest path once a closer neighbour was heard. */
  ghost predicate Homing(links: Links, t: Table, d: NodeId, h: nat, heard: set<NodeId>) {
    && (d in t.routes ==> t.routes[d].hops > h)
    && (d in t.routes && t.routes[d].hops == h + 1 ==> AtDistance(links, t.routes[d].nextHop, d, h))
    && ((exists p :: p in heard && AtDistance(links, p, d, h)) ==> d in t.routes && t.routes[d].hops == h + 1)
  }

  /** What is known of a neighbour's offer to a node at distance `h + 1`: exact from a closer one, else longer. */
  ghost predicate FairOffer(links: Links, tp: Table, n: NodeId, d: NodeId, h: nat) {
    var o := Offer(tp, n, d);
    && (o.Some? ==> o.value >= h)
    && (o == Some(h) <==> AtDistance(links, tp.selfId, d, h))
  }

  lemma OfferIsNotShort(links: Links, tp: Table, n: NodeId, d: NodeId, h: nat)
    requires Sober(links, tp) && (n, tp.selfId) in links && AtDistance(links, n, d, h + 1) && Offer(tp, n, d).Some?
    ensures Offer(tp, n, d).value >= h
    ensures Offer(tp, n, d).value == h ==> AtDistance(links, tp.selfId, d, h)
  {
    OfferReaches(links, tp, n, d);
    var j: nat :| j <= Offer(tp, n, d).value && Walk(links, tp.selfId, d, j);
    assert Walk(links, n, d, j + 1);
    if Offer(tp, n, d).value == h { CloserExactly(links, n, tp.selfId, d, h + 1); }
  }

  lemma CloserNeighbourOffers(links: Links, tp: Table, n: NodeId, d: NodeId, h: nat)
    requires Valid(tp) && CorrectUpTo(links, tp, h) && h < 15
    requires AtDistance(links, n, d, h + 1) && AtDistance(links, tp.selfId, d, h)
    ensures Offer(tp, n, d) == Some(h)
  {
    assert d != n by { assert Walk(links, n, n, 0); }
    if d == tp.selfId {
      assert Walk(links, d, d, 0);
    } else {
      assert h >= 1;
      assert HasShortest(links, tp, d, h) && RouteOk(tp, d);
      assert tp.routes[d].nextHop != n;
    }
  }

  lemma OffersAreFair(links: Links, tp: Table, n: NodeId, d: NodeId, h: nat)
    requires Valid(tp) && Sober(links, tp) && CorrectUpTo(links, tp, h) && (n, tp.selfId) in links
    requires h < 15 && AtDistance(links, n, d, h + 1)
    ensures FairOffer(links, tp, n, d, h)
  {
    if Offer(tp, n, d).Some? { OfferIsNotShort(links, tp, n, d, h); }
    if AtDistance(links, tp.selfId, d, h) { CloserNeighbourOffers(links, tp, n, d, h); }
  }

  lemma OutcomeIsHoming(links: Links, t: Table, t': Table, tp: Table, d: NodeId, h: nat, heard: set<NodeId>)
    requires Homing(links, t, d, h, heard) && FairOffer(links, tp, t.selfId, d, h)
    requires Outcome(Get(t.routes, d), Offer(tp, t.selfId, d), tp.selfId, Get(t'.routes, d))
    ensures Homing(links, t', d, h, heard + {tp.selfId})
  {
    if p :| p in heard + {tp.selfId} && AtDistance(links, p, d, h) {
      assert p in heard || p == tp.selfId;
    }
  }

  /** A start-of-round table that has its shortest paths up to distance `h` and nothing too short. */
  ghost predicate Prepared(links: Links, t: Table, h: nat) {
    Sober(links, t) && Tight(links, t) && CorrectUpTo(links, t, h)
  }

  ghost predicate AllPrepared(links: Links, s: Tables, h: nat) {
    forall n :: n in s ==> Prepared(links, s[n], h)
  }

  lemma DeliveryHomes(links: Links, s: Tables, n: NodeId, t: Table, heard: set<NodeId>, delivery: Delivery, d: NodeId,
                      h: nat)
    requires Steady(links, s) && AllPrepared(links, s, h) && n in s && NextDelivery(links, s, n, heard, delivery)
    requires Booked(links, s, n, t, heard) && h < 15 && AtDistance(links, n, d, h + 1) && Homing(links, t, d, h, heard)
    ensures Homing(links, ApplyUpdate(t, delivery.frame, delivery.from, delivery.now), d, h, heard + {delivery.from})
    ensures Booked(links, s, n, ApplyUpdate(t, delivery.frame, delivery.from, delivery.now), heard + {delivery.from})
  {
    var tp := DeliveryIsBooked(links, s, n, t, heard, delivery);
    assert d != n by { assert Walk(links, n, n, 0); }
    HearingOutcome(t, tp, delivery.frame, delivery.now, d);
    assert Prepared(links, s[delivery.from], h);
    OffersAreFair(links, s[delivery.from], n, d, h);
    assert Offer(tp, n, d) == Offer(s[delivery.from], n, d);
    OutcomeIsHoming(links, t, ApplyUpdate(t, delivery.frame, delivery.from, delivery.now), tp, d, h, heard);
  }

  lemma StartHomes(links: Links, t: Table, d: NodeId, h: nat)
    requires Sober(links, t) && Tight(links, t) && AtDistance(links, t.selfId, d, h + 1)
    ensures Homing(links, Announced(t), d, h, {})
  {
    if d in t.routes {
      var j: nat :| j <= t.routes[d].hops && Walk(links, t.selfId, d, j);
    }
  }

  lemma {:induction false} InboxHomes(links: Links, s: Tables, n: NodeId, inbox: seq<Delivery>, d: NodeId, h: nat)
    requires Steady(links, s) && AllPrepared(links, s, h) && n in s && n !in Neighbours(links, n)
    requires PartialInbox(links, s, n, inbox) && h < 15 && AtDistance(links, n, d, h + 1)
    ensures Booked(links, s, n, Receive(Announced(s[n]), inbox), Senders(inbox))
    ensures Homing(links, Receive(Announced(s[n]), inbox), d, h, Senders(inbox))
  {
    if inbox == [] {
      BooksOpen(links, s, n);
      assert Prepared(links, s[n], h);
      StartHomes(links, s[n], d, h);
      assert Senders(inbox) == {};
    } else {
      var init, last := inbox[..|inbox|-1], inbox[|inbox|-1];
      assert PartialInbox(links, s, n, init);
      InboxHomes(links, s, n, init, d, h);
      SendersSplit(inbox);
      DeliveryHomes(links, s, n, Receive(Announced(s[n]), init), Senders(init), last, d, h);
    }
  }

  lemma RoundFinds(links: Links, s: Tables, s': Tables, n: NodeId, d: NodeId, h: nat)
    requires Steady(links, s) && AllPrepared(links, s, h) && n in s && n !in Neighbours(links, n) && Round(links, s, s')
    requires h < 15 && AtDistance(links, n, d, h + 1)
    ensures HasShortest(links, s'[n], d, h + 1)
  {
    var inbox :| FullInbox(links, s, n, inbox) && s'[n] == Receive(Announced(s[n]), inbox);
    InboxHomes(links, s, n, inbox, d, h);
    AllHeard(links, s, n, inbox);
    var p := CloserNeighbour(links, n, d, h + 1);
    assert p in Neighbours(links, n);
  }

  lemma PreparedBelow(links: Links, s: Tables, h: nat, j: nat)
    requires AllPrepared(links, s, h) && j <= h
    ensures AllPrepared(links, s, j)
  {
    forall n | n in s ensures Prepared(links, s[n], j) {
      assert Prepared(links, s[n], h);
    }
  }

  /** One more ring of destinations has its shortest paths after each round. */
  lemma RoundCorrects(nodes: set<NodeId>, links: Links, s: Tables, s': Tables, h: nat, n: NodeId)
    requires Topology(nodes, links) && Steady(links, s) && AllPrepared(links, s, h) && Round(links, s, s')
    requires n in s && s'[n].selfId == n
    ensures CorrectUpTo(links, s'[n], Min(h + 1, 15))
  {
    assert (n, n) !in links;
    forall d, j | 1 <= j <= Min(h + 1, 15) && AtDistance(links, n, d, j) ensures HasShortest(links, s'[n], d, j) {
      PreparedBelow(links, s, h, j - 1);
      RoundFinds(links, s, s', n, d, j - 1);
    }
  }

  // ---------------------------------------------------------------------
  // Whole runs

  /** Rounds on a fixed network, starting from any well-formed tables. */
  ghost predicate Recovery(nodes: set<NodeId>, links: Links, states: seq<Tables>) {
    && Topology(nodes, links) && |states| > 0 && states[0].Keys == nodes && Ready(links, states[0])
    && forall i :: 0 < i < |states| ==> RoundAt(links, states, i)
  }

  /** Round number `i` of a run. */
  ghost predicate RoundAt(links: Links, states: seq<Tables>, i: nat)
    requires 0 < i < |states|
  {
    Round(links, states[i-1], states[i])
  }

  lemma {:induction false} StateAges(nodes: set<NodeId>, links: Links, states: seq<Tables>, k: nat)
    requires Recovery(nodes, links, states) && k < |states|
    ensures states[k].Keys == nodes && Ready(links, states[k])
    ensures forall n :: n in states[k] ==> Aged(links, states[k][n], k)
    ensures k > 0 ==> forall n :: n in states[k] ==> Sourced(links, states[k-1], states[k][n])
  {
    if k == 0 {
      forall n, d | n in states[0] && d in states[0][n].routes ensures states[0][n].routes[d].hops > 0 {
        assert RouteOk(states[0][n], d);
      }
    } else {
      StateAges(nodes, links, states, k - 1);
      assert RoundAt(links, states, k);
      RoundSources(nodes, links, states[k-1], states[k]);
      forall n | n in states[k] ensures Aged(links, states[k][n], k) {
        RoutesAge(links, states[k-1], states[k][n], k - 1);
      }
    }
  }

  lemma StateIsReady(nodes: set<NodeId>, links: Links, states: seq<Tables>, k: nat)
    requires Recovery(nodes, links, states) && k < |states|
    ensures states[k].Keys == nodes && Ready(links, states[k])
  {
    StateAges(nodes, links, states, k);
  }

  lemma StateIsSober(nodes: set<NodeId>, links: Links, states: seq<Tables>, k: nat)
    requires Recovery(nodes, links, states) && 15 <= k < |states|
    ensures AllSober(links, states[k])
  {
    StateAges(nodes, links, states, k);
    forall n | n in states[k] ensures Sober(links, states[k][n]) {
      AgedOut(links, states[k][n], k);
    }
  }

  /** After 15 rounds every installed route leads somewhere and claims no less than the true distance. */
  lemma StaleRoutesAgeOut(nodes: set<NodeId>, links: Links, states: seq<Tables>, k: nat, n: NodeId, d: NodeId)
    requires Recovery(nodes, links, states) && 15 <= k < |states|
    requires n in states[k] && d in states[k][n].routes
    ensures exists h: nat :: h <= states[k][n].routes[d].hops && AtDistance(links, n, d, h)
  {
    StateAges(nodes, links, states, k);
    StateIsSober(nodes, links, states, k);
    var j: nat :| j <= states[k][n].routes[d].hops && Walk(links, n, d, j);
    var h := WalkHasDistance(links, n, d, j);
  }

  lemma StateIsTight(nodes: set<NodeId>, links: Links, states: seq<Tables>, k: nat, n: NodeId)
    requires Recovery(nodes, links, states) && 16 <= k < |states| && n in states[k]
    ensures Sober(links, states[k][n]) && Tight(links, states[k][n])
  {
    StateIsSober(nodes, links, states, k);
    StateIsSober(nodes, links, states, k - 1);
    StateIsReady(nodes, links, states, k - 1);
    assert Sourced(links, states[k-1], states[k][n]) by { StateAges(nodes, links, states, k); }
    SourcedIsTight(links, states[k-1], states[k][n]);
  }

  lemma StateCorrects(nodes: set<NodeId>, links: Links, states: seq<Tables>, k: nat, h: nat, n: NodeId)
    requires Recovery(nodes, links, states) && 0 < k < |states| && AllPrepared(links, states[k-1], h) && n in states[k]
    ensures CorrectUpTo(links, states[k][n], Min(h + 1, 15))
  {
    StateIsReady(nodes, links, states, k - 1);
    assert states[k][n].selfId == n by { StateIsReady(nodes, links, states, k); }
    assert RoundAt(links, states, k);
    RoundCorrects(nodes, links, states[k-1], states[k], h, n);
  }

  lemma {:induction false} StateIsPrepared(nodes: set<NodeId>, links: Links, states: seq<Tables>, k: nat)
    requires Recovery(nodes, links, states) && 16 <= k < |states|
    ensures AllPrepared(links, states[k], Min(k - 16, 15))
  {
    if k > 16 { StateIsPrepared(nodes, links, states, k - 1); }
    forall n | n in states[k] ensures Prepared(links, states[k][n], Min(k - 16, 15)) {
      StateIsTight(nodes, links, states, k, n);
      if k > 16 { StateCorrects(nodes, links, states, k, Min(k - 17, 15), n); }
    }
  }

  /** A table with nothing too short and all shortest paths up to the hop limit holds exactly those. */
  lemma PreparedIsConverged(links: Links, t: Table)
    requires Valid(t) && Linked(links, t) && Prepared(links, t, 15)
    ensures Converged(links, t, 15)
  {
    forall d | d in t.routes ensures Shortest(links, t.selfId, d, t.routes[d]) && Near(links, t.selfId, d, 15) {
      assert RouteOk(t, d);
      var j: nat :| j <= t.routes[d].hops && Walk(links, t.selfId, d, j);
      var h := WalkHasDistance(links, t.selfId, d, j);
      assert HasShortest(links, t, d, h);
    }
    forall d | Near(links, t.selfId, d, 15) ensures d in t.routes {
      var h :| 1 <= h <= 15 && AtDistance(links, t.selfId, d, h);
      assert HasShortest(links, t, d, h);
    }
  }

  /**
   From any well-formed tables, once the links stay fixed, after 31 rounds every table holds exactly
   the destinations at distance 1 to 15, each with its shortest-path length and a next hop one hop closer.
   */
  lemma RecoversShortestPaths(nodes: set<NodeId>, links: Links, states: seq<Tables>, k: nat, n: NodeId)
    requires Recovery(nodes, links, states) && 31 <= k < |states| && n in nodes
    ensures n in states[k] && Converged(links, states[k][n], 15)
  {
    StateIsReady(nodes, links, states, k);
    StateIsPrepared(nodes, links, states, k);
    assert Prepared(links, states[k][n], 15);
    PreparedIsConverged(links, states[k][n]);
  }

  /** Every network that is ready has a run of any number of rounds. */
  lemma {:induction false} RecoveryExists(nodes: set<NodeId>, links: Links, s: Tables, k: nat)
      returns (states: seq<Tables>)
    requires Topology(nodes, links) && s.Keys == nodes && Ready(links, s)
    ensures Recovery(nodes, links, states) && |states| == k + 1 && states[0] == s
  {
    if k == 0 {
      states := [s];
    } else {
      var init := RecoveryExists(nodes, links, s, k - 1);
      StateIsReady(nodes, links, init, k - 1);
      var next := RoundExists(nodes, links, init[k-1]);
      states := init + [next];
      forall i: nat | 0 < i < |states| ensures RoundAt(links, states, i) {
        if i < k { assert RoundAt(links, init, i); }
      }
    }
  }

  // ---------------------------------------------------------------------
  // Any asynchronous history may come first

  /** No sequence number in flight or on record is ahead of its sender's own. */
  ghost predicate SequencesLag(s: Net) {
    && (forall m :: m in s.sent ==> m.frame.originId == m.from && m.from in s.tables
                                    && m.frame.sequence <= s.tables[m.from].sequence)
    && (forall n, p :: n in s.tables && p in s.tables[n].peerMaxSeq ==>
          p in s.tables && s.tables[n].peerMaxSeq[p] <= s.tables[p].sequence)
  }

  /** A call changes at most the record of the peer it is about, and never lowers the own sequence number. */
  lemma PerformRecords(t: Table, op: Op, p: NodeId)
    requires p in Perform(t, op).peerMaxSeq
    ensures (p in t.peerMaxSeq && Perform(t, op).peerMaxSeq[p] == t.peerMaxSeq[p])
         || (op.OpUpdate? && p == op.from && Perform(t, op).peerMaxSeq[p] == op.update.sequence)
  {
    if op.OpUpdate? && Fresh(t, op.update, op.from) { UpdateRecords(t, op.update, op.from, op.now); }
  }

  lemma PerformCounts(t: Table, op: Op)
    ensures Perform(t, op).sequence == if op.OpGenerate? then t.sequence + 1 else t.sequence
  {
    if op.OpUpdate? && Fresh(t, op.update, op.from) { UpdateRecords(t, op.update, op.from, op.now); }
  }

  lemma StepKeepsLag(s: Net, step: Step)
    requires Sound(s) && SequencesLag(s) && Enabled(s, step)
    ensures SequencesLag(After(s, step))
  {
    var s' := After(s, step);
    var node := match step { case Local(n, _) => n case Send(n, _, _) => n case Deliver(m, _) => m.to };
    var op := match step {
      case Local(_, o) => o case Send(_, _, _) => OpGenerate
      case Deliver(m, now) => OpUpdate(m.frame, m.from, now) };
    PerformCounts(s.tables[node], op);
    forall n, p | n in s'.tables && p in s'.tables[n].peerMaxSeq
      ensures p in s'.tables && s'.tables[n].peerMaxSeq[p] <= s'.tables[p].sequence
    {
      if n == node { PerformRecords(s.tables[node], op, p); }
    }
  }

  lemma {:induction false} ExecutionLags(states: seq<Net>, k: nat)
    requires Execution(states) && k < |states|
    ensures SequencesLag(states[k])
  {
    if k > 0 {
      ExecutionLags(states, k - 1);
      ExecutionIsSound(states, k - 1);
      assert Next(states[k-1], states[k]);
      var step :| Enabled(states[k-1], step) && states[k] == After(states[k-1], step);
      StepKeepsLag(states[k-1], step);
    }
  }

  /**
   Whatever happened before, a network whose peer sets and next hops match the links is ready to
   recover: well-formedness and sequence order come for free from being reachable.
   */
  lemma AnyHistoryIsReady(states: seq<Net>, k: nat, links: Links)
    requires Execution(states) && k < |states| && Topology(states[k].tables.Keys, links)
    requires forall n :: n in states[k].tables ==>
      states[k].tables[n].directPeers == Neighbours(links, n) && Linked(links, states[k].tables[n])
    ensures Ready(links, states[k].tables)
  {
    ExecutionIsSound(states, k);
    ExecutionLags(states, k);
    var s := states[k].tables;
    forall n | n in s ensures InStep(links, s, n) {
      forall p | p in Neighbours(links, n) ensures p in s && MaxSeq(s[n], p) <= s[p].sequence {
        assert (n, p) in links;
      }
    }
  }
}
