/**
 Convergence on a fixed network: when every node knows its neighbours and in each round
 applies the advertisements its neighbours generated from their start-of-round tables, the
 tables hold exactly the shortest paths found so far, and after fourteen rounds all of them.
 */
module Convergence {
  import opened Wrappers
  import opened Routing
  import opened RoutingProperties
  import opened RoutingRuns
  import opened Mesh
  import opened Rounds

  /** `ops` introduces every neighbour of `n`, and nobody else. */
  predicate Introductions(links: Links, n: NodeId, ops: seq<Op>) {
    && (forall i :: 0 <= i < |ops| ==> ops[i].OpAddPeer? && ops[i].peer in Neighbours(links, n))
    && (forall p :: p in Neighbours(links, n) ==> exists i :: 0 <= i < |ops| && ops[i].OpAddPeer? && ops[i].peer == p)
  }

  /** A fresh table that has been told about each of its neighbours. */
  ghost predicate Greeted(links: Links, n: NodeId, t: Table) {
    exists ops :: Introductions(links, n, ops) && t == Run(New(n, t.isGateway, t.derive, t.prefix), ops)
  }

  ghost predicate Start(nodes: set<NodeId>, links: Links, s: Tables) {
    s.Keys == nodes && forall n :: n in s ==> Greeted(links, n, s[n])
  }

  // ---------------------------------------------------------------------
  // What the tables hold

  /** The route is a shortest path and its next hop is one hop closer. */
  ghost predicate Shortest(links: Links, n: NodeId, d: NodeId, r: Route) {
    && 1 <= r.hops <= 15 && AtDistance(links, n, d, r.hops)
    && (n, r.nextHop) in links && AtDistance(links, r.nextHop, d, r.hops - 1)
  }

  ghost predicate AllShortest(links: Links, t: Table) {
    forall d :: d in t.routes ==> Shortest(links, t.selfId, d, t.routes[d])
  }

  /** The table holds exactly the destinations within `radius`. */
  ghost predicate Converged(links: Links, t: Table, radius: nat) {
    AllShortest(links, t) && forall d :: d in t.routes <==> Near(links, t.selfId, d, radius)
  }

  /** A destination just outside `radius` that one of the neighbours in `heard` knows. */
  ghost predicate Discovered(links: Links, n: NodeId, d: NodeId, radius: nat, heard: set<NodeId>) {
    radius < 15 && AtDistance(links, n, d, radius + 1) && exists p :: p in heard && AtDistance(links, p, d, radius)
  }

  /** Part-way through a round, after applying the frames of the neighbours in `heard`. */
  ghost predicate Progress(links: Links, t: Table, radius: nat, heard: set<NodeId>) {
    && AllShortest(links, t)
    && forall d :: d in t.routes <==> Near(links, t.selfId, d, radius) || Discovered(links, t.selfId, d, radius, heard)
  }

  // ---------------------------------------------------------------------
  // One frame

  /** `tp` as seen by its neighbour `t`, which is about to apply the frame `f` that `tp` generated. */
  ghost predicate Hears(links: Links, t: Table, tp: Table, f: Frame, radius: nat, heard: set<NodeId>) {
    && Valid(t) && Valid(tp) && (t.selfId, tp.selfId) in links && t.selfId != tp.selfId
    && Converged(links, tp, radius) && Progress(links, t, radius, heard) && 1 <= radius <= 15
    && Advertisement(tp, t.selfId, f) && Fresh(t, f, tp.selfId)
  }

  /** Afterwards the route to `d` is still a shortest path, if there is one. */
  lemma HeardRouteIsShortest(links: Links, t: Table, tp: Table, f: Frame, radius: nat, heard: set<NodeId>, now: nat,
                             d: NodeId)
    requires Hears(links, t, tp, f, radius, heard) && d != tp.selfId && d != t.selfId
    ensures var r := BellmanFord(t, d, Line(f.entries, d), tp.selfId, f.sequence, now);
      && (r.Some? <==> d in t.routes || Discovered(links, t.selfId, d, radius, {tp.selfId}))
      && (r.Some? ==> Shortest(links, t.selfId, d, r.value))
  {
    var n, p := t.selfId, tp.selfId;
    LineOfAdvertisement(tp, n, f, d);
    if d in t.routes { assert Shortest(links, n, d, t.routes[d]); KnownInside(links, t, radius, heard, d); }
    assert d in t.routes && t.routes[d].nextHop == p ==> Near(links, p, d, radius);
    if d in tp.routes {
      assert Shortest(links, p, d, tp.routes[d]) && RouteOk(tp, d);
      var i := tp.routes[d].hops;
      ConvergedInside(links, tp, radius, d);
      var j := NeighbourDistance(links, n, p, d, i);
      assert j > 0;
      if d in t.routes {
        DistanceIsUnique(links, n, d, j, t.routes[d].hops);
      } else {
        assert !Near(links, n, d, radius);
        assert j == radius + 1 && i == radius;
      }
    }
  }

  lemma KnownInside(links: Links, t: Table, radius: nat, heard: set<NodeId>, d: NodeId)
    requires Progress(links, t, radius, heard) && d in t.routes
    ensures t.routes[d].hops <= radius + 1
  {
    if Near(links, t.selfId, d, radius) {
      var h :| 1 <= h <= radius && AtDistance(links, t.selfId, d, h);
      DistanceIsUnique(links, t.selfId, d, h, t.routes[d].hops);
    } else {
      DistanceIsUnique(links, t.selfId, d, radius + 1, t.routes[d].hops);
    }
  }

  lemma ConvergedInside(links: Links, t: Table, radius: nat, d: NodeId)
    requires Converged(links, t, radius) && d in t.routes
    ensures t.routes[d].hops <= radius
  {
    var h :| 1 <= h <= radius && AtDistance(links, t.selfId, d, h);
    DistanceIsUnique(links, t.selfId, d, h, t.routes[d].hops);
  }

  /** The sender itself stays at one hop. */
  lemma SenderStaysDirect(links: Links, t: Table, tp: Table, f: Frame, radius: nat, heard: set<NodeId>, now: nat)
    requires Hears(links, t, tp, f, radius, heard)
    ensures tp.selfId in t.routes
    ensures var r := SenderRoute(t, Line(f.entries, tp.selfId), tp.selfId, f.sequence, now);
      r.Some? && Shortest(links, t.selfId, tp.selfId, r.value)
  {
    var n, p := t.selfId, tp.selfId;
    LineIsUnique(f.entries, 0);
    assert Walk(links, p, p, 0) && Walk(links, n, p, 1);
    assert AtDistance(links, p, p, 0) && AtDistance(links, n, p, 1);
    assert Near(links, n, p, radius);
    assert Shortest(links, n, p, t.routes[p]);
    DistanceIsUnique(links, n, p, 1, t.routes[p].hops);
    assert t.routes[p].nextHop == p;
  }

  /** Applying one neighbour's frame adds exactly what that neighbour discovered. */
  lemma HearingMakesProgress(links: Links, t: Table, tp: Table, f: Frame, radius: nat, heard: set<NodeId>, now: nat)
    requires Hears(links, t, tp, f, radius, heard)
    ensures Progress(links, ApplyUpdate(t, f, tp.selfId, now), radius, heard + {tp.selfId})
    ensures ApplyUpdate(t, f, tp.selfId, now).selfId == t.selfId
  {
    var n, p := t.selfId, tp.selfId;
    var t' := ApplyUpdate(t, f, p, now);
    PerformKeepsIdentity(t, OpUpdate(f, p, now));
    AdvertisementIsAccepted(t, tp, f);
    forall d
      ensures d in t'.routes <==> d in t.routes || Discovered(links, n, d, radius, {p})
      ensures d in t'.routes ==> Shortest(links, n, d, t'.routes[d])
    {
      if d == p {
        SenderStaysDirect(links, t, tp, f, radius, heard, now);
        UpdateAtSender(t, f, p, now);
      } else {
        UpdateIsBellmanFord(t, f, p, now, d);
        if d == n {
          assert Walk(links, n, n, 0);
          assert n !in t.routes;
        } else {
          HeardRouteIsShortest(links, t, tp, f, radius, heard, now, d);
        }
      }
    }
    forall d ensures Discovered(links, n, d, radius, heard + {p})
                <==> Discovered(links, n, d, radius, heard) || Discovered(links, n, d, radius, {p})
    {
    }
  }

  // ---------------------------------------------------------------------
  // One round

  /** All tables hold exactly what lies within `radius`. */
  ghost predicate Level(links: Links, s: Tables, radius: nat) {
    1 <= radius <= 15 && Steady(links, s) && forall n :: n in s ==> Converged(links, s[n], radius)
  }

  lemma ConvergedIgnoresSequence(links: Links, t: Table, q: nat, radius: nat)
    requires Converged(links, t, radius)
    ensures Converged(links, t.(sequence := q), radius)
  {
    var t' := t.(sequence := q);
    assert forall d :: d in t.routes ==> Shortest(links, t.selfId, d, t.routes[d]);
    assert forall d :: d in t'.routes <==> Near(links, t'.selfId, d, radius);
  }

  lemma MidRoundStep(links: Links, s: Tables, n: NodeId, t: Table, radius: nat, heard: set<NodeId>, delivery: Delivery)
    requires Level(links, s, radius) && n in s && NextDelivery(links, s, n, heard, delivery)
    requires Booked(links, s, n, t, heard) && Progress(links, t, radius, heard)
    ensures var t' := ApplyUpdate(t, delivery.frame, delivery.from, delivery.now);
      Booked(links, s, n, t', heard + {delivery.from}) && Progress(links, t', radius, heard + {delivery.from})
  {
    var tp := DeliveryIsBooked(links, s, n, t, heard, delivery);
    ConvergedIgnoresSequence(links, s[delivery.from], tp.sequence, radius);
    assert Hears(links, t, tp, delivery.frame, radius, heard);
    HearingMakesProgress(links, t, tp, delivery.frame, radius, heard, delivery.now);
  }

  lemma MidRoundStart(links: Links, s: Tables, n: NodeId, radius: nat)
    requires Level(links, s, radius) && n in s
    ensures Progress(links, Announced(s[n]), radius, {})
  {
    ConvergedIgnoresSequence(links, s[n], Announced(s[n]).sequence, radius);
  }

  /** The frames of a round, applied in order, keep making progress. */
  lemma {:induction false} ReceivingMakesProgress(links: Links, s: Tables, n: NodeId, inbox: seq<Delivery>, radius: nat)
    requires Level(links, s, radius) && n in s && n !in Neighbours(links, n)
    requires PartialInbox(links, s, n, inbox)
    ensures Booked(links, s, n, Receive(Announced(s[n]), inbox), Senders(inbox))
    ensures Progress(links, Receive(Announced(s[n]), inbox), radius, Senders(inbox))
  {
    if inbox == [] {
      MidRoundStart(links, s, n, radius);
      BooksOpen(links, s, n);
      assert Senders(inbox) == {};
    } else {
      var init, last := inbox[..|inbox|-1], inbox[|inbox|-1];
      assert PartialInbox(links, s, n, init);
      ReceivingMakesProgress(links, s, n, init, radius);
      SendersSplit(inbox);
      MidRoundStep(links, s, n, Receive(Announced(s[n]), init), radius, Senders(init), last);
    }
  }

  /** Having heard all neighbours, the table holds everything one hop farther. */
  lemma HeardAllConverges(links: Links, t: Table, radius: nat)
    requires 1 <= radius <= 15 && Progress(links, t, radius, Neighbours(links, t.selfId))
    ensures Converged(links, t, Min(radius + 1, 15))
  {
    var n := t.selfId;
    forall d ensures d in t.routes <==> Near(links, n, d, Min(radius + 1, 15)) {
      if radius < 15 && AtDistance(links, n, d, radius + 1) {
        var p := CloserNeighbour(links, n, d, radius + 1);
        assert (n, p) in links && p in Neighbours(links, n);
      }
      if d in t.routes && !Near(links, n, d, radius) {
        assert AtDistance(links, n, d, radius + 1);
      }
    }
  }

  lemma NodeAdvances(links: Links, s: Tables, s': Tables, radius: nat, n: NodeId)
    requires Level(links, s, radius) && Round(links, s, s') && n in s && n !in Neighbours(links, n)
    ensures Booked(links, s, n, s'[n], Neighbours(links, n)) && Progress(links, s'[n], radius, Neighbours(links, n))
  {
    var inbox :| FullInbox(links, s, n, inbox) && s'[n] == Receive(Announced(s[n]), inbox);
    ReceivingMakesProgress(links, s, n, inbox, radius);
    AllHeard(links, s, n, inbox);
  }

  lemma RoundAdvances(nodes: set<NodeId>, links: Links, s: Tables, s': Tables, radius: nat)
    requires Topology(nodes, links) && s.Keys == nodes && Level(links, s, radius) && Round(links, s, s')
    ensures Level(links, s', Min(radius + 1, 15))
  {
    forall n | n in s
      ensures Booked(links, s, n, s'[n], Neighbours(links, n))
      ensures Converged(links, s'[n], Min(radius + 1, 15))
    {
      assert (n, n) !in links;
      NodeAdvances(links, s, s', radius, n);
      HeardAllConverges(links, s'[n], radius);
    }
    BooksBalance(links, s, s');
  }

  // ---------------------------------------------------------------------
  // The start, and whole runs

  /** A table that knows the nodes in `peers` at one hop, and has neither sent nor accepted anything. */
  predicate KnowsOnly(t: Table, n: NodeId, peers: set<NodeId>) {
    && t.selfId == n && Valid(t) && t.peerMaxSeq == map[] && t.sequence == 0
    && t.directPeers == t.routes.Keys == peers
    && forall d :: d in t.routes ==> t.routes[d].hops == 1 && t.routes[d].nextHop == d
  }

  lemma AddPeerIntroduces(t: Table, n: NodeId, peers: set<NodeId>, peer: NodeId, now: nat)
    requires KnowsOnly(t, n, peers) && peer != n
    ensures KnowsOnly(AddPeer(t, peer, now), n, peers + {peer})
  {
    AddPeerKeepsValid(t, peer, now);
  }

  function Introduced(ops: seq<Op>): set<NodeId> {
    set i | 0 <= i < |ops| && ops[i].OpAddPeer? :: ops[i].peer
  }

  lemma IntroducedSplit(ops: seq<Op>)
    requires ops != [] && ops[|ops|-1].OpAddPeer?
    ensures Introduced(ops) == Introduced(ops[..|ops|-1]) + {ops[|ops|-1].peer}
  {
    var init, last := ops[..|ops|-1], ops[|ops|-1];
    forall i | 0 <= i < |ops| && ops[i].OpAddPeer? ensures ops[i].peer in Introduced(init) + {last.peer} {
      if i < |init| { assert init[i] == ops[i] && init[i].peer in Introduced(init); }
    }
    forall i | 0 <= i < |init| && init[i].OpAddPeer? ensures init[i].peer in Introduced(ops) {
      assert init[i] == ops[i];
    }
  }

  lemma {:induction false} IntroducedTable(n: NodeId, t0: Table, ops: seq<Op>)
    requires t0 == New(n, t0.isGateway, t0.derive, t0.prefix)
    requires forall i :: 0 <= i < |ops| ==> ops[i].OpAddPeer? && ops[i].peer != n
    ensures KnowsOnly(Run(t0, ops), n, Introduced(ops))
  {
    if ops != [] {
      var init, last := ops[..|ops|-1], ops[|ops|-1];
      IntroducedTable(n, t0, init);
      AddPeerIntroduces(Run(t0, init), n, Introduced(init), last.peer, last.now);
      IntroducedSplit(ops);
      assert Run(t0, ops) == AddPeer(Run(t0, init), last.peer, last.now);
    }
  }

  lemma IntroductionsAreNeighbours(nodes: set<NodeId>, links: Links, n: NodeId, ops: seq<Op>)
    requires Topology(nodes, links) && Introductions(links, n, ops)
    ensures Introduced(ops) == Neighbours(links, n)
    ensures forall i :: 0 <= i < |ops| ==> ops[i].OpAddPeer? && ops[i].peer != n
  {
    forall i | 0 <= i < |ops| ensures ops[i].peer != n {
      assert (n, ops[i].peer) in links;
    }
  }

  /** A table that knows just its neighbours is exact up to distance 1. */
  lemma NeighboursAreShortest(nodes: set<NodeId>, links: Links, n: NodeId, t: Table)
    requires Topology(nodes, links) && KnowsOnly(t, n, Neighbours(links, n))
    ensures Converged(links, t, 1)
  {
    forall d
      ensures d in t.routes <==> Near(links, n, d, 1)
      ensures d in t.routes ==> Shortest(links, n, d, t.routes[d])
    {
      DirectNeighbours(nodes, links, n, d);
    }
  }

  lemma GreetedKnowsNeighbours(nodes: set<NodeId>, links: Links, n: NodeId, t: Table)
    requires Topology(nodes, links) && Greeted(links, n, t)
    ensures KnowsOnly(t, n, Neighbours(links, n))
  {
    var t0 := New(n, t.isGateway, t.derive, t.prefix);
    var ops: seq<Op> :| Introductions(links, n, ops) && t == Run(t0, ops);
    IntroductionsAreNeighbours(nodes, links, n, ops);
    IntroducedTable(n, t0, ops);
  }

  /** Before the first round every table holds exactly its neighbours. */
  lemma StartsAtOne(nodes: set<NodeId>, links: Links, s: Tables)
    requires Topology(nodes, links) && Start(nodes, links, s)
    ensures Level(links, s, 1)
  {
    forall n | n in s ensures KnowsOnly(s[n], n, Neighbours(links, n)) && Converged(links, s[n], 1) {
      GreetedKnowsNeighbours(nodes, links, n, s[n]);
      NeighboursAreShortest(nodes, links, n, s[n]);
    }
    forall n | n in s ensures InStep(links, s, n) {
      forall p | p in Neighbours(links, n) ensures p in s && MaxSeq(s[n], p) <= s[p].sequence {
        assert (n, p) in links;
      }
    }
  }

  lemma DirectNeighbours(nodes: set<NodeId>, links: Links, n: NodeId, d: NodeId)
    requires Topology(nodes, links)
    ensures d in Neighbours(links, n) <==> Near(links, n, d, 1)
    ensures d in Neighbours(links, n) ==> (n, d) in links && AtDistance(links, n, d, 1) && AtDistance(links, d, d, 0)
  {
    assert Walk(links, d, d, 0);
    assert Walk(links, n, d, 1) <==> (n, d) in links;
    assert d in Neighbours(links, n) <==> (n, d) in links;
    assert (n, d) in links ==> AtDistance(links, n, d, 1);
  }

  lemma {:induction false} LevelAfter(nodes: set<NodeId>, links: Links, states: seq<Tables>, k: nat)
    requires Topology(nodes, links) && k < |states| && Start(nodes, links, states[0])
    requires forall i :: 0 < i < |states| ==> Round(links, states[i-1], states[i])
    ensures states[k].Keys == nodes && Level(links, states[k], Min(k + 1, 15))
  {
    if k == 0 {
      StartsAtOne(nodes, links, states[0]);
    } else {
      LevelAfter(nodes, links, states, k - 1);
      RoundAdvances(nodes, links, states[k-1], states[k], Min(k, 15));
    }
  }

  /**
   After k rounds each table holds exactly the destinations at distance 1 .. min(k+1, 15), each with
   its shortest-path length and a next hop one hop closer. Nothing farther than 15 ever appears.
   */
  lemma ConvergesToShortestPaths(nodes: set<NodeId>, links: Links, states: seq<Tables>, k: nat, n: NodeId, d: NodeId)
    requires Topology(nodes, links) && k < |states| && Start(nodes, links, states[0])
    requires forall i :: 0 < i < |states| ==> Round(links, states[i-1], states[i])
    requires n in nodes
    ensures n in states[k]
    ensures d in states[k][n].routes <==> exists h :: 1 <= h <= Min(k + 1, 15) && AtDistance(links, n, d, h)
    ensures d in states[k][n].routes ==>
      var r := states[k][n].routes[d];
      AtDistance(links, n, d, r.hops) && (n, r.nextHop) in links && AtDistance(links, r.nextHop, d, r.hops - 1)
  {
    LevelAfter(nodes, links, states, k);
    assert Converged(links, states[k][n], Min(k + 1, 15));
    assert d in states[k][n].routes <==> Near(links, n, d, Min(k + 1, 15));
    if d in states[k][n].routes { assert Shortest(links, n, d, states[k][n].routes[d]); }
  }
}
