/**
 Who is a gateway: over the rounds of a converging network, what each table says about a node's being a
 gateway, and when it is right.
 */
module GatewayFlags {
  import opened Wrappers
  import opened Routing
  import opened RoutingProperties
  import opened RoutingRuns
  import opened Mesh
  import opened Rounds
  import opened Convergence

  // ---------------------------------------------------------------------
  // One frame

  /** A node heard for the first time is taken for a plain node, whatever its frame says; a known one is believed. */
  lemma SenderFlagExactly(t: Table, tp: Table, f: Frame, now: nat)
    requires Valid(t) && Valid(tp) && t.selfId != tp.selfId
    requires Advertisement(tp, t.selfId, f) && Accepted(t, f, tp.selfId)
    ensures var routes' := ApplyUpdate(t, f, tp.selfId, now).routes;
      tp.selfId in routes' && routes'[tp.selfId].isGateway == (tp.selfId in t.routes && tp.isGateway)
  {
    OwnLineOfAdvertisement(tp, t.selfId, f);
    SenderFieldByField(t, f, tp.selfId, now);
    if tp.selfId in t.routes { assert RouteOk(t, tp.selfId); }
  }

  /** What `tp` tells its neighbours about `d`. */
  predicate Told(tp: Table, d: NodeId) {
    if d == tp.selfId then tp.isGateway else d in tp.routes && tp.routes[d].isGateway
  }

  /** After hearing a known neighbour, a route through it says what it told; any other says what it said before. */
  lemma HeardFlag(t: Table, tp: Table, f: Frame, now: nat, d: NodeId)
    requires Valid(t) && Valid(tp) && t.selfId != tp.selfId && tp.selfId in t.routes && d != t.selfId
    requires Advertisement(tp, t.selfId, f) && Accepted(t, f, tp.selfId)
    requires d in ApplyUpdate(t, f, tp.selfId, now).routes
    ensures var r := ApplyUpdate(t, f, tp.selfId, now).routes[d];
      if r.nextHop == tp.selfId then r.isGateway == Told(tp, d)
      else d in t.routes && r.nextHop == t.routes[d].nextHop && r.isGateway == t.routes[d].isGateway
  {
    if d == tp.selfId {
      OwnLineOfAdvertisement(tp, t.selfId, f);
      SenderFieldByField(t, f, tp.selfId, now);
      assert RouteOk(t, tp.selfId);
    } else {
      LineOfAdvertisement(tp, t.selfId, f, d);
      UpdateFieldByField(t, f, tp.selfId, now, d);
    }
  }

  // ---------------------------------------------------------------------
  // One round

  /** Every route through a neighbour already heard says what that neighbour held at the start of the round. */
  ghost predicate FlagsTold(s: Tables, t: Table, heard: set<NodeId>) {
    forall d :: d in t.routes && t.routes[d].nextHop in heard ==> FlagTold(s, t, d)
  }

  predicate FlagTold(s: Tables, t: Table, d: NodeId)
    requires d in t.routes
  {
    t.routes[d].nextHop in s && t.routes[d].isGateway == Told(s[t.routes[d].nextHop], d)
  }

  lemma TellsOneMore(s: Tables, t: Table, t': Table, heard: set<NodeId>, p: NodeId, d: NodeId)
    requires FlagsTold(s, t, heard) && p in s && d in t'.routes && t'.routes[d].nextHop in heard + {p}
    requires var r := t'.routes[d];
      if r.nextHop == p then r.isGateway == Told(s[p], d)
      else d in t.routes && r.nextHop == t.routes[d].nextHop && r.isGateway == t.routes[d].isGateway
    ensures FlagTold(s, t', d)
  {
  }

  lemma NeighbourIsKnown(links: Links, t: Table, radius: nat, heard: set<NodeId>, p: NodeId)
    requires Progress(links, t, radius, heard) && radius >= 1 && (t.selfId, p) in links && t.selfId != p
    ensures p in t.routes
  {
    assert Walk(links, p, p, 0) && Walk(links, t.selfId, p, 1);
    assert AtDistance(links, t.selfId, p, 1) && Near(links, t.selfId, p, radius);
  }

  lemma DeliveryTells(links: Links, s: Tables, n: NodeId, t: Table, radius: nat, heard: set<NodeId>, delivery: Delivery)
    requires Level(links, s, radius) && n in s && NextDelivery(links, s, n, heard, delivery)
    requires Booked(links, s, n, t, heard) && Progress(links, t, radius, heard) && FlagsTold(s, t, heard)
    ensures FlagsTold(s, ApplyUpdate(t, delivery.frame, delivery.from, delivery.now), heard + {delivery.from})
    ensures ApplyUpdate(t, delivery.frame, delivery.from, delivery.now).isGateway == t.isGateway
  {
    var p, t' := delivery.from, ApplyUpdate(t, delivery.frame, delivery.from, delivery.now);
    var tp := DeliveryIsBooked(links, s, n, t, heard, delivery);
    NeighbourIsKnown(links, t, radius, heard, p);
    EntriesKeepIdentity(BeforeEntries(t, delivery.frame, p, delivery.now), delivery.frame.entries, p,
                        delivery.frame.sequence, delivery.now);
    forall d | d in t'.routes && t'.routes[d].nextHop in heard + {p} ensures FlagTold(s, t', d) {
      assert RouteOk(t', d);
      HeardFlag(t, tp, delivery.frame, delivery.now, d);
      assert Told(tp, d) == Told(s[p], d);
      TellsOneMore(s, t, t', heard, p, d);
    }
  }

  lemma {:induction false} InboxTells(links: Links, s: Tables, n: NodeId, inbox: seq<Delivery>, radius: nat)
    requires Level(links, s, radius) && n in s && n !in Neighbours(links, n) && PartialInbox(links, s, n, inbox)
    ensures FlagsTold(s, Receive(Announced(s[n]), inbox), Senders(inbox))
    ensures Receive(Announced(s[n]), inbox).isGateway == s[n].isGateway
  {
    if inbox != [] {
      var init, last := inbox[..|inbox|-1], inbox[|inbox|-1];
      assert PartialInbox(links, s, n, init);
      InboxTells(links, s, n, init, radius);
      ReceivingMakesProgress(links, s, n, init, radius);
      SendersSplit(inbox);
      DeliveryTells(links, s, n, Receive(Announced(s[n]), init), radius, Senders(init), last);
    }
  }

  /** After a round every route says what its next hop held before, and no node changed its own mind. */
  lemma RoundTells(links: Links, s: Tables, s': Tables, radius: nat, n: NodeId)
    requires Level(links, s, radius) && Round(links, s, s') && n in s && n !in Neighbours(links, n)
    ensures FlagsTold(s, s'[n], Neighbours(links, n)) && s'[n].isGateway == s[n].isGateway
  {
    var inbox :| FullInbox(links, s, n, inbox) && s'[n] == Receive(Announced(s[n]), inbox);
    InboxTells(links, s, n, inbox, radius);
    AllHeard(links, s, n, inbox);
  }

  // ---------------------------------------------------------------------
  // Whole runs

  /** Every route of at most `k` hops says of its destination what that node is. */
  ghost predicate FlagsRight(s: Tables, t: Table, k: nat) {
    forall d :: d in t.routes && t.routes[d].hops <= k ==> d in s && t.routes[d].isGateway == s[d].isGateway
  }

  /** One more hop is right after each round. */
  lemma FlagsSpread(links: Links, s: Tables, s': Tables, t: Table, k: nat, d: NodeId)
    requires Steady(links, s) && s'.Keys == s.Keys && (forall n :: n in s ==> s'[n].isGateway == s[n].isGateway)
    requires AllShortest(links, t) && FlagsTold(s, t, Neighbours(links, t.selfId)) && d in t.routes
    requires t.routes[d].hops <= k + 1
    requires forall n :: n in s ==> FlagsRight(s, s[n], k) && AllShortest(links, s[n])
    requires t.routes[d].nextHop in s && t.routes[d].nextHop != d ==> d in s[t.routes[d].nextHop].routes
    ensures d in s' && t.routes[d].isGateway == s'[d].isGateway
  {
    var p := t.routes[d].nextHop;
    assert Shortest(links, t.selfId, d, t.routes[d]);
    assert p in Neighbours(links, t.selfId);
    if p != d {
      assert Shortest(links, p, d, s[p].routes[d]);
      DistanceIsUnique(links, p, d, t.routes[d].hops - 1, s[p].routes[d].hops);
      assert FlagsRight(s, s[p], k);
    }
  }

  /** All nodes are right about gateways up to `k` hops, and each is what it was at the start. */
  ghost predicate AllFlagsRight(s0: Tables, s: Tables, k: nat) {
    && s.Keys == s0.Keys
    && forall n :: n in s ==> FlagsRight(s, s[n], k) && s[n].isGateway == s0[n].isGateway
  }

  /** The rounds of a run from fresh tables. */
  ghost predicate RunOfRounds(nodes: set<NodeId>, links: Links, states: seq<Tables>) {
    && Topology(nodes, links) && |states| > 0 && Start(nodes, links, states[0])
    && forall i: nat :: 0 < i < |states| ==> IsRound(links, states, i)
  }

  ghost predicate IsRound(links: Links, states: seq<Tables>, i: nat)
    requires 0 < i < |states|
  {
    Round(links, states[i-1], states[i])
  }

  lemma LevelOf(nodes: set<NodeId>, links: Links, states: seq<Tables>, k: nat)
    requires RunOfRounds(nodes, links, states) && k < |states|
    ensures states[k].Keys == nodes && Level(links, states[k], Min(k + 1, 15))
  {
    forall i | 0 < i < |states| ensures Round(links, states[i-1], states[i]) {
      assert IsRound(links, states, i);
    }
    LevelAfter(nodes, links, states, k);
  }

  lemma FlagsAtStart(links: Links, s: Tables)
    requires Steady(links, s)
    ensures AllFlagsRight(s, s, 0)
  {
    forall n, d | n in s && d in s[n].routes ensures s[n].routes[d].hops > 0 {
      assert RouteOk(s[n], d);
    }
  }

  lemma {:induction false} FlagsAfter(nodes: set<NodeId>, links: Links, states: seq<Tables>, k: nat)
    requires RunOfRounds(nodes, links, states) && k < |states|
    ensures AllFlagsRight(states[0], states[k], k)
  {
    LevelOf(nodes, links, states, k);
    if k == 0 {
      FlagsAtStart(links, states[0]);
    } else {
      FlagsAfter(nodes, links, states, k - 1);
      LevelOf(nodes, links, states, k - 1);
      assert IsRound(links, states, k);
      FlagsStep(nodes, links, states[k-1], states[k], k);
    }
  }

  lemma FlagsStep(nodes: set<NodeId>, links: Links, s: Tables, s': Tables, k: nat)
    requires Topology(nodes, links) && s.Keys == nodes && Round(links, s, s') && k > 0
    requires Level(links, s, Min(k, 15)) && Level(links, s', Min(k + 1, 15))
    requires forall n :: n in nodes ==> FlagsRight(s, s[n], k - 1)
    ensures forall n :: n in nodes ==> FlagsRight(s', s'[n], k) && s'[n].isGateway == s[n].isGateway
  {
    forall n | n in nodes ensures s'[n].isGateway == s[n].isGateway && FlagsTold(s, s'[n], Neighbours(links, n)) {
      assert (n, n) !in links;
      RoundTells(links, s, s', Min(k, 15), n);
    }
    forall n | n in nodes ensures FlagsRight(s', s'[n], k) {
      NodeFlagsRight(links, s, s', n, k);
    }
  }

  lemma NodeFlagsRight(links: Links, s: Tables, s': Tables, n: NodeId, k: nat)
    requires k > 0 && n in s && s'.Keys == s.Keys && (forall m :: m in s ==> s'[m].isGateway == s[m].isGateway)
    requires Level(links, s, Min(k, 15)) && Level(links, s', Min(k + 1, 15))
    requires FlagsTold(s, s'[n], Neighbours(links, n)) && forall m :: m in s ==> FlagsRight(s, s[m], k - 1)
    ensures FlagsRight(s', s'[n], k)
  {
    var t := s'[n];
    forall d | d in t.routes && t.routes[d].hops <= k ensures d in s' && t.routes[d].isGateway == s'[d].isGateway {
      var p := t.routes[d].nextHop;
      assert Shortest(links, n, d, t.routes[d]);
      assert p in Neighbours(links, n);
      if p != d {
        assert t.routes[d].hops >= 2;
        assert Near(links, p, d, Min(k, 15));
      }
      FlagsSpread(links, s, s', t, k - 1, d);
    }
  }

  /**
   After k rounds every route to a node at distance 1 to min(k, 15) carries that node's own gateway flag.
   */
  lemma GatewayFlagsSpread(nodes: set<NodeId>, links: Links, states: seq<Tables>, k: nat, n: NodeId, d: NodeId, h: nat)
    requires Topology(nodes, links) && k < |states| && Start(nodes, links, states[0])
    requires forall i :: 0 < i < |states| ==> Round(links, states[i-1], states[i])
    requires n in nodes && 1 <= h <= Min(k, 15) && AtDistance(links, n, d, h)
    ensures n in states[k] && d in states[k][n].routes && d in states[0]
    ensures states[k][n].routes[d].isGateway == states[0][d].isGateway
  {
    ConvergesToShortestPaths(nodes, links, states, k, n, d);
    DistanceIsUnique(links, n, d, h, states[k][n].routes[d].hops);
    forall i: nat | 0 < i < |states| ensures IsRound(links, states, i) {
      assert Round(links, states[i-1], states[i]);
    }
    FlagsAfter(nodes, links, states, k);
    assert FlagsRight(states[k], states[k][n], k);
  }
}
