/**
 Links that come and go: what becomes of routes through a node that is no longer heard, and recovery
 after any sequence of link changes that the nodes follow with `remove_peer` and `add_peer`.
 */
module LinkChanges {
  import opened Wrappers
  import opened Routing
  import opened RoutingProperties
  import opened RoutingRuns
  import opened Mesh
  import opened Rounds
  import opened Convergence
  import opened Stabilisation

  // ---------------------------------------------------------------------
  // Routes through a node that is no longer heard

  /** `n` has a route to `d` through a node that is not a neighbour. */
  ghost predicate Orphan(links: Links, s: Tables, n: NodeId, d: NodeId) {
    n in s && d in s[n].routes && s[n].routes[d].nextHop !in Neighbours(links, n)
  }

  /** `p` offers `n` a strictly shorter path to `d` than it has. */
  predicate OffersShorter(s: Tables, p: NodeId, n: NodeId, d: NodeId)
    requires n in s && d in s[n].routes
  {
    p in s && Offer(s[p], n, d).Some? && Offer(s[p], n, d).value + 1 < s[n].routes[d].hops
  }

  /** Part-way through a round: the orphan is as it was, or a heard neighbour that offered less took its place. */
  predicate OrphanFate(s: Tables, n: NodeId, t: Table, heard: set<NodeId>, d: NodeId)
    requires n in s && d in s[n].routes
  {
    if exists p :: p in heard && OffersShorter(s, p, n, d)
    then d in t.routes && t.routes[d].nextHop in heard && t.routes[d].hops < s[n].routes[d].hops
    else SamePath(Get(s[n].routes, d), Get(t.routes, d))
  }

  lemma OutcomeIsFate(s: Tables, n: NodeId, t: Table, t': Table, heard: set<NodeId>, p: NodeId, d: NodeId)
    requires n in s && p in s && d in s[n].routes && p !in heard && s[n].routes[d].nextHop != p
    requires OrphanFate(s, n, t, heard, d) && Outcome(Get(t.routes, d), Offer(s[p], n, d), p, Get(t'.routes, d))
    ensures OrphanFate(s, n, t', heard + {p}, d)
  {
    if q :| q in heard && OffersShorter(s, q, n, d) {
      assert q in heard + {p};
    } else if OffersShorter(s, p, n, d) {
      assert p in heard + {p};
    } else {
      forall q | q in heard + {p} ensures !OffersShorter(s, q, n, d) {
        assert q in heard || q == p;
      }
    }
  }

  /** What `n` hears in a round. */
  lemma RoundInbox(links: Links, s: Tables, s': Tables, n: NodeId) returns (inbox: seq<Delivery>)
    requires Round(links, s, s') && n in s
    ensures PartialInbox(links, s, n, inbox) && Senders(inbox) == Neighbours(links, n)
    ensures s'[n] == Receive(Announced(s[n]), inbox)
  {
    inbox :| FullInbox(links, s, n, inbox) && s'[n] == Receive(Announced(s[n]), inbox);
    AllHeard(links, s, n, inbox);
  }

  lemma DeliveryIsFate(links: Links, s: Tables, n: NodeId, t: Table, heard: set<NodeId>, delivery: Delivery, d: NodeId)
    requires Steady(links, s) && Orphan(links, s, n, d) && NextDelivery(links, s, n, heard, delivery)
    requires Booked(links, s, n, t, heard) && OrphanFate(s, n, t, heard, d)
    ensures OrphanFate(s, n, ApplyUpdate(t, delivery.frame, delivery.from, delivery.now), heard + {delivery.from}, d)
    ensures Booked(links, s, n, ApplyUpdate(t, delivery.frame, delivery.from, delivery.now), heard + {delivery.from})
  {
    var tp := DeliveryIsBooked(links, s, n, t, heard, delivery);
    assert RouteOk(s[n], d);
    HearingOutcome(t, tp, delivery.frame, delivery.now, d);
    assert Offer(tp, n, d) == Offer(s[delivery.from], n, d);
    OutcomeIsFate(s, n, t, ApplyUpdate(t, delivery.frame, delivery.from, delivery.now), heard, delivery.from, d);
  }

  lemma {:induction false} InboxIsFate(links: Links, s: Tables, n: NodeId, inbox: seq<Delivery>, d: NodeId)
    requires Steady(links, s) && Orphan(links, s, n, d) && n !in Neighbours(links, n)
    requires PartialInbox(links, s, n, inbox)
    ensures Booked(links, s, n, Receive(Announced(s[n]), inbox), Senders(inbox))
    ensures OrphanFate(s, n, Receive(Announced(s[n]), inbox), Senders(inbox), d)
  {
    if inbox == [] {
      BooksOpen(links, s, n);
    } else {
      var init, last := inbox[..|inbox|-1], inbox[|inbox|-1];
      assert PartialInbox(links, s, n, init);
      InboxIsFate(links, s, n, init, d);
      SendersSplit(inbox);
      DeliveryIsFate(links, s, n, Receive(Announced(s[n]), init), Senders(init), last, d);
    }
  }

  lemma FateDecides(s: Tables, n: NodeId, t: Table, heard: set<NodeId>, d: NodeId)
    requires n in s && d in s[n].routes && OrphanFate(s, n, t, heard, d)
    ensures d in t.routes
    ensures SamePath(Get(s[n].routes, d), Get(t.routes, d)) <==> forall p :: p in heard ==> !OffersShorter(s, p, n, d)
  {
  }

  lemma OrphanAfterInbox(links: Links, s: Tables, n: NodeId, inbox: seq<Delivery>, d: NodeId)
    requires Steady(links, s) && Orphan(links, s, n, d) && n !in Neighbours(links, n)
    requires PartialInbox(links, s, n, inbox) && Senders(inbox) == Neighbours(links, n)
    ensures var t := Receive(Announced(s[n]), inbox);
      && d in t.routes
      && (SamePath(Get(s[n].routes, d), Get(t.routes, d))
          <==> forall p :: p in Neighbours(links, n) ==> !OffersShorter(s, p, n, d))
  {
    InboxIsFate(links, s, n, inbox, d);
    FateDecides(s, n, Receive(Announced(s[n]), inbox), Neighbours(links, n), d);
  }

  /**
   A route through a node that is no longer heard survives a round exactly when no neighbour offers a
   strictly shorter path. So rounds alone need not remove it; `remove_peer` and expiry do.
   */
  lemma OrphanStaysExactly(links: Links, s: Tables, s': Tables, n: NodeId, d: NodeId)
    requires Steady(links, s) && Round(links, s, s') && n !in Neighbours(links, n) && Orphan(links, s, n, d)
    ensures n in s' && d in s'[n].routes
    ensures SamePath(Get(s[n].routes, d), Get(s'[n].routes, d))
       <==> forall p :: p in Neighbours(links, n) ==> !OffersShorter(s, p, n, d)
  {
    var inbox := RoundInbox(links, s, s', n);
    OrphanAfterInbox(links, s, n, inbox, d);
  }

  // ---------------------------------------------------------------------
  // Links that come and go

  /** No recorded sequence number is ahead of its sender's, neighbour or not. */
  ghost predicate AllLag(s: Tables) {
    forall n, p :: n in s && p in s ==> MaxSeq(s[n], p) <= s[p].sequence
  }

  /** `p` is added somewhere in `ops`. */
  predicate Adds(ops: seq<Op>, p: NodeId) {
    exists i :: 0 <= i < |ops| && ops[i].OpAddPeer? && ops[i].peer == p
  }

  /** A call that follows a change to `links'`: it removes a node that is no neighbour or adds one that is. */
  predicate Follows(links': Links, n: NodeId, op: Op) {
    || (op.OpRemovePeer? && op.peer !in Neighbours(links', n))
    || (op.OpAddPeer? && op.peer in Neighbours(links', n))
  }

  predicate AllFollow(links': Links, n: NodeId, ops: seq<Op>) {
    forall i :: 0 <= i < |ops| ==> Follows(links', n, ops[i])
  }

  /** The calls by which `n` follows a change of the links: lost peers are removed, new ones added, in any order. */
  predicate Reconnects(links: Links, links': Links, n: NodeId, ops: seq<Op>) {
    && AllFollow(links', n, ops)
    && (forall p :: p in Neighbours(links, n) - Neighbours(links', n) ==> OpRemovePeer(p) in ops)
    && (forall p :: p in Neighbours(links', n) - Neighbours(links, n) ==> Adds(ops, p))
  }

  /** Part-way through those calls: peers and next hops are old or new neighbours, less what was removed. */
  ghost predicate Reconnecting(links: Links, links': Links, n: NodeId, t0: Table, t: Table, ops: seq<Op>) {
    && t.selfId == n && Valid(t) && t.sequence == t0.sequence
    && (forall p :: p in t.directPeers <==> PeerAfter(links, n, ops, p))
    && (forall d :: d in t.routes ==> HopOk(links, links', n, t.routes[d].nextHop, ops))
    && (forall p :: MaxSeq(t, p) <= MaxSeq(t0, p))
  }

  /** `p` was a neighbour and has not been removed, or has been added. */
  predicate PeerAfter(links: Links, n: NodeId, ops: seq<Op>, p: NodeId) {
    (p in Neighbours(links, n) && OpRemovePeer(p) !in ops) || Adds(ops, p)
  }

  predicate HopOk(links: Links, links': Links, n: NodeId, hop: NodeId, ops: seq<Op>) {
    hop in Neighbours(links', n) || (hop in Neighbours(links, n) && OpRemovePeer(hop) !in ops)
  }

  lemma HopsAfterRemoval(links: Links, links': Links, n: NodeId, t: Table, init: seq<Op>, peer: NodeId)
    requires forall d :: d in t.routes ==> HopOk(links, links', n, t.routes[d].nextHop, init)
    ensures forall d :: d in RemovePeer(t, peer).routes ==>
      HopOk(links, links', n, RemovePeer(t, peer).routes[d].nextHop, init + [OpRemovePeer(peer)])
  {
    forall d | d in RemovePeer(t, peer).routes
      ensures HopOk(links, links', n, RemovePeer(t, peer).routes[d].nextHop, init + [OpRemovePeer(peer)])
    {
      assert d in t.routes && t.routes[d].nextHop != peer;
    }
  }

  lemma HopsAfterAddition(links: Links, links': Links, n: NodeId, t: Table, init: seq<Op>, op: Op)
    requires forall d :: d in t.routes ==> HopOk(links, links', n, t.routes[d].nextHop, init)
    requires op.OpAddPeer? && op.peer in Neighbours(links', n)
    ensures forall d :: d in AddPeer(t, op.peer, op.now).routes ==>
      HopOk(links, links', n, AddPeer(t, op.peer, op.now).routes[d].nextHop, init + [op])
  {
  }

  lemma {:induction false} RunReconnects(links: Links, links': Links, n: NodeId, t: Table, ops: seq<Op>)
    requires t.selfId == n && Valid(t) && t.directPeers == Neighbours(links, n) && Linked(links, t)
    requires n !in Neighbours(links', n)
    requires AllFollow(links', n, ops)
    ensures Reconnecting(links, links', n, t, Run(t, ops), ops)
  {
    if ops == [] {
      forall d | d in t.routes ensures t.routes[d].nextHop in Neighbours(links, n) {
        assert (n, t.routes[d].nextHop) in links;
      }
    } else {
      var init, last := ops[..|ops|-1], ops[|ops|-1];
      assert ops == init + [last];
      forall i | 0 <= i < |init| ensures Follows(links', n, init[i]) { assert init[i] == ops[i]; }
      RunReconnects(links, links', n, t, init);
      ReconnectStep(links, links', n, t, Run(t, init), init, last);
    }
  }

  lemma ReconnectStep(links: Links, links': Links, n: NodeId, t0: Table, t: Table, init: seq<Op>, op: Op)
    requires Reconnecting(links, links', n, t0, t, init) && n !in Neighbours(links', n)
    requires AllFollow(links', n, init) && Follows(links', n, op)
    ensures Reconnecting(links, links', n, t0, Perform(t, op), init + [op])
  {
    PerformKeepsValid(t, op);
    forall p ensures MaxSeq(Perform(t, op), p) <= MaxSeq(t0, p) { PerformKeepsMaxSeq(t, op, p); }
    if op.OpRemovePeer? {
      HopsAfterRemoval(links, links', n, t, init, op.peer);
    } else {
      HopsAfterAddition(links, links', n, t, init, op);
    }
    forall p ensures p in Perform(t, op).directPeers <==> PeerAfter(links, n, init + [op], p) {
      PeerAfterOne(links, links', n, init, op, p);
      assert p in t.directPeers <==> PeerAfter(links, n, init, p);
    }
  }

  lemma AddsOneMore(init: seq<Op>, op: Op, p: NodeId)
    ensures Adds(init + [op], p) <==> Adds(init, p) || (op.OpAddPeer? && op.peer == p)
  {
    var ops := init + [op];
    if i :| 0 <= i < |init| && init[i].OpAddPeer? && init[i].peer == p { assert ops[i] == init[i]; }
    assert ops[|init|] == op;
  }

  lemma PeerAfterOne(links: Links, links': Links, n: NodeId, init: seq<Op>, op: Op, p: NodeId)
    requires AllFollow(links', n, init) && Follows(links', n, op)
    ensures PeerAfter(links, n, init + [op], p)
       <==> if op.OpRemovePeer? then PeerAfter(links, n, init, p) && p != op.peer
            else PeerAfter(links, n, init, p) || p == op.peer
  {
    AddsOneMore(init, op, p);
  }

  /** After those calls, peers and next hops match the new links. */
  lemma ReconnectedMatches(links: Links, links': Links, n: NodeId, t: Table, ops: seq<Op>)
    requires t.selfId == n && Valid(t) && t.directPeers == Neighbours(links, n) && Linked(links, t)
    requires n !in Neighbours(links', n) && Reconnects(links, links', n, ops)
    ensures var t' := Run(t, ops);
      && t'.selfId == n && Valid(t') && t'.directPeers == Neighbours(links', n) && Linked(links', t')
      && t'.sequence == t.sequence && forall p :: MaxSeq(t', p) <= MaxSeq(t, p)
  {
    RunReconnects(links, links', n, t, ops);
    forall p ensures PeerAfter(links, n, ops, p) <==> p in Neighbours(links', n) {
      FinalPeers(links, links', n, ops, p);
    }
    forall d | d in Run(t, ops).routes ensures Run(t, ops).routes[d].nextHop in Neighbours(links', n) {
      FinalPeers(links, links', n, ops, Run(t, ops).routes[d].nextHop);
    }
  }

  lemma FinalPeers(links: Links, links': Links, n: NodeId, ops: seq<Op>, p: NodeId)
    requires Reconnects(links, links', n, ops)
    ensures PeerAfter(links, n, ops, p) <==> p in Neighbours(links', n)
    ensures HopOk(links, links', n, p, ops) <==> p in Neighbours(links', n)
  {
    if Adds(ops, p) {
      var i :| 0 <= i < |ops| && ops[i].OpAddPeer? && ops[i].peer == p;
      assert Follows(links', n, ops[i]);
    }
    if OpRemovePeer(p) in ops {
      var i :| 0 <= i < |ops| && ops[i] == OpRemovePeer(p);
      assert Follows(links', n, ops[i]);
    }
  }

  ghost predicate Reconnected(links: Links, links': Links, s: Tables, s': Tables) {
    && s'.Keys == s.Keys
    && forall n :: n in s ==> exists ops :: Reconnects(links, links', n, ops) && s'[n] == Run(s[n], ops)
  }

  /** A network that has followed a change of its links is ready to recover. */
  lemma ReconnectedIsReady(nodes: set<NodeId>, links: Links, links': Links, s: Tables, s': Tables)
    requires Topology(nodes, links') && s.Keys == nodes && Ready(links, s) && AllLag(s)
    requires Reconnected(links, links', s, s')
    ensures Ready(links', s') && AllLag(s')
  {
    forall n | n in s
      ensures s'[n].selfId == n && Valid(s'[n]) && s'[n].directPeers == Neighbours(links', n)
      ensures Linked(links', s'[n]) && s'[n].sequence == s[n].sequence
      ensures forall p :: MaxSeq(s'[n], p) <= MaxSeq(s[n], p)
    {
      assert (n, n) !in links';
      var ops: seq<Op> :| Reconnects(links, links', n, ops) && s'[n] == Run(s[n], ops);
      ReconnectedMatches(links, links', n, s[n], ops);
    }
    LagIsInStep(nodes, links', s');
  }

  lemma LagIsInStep(nodes: set<NodeId>, links: Links, s: Tables)
    requires Topology(nodes, links) && s.Keys == nodes && AllLag(s)
    ensures forall n :: n in s ==> InStep(links, s, n)
  {
    forall n, p | n in s && p in Neighbours(links, n) ensures p in s {
      assert (n, p) in links;
    }
  }

  /** A round leaves the record of a node that is no neighbour alone. */
  lemma {:induction false} InboxKeepsRecord(t: Table, inbox: seq<Delivery>, p: NodeId)
    requires p !in Senders(inbox)
    ensures MaxSeq(Receive(t, inbox), p) == MaxSeq(t, p)
  {
    if inbox != [] {
      var init, last := inbox[..|inbox|-1], inbox[|inbox|-1];
      forall i | 0 <= i < |init| ensures init[i].from != p { assert inbox[i].from in Senders(inbox); }
      assert inbox[|inbox|-1].from in Senders(inbox);
      InboxKeepsRecord(t, init, p);
      PerformKeepsMaxSeq(Receive(t, init), OpUpdate(last.frame, last.from, last.now), p);
    }
  }

  lemma {:induction false} InboxIsBooked(links: Links, s: Tables, n: NodeId, inbox: seq<Delivery>)
    requires Steady(links, s) && n in s && n !in Neighbours(links, n) && PartialInbox(links, s, n, inbox)
    ensures Booked(links, s, n, Receive(Announced(s[n]), inbox), Senders(inbox))
  {
    if inbox == [] {
      BooksOpen(links, s, n);
    } else {
      var init, last := inbox[..|inbox|-1], inbox[|inbox|-1];
      assert PartialInbox(links, s, n, init);
      InboxIsBooked(links, s, n, init);
      SendersSplit(inbox);
      var _ := DeliveryIsBooked(links, s, n, Receive(Announced(s[n]), init), Senders(init), last);
    }
  }

  /** What a round leaves on record at `n` for `p`, and the sequence number `n` ends with. */
  lemma RecordAfterRound(links: Links, s: Tables, s': Tables, n: NodeId, p: NodeId)
    requires Steady(links, s) && Round(links, s, s') && n in s && p in s && n !in Neighbours(links, n)
    ensures s'[n].sequence == Announced(s[n]).sequence
    ensures MaxSeq(s'[n], p) <= if p in Neighbours(links, n) then Announced(s[p]).sequence else MaxSeq(s[n], p)
  {
    var inbox := RoundInbox(links, s, s', n);
    RecordAfterInbox(links, s, n, inbox, p);
  }

  lemma RecordAfterInbox(links: Links, s: Tables, n: NodeId, inbox: seq<Delivery>, p: NodeId)
    requires Steady(links, s) && n in s && p in s && n !in Neighbours(links, n)
    requires PartialInbox(links, s, n, inbox) && Senders(inbox) == Neighbours(links, n)
    ensures var t := Receive(Announced(s[n]), inbox);
      && t.sequence == Announced(s[n]).sequence
      && MaxSeq(t, p) <= if p in Neighbours(links, n) then Announced(s[p]).sequence else MaxSeq(s[n], p)
  {
    InboxIsBooked(links, s, n, inbox);
    if p !in Neighbours(links, n) { InboxKeepsRecord(Announced(s[n]), inbox, p); }
  }

  lemma RoundKeepsLag(nodes: set<NodeId>, links: Links, s: Tables, s': Tables)
    requires Topology(nodes, links) && s.Keys == nodes && Steady(links, s) && AllLag(s) && Round(links, s, s')
    ensures AllLag(s')
  {
    forall n, p | n in s && p in s ensures MaxSeq(s'[n], p) <= s'[p].sequence {
      assert (n, n) !in links && (p, p) !in links;
      RecordAfterRound(links, s, s', n, p);
      RecordAfterRound(links, s, s', p, p);
      assert MaxSeq(s[n], p) <= s[p].sequence;
    }
  }

  /** Step `i` of a life: a round on unchanged links, or a change of links that the nodes follow. */
  ghost predicate LifeStep(topology: seq<Links>, states: seq<Tables>, i: nat)
    requires 0 < i < |states| == |topology|
  {
    || (topology[i] == topology[i-1] && Round(topology[i], states[i-1], states[i]))
    || Reconnected(topology[i-1], topology[i], states[i-1], states[i])
  }

  /** A network that starts from fresh tables and then goes through rounds and link changes in any order. */
  ghost predicate Life(nodes: set<NodeId>, topology: seq<Links>, states: seq<Tables>) {
    && |states| == |topology| > 0 && Start(nodes, topology[0], states[0])
    && (forall i :: 0 <= i < |topology| ==> Topology(nodes, topology[i]))
    && (forall i :: 0 < i < |states| ==> LifeStep(topology, states, i))
  }

  lemma StartIsReady(nodes: set<NodeId>, links: Links, s: Tables)
    requires Topology(nodes, links) && Start(nodes, links, s)
    ensures Ready(links, s) && AllLag(s)
  {
    StartsAtOne(nodes, links, s);
    forall n | n in s ensures Linked(links, s[n]) && s[n].peerMaxSeq == map[] {
      GreetedKnowsNeighbours(nodes, links, n, s[n]);
      forall d | d in s[n].routes ensures (n, s[n].routes[d].nextHop) in links {
        assert Shortest(links, n, d, s[n].routes[d]);
      }
    }
  }

  lemma {:induction false} LifeIsReady(nodes: set<NodeId>, topology: seq<Links>, states: seq<Tables>, k: nat)
    requires Life(nodes, topology, states) && k < |states|
    ensures states[k].Keys == nodes && Ready(topology[k], states[k]) && AllLag(states[k])
  {
    if k == 0 {
      StartIsReady(nodes, topology[0], states[0]);
    } else {
      LifeIsReady(nodes, topology, states, k - 1);
      assert LifeStep(topology, states, k);
      if Reconnected(topology[k-1], topology[k], states[k-1], states[k]) {
        ReconnectedIsReady(nodes, topology[k-1], topology[k], states[k-1], states[k]);
      } else {
        RoundSources(nodes, topology[k], states[k-1], states[k]);
        RoundKeepsLag(nodes, topology[k], states[k-1], states[k]);
      }
    }
  }

  lemma TailIsRecovery(nodes: set<NodeId>, links: Links, states: seq<Tables>, from: nat)
    requires from < |states| && Topology(nodes, links) && states[from].Keys == nodes && Ready(links, states[from])
    requires forall i :: from < i < |states| ==> RoundAt(links, states, i)
    ensures Recovery(nodes, links, states[from..])
  {
    forall i | 0 < i < |states[from..]| ensures RoundAt(links, states[from..], i) {
      assert RoundAt(links, states, from + i);
    }
  }

  /**
   Through any sequence of rounds and link changes from fresh tables: 31 rounds after the last change
   every table holds exactly the shortest paths of the links there are now.
   */
  lemma RecoversAfterLastChange(nodes: set<NodeId>, topology: seq<Links>, states: seq<Tables>, last: nat, n: NodeId)
    requires Life(nodes, topology, states) && last + 31 < |states| && n in nodes
    requires forall i :: last < i < |states| ==> RoundAt(topology[last], states, i)
    ensures n in states[|states|-1] && Converged(topology[last], states[|states|-1][n], 15)
  {
    LifeIsReady(nodes, topology, states, last);
    TailIsRecovery(nodes, topology[last], states, last);
    RecoversShortestPaths(nodes, topology[last], states[last..], |states| - 1 - last, n);
  }
}
