/**
 Synchronous rounds on a fixed network: every node advertises to all its neighbours and then
 applies what the neighbours generated from their start-of-round tables, in any order.
 */
module Rounds {
  import opened Wrappers
  import opened Routing
  import opened RoutingProperties
  import opened RoutingRuns
  import opened Mesh

  type Tables = map<NodeId, Table>

  /** A frame as it reaches a node. */
  datatype Delivery = Delivery(from: NodeId, frame: Frame, now: nat)

  /** The link relation of a network of nodes: symmetric, and no node is its own neighbour. */
  ghost predicate Topology(nodes: set<NodeId>, links: Links) {
    forall a, b :: (a, b) in links ==> a in nodes && b in nodes && a != b && (b, a) in links
  }

  function Neighbours(links: Links, n: NodeId): set<NodeId> {
    set l | l in links && l.0 == n :: l.1
  }

  // ---------------------------------------------------------------------
  // Distances

  ghost predicate AtDistance(links: Links, a: NodeId, b: NodeId, k: nat) {
    Walk(links, a, b, k) && forall j: nat :: j < k ==> !Walk(links, a, b, j)
  }

  ghost predicate Near(links: Links, a: NodeId, b: NodeId, radius: nat) {
    exists h :: 1 <= h <= radius && AtDistance(links, a, b, h)
  }

  lemma DistanceIsUnique(links: Links, a: NodeId, b: NodeId, i: nat, j: nat)
    requires AtDistance(links, a, b, i) && AtDistance(links, a, b, j)
    ensures i == j
  {
  }

  lemma {:induction false} WalkHasDistance(links: Links, a: NodeId, b: NodeId, k: nat) returns (h: nat)
    requires Walk(links, a, b, k)
    ensures h <= k && AtDistance(links, a, b, h)
    decreases k
  {
    if j: nat :| j < k && Walk(links, a, b, j) {
      h := WalkHasDistance(links, a, b, j);
    } else {
      h := k;
    }
  }

  /** A neighbour is at most one hop farther from anything than the node itself. */
  lemma NeighbourDistance(links: Links, n: NodeId, p: NodeId, d: NodeId, i: nat) returns (j: nat)
    requires (n, p) in links && AtDistance(links, p, d, i)
    ensures j <= i + 1 && AtDistance(links, n, d, j)
  {
    assert Walk(links, n, d, i + 1);
    j := WalkHasDistance(links, n, d, i + 1);
  }

  /** Some neighbour is one hop closer. */
  lemma CloserNeighbour(links: Links, n: NodeId, d: NodeId, k: nat) returns (p: NodeId)
    requires k > 0 && AtDistance(links, n, d, k)
    ensures (n, p) in links && AtDistance(links, p, d, k - 1)
  {
    p :| (n, p) in links && Walk(links, p, d, k - 1);
    if i: nat :| i < k - 1 && Walk(links, p, d, i) {
      assert Walk(links, n, d, i + 1);
    }
  }

  // ---------------------------------------------------------------------
  // Rounds

  /** Frames applied one after the other. */
  function Receive(t: Table, inbox: seq<Delivery>): Table {
    if inbox == [] then t
    else
      var last := inbox[|inbox|-1];
      ApplyUpdate(Receive(t, inbox[..|inbox|-1]), last.frame, last.from, last.now)
  }

  /** `f` is what `t` generates for `to` while advertising to all its peers in some order. */
  ghost predicate GeneratedInRound(t: Table, to: NodeId, f: Frame) {
    exists q :: t.sequence <= q < t.sequence + |t.directPeers| && Advertisement(t.(sequence := q), to, f)
  }

  /** Frames that neighbours of `n` generated for it in this round, at most one from each. */
  ghost predicate PartialInbox(links: Links, s: Tables, n: NodeId, inbox: seq<Delivery>) {
    && (forall i :: 0 <= i < |inbox| ==>
          inbox[i].from in s && inbox[i].from in Neighbours(links, n)
          && GeneratedInRound(s[inbox[i].from], n, inbox[i].frame))
    && (forall i, j :: 0 <= i < j < |inbox| ==> inbox[i].from != inbox[j].from)
  }

  /** Each neighbour of `n` is heard exactly once, in any order. */
  ghost predicate FullInbox(links: Links, s: Tables, n: NodeId, inbox: seq<Delivery>) {
    && PartialInbox(links, s, n, inbox)
    && (forall p :: p in Neighbours(links, n) ==> exists i :: 0 <= i < |inbox| && inbox[i].from == p)
  }

  /** One round: everybody advertises to all peers, then applies what was meant for it. */
  ghost predicate Round(links: Links, s: Tables, s': Tables) {
    && s'.Keys == s.Keys
    && forall n :: n in s ==> exists inbox ::
         && FullInbox(links, s, n, inbox)
         && s'[n] == Receive(Announced(s[n]), inbox)
  }

  // ---------------------------------------------------------------------
  // Bookkeeping

  /** The sequence number a neighbour recorded never exceeds the sender's own. */
  ghost predicate InStep(links: Links, s: Tables, n: NodeId)
    requires n in s
  {
    forall p :: p in Neighbours(links, n) ==> p in s && MaxSeq(s[n], p) <= s[p].sequence
  }

  /** Well-formed tables whose peers are the neighbours and whose recorded sequence numbers are not ahead. */
  ghost predicate Steady(links: Links, s: Tables) {
    forall n :: n in s ==>
      s[n].selfId == n && Valid(s[n]) && s[n].directPeers == Neighbours(links, n) && InStep(links, s, n)
  }

  /** The table after it has advertised to all its peers. */
  function Announced(t: Table): Table {
    t.(sequence := t.sequence + |t.directPeers|)
  }

  function Senders(inbox: seq<Delivery>): set<NodeId> {
    set i | 0 <= i < |inbox| :: inbox[i].from
  }

  lemma SendersSplit(inbox: seq<Delivery>)
    requires inbox != [] && forall i, j :: 0 <= i < j < |inbox| ==> inbox[i].from != inbox[j].from
    ensures var init, last := inbox[..|inbox|-1], inbox[|inbox|-1];
      last.from !in Senders(init) && Senders(inbox) == Senders(init) + {last.from}
  {
    var init, last := inbox[..|inbox|-1], inbox[|inbox|-1];
    forall i | 0 <= i < |inbox| ensures inbox[i].from in Senders(init) + {last.from} {
      if i < |init| { assert init[i].from in Senders(init); }
    }
    forall p | p in Senders(init) ensures p in Senders(inbox) && p != last.from {
      var i :| 0 <= i < |init| && init[i].from == p;
      assert inbox[i].from == p;
    }
    assert inbox[|init|].from in Senders(inbox);
  }

  lemma AdvertisementIsAccepted(t: Table, tp: Table, f: Frame)
    requires Valid(tp) && Advertisement(tp, t.selfId, f) && Fresh(t, f, tp.selfId)
    ensures Accepted(t, f, tp.selfId)
  {
    forall i | 1 <= i < |f.entries| ensures f.entries[i].hops != 0 {
      assert RouteOk(tp, f.entries[i].destination);
    }
  }

  /**
   The line for `d` in a frame: present for known destinations, with the route's own hop count, gateway
   flag and address, and 16 hops if the route was learned from the receiver.
   */
  lemma LineOfAdvertisement(tp: Table, to: NodeId, f: Frame, d: NodeId)
    requires Advertisement(tp, to, f) && d != tp.selfId && d != to
    ensures Line(f.entries, d)
         == if d !in tp.routes then None
            else
              var r := tp.routes[d];
              Some(Entry(d, if r.learnedFrom == to then 16 else r.hops, r.isGateway, r.meshIp))
  {
    LineIsListed(f.entries, d);
    if d in tp.routes {
      var i :| 0 <= i < |f.entries| && f.entries[i].destination == d;
      LineIsUnique(f.entries, i);
    }
  }

  /** The advertiser's own line comes first, at zero hops; the receiver is not told about itself. */
  lemma OwnLineOfAdvertisement(tp: Table, to: NodeId, f: Frame)
    requires Valid(tp) && Advertisement(tp, to, f) && to != tp.selfId
    ensures Line(f.entries, tp.selfId) == Some(Entry(tp.selfId, 0, tp.isGateway, tp.selfMeshIp))
    ensures f.entries != [] && f.entries[0].destination == tp.selfId
    ensures Line(f.entries, to) == None && |f.entries| == 1 + |tp.routes.Keys - {to}|
    ensures f.originId == tp.selfId && f.sequence == tp.sequence + 1
  {
    LineIsUnique(f.entries, 0);
    LineIsListed(f.entries, to);
    CountLines(tp, to, f.entries, tp.routes.Keys - {to});
  }

  lemma {:induction false} CountLines(t: Table, to: NodeId, entries: seq<Entry>, keys: set<NodeId>)
    requires Valid(t) && keys <= t.routes.Keys && Distinct(entries) && |entries| > 0
    requires entries[0].destination == t.selfId
    requires forall i :: 1 <= i < |entries| ==> entries[i].destination in keys
    requires forall d :: d in keys ==> Lists(entries, d)
    ensures |entries| == 1 + |keys|
    decreases |entries|
  {
    forall d | d in keys ensures d != t.selfId { assert RouteOk(t, d); }
    if |entries| == 1 {
      if d :| d in keys {
        var i :| 0 <= i < |entries| && entries[i].destination == d;
        assert false;
      }
      assert keys == {};
    } else {
      var init, last := entries[..|entries|-1], entries[|entries|-1].destination;
      forall d | d in keys - {last} ensures Lists(init, d) {
        var i :| 0 <= i < |entries| && entries[i].destination == d;
        assert init[i].destination == d;
      }
      CountLines(t, to, init, keys - {last});
    }
  }

  lemma UpdateRecords(t: Table, update: Frame, from: NodeId, now: nat)
    requires Fresh(t, update, from)
    ensures var t' := ApplyUpdate(t, update, from, now);
      t'.peerMaxSeq == t.peerMaxSeq[from := update.sequence]
      && t'.directPeers == t.directPeers && t'.sequence == t.sequence
  {
    EntriesKeepIdentity(BeforeEntries(t, update, from, now), update.entries, from, update.sequence, now);
  }

  lemma AllHeard(links: Links, s: Tables, n: NodeId, inbox: seq<Delivery>)
    requires FullInbox(links, s, n, inbox)
    ensures Senders(inbox) == Neighbours(links, n)
  {
  }

  /** The books of node `n` once the neighbours in `heard` have been heard in this round. */
  ghost predicate Booked(links: Links, s: Tables, n: NodeId, t: Table, heard: set<NodeId>)
    requires n in s
  {
    && t.selfId == n && Valid(t) && t.directPeers == s[n].directPeers && t.sequence == Announced(s[n]).sequence
    && (forall p :: p in Neighbours(links, n) ==>
          p in s && MaxSeq(t, p) <= if p in heard then Announced(s[p]).sequence else s[p].sequence)
  }

  lemma SequenceKeepsValid(t: Table, q: nat)
    requires Valid(t)
    ensures Valid(t.(sequence := q))
  {
    MinorOpKeepsValid(t, t.(sequence := q));
  }

  lemma BooksOpen(links: Links, s: Tables, n: NodeId)
    requires Steady(links, s) && n in s
    ensures Booked(links, s, n, Announced(s[n]), {})
  {
    SequenceKeepsValid(s[n], Announced(s[n]).sequence);
  }

  /** A delivery that can come next: from a neighbour not heard yet in this round. */
  ghost predicate NextDelivery(links: Links, s: Tables, n: NodeId, heard: set<NodeId>, delivery: Delivery) {
    && delivery.from in Neighbours(links, n) - heard && delivery.from in s && delivery.from != n
    && GeneratedInRound(s[delivery.from], n, delivery.frame)
  }

  lemma UpdateIsBooked(links: Links, s: Tables, n: NodeId, t: Table, heard: set<NodeId>, delivery: Delivery)
    requires n in s && Booked(links, s, n, t, heard) && delivery.from in s && delivery.from != n
    requires Fresh(t, delivery.frame, delivery.from) && delivery.frame.sequence <= Announced(s[delivery.from]).sequence
    ensures Booked(links, s, n, ApplyUpdate(t, delivery.frame, delivery.from, delivery.now), heard + {delivery.from})
  {
    UpdateKeepsValid(t, delivery.frame, delivery.from, delivery.now);
    UpdateRecords(t, delivery.frame, delivery.from, delivery.now);
    PerformKeepsIdentity(t, OpUpdate(delivery.frame, delivery.from, delivery.now));
  }

  /** It is accepted and keeps the books; `tp` is the sender as it was when it generated the frame. */
  lemma DeliveryIsBooked(links: Links, s: Tables, n: NodeId, t: Table, heard: set<NodeId>, delivery: Delivery)
      returns (tp: Table)
    requires Steady(links, s) && n in s && Booked(links, s, n, t, heard) && NextDelivery(links, s, n, heard, delivery)
    ensures Booked(links, s, n, ApplyUpdate(t, delivery.frame, delivery.from, delivery.now), heard + {delivery.from})
    ensures tp == s[delivery.from].(sequence := tp.sequence) && Valid(tp)
    ensures Advertisement(tp, n, delivery.frame) && Accepted(t, delivery.frame, delivery.from)
  {
    var p, f := delivery.from, delivery.frame;
    var q :| s[p].sequence <= q < s[p].sequence + |s[p].directPeers| && Advertisement(s[p].(sequence := q), n, f);
    tp := s[p].(sequence := q);
    SequenceKeepsValid(s[p], q);
    AdvertisementIsAccepted(t, tp, f);
    UpdateIsBooked(links, s, n, t, heard, delivery);
  }

  /** When every node has heard all its neighbours, the books balance again. */
  lemma BooksBalance(links: Links, s: Tables, s': Tables)
    requires Steady(links, s) && s'.Keys == s.Keys
    requires forall n :: n in s ==> Booked(links, s, n, s'[n], Neighbours(links, n))
    ensures Steady(links, s')
  {
    forall n | n in s ensures InStep(links, s', n) {
      assert Booked(links, s, n, s'[n], Neighbours(links, n));
      forall p | p in Neighbours(links, n) ensures p in s' && MaxSeq(s'[n], p) <= s'[p].sequence {
        assert Booked(links, s, p, s'[p], Neighbours(links, p));
      }
    }
  }

  // ---------------------------------------------------------------------
  // There always is a next round

  /** `entries` are the lines of an advertisement restricted to the destinations in `keys`. */
  ghost predicate LinesFor(t: Table, to: NodeId, keys: set<NodeId>, entries: seq<Entry>) {
    && Distinct(entries) && |entries| > 0 && entries[0] == Entry(t.selfId, 0, t.isGateway, t.selfMeshIp)
    && (forall i :: 1 <= i < |entries| ==>
          && entries[i].destination in t.routes && entries[i].destination in keys
          && entries[i] == Advertised(t, to, entries[i].destination))
    && (forall d :: d in keys ==> Lists(entries, d))
  }

  lemma OneLineMore(t: Table, to: NodeId, keys: set<NodeId>, init: seq<Entry>, d: NodeId)
    requires Valid(t) && d in t.routes && d !in keys && LinesFor(t, to, keys, init)
    ensures LinesFor(t, to, keys + {d}, init + [Advertised(t, to, d)])
  {
    var entries := init + [Advertised(t, to, d)];
    assert RouteOk(t, d);
    assert entries[|init|].destination == d;
    forall e | e in keys ensures Lists(entries, e) {
      var i :| 0 <= i < |init| && init[i].destination == e;
      assert entries[i].destination == e;
    }
  }

  lemma {:induction false} LinesExist(t: Table, to: NodeId, keys: set<NodeId>) returns (entries: seq<Entry>)
    requires Valid(t) && keys <= t.routes.Keys
    ensures LinesFor(t, to, keys, entries)
    decreases keys
  {
    if keys == {} {
      entries := [Entry(t.selfId, 0, t.isGateway, t.selfMeshIp)];
    } else {
      var d :| d in keys;
      var init := LinesExist(t, to, keys - {d});
      OneLineMore(t, to, keys - {d}, init, d);
      assert keys - {d} + {d} == keys;
      entries := init + [Advertised(t, to, d)];
    }
  }

  /** A well-formed table can always generate an advertisement. */
  lemma AdvertisementExists(t: Table, to: NodeId) returns (f: Frame)
    requires Valid(t)
    ensures Advertisement(t, to, f)
  {
    var entries := LinesExist(t, to, t.routes.Keys - {to});
    f := Frame(t.selfId, t.sequence + 1, entries);
  }

  lemma FrameExists(links: Links, s: Tables, n: NodeId, p: NodeId) returns (f: Frame)
    requires Steady(links, s) && p in s && n in Neighbours(links, p)
    ensures GeneratedInRound(s[p], n, f)
  {
    f := AdvertisementExists(s[p], n);
    assert s[p].(sequence := s[p].sequence) == s[p];
    assert n in s[p].directPeers && |s[p].directPeers| > 0;
    assert Advertisement(s[p].(sequence := s[p].sequence), n, f);
  }

  lemma OneDeliveryMore(links: Links, s: Tables, n: NodeId, init: seq<Delivery>, delivery: Delivery)
    requires PartialInbox(links, s, n, init) && delivery.from !in Senders(init)
    requires delivery.from in s && delivery.from in Neighbours(links, n)
    requires GeneratedInRound(s[delivery.from], n, delivery.frame)
    ensures PartialInbox(links, s, n, init + [delivery])
    ensures Senders(init + [delivery]) == Senders(init) + {delivery.from}
  {
    var inbox := init + [delivery];
    forall i | 0 <= i < |init| ensures inbox[i] == init[i] && init[i].from in Senders(init) {}
    assert inbox[..|inbox|-1] == init;
    SendersSplit(inbox);
  }

  lemma {:induction false} InboxExists(nodes: set<NodeId>, links: Links, s: Tables, n: NodeId, peers: set<NodeId>)
      returns (inbox: seq<Delivery>)
    requires Topology(nodes, links) && s.Keys == nodes && Steady(links, s) && peers <= Neighbours(links, n)
    ensures PartialInbox(links, s, n, inbox) && Senders(inbox) == peers
    decreases peers
  {
    if peers == {} {
      inbox := [];
    } else {
      var p :| p in peers;
      assert (n, p) in links && (p, n) in links;
      var init := InboxExists(nodes, links, s, n, peers - {p});
      var f := FrameExists(links, s, n, p);
      OneDeliveryMore(links, s, n, init, Delivery(p, f, 0));
      assert peers - {p} + {p} == peers;
      inbox := init + [Delivery(p, f, 0)];
    }
  }

  ghost predicate HasInbox(links: Links, s: Tables, n: NodeId) {
    exists inbox :: FullInbox(links, s, n, inbox)
  }

  /** `t` is what `n` holds after hearing all its neighbours. */
  ghost predicate HeardAll(links: Links, s: Tables, n: NodeId, t: Table)
    requires n in s
  {
    exists inbox :: FullInbox(links, s, n, inbox) && t == Receive(Announced(s[n]), inbox)
  }

  ghost function NextTable(links: Links, s: Tables, n: NodeId): (t: Table)
    requires n in s && HasInbox(links, s, n)
    ensures HeardAll(links, s, n, t)
  {
    var inbox :| FullInbox(links, s, n, inbox);
    Receive(Announced(s[n]), inbox)
  }

  lemma InboxesMakeRound(links: Links, s: Tables) returns (s': Tables)
    requires forall n :: n in s ==> HasInbox(links, s, n)
    ensures Round(links, s, s')
  {
    s' := map n | n in s :: NextTable(links, s, n);
    TablesMakeRound(links, s, s');
  }

  lemma TablesMakeRound(links: Links, s: Tables, s': Tables)
    requires s'.Keys == s.Keys && forall n :: n in s ==> HeardAll(links, s, n, s'[n])
    ensures Round(links, s, s')
  {
  }

  lemma FullInboxExists(nodes: set<NodeId>, links: Links, s: Tables, n: NodeId)
    requires Topology(nodes, links) && s.Keys == nodes && Steady(links, s)
    ensures HasInbox(links, s, n)
  {
    var inbox := InboxExists(nodes, links, s, n, Neighbours(links, n));
    forall p | p in Neighbours(links, n) ensures exists i :: 0 <= i < |inbox| && inbox[i].from == p {
      assert p in Senders(inbox);
    }
    assert FullInbox(links, s, n, inbox);
  }

  /** From every steady network there is a round. */
  lemma RoundExists(nodes: set<NodeId>, links: Links, s: Tables) returns (s': Tables)
    requires Topology(nodes, links) && s.Keys == nodes && Steady(links, s)
    ensures Round(links, s, s')
  {
    forall n | n in s ensures HasInbox(links, s, n) {
      FullInboxExists(nodes, links, s, n);
    }
    s' := InboxesMakeRound(links, s);
  }
}
