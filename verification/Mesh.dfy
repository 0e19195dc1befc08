/**
 A network of routing tables that exchange advertisements asynchronously: frames may be
 delayed, lost, duplicated and reordered, and peers may come and go at any time.
 */
module Mesh {
  import opened Wrappers
  import opened Routing
  import opened RoutingProperties
  import opened RoutingRuns

  type Links = set<(NodeId, NodeId)>

  datatype Message = Message(from: NodeId, to: NodeId, frame: Frame)

  /**
   `sent` keeps every frame ever generated, so any of them can still arrive, any number of times.
   `links` records every link ever registered: by `add_peer`, or by an accepted update.
   */
  datatype Net = Net(tables: map<NodeId, Table>, sent: set<Message>, links: Links)

  datatype Step =
    | Local(node: NodeId, op: Op)
    | Send(node: NodeId, to: NodeId, frame: Frame)
    | Deliver(message: Message, now: nat)

  ghost predicate Enabled(s: Net, step: Step) {
    match step
    case Local(node, op) => node in s.tables && NotSelf(node, op) && !op.OpUpdate? && !op.OpGenerate?
    case Send(node, to, frame) => node in s.tables && to != node && Advertisement(s.tables[node], to, frame)
    case Deliver(m, _) => m in s.sent && m.to in s.tables
  }

  ghost function After(s: Net, step: Step): Net
    requires Enabled(s, step)
  {
    match step
    case Local(node, op) =>
      Net(s.tables[node := Perform(s.tables[node], op)], s.sent,
          if op.OpAddPeer? then s.links + {(node, op.peer)} else s.links)
    case Send(node, to, frame) =>
      Net(s.tables[node := Perform(s.tables[node], OpGenerate)], s.sent + {Message(node, to, frame)}, s.links)
    case Deliver(m, now) =>
      Net(s.tables[m.to := Perform(s.tables[m.to], OpUpdate(m.frame, m.from, now))], s.sent,
          if Accepted(s.tables[m.to], m.frame, m.from) then s.links + {(m.to, m.from)} else s.links)
  }

  ghost predicate Initial(s: Net) {
    && s.sent == {} && s.links == {}
    && forall n :: n in s.tables ==>
         s.tables[n] == New(n, s.tables[n].isGateway, s.tables[n].derive, s.tables[n].prefix)
  }

  ghost predicate Next(s: Net, s': Net) {
    exists step :: Enabled(s, step) && s' == After(s, step)
  }

  /** A history of the network: fresh tables first, one step between neighbouring states. */
  ghost predicate Execution(states: seq<Net>) {
    && |states| > 0 && Initial(states[0])
    && forall i :: 0 < i < |states| ==> Next(states[i-1], states[i])
  }

  lemma Extend(states: seq<Net>, step: Step) returns (longer: seq<Net>)
    requires Execution(states) && Enabled(states[|states|-1], step)
    ensures Execution(longer) && longer == states + [After(states[|states|-1], step)]
  {
    longer := states + [After(states[|states|-1], step)];
    assert Next(states[|states|-1], longer[|states|]);
    forall i | 0 < i < |states| ensures Next(longer[i-1], longer[i]) {
      assert Next(states[i-1], states[i]);
    }
  }

  // ---------------------------------------------------------------------
  // Walks

  /** There is a walk of exactly `k` links from `a` to `b`. */
  ghost predicate Walk(links: Links, a: NodeId, b: NodeId, k: nat) {
    if k == 0 then a == b
    else exists m :: (a, m) in links && Walk(links, m, b, k - 1)
  }

  lemma {:induction false} WalkGrows(links: Links, more: Links, a: NodeId, b: NodeId, k: nat)
    requires links <= more && Walk(links, a, b, k)
    ensures Walk(more, a, b, k)
  {
    if k > 0 {
      var m :| (a, m) in links && Walk(links, m, b, k - 1);
      WalkGrows(links, more, m, b, k - 1);
    }
  }

  // ---------------------------------------------------------------------
  // No phantom routes

  /** A route of `r.hops` hops is backed by a walk of that many links that starts at its next hop. */
  ghost predicate Backed(links: Links, n: NodeId, d: NodeId, r: Route) {
    1 <= r.hops < INFINITY && (n, r.nextHop) in links && Walk(links, r.nextHop, d, r.hops - 1)
  }

  ghost predicate TableBacked(links: Links, t: Table) {
    forall d :: d in t.routes ==> Backed(links, t.selfId, d, t.routes[d])
  }

  /** Every finite distance a frame claims is the length of a walk from its origin. */
  ghost predicate FrameBacked(links: Links, m: Message) {
    && m.from != m.to && m.frame.originId == m.from && Distinct(m.frame.entries)
    && forall i :: 0 <= i < |m.frame.entries| && m.frame.entries[i].hops < INFINITY ==>
         Walk(links, m.from, m.frame.entries[i].destination, m.frame.entries[i].hops)
  }

  ghost predicate Sound(s: Net) {
    && (forall n :: n in s.tables ==>
          s.tables[n].selfId == n && Valid(s.tables[n]) && TableBacked(s.links, s.tables[n]))
    && (forall m :: m in s.sent ==> FrameBacked(s.links, m))
  }

  lemma BackedGrows(links: Links, more: Links, t: Table)
    requires links <= more && TableBacked(links, t)
    ensures TableBacked(more, t)
  {
    forall d | d in t.routes ensures Backed(more, t.selfId, d, t.routes[d]) {
      WalkGrows(links, more, t.routes[d].nextHop, d, t.routes[d].hops - 1);
    }
  }

  lemma FrameBackedGrows(links: Links, more: Links, m: Message)
    requires links <= more && FrameBacked(links, m)
    ensures FrameBacked(more, m)
  {
    forall i | 0 <= i < |m.frame.entries| && m.frame.entries[i].hops < INFINITY
      ensures Walk(more, m.from, m.frame.entries[i].destination, m.frame.entries[i].hops)
    {
      WalkGrows(links, more, m.from, m.frame.entries[i].destination, m.frame.entries[i].hops);
    }
  }

  /** An advertisement claims only what its table can back. */
  lemma AdvertisementIsBacked(links: Links, t: Table, to: NodeId, f: Frame)
    requires to != t.selfId && TableBacked(links, t) && Advertisement(t, to, f)
    ensures FrameBacked(links, Message(t.selfId, to, f))
  {
    forall i | 0 <= i < |f.entries| && f.entries[i].hops < INFINITY
      ensures Walk(links, t.selfId, f.entries[i].destination, f.entries[i].hops)
    {
      if i > 0 {
        var d := f.entries[i].destination;
        assert Backed(links, t.selfId, d, t.routes[d]);
      }
    }
  }

  /** A line of a backed frame yields a backed route. */
  lemma LineIsBacked(links: Links, t: Table, m: Message, now: nat, d: NodeId, cur: Option<Route>)
    requires FrameBacked(links, m) && (t.selfId, m.from) in links
    requires Line(m.frame.entries, d).Some? && ThroughPeer(Line(m.frame.entries, d).value.hops) < INFINITY
    ensures Backed(links, t.selfId, d, Replacement(cur, Line(m.frame.entries, d).value, m.from, m.frame.sequence, now))
  {
    LineIsListed(m.frame.entries, d);
    var e := Line(m.frame.entries, d).value;
    var i :| 0 <= i < |m.frame.entries| && m.frame.entries[i] == e;
    assert Walk(links, m.from, d, e.hops);
  }

  lemma UpdateIsBacked(links: Links, t: Table, m: Message, now: nat)
    requires Valid(t) && TableBacked(links, t) && FrameBacked(links, m) && m.to == t.selfId
    requires Accepted(t, m.frame, m.from) ==> (t.selfId, m.from) in links
    ensures TableBacked(links, ApplyUpdate(t, m.frame, m.from, now))
  {
    var t' := ApplyUpdate(t, m.frame, m.from, now);
    if Accepted(t, m.frame, m.from) {
      PerformKeepsIdentity(t, OpUpdate(m.frame, m.from, now));
      forall d | d in t'.routes ensures Backed(links, t'.selfId, d, t'.routes[d]) {
        var line := Line(m.frame.entries, d);
        if d == m.from {
          UpdateAtSender(t, m.frame, m.from, now);
        } else {
          UpdateIsBellmanFord(t, m.frame, m.from, now, d);
        }
        if d in t.routes { assert Backed(links, t.selfId, d, t.routes[d]); }
        if line.Some? && ThroughPeer(line.value.hops) < INFINITY {
          LineIsBacked(links, t, m, now, d, if d == m.from then
            Some(if d in t.routes then t.routes[d].(lastSeen := now)
                 else DirectRoute(d, m.frame.sequence, now).(meshIp := Some(t.derive(d, t.prefix))))
            else Get(t.routes, d));
        }
      }
    }
  }

  lemma LocalIsBacked(links: Links, t: Table, op: Op)
    requires Valid(t) && TableBacked(links, t) && NotSelf(t.selfId, op) && !op.OpUpdate?
    requires op.OpAddPeer? ==> (t.selfId, op.peer) in links
    ensures TableBacked(links, Perform(t, op))
  {
    var t' := Perform(t, op);
    forall d | d in t'.routes ensures Backed(links, t'.selfId, d, t'.routes[d]) {
      if d in t.routes { assert Backed(links, t.selfId, d, t.routes[d]); }
    }
  }

  lemma StepIsSound(s: Net, step: Step)
    requires Sound(s) && Enabled(s, step)
    ensures Sound(After(s, step))
  {
    var s' := After(s, step);
    var node := match step { case Local(n, _) => n case Send(n, _, _) => n case Deliver(m, _) => m.to };
    var t := s.tables[node];
    var op := match step {
      case Local(_, o) => o case Send(_, _, _) => OpGenerate
      case Deliver(m, now) => OpUpdate(m.frame, m.from, now) };
    if step.Deliver? { assert FrameBacked(s.links, step.message); }
    PerformKeepsValid(t, op);
    PerformKeepsIdentity(t, op);
    forall m | m in s.sent ensures FrameBacked(s'.links, m) {
      FrameBackedGrows(s.links, s'.links, m);
    }
    forall n | n in s.tables ensures TableBacked(s'.links, s.tables[n]) {
      BackedGrows(s.links, s'.links, s.tables[n]);
    }
    match step {
      case Send(n, to, frame) => AdvertisementIsBacked(s.links, t, to, frame);
      case Deliver(m, now) => UpdateIsBacked(s'.links, t, m, now);
      case Local(_, o) => LocalIsBacked(s'.links, t, o);
    }
  }

  lemma {:induction false} ExecutionIsSound(states: seq<Net>, k: nat)
    requires Execution(states) && k < |states|
    ensures Sound(states[k])
  {
    if k > 0 {
      ExecutionIsSound(states, k - 1);
      assert Next(states[k-1], states[k]);
      var step :| Enabled(states[k-1], step) && states[k] == After(states[k-1], step);
      StepIsSound(states[k-1], step);
    }
  }

  /**
   In every state of every asynchronous run, an installed route of h hops has 1 <= h <= 15 and is
   witnessed by a walk of exactly h links, each registered at some time, that starts at its next hop.
   */
  lemma NoPhantomRoutes(states: seq<Net>, k: nat, n: NodeId, d: NodeId)
    requires Execution(states) && k < |states|
    requires n in states[k].tables && d in states[k].tables[n].routes
    ensures var r := states[k].tables[n].routes[d];
      && 1 <= r.hops <= 15
      && Walk(states[k].links, n, d, r.hops)
      && (n, r.nextHop) in states[k].links && Walk(states[k].links, r.nextHop, d, r.hops - 1)
  {
    ExecutionIsSound(states, k);
    var t := states[k].tables[n];
    assert Backed(states[k].links, n, d, t.routes[d]);
  }
}
