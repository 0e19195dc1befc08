/**
 Split horizon with poison reverse, and what it buys: when generating an advertisement and
 applying it is one step, no two nodes ever forward to each other for the same destination.
 With frames in flight the promise fails, and the exact condition for that is given.
 */
module LoopFreedom {
  import opened Wrappers
  import opened Routing
  import opened RoutingProperties
  import opened RoutingRuns
  import Mesh

  /** `ta` and `tb` forward packets for `d` to each other. */
  predicate MutualNextHops(ta: Table, tb: Table, d: NodeId) {
    && d in ta.routes && d in tb.routes
    && ta.routes[d].nextHop == tb.selfId && tb.routes[d].nextHop == ta.selfId
  }

  // ---------------------------------------------------------------------
  // Atomic exchanges

  type Tables = map<NodeId, Table>

  datatype Step =
    | Local(node: NodeId, op: Op)
    | Exchange(from: NodeId, to: NodeId, frame: Frame, now: nat)

  ghost predicate Enabled(s: Tables, step: Step) {
    match step
    case Local(node, op) => node in s && NotSelf(node, op) && !op.OpUpdate?
    case Exchange(from, to, frame, _) =>
      from in s && to in s && from != to && Advertisement(s[from], to, frame)
  }

  ghost function After(s: Tables, step: Step): Tables
    requires Enabled(s, step)
  {
    match step
    case Local(node, op) => s[node := Perform(s[node], op)]
    case Exchange(from, to, frame, now) =>
      s[from := Perform(s[from], OpGenerate)][to := Perform(s[to], OpUpdate(frame, from, now))]
  }

  ghost predicate Initial(s: Tables) {
    forall n :: n in s ==> s[n] == New(n, s[n].isGateway, s[n].derive, s[n].prefix)
  }

  ghost predicate Next(s: Tables, s': Tables) {
    exists step :: Enabled(s, step) && s' == After(s, step)
  }

  ghost predicate Execution(states: seq<Tables>) {
    && |states| > 0 && Initial(states[0])
    && forall i :: 0 < i < |states| ==> Next(states[i-1], states[i])
  }

  ghost predicate WellFormed(s: Tables) {
    forall n :: n in s ==> s[n].selfId == n && Valid(s[n])
  }

  ghost predicate LoopFree(s: Tables) {
    forall a, b, d :: a in s && b in s ==> !MutualNextHops(s[a], s[b], d)
  }

  // ---------------------------------------------------------------------
  // One application of a frame

  /**
   Applying an accepted frame from `tb` makes `ta` and `tb` forward to each other for `d`
   exactly when `tb` by now routes `d` through `ta` while the frame still offers a finite
   distance that `ta` adopts.
   */
  lemma DeliveryLoopsExactly(ta: Table, tb: Table, frame: Frame, now: nat, d: NodeId)
    requires Valid(ta) && Valid(tb) && ta.selfId != tb.selfId
    requires Accepted(ta, frame, tb.selfId) && Distinct(frame.entries)
    requires !MutualNextHops(ta, tb, d)
    ensures MutualNextHops(ApplyUpdate(ta, frame, tb.selfId, now), tb, d)
       <==> && d in tb.routes && tb.routes[d].nextHop == ta.selfId && d != ta.selfId
            && Line(frame.entries, d).Some?
            && Line(frame.entries, d).value.hops + 1 < INFINITY
            && (d in ta.routes ==> Line(frame.entries, d).value.hops + 1 < ta.routes[d].hops)
  {
    PerformKeepsIdentity(ta, OpUpdate(frame, tb.selfId, now));
    if d in tb.routes { assert RouteOk(tb, d); }
    if d in ta.routes { assert RouteOk(ta, d); }
    if d != tb.selfId { UpdateIsBellmanFord(ta, frame, tb.selfId, now, d); }
  }

  /** An update never introduces a next hop other than the sender. */
  lemma UpdateAddsOnlySender(t: Table, frame: Frame, from: NodeId, now: nat, d: NodeId)
    requires Valid(t) && from != t.selfId && Distinct(frame.entries)
    requires d in ApplyUpdate(t, frame, from, now).routes
    ensures var r := ApplyUpdate(t, frame, from, now).routes[d];
      r.nextHop == from || (d in t.routes && r.nextHop == t.routes[d].nextHop)
  {
    if Accepted(t, frame, from) {
      if d == from { UpdateAtSender(t, frame, from, now); } else { UpdateIsBellmanFord(t, frame, from, now, d); }
    }
  }

  /** Poison reverse: a fresh advertisement never closes a two-node loop with its sender. */
  lemma ExchangeClosesNoLoop(ta: Table, tb: Table, frame: Frame, now: nat, d: NodeId)
    requires Valid(ta) && Valid(tb) && ta.selfId != tb.selfId
    requires Advertisement(tb, ta.selfId, frame) && !MutualNextHops(ta, tb, d)
    ensures !MutualNextHops(ApplyUpdate(ta, frame, tb.selfId, now), tb, d)
  {
    if Accepted(ta, frame, tb.selfId) {
      DeliveryLoopsExactly(ta, tb, frame, now, d);
      LineIsListed(frame.entries, d);
      if d in tb.routes { assert RouteOk(tb, d); }
    }
  }

  lemma LocalAddsOnlyDirect(t: Table, op: Op, d: NodeId)
    requires !op.OpUpdate? && d in Perform(t, op).routes
    ensures Perform(t, op).routes[d].nextHop == d
         || (d in t.routes && Perform(t, op).routes[d].nextHop == t.routes[d].nextHop)
  {
  }

  lemma LocalClosesNoLoop(t: Table, tb: Table, op: Op, d: NodeId)
    requires Valid(t) && Valid(tb) && NotSelf(t.selfId, op) && !op.OpUpdate? && !MutualNextHops(t, tb, d)
    ensures !MutualNextHops(Perform(t, op), tb, d)
  {
    PerformKeepsIdentity(t, op);
    if d in Perform(t, op).routes { LocalAddsOnlyDirect(t, op, d); }
    if d in tb.routes { assert RouteOk(tb, d); }
  }

  /** An update applied at once closes no loop with its sender `tf`, and none with any other node `tb`. */
  lemma UpdateClosesNoLoop(t: Table, tb: Table, tf: Table, frame: Frame, now: nat, d: NodeId)
    requires Valid(t) && Valid(tb) && Valid(tf) && t.selfId != tf.selfId && (tb.selfId == tf.selfId ==> tb == tf)
    requires Advertisement(tf, t.selfId, frame) && !MutualNextHops(t, tb, d) && !MutualNextHops(t, tf, d)
    ensures !MutualNextHops(ApplyUpdate(t, frame, tf.selfId, now), tb, d)
  {
    PerformKeepsIdentity(t, OpUpdate(frame, tf.selfId, now));
    ExchangeClosesNoLoop(t, tf, frame, now, d);
    if d in ApplyUpdate(t, frame, tf.selfId, now).routes { UpdateAddsOnlySender(t, frame, tf.selfId, now, d); }
  }

  lemma StepKeepsWellFormed(s: Tables, step: Step)
    requires WellFormed(s) && Enabled(s, step)
    ensures WellFormed(After(s, step))
  {
    var node, op := if step.Local? then step.node else step.to,
                    if step.Local? then step.op else OpUpdate(step.frame, step.from, step.now);
    PerformKeepsValid(s[node], op);
    PerformKeepsIdentity(s[node], op);
    if step.Exchange? { PerformKeepsValid(s[step.from], OpGenerate); }
  }

  lemma StepKeepsLoopFree(s: Tables, step: Step)
    requires WellFormed(s) && LoopFree(s) && Enabled(s, step)
    ensures WellFormed(After(s, step)) && LoopFree(After(s, step))
  {
    var s' := After(s, step);
    var node, op := if step.Local? then step.node else step.to,
                    if step.Local? then step.op else OpUpdate(step.frame, step.from, step.now);
    StepKeepsWellFormed(s, step);
    assert forall n :: n in s && n != node ==> s'[n].routes == s[n].routes;
    forall b, d | b in s ensures !MutualNextHops(s'[node], s'[b], d) {
      assert !MutualNextHops(s[node], s[b], d);
      if b == node {
        if d in s'[node].routes { assert RouteOk(s'[node], d); }
      } else if step.Local? {
        LocalClosesNoLoop(s[node], s[b], op, d);
      } else {
        assert !MutualNextHops(s[node], s[step.from], d);
        UpdateClosesNoLoop(s[node], s[b], s[step.from], step.frame, step.now, d);
      }
    }
    forall a, b, d | a in s && b in s ensures !MutualNextHops(s'[a], s'[b], d) {
      assert !MutualNextHops(s[a], s[b], d);
      if a == node { assert !MutualNextHops(s'[node], s'[b], d); }
      else if b == node { assert !MutualNextHops(s'[node], s'[a], d); }
    }
  }

  lemma {:induction false} ExecutionIsLoopFree(states: seq<Tables>, k: nat)
    requires Execution(states) && k < |states|
    ensures WellFormed(states[k]) && LoopFree(states[k])
  {
    if k == 0 {
      assert forall n :: n in states[0] ==> states[0][n].routes == map[] && states[0][n].meshIpIndex == map[];
    } else {
      ExecutionIsLoopFree(states, k - 1);
      assert Next(states[k-1], states[k]);
      var step :| Enabled(states[k-1], step) && states[k] == After(states[k-1], step);
      StepKeepsLoopFree(states[k-1], step);
    }
  }

  /** In every run with atomic exchanges no two nodes ever have each other as next hop for one destination. */
  lemma TwoNodeLoopFreedom(states: seq<Tables>, k: nat, a: NodeId, b: NodeId, d: NodeId)
    requires Execution(states) && k < |states| && a in states[k] && b in states[k]
    ensures !(&& d in states[k][a].routes && states[k][a].routes[d].nextHop == b
              && d in states[k][b].routes && states[k][b].routes[d].nextHop == a)
  {
    ExecutionIsLoopFree(states, k);
    assert !MutualNextHops(states[k][a], states[k][b], d);
  }

  // ---------------------------------------------------------------------
  // Frames in flight

  /** The frame a node sends when its only route leads to its neighbour `c`. */
  function OneRouteFrame(self: NodeId, c: NodeId, ip: Addr): Frame {
    Frame(self, 1, [Entry(self, 0, false, None), Entry(c, 1, false, Some(ip))])
  }

  /** A fresh node that has met its neighbour `c`, told someone, and lost `c` again. */
  function Met(n: NodeId, c: NodeId, derive: (NodeId, Prefix) -> Addr, prefix: Prefix): Table {
    AddPeer(New(n, false, derive, prefix), c, 0)
  }

  function Told(n: NodeId, c: NodeId, derive: (NodeId, Prefix) -> Addr, prefix: Prefix): Table {
    Perform(Met(n, c, derive, prefix), OpGenerate)
  }

  function Lost(n: NodeId, c: NodeId, derive: (NodeId, Prefix) -> Addr, prefix: Prefix): Table {
    RemovePeer(Told(n, c, derive, prefix), c)
  }

  lemma LostFacts(n: NodeId, c: NodeId, derive: (NodeId, Prefix) -> Addr, prefix: Prefix)
    requires n != c
    ensures Lost(n, c, derive, prefix).routes == map[] && Lost(n, c, derive, prefix).peerMaxSeq == map[]
    ensures Lost(n, c, derive, prefix).selfId == n
  {
  }

  ghost function Pair(a: NodeId, ta: Table, b: NodeId, tb: Table, sent: set<Mesh.Message>,
                      links: Mesh.Links): Mesh.Net {
    Mesh.Net(map[a := ta, b := tb], sent, links)
  }

  lemma PairIsSymmetric(a: NodeId, ta: Table, b: NodeId, tb: Table, sent: set<Mesh.Message>, links: Mesh.Links)
    requires a != b
    ensures Pair(a, ta, b, tb, sent, links) == Pair(b, tb, a, ta, sent, links)
  {
  }

  /** A local call at the first node. */
  lemma OnePerforms(states: seq<Mesh.Net>, a: NodeId, ta: Table, b: NodeId, tb: Table, sent: set<Mesh.Message>,
                    links: Mesh.Links, op: Op)
      returns (longer: seq<Mesh.Net>)
    requires a != b && Mesh.Execution(states) && states[|states|-1] == Pair(a, ta, b, tb, sent, links)
    requires NotSelf(a, op) && !op.OpUpdate? && !op.OpGenerate?
    ensures Mesh.Execution(longer)
    ensures longer[|longer|-1]
         == Pair(a, Perform(ta, op), b, tb, sent, if op.OpAddPeer? then links + {(a, op.peer)} else links)
  {
    longer := Mesh.Extend(states, Mesh.Local(a, op));
  }

  /** Two local calls, one at each node. */
  lemma BothPerform(states: seq<Mesh.Net>, a: NodeId, ta: Table, b: NodeId, tb: Table, sent: set<Mesh.Message>,
                    links: Mesh.Links, op: Op)
      returns (longer: seq<Mesh.Net>)
    requires a != b && Mesh.Execution(states) && states[|states|-1] == Pair(a, ta, b, tb, sent, links)
    requires NotSelf(a, op) && NotSelf(b, op) && !op.OpUpdate? && !op.OpGenerate?
    ensures Mesh.Execution(longer)
    ensures longer[|longer|-1] == Pair(a, Perform(ta, op), b, Perform(tb, op), sent,
                                       if op.OpAddPeer? then links + {(a, op.peer), (b, op.peer)} else links)
  {
    longer := OnePerforms(states, a, ta, b, tb, sent, links, op);
    var links1 := if op.OpAddPeer? then links + {(a, op.peer)} else links;
    PairIsSymmetric(a, Perform(ta, op), b, tb, sent, links1);
    longer := OnePerforms(longer, b, tb, a, Perform(ta, op), sent, links1, op);
    var links2 := if op.OpAddPeer? then links1 + {(b, op.peer)} else links1;
    PairIsSymmetric(b, Perform(tb, op), a, Perform(ta, op), sent, links2);
    assert op.OpAddPeer? ==> links2 == links + {(a, op.peer), (b, op.peer)};
  }

  /** Both nodes have met `c`, advertised it to each other and lost it; both frames are in flight. */
  lemma BothAdvertiseAndLose(a: NodeId, b: NodeId, c: NodeId, derive: (NodeId, Prefix) -> Addr, prefix: Prefix)
      returns (states: seq<Mesh.Net>)
    requires a != b && b != c && a != c
    ensures Mesh.Execution(states)
    ensures var ip := derive(c, prefix);
      states[|states|-1] == Pair(a, Lost(a, c, derive, prefix), b, Lost(b, c, derive, prefix),
        {Mesh.Message(a, b, OneRouteFrame(a, c, ip)), Mesh.Message(b, a, OneRouteFrame(b, c, ip))},
        {(a, c), (b, c)})
  {
    var ip := derive(c, prefix);
    var fa, fb := OneRouteFrame(a, c, ip), OneRouteFrame(b, c, ip);
    var a0, b0 := New(a, false, derive, prefix), New(b, false, derive, prefix);
    var ma, mb := Mesh.Message(a, b, fa), Mesh.Message(b, a, fb);
    states := [Pair(a, a0, b, b0, {}, {})];
    states := BothPerform(states, a, a0, b, b0, {}, {}, OpAddPeer(c, 0));
    states := BothSend(states, a, b, c, derive, prefix);
    states := BothPerform(states, a, Told(a, c, derive, prefix), b, Told(b, c, derive, prefix),
                          {ma, mb}, {(a, c), (b, c)}, OpRemovePeer(c));
  }

  lemma BothSend(states: seq<Mesh.Net>, a: NodeId, b: NodeId, c: NodeId, derive: (NodeId, Prefix) -> Addr,
                 prefix: Prefix)
      returns (longer: seq<Mesh.Net>)
    requires a != b && b != c && a != c && Mesh.Execution(states)
    requires states[|states|-1]
      == Pair(a, Met(a, c, derive, prefix), b, Met(b, c, derive, prefix), {}, {(a, c), (b, c)})
    ensures Mesh.Execution(longer)
    ensures var ip := derive(c, prefix);
      longer[|longer|-1] == Pair(a, Told(a, c, derive, prefix), b, Told(b, c, derive, prefix),
        {Mesh.Message(a, b, OneRouteFrame(a, c, ip)), Mesh.Message(b, a, OneRouteFrame(b, c, ip))},
        {(a, c), (b, c)})
  {
    var ip := derive(c, prefix);
    var fa, fb := OneRouteFrame(a, c, ip), OneRouteFrame(b, c, ip);
    OneRouteIsAdvertised(Met(a, c, derive, prefix), b, c, fa);
    OneRouteIsAdvertised(Met(b, c, derive, prefix), a, c, fb);
    longer := Mesh.Extend(states, Mesh.Send(a, b, fa));
    var sent := {Mesh.Message(a, b, fa)};
    assert longer[|longer|-1]
        == Pair(a, Told(a, c, derive, prefix), b, Met(b, c, derive, prefix), sent, {(a, c), (b, c)});
    longer := Mesh.Extend(longer, Mesh.Send(b, a, fb));
  }

  /**
   With frames in flight the two-node promise fails: both neighbours of `c` advertise it,
   lose it, and then apply the frame the other had already sent.
   */
  lemma InFlightFramesCloseALoop(a: NodeId, b: NodeId, c: NodeId, derive: (NodeId, Prefix) -> Addr, prefix: Prefix)
      returns (states: seq<Mesh.Net>)
    requires a != b && b != c && a != c
    ensures Mesh.Execution(states)
    ensures var s := states[|states|-1];
      a in s.tables && b in s.tables && MutualNextHops(s.tables[a], s.tables[b], c)
  {
    var ip := derive(c, prefix);
    var fa, fb := OneRouteFrame(a, c, ip), OneRouteFrame(b, c, ip);
    var ta, tb := Lost(a, c, derive, prefix), Lost(b, c, derive, prefix);
    LostFacts(a, c, derive, prefix);
    LostFacts(b, c, derive, prefix);
    AdoptsOneRoute(tb, a, c, fa);
    AdoptsOneRoute(ta, b, c, fb);
    states := BothAdvertiseAndLose(a, b, c, derive, prefix);
    states := Mesh.Extend(states, Mesh.Deliver(Mesh.Message(a, b, fa), 0));
    states := Mesh.Extend(states, Mesh.Deliver(Mesh.Message(b, a, fb), 0));
    var s := states[|states|-1];
    assert s.tables[a] == ApplyUpdate(ta, fb, b, 0) && s.tables[b] == ApplyUpdate(tb, fa, a, 0);
  }

  lemma OneRouteIsAdvertised(t: Table, to: NodeId, c: NodeId, f: Frame)
    requires t.routes.Keys == {c} && t.routes[c] == DirectRoute(c, 0, 0).(meshIp := Some(t.derive(c, t.prefix)))
    requires t.sequence == 0 && !t.isGateway && t.selfMeshIp == None && to != c && c != t.selfId
    requires f == OneRouteFrame(t.selfId, c, t.derive(c, t.prefix))
    ensures Advertisement(t, to, f)
  {
    assert f.entries[1].destination == c;
  }

  lemma AdoptsOneRoute(t: Table, from: NodeId, c: NodeId, f: Frame)
    requires t.routes == map[] && t.peerMaxSeq == map[] && from != t.selfId && c != t.selfId && c != from
    requires exists ip :: f == OneRouteFrame(from, c, ip)
    ensures c in ApplyUpdate(t, f, from, 0).routes && ApplyUpdate(t, f, from, 0).routes[c].nextHop == from
    ensures ApplyUpdate(t, f, from, 0).selfId == t.selfId
  {
    PerformKeepsIdentity(t, OpUpdate(f, from, 0));
    LineIsUnique(f.entries, 1);
    UpdateIsBellmanFord(t, f, from, 0, c);
  }
}
