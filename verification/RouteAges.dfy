/**
 How long routes live: what renews the age of a route over any history of calls, and that expiry removes
 a route exactly when it was last renewed too long ago.
 */
module RouteAges {
  import opened Wrappers
  import opened Routing
  import opened RoutingProperties
  import opened RoutingRuns

  /** A frame lists every destination at most once, as generated frames do. */
  predicate WellListed(op: Op) {
    op.OpUpdate? ==> Distinct(op.update.entries)
  }

  /** The call renews the route to `d`: the peer is added, sends an accepted frame, or its line for `d` is adopted. */
  predicate Renews(t: Table, op: Op, d: NodeId) {
    match op
    case OpAddPeer(peer, _) => peer == d
    case OpUpdate(update, from, _) => Accepted(t, update, from) && (d == from || Adopts(t, update.entries, from, d))
    case _ => false
  }

  /** After a call a route that is there was renewed just now, or is as old as before. */
  lemma AgeExactly(t: Table, op: Op, d: NodeId)
    requires Valid(t) && NotSelf(t.selfId, op) && WellListed(op) && d in Perform(t, op).routes
    ensures if Renews(t, op, d) then Perform(t, op).routes[d].lastSeen == op.now
            else d in t.routes && Perform(t, op).routes[d].lastSeen == t.routes[d].lastSeen
  {
    PerformKeepsValid(t, op);
    assert RouteOk(Perform(t, op), d);
    PerformKeepsIdentity(t, op);
    match op
    case OpUpdate(update, from, now) =>
      if Accepted(t, update, from) {
        if d == from { SenderFieldByField(t, update, from, now); } else { UpdateFieldByField(t, update, from, now, d); }
      }
    case OpAddPeer(peer, now) => AddPeerFieldByField(t, peer, now, d);
    case _ =>
  }

  /** From call `i`, which renews the route to `d`, up to state `j` the route stays and is not renewed again. */
  predicate LeftAlone(t: Table, ops: seq<Op>, i: nat, j: nat, d: NodeId) {
    && i < j <= |ops| && RenewedBy(t, ops, i, d)
    && (forall k: nat :: i < k <= j ==> HeldAt(t, ops, k, d))
    && (forall k: nat :: i < k < j ==> !RenewedBy(t, ops, k, d))
  }

  predicate RenewedBy(t: Table, ops: seq<Op>, k: nat, d: NodeId)
    requires k < |ops|
  {
    Renews(Run(t, ops[..k]), ops[k], d)
  }

  predicate HeldAt(t: Table, ops: seq<Op>, k: nat, d: NodeId)
    requires k <= |ops|
  {
    d in Run(t, ops[..k]).routes
  }

  /** When the route to `d` was last renewed, according to the table after `k` calls. */
  function SeenAt(t: Table, ops: seq<Op>, k: nat, d: NodeId): nat
    requires k <= |ops| && HeldAt(t, ops, k, d)
  {
    Run(t, ops[..k]).routes[d].lastSeen
  }

  lemma AgeAfterCall(t: Table, ops: seq<Op>, k: nat, d: NodeId)
    requires Valid(t) && Tracked(t) && LegalOps(t.selfId, ops) && k < |ops| && WellListed(ops[k])
    requires HeldAt(t, ops, k + 1, d)
    ensures RenewedBy(t, ops, k, d) ==> ops[k].OpAddPeer? || ops[k].OpUpdate?
    ensures if RenewedBy(t, ops, k, d) then SeenAt(t, ops, k + 1, d) == ops[k].now
            else HeldAt(t, ops, k, d) && SeenAt(t, ops, k + 1, d) == SeenAt(t, ops, k, d)
  {
    assert ops[..k+1] == ops[..k] + [ops[k]];
    RunOneMore(t, ops[..k], ops[k]);
    RunKeepsInvariant(t, ops[..k]);
    AgeExactly(Run(t, ops[..k]), ops[k], d);
  }

  lemma {:induction false} AgeOfRoute(t: Table, ops: seq<Op>, i: nat, j: nat, d: NodeId)
    requires Valid(t) && Tracked(t) && LegalOps(t.selfId, ops) && LeftAlone(t, ops, i, j, d)
    requires forall k :: 0 <= k < |ops| ==> WellListed(ops[k])
    ensures HeldAt(t, ops, j, d) && (ops[i].OpAddPeer? || ops[i].OpUpdate?) && SeenAt(t, ops, j, d) == ops[i].now
    decreases j
  {
    AgeAfterCall(t, ops, j - 1, d);
    if i + 1 < j {
      assert !RenewedBy(t, ops, j - 1, d);
      AgeOfRoute(t, ops, i, j - 1, d);
    }
  }

  lemma ExpiryCall(t: Table, maxAge: nat, now: nat, d: NodeId)
    ensures d in Perform(t, OpExpire(maxAge, now)).routes <==> d in t.routes && now - t.routes[d].lastSeen <= maxAge
  {
    ExpireExactly(t, maxAge, now, d);
  }

  /**
   In every history, a route renewed at some time and left alone since is removed by expiry exactly when
   that time lies more than `maxAge` back.
   */
  lemma RenewalDecidesExpiry(t: Table, ops: seq<Op>, i: nat, j: nat, d: NodeId, maxAge: nat, now: nat)
    requires Valid(t) && Tracked(t) && LegalOps(t.selfId, ops) && LeftAlone(t, ops, i, j, d)
    requires forall k :: 0 <= k < |ops| ==> WellListed(ops[k])
    ensures ops[i].OpAddPeer? || ops[i].OpUpdate?
    ensures d in Perform(Run(t, ops[..j]), OpExpire(maxAge, now)).routes <==> now - ops[i].now <= maxAge
  {
    AgeOfRoute(t, ops, i, j, d);
    ExpiryCall(Run(t, ops[..j]), maxAge, now, d);
  }
}
