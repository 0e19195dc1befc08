/**
 The routing table as the daemon holds it: an object whose methods update its maps in place.
 Every method is proved to have the effect of the corresponding function in `Routing`.
 */
module RoutingEngine {
  import opened Wrappers
  import opened Routing
  import opened RoutingProperties
  import opened RoutingRuns

  /** Removing routes one at a time or all together makes no difference. */
  lemma RemoveOneMore(t: Table, dsts: set<NodeId>, d: NodeId)
    ensures RemoveRoutes(RemoveRoutes(t, dsts), {d}) == RemoveRoutes(t, dsts + {d})
  {
    var t1, t2, t3 := RemoveRoutes(t, dsts), RemoveRoutes(RemoveRoutes(t, dsts), {d}), RemoveRoutes(t, dsts + {d});
    assert t2.routes == t3.routes;
    forall ip | ip in t.meshIpIndex ensures ip in t2.meshIpIndex <==> ip in t3.meshIpIndex {
      assert ip in t1.meshIpIndex <==> !OwnedBy(t, ip, dsts);
    }
    assert t2.meshIpIndex == t3.meshIpIndex;
  }

  class RoutingTable {
    const selfId: NodeId
    const isGateway: bool
    const derive: (NodeId, Prefix) -> Addr
    var routes: map<NodeId, Route>
    var directPeers: set<NodeId>
    var sequence: nat
    var peerMaxSeq: map<NodeId, nat>
    var blacklisted: set<NodeId>
    var selfMeshIp: Option<Addr>
    var meshIpIndex: map<Addr, NodeId>
    var prefix: Prefix
    var collisions: nat

    /** The value the object currently holds. */
    function Model(): (t: Table)
      reads this
    {
      Table(selfId, isGateway, derive, routes, directPeers, sequence, peerMaxSeq, blacklisted,
            selfMeshIp, meshIpIndex, prefix, collisions)
    }

    constructor (selfId: NodeId, isGateway: bool, derive: (NodeId, Prefix) -> Addr, prefix: Prefix)
      ensures Model() == New(selfId, isGateway, derive, prefix) && Valid(Model())
    {
      this.selfId, this.isGateway, this.derive, this.prefix := selfId, isGateway, derive, prefix;
      routes, directPeers, sequence, peerMaxSeq, blacklisted := map[], {}, 0, map[], {};
      selfMeshIp, meshIpIndex, collisions := None, map[], 0;
    }

    method SetIpv4Prefix(newPrefix: Prefix)
      modifies this
      ensures Model() == Perform(old(Model()), OpSetPrefix(newPrefix))
    {
      prefix := newPrefix;
    }

    method SetSelfMeshIp(ip: Addr)
      modifies this
      ensures Model() == Perform(old(Model()), OpSetSelfMeshIp(ip))
    {
      selfMeshIp := Some(ip);
    }

    method InsertRoute(dst: NodeId, route: Route)
      modifies this
      ensures Model() == Routing.InsertRoute(old(Model()), dst, route)
    {
      var derived := derive(dst, prefix);
      if dst in routes {
        var previous := routes[dst];
        if previous.meshIp != Some(derived) {
          if previous.meshIp.Some? {
            meshIpIndex := meshIpIndex - {previous.meshIp.value};
          }
        }
      }
      if derived in meshIpIndex && meshIpIndex[derived] != dst {
        collisions := collisions + 1;
      } else {
        meshIpIndex := meshIpIndex[derived := dst];
      }
      routes := routes[dst := route.(meshIp := Some(derived))];
    }

    method RemoveRoute(dst: NodeId) returns (removed: Option<Route>)
      modifies this
      ensures Model() == RemoveRoutes(old(Model()), {dst})
      ensures removed == Get(old(routes), dst)
    {
      removed := Get(routes, dst);
      if removed.Some? {
        routes := routes - {dst};
        if removed.value.meshIp.Some? {
          var ip := removed.value.meshIp.value;
          if ip in meshIpIndex && meshIpIndex[ip] == dst {
            meshIpIndex := meshIpIndex - {ip};
          }
        }
      }
      assert meshIpIndex == RemoveRoutes(old(Model()), {dst}).meshIpIndex;
    }

    /** Remove a batch of routes, one call at a time, in any order. */
    method RemoveEach(dsts: set<NodeId>)
      modifies this
      ensures Model() == RemoveRoutes(old(Model()), dsts)
    {
      var remaining := dsts;
      assert RemoveRoutes(old(Model()), {}) == Model();
      while remaining != {}
        invariant remaining <= dsts
        invariant Model() == RemoveRoutes(old(Model()), dsts - remaining)
        decreases remaining
      {
        var d :| d in remaining;
        RemoveOneMore(old(Model()), dsts - remaining, d);
        assert dsts - remaining + {d} == dsts - (remaining - {d});
        var _ := RemoveRoute(d);
        remaining := remaining - {d};
      }
      assert dsts - {} == dsts;
    }

    method AddPeer(peer: NodeId, now: nat)
      modifies this
      ensures Model() == Perform(old(Model()), OpAddPeer(peer, now))
      ensures Valid(old(Model())) ==> (Valid(Model()) <==> peer != selfId)
    {
      if Valid(Model()) { AddPeerKeepsValid(Model(), peer, now); }
      directPeers := directPeers + {peer};
      InsertRoute(peer, Route(peer, 1, false, now, peer, 0, 0, None, None));
    }

    method RemoveRoutesVia(peer: NodeId) returns (r: UpdateResult)
      modifies this
      ensures Model() == Routing.RemoveRoutesVia(old(Model()), peer)
      ensures r == Changed <==> exists d :: d in old(routes) && d !in routes
    {
      var toRemove := set d | d in routes && routes[d].nextHop == peer;
      assert toRemove == Via(Model(), peer);
      if toRemove == {} {
        assert RemoveRoutes(Model(), {}) == Model();
        return Unchanged;
      }
      ghost var gone :| gone in toRemove;
      RemoveEach(toRemove);
      assert gone in old(routes) && gone !in routes;
      return Changed;
    }

    method RemovePeer(peer: NodeId) returns (r: UpdateResult)
      modifies this
      ensures Model() == Perform(old(Model()), OpRemovePeer(peer))
      ensures r == Changed <==> exists d :: d in old(routes) && d !in routes
      ensures Valid(old(Model())) ==> Valid(Model())
    {
      if Valid(Model()) { RemovePeerKeepsValid(Model(), peer); }
      directPeers := directPeers - {peer};
      peerMaxSeq := peerMaxSeq - {peer};
      r := RemoveRoutesVia(peer);
    }

    method BlacklistPeer(peer: NodeId) returns (r: UpdateResult)
      modifies this
      ensures Model() == Perform(old(Model()), OpBlacklist(peer))
      ensures r == Changed <==> exists d :: d in old(routes) && d !in routes
      ensures Valid(old(Model())) ==> Valid(Model())
    {
      if Valid(Model()) { PerformKeepsValid(Model(), OpBlacklist(peer)); }
      blacklisted := blacklisted + {peer};
      r := RemoveRoutesVia(peer);
    }

    method UnblacklistPeer(peer: NodeId)
      modifies this
      ensures Model() == Perform(old(Model()), OpUnblacklist(peer))
    {
      blacklisted := blacklisted - {peer};
    }

    method ExpireStale(maxAge: nat, now: nat) returns (r: UpdateResult)
      modifies this
      ensures Model() == Perform(old(Model()), OpExpire(maxAge, now))
      ensures r == Changed <==> exists d :: d in old(routes) && d !in routes
      ensures Valid(old(Model())) ==> Valid(Model())
    {
      if Valid(Model()) { PerformKeepsValid(Model(), OpExpire(maxAge, now)); }
      var expired := set d | d in routes && now - routes[d].lastSeen > maxAge;
      assert expired == Stale(Model(), maxAge, now);
      if expired == {} {
        assert RemoveRoutes(Model(), {}) == Model();
        return Unchanged;
      }
      ghost var gone :| gone in expired;
      RemoveEach(expired);
      assert gone in old(routes) && gone !in routes;
      return Changed;
    }

    method UpdateGatewayLoad(gateway: NodeId, load: nat)
      modifies this
      ensures Model() == Perform(old(Model()), OpGatewayLoad(gateway, load))
    {
      if gateway in routes && routes[gateway].isGateway {
        routes := routes[gateway := routes[gateway].(gatewayLoad := load)];
      }
    }

    method UpdateGatewayRtt(gateway: NodeId, rtt: nat)
      modifies this
      ensures Model() == Perform(old(Model()), OpGatewayRtt(gateway, rtt))
    {
      if gateway in routes && routes[gateway].isGateway {
        routes := routes[gateway := routes[gateway].(rttMs := Some(rtt))];
      }
    }

    /** Whether some line claims zero hops to a node other than the sender. */
    static method FindSuspicious(update: Frame) returns (suspicious: bool)
      ensures suspicious == Suspicious(update)
    {
      for i := 0 to |update.entries|
        invariant forall j :: 0 <= j < i ==>
          update.entries[j].hops != 0 || update.entries[j].destination == update.originId
      {
        if update.entries[i].hops == 0 && update.entries[i].destination != update.originId {
          return true;
        }
      }
      return false;
    }

    /** One pass of the relaxation loop. */
    method RelaxEntry(advertised: Entry, from: NodeId, seqNo: nat, now: nat) returns (changed: bool)
      modifies this
      ensures Model() == ApplyEntry(old(Model()), advertised, from, seqNo, now)
      ensures changed == EntryChanges(old(Model()), advertised, from, seqNo)
    {
      var dst := advertised.destination;
      if dst == selfId {
        return false;
      }
      var newHops := Min(advertised.hops + 1, INFINITY);
      if newHops >= INFINITY {
        if dst in routes && routes[dst].nextHop == from {
          var _ := RemoveRoute(dst);
          return true;
        }
        return false;
      }
      if dst !in routes {
        InsertRoute(dst, Route(from, newHops, advertised.isGateway, now, from, seqNo, 0, None, None));
        return true;
      }
      var existing := routes[dst];
      var betterPath := newHops < existing.hops;
      var newerSeq := seqNo > existing.sequence && existing.nextHop == from;
      if !betterPath && !newerSeq {
        return false;
      }
      var keep := existing.isGateway && !betterPath;
      InsertRoute(dst, Route(from, newHops, advertised.isGateway, now, from, seqNo,
                             if keep then existing.gatewayLoad else 0,
                             if keep then existing.rttMs else None, None));
      return betterPath || existing.isGateway != advertised.isGateway;
    }

    method ApplyUpdate(update: Frame, from: NodeId, now: nat) returns (r: UpdateResult)
      modifies this
      ensures Model() == Perform(old(Model()), OpUpdate(update, from, now))
      ensures r == ApplyUpdateResult(old(Model()), update, from, now)
      ensures Valid(old(Model())) && from != selfId ==> Valid(Model())
    {
      if Valid(Model()) && from != selfId { UpdateKeepsValid(Model(), update, from, now); }
      if update.originId != from {
        return Unchanged;
      }
      var lastSeq := if from in peerMaxSeq then peerMaxSeq[from] else 0;
      if update.sequence <= lastSeq {
        return Unchanged;
      }
      peerMaxSeq := peerMaxSeq[from := update.sequence];
      var suspicious := FindSuspicious(update);
      if suspicious {
        return Unchanged;
      }
      r := ApplyAccepted(update, from, now);
    }

    /** The part of `ApplyUpdate` behind its checks. */
    method ApplyAccepted(update: Frame, from: NodeId, now: nat) returns (r: UpdateResult)
      modifies this
      ensures var touched := TouchSender(old(Model()), from, update.sequence, now);
        var relaxed := ApplyEntries(touched, update.entries, from, update.sequence, now);
        var withdrawn := Withdrawn(relaxed, update.entries, from);
        && Model() == RemoveRoutes(relaxed, withdrawn)
        && (r == Changed <==>
              || from !in old(routes)
              || EntriesChange(touched, update.entries, from, update.sequence, now)
              || withdrawn != {})
    {
      var changed := false;
      if from in routes {
        routes := routes[from := routes[from].(lastSeen := now)];
      } else {
        InsertRoute(from, Route(from, 1, false, now, from, update.sequence, 0, None, None));
        changed := true;
      }
      ghost var touched := Model();
      assert touched == TouchSender(old(Model()), from, update.sequence, now);
      ghost var unknown := changed;
      for i := 0 to |update.entries|
        invariant Model() == ApplyEntries(touched, update.entries[..i], from, update.sequence, now)
        invariant changed == (unknown || EntriesChange(touched, update.entries[..i], from, update.sequence, now))
      {
        assert update.entries[..i+1][..i] == update.entries[..i];
        var entryChanged := RelaxEntry(update.entries[i], from, update.sequence, now);
        changed := changed || entryChanged;
      }
      assert update.entries[..|update.entries|] == update.entries;
      ghost var relaxed := Model();
      var advertised := set i | 0 <= i < |update.entries| :: update.entries[i].destination;
      var withdrawn := set d | d in routes && routes[d].learnedFrom == from && d != from && d !in advertised;
      assert withdrawn == Withdrawn(relaxed, update.entries, from);
      if withdrawn != {} {
        changed := true;
      }
      RemoveEach(withdrawn);
      r := if changed then Changed else Unchanged;
    }

    method GenerateAdvertisement(to: NodeId) returns (frame: Frame)
      requires Valid(Model())
      modifies this
      ensures Model() == Perform(old(Model()), OpGenerate) && Valid(Model())
      ensures Advertisement(old(Model()), to, frame)
    {
      PerformKeepsValid(Model(), OpGenerate);
      sequence := sequence + 1;
      var entries := [Entry(selfId, 0, isGateway, selfMeshIp)];
      var remaining := routes.Keys;
      assert forall d :: d in routes ==> RouteOk(old(Model()), d);
      while remaining != {}
        invariant Model() == Perform(old(Model()), OpGenerate)
        invariant remaining <= routes.Keys && |entries| > 0
        invariant entries[0] == Entry(selfId, 0, isGateway, selfMeshIp)
        invariant forall i :: 1 <= i < |entries| ==>
          && entries[i].destination in routes && entries[i].destination !in remaining
          && entries[i].destination != to && entries[i] == Advertised(old(Model()), to, entries[i].destination)
        invariant forall d :: d in routes && d !in remaining && d != to ==> Lists(entries, d)
        invariant Distinct(entries)
        decreases remaining
      {
        var d :| d in remaining;
        remaining := remaining - {d};
        if d != to {
          var route := routes[d];
          ghost var shorter := entries;
          var hops := if route.learnedFrom == to then INFINITY else route.hops;
          entries := entries + [Entry(d, hops, route.isGateway, route.meshIp)];
          ListsMore(shorter, entries[|shorter|]);
        }
      }
      frame := Frame(selfId, sequence, entries);
    }

    method GenerateAllAdvertisements() returns (frames: seq<(NodeId, Frame)>)
      requires Valid(Model())
      modifies this
      ensures Model() == old(Model()).(sequence := old(sequence) + |directPeers|) && Valid(Model())
      ensures |frames| == |directPeers|
      ensures forall i :: 0 <= i < |frames| ==>
        && frames[i].0 in directPeers
        && Advertisement(old(Model()).(sequence := old(sequence) + i), frames[i].0, frames[i].1)
      ensures forall i, j :: 0 <= i < j < |frames| ==> frames[i].0 != frames[j].0
    {
      frames := [];
      var remaining := directPeers;
      while remaining != {}
        invariant remaining <= directPeers && Valid(Model())
        invariant Model() == old(Model()).(sequence := old(sequence) + |frames|)
        invariant |frames| + |remaining| == |directPeers|
        invariant forall i :: 0 <= i < |frames| ==>
          && frames[i].0 in directPeers - remaining
          && Advertisement(old(Model()).(sequence := old(sequence) + i), frames[i].0, frames[i].1)
        invariant forall i, j :: 0 <= i < j < |frames| ==> frames[i].0 != frames[j].0
        decreases remaining
      {
        var peer :| peer in remaining;
        remaining := remaining - {peer};
        var frame := GenerateAdvertisement(peer);
        frames := frames + [(peer, frame)];
      }
    }

    method Lookup(dst: NodeId) returns (hop: Option<NodeId>)
      ensures hop == Routing.Lookup(Model(), dst)
    {
      if dst == selfId {
        return None;
      }
      if dst in routes && routes[dst].nextHop !in blacklisted {
        return Some(routes[dst].nextHop);
      }
      return None;
    }

    method LookupMeshIp(ip: Addr) returns (found: Option<(NodeId, NodeId)>)
      ensures found == Routing.LookupMeshIp(Model(), ip)
    {
      if ip !in meshIpIndex {
        return None;
      }
      var dst := meshIpIndex[ip];
      if dst !in routes || routes[dst].nextHop in blacklisted {
        return None;
      }
      return Some((dst, routes[dst].nextHop));
    }
  }

  lemma ListsMore(entries: seq<Entry>, e: Entry)
    ensures Lists(entries + [e], e.destination)
    ensures forall d :: Lists(entries, d) ==> Lists(entries + [e], d)
  {
    assert (entries + [e])[|entries|] == e;
    forall d | Lists(entries, d) ensures Lists(entries + [e], d) {
      var i :| 0 <= i < |entries| && entries[i].destination == d;
      assert (entries + [e])[i].destination == d;
    }
  }
}
