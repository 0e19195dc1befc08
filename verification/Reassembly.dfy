/**
 Reassembly of fragmented packets: when a buffer of chunks yields a packet and which one, and
 that fragments delivered in any order, with duplicates and interleaved with other packets,
 yield exactly the packet that was cut up.
 */
module Reassembly {
  import opened Wrappers
  import opened Bytes
  import opened Fragments

  /** Received chunks by starting offset. */
  type Chunks = map<nat, seq<byte>>

  datatype Buffer = Buffer(total: u16, chunks: Chunks, createdAt: nat)

  // ---------------------------------------------------------------------
  // One buffer

  predicate Covers(chunks: Chunks, o: nat, b: nat) {
    o in chunks && o <= b < o + |chunks[o]|
  }

  ghost predicate Covered(chunks: Chunks, b: nat) {
    exists o :: Covers(chunks, o, b)
  }

  /** Every byte below `total` is covered and no chunk passes the end. */
  ghost predicate Complete(total: nat, chunks: Chunks) {
    && (forall o :: o in chunks ==> o + |chunks[o]| <= total)
    && (forall b: nat :: b < total ==> Covered(chunks, b))
  }

  /** Among the chunks covering `b`, the one that starts last decides. */
  ghost predicate Decides(chunks: Chunks, o: nat, b: nat) {
    Covers(chunks, o, b) && forall o': nat :: Covers(chunks, o', b) ==> o' <= o
  }

  lemma {:induction false} SomeChunkDecides(chunks: Chunks, o: nat, b: nat)
    requires Covers(chunks, o, b)
    ensures exists o' :: Decides(chunks, o', b)
    decreases b - o
  {
    if o': nat :| Covers(chunks, o', b) && o' > o {
      SomeChunkDecides(chunks, o', b);
    } else {
      assert Decides(chunks, o, b);
    }
  }

  ghost function Decider(chunks: Chunks, b: nat): (o: nat)
    requires Covered(chunks, b)
    ensures Decides(chunks, o, b)
  {
    var covering :| Covers(chunks, covering, b);
    SomeChunkDecides(chunks, covering, b);
    var o :| Decides(chunks, o, b);
    o
  }

  /** The packet a buffer holds, once it is complete. */
  ghost function Reassembled(total: nat, chunks: Chunks): Option<seq<byte>> {
    if Complete(total, chunks)
    then Some(seq(total, b requires 0 <= b < total && Complete(total, chunks) =>
                           chunks[Decider(chunks, b)][b - Decider(chunks, b)]))
    else None
  }

  /** If all chunks are slices of one packet, a complete buffer holds that packet. */
  lemma SlicesReassemble(packet: seq<byte>, chunks: Chunks)
    requires Complete(|packet|, chunks)
    requires forall o :: o in chunks ==> chunks[o] == packet[o..o + |chunks[o]|]
    ensures Reassembled(|packet|, chunks) == Some(packet)
  {
    var r := Reassembled(|packet|, chunks).value;
    forall b | 0 <= b < |packet| ensures r[b] == packet[b] {
      var o := Decider(chunks, b);
      assert Decides(chunks, o, b);
    }
    assert r == packet;
  }

  predicate IsLeast(o: nat, s: set<nat>) {
    o in s && forall x :: x in s ==> o <= x
  }

  lemma {:induction false} LeastExists(s: set<nat>)
    requires s != {}
    ensures exists o :: IsLeast(o, s)
  {
    var y :| y in s;
    if s == {y} {
      assert IsLeast(y, s);
    } else {
      LeastExists(s - {y});
      var o :| IsLeast(o, s - {y});
      assert forall x :: x in s ==> x == y || x in s - {y};
      assert IsLeast(if o < y then o else y, s);
    }
  }

  /** Check coverage in offset order, then copy the chunks in offset order. */
  method TryReassemble(total: u16, chunks: Chunks) returns (result: Option<seq<byte>>)
    ensures result == Reassembled(total, chunks)
  {
    var complete := CheckCoverage(total, chunks);
    if !complete {
      return None;
    }
    var buf := CopyChunks(total, chunks);
    return Some(buf);
  }

  method CheckCoverage(total: u16, chunks: Chunks) returns (complete: bool)
    ensures complete <==> Complete(total, chunks)
  {
    var covered: nat := 0;
    var remaining := chunks.Keys;
    while remaining != {}
      invariant remaining <= chunks.Keys && covered <= total
      invariant forall o, x :: o in chunks && o !in remaining && x in remaining ==> o < x
      invariant forall o :: o in chunks && o !in remaining ==> o + |chunks[o]| <= covered
      invariant forall b: nat :: b < covered ==> Covered(chunks, b)
      decreases remaining
    {
      LeastExists(remaining);
      var start :| start in remaining && IsLeast(start, remaining);
      if start > covered {
        assert covered < total ==> !Covered(chunks, covered);
        return false;
      }
      var end := start + |chunks[start]|;
      if end > total {
        return false;
      }
      forall b: nat | covered <= b < end ensures Covered(chunks, b) {
        assert Covers(chunks, start, b);
      }
      if end > covered {
        covered := end;
      }
      remaining := remaining - {start};
    }
    if covered != total {
      assert !Covered(chunks, covered);
      return false;
    }
    return true;
  }

  /** Among the chunks already copied that cover `b`, the one at `o` starts last. */
  ghost predicate DecidesAmong(chunks: Chunks, remaining: set<nat>, o: nat, b: nat) {
    && Covers(chunks, o, b) && o !in remaining
    && forall o': nat :: Covers(chunks, o', b) && o' !in remaining ==> o' <= o
  }

  method CopyChunks(total: u16, chunks: Chunks) returns (packet: seq<byte>)
    requires Complete(total, chunks)
    ensures Some(packet) == Reassembled(total, chunks)
  {
    var buf := new byte[total](_ => 0);
    var remaining := chunks.Keys;
    while remaining != {}
      invariant remaining <= chunks.Keys
      invariant forall o, x :: o in chunks && o !in remaining && x in remaining ==> o < x
      invariant forall b: nat, o :: b < total && DecidesAmong(chunks, remaining, o, b) ==> buf[b] == chunks[o][b - o]
      decreases remaining
    {
      LeastExists(remaining);
      var start :| start in remaining && IsLeast(start, remaining);
      var chunk := chunks[start];
      forall i | 0 <= i < |chunk| {
        buf[start + i] := chunk[i];
      }
      remaining := remaining - {start};
    }
    packet := buf[..];
    forall b | 0 <= b < total ensures packet[b] == Reassembled(total, chunks).value[b] {
      assert DecidesAmong(chunks, {}, Decider(chunks, b), b);
    }
    assert packet == Reassembled(total, chunks).value;
  }

  // ---------------------------------------------------------------------
  // The reassembler

  type Buffers = map<u32, Buffer>

  /** Feed one fragment: the packet it completes, if any, and the buffers afterwards. */
  ghost function Inserted(bufs: Buffers, f: Fragment, now: nat): (Option<seq<byte>>, Buffers) {
    var buf := if f.id in bufs then bufs[f.id] else Buffer(f.total, map[], now);
    if buf.total != f.total then (None, bufs)
    else
      var chunks := if f.offset in buf.chunks then buf.chunks else buf.chunks[f.offset := f.payload];
      match Reassembled(buf.total, chunks)
      case Some(packet) => (Some(packet), bufs - {f.id})
      case None => (None, bufs[f.id := buf.(chunks := chunks)])
  }

  function Unexpired(bufs: Buffers, timeout: nat, now: nat): Buffers {
    map id | id in bufs && now - bufs[id].createdAt < timeout :: bufs[id]
  }

  class Reassembler {
    const timeout: nat
    var buffers: Buffers

    constructor (timeout: nat)
      ensures this.timeout == timeout && buffers == map[]
    {
      this.timeout, buffers := timeout, map[];
    }

    method Insert(frame: Fragment, now: nat) returns (packet: Option<seq<byte>>)
      modifies this
      ensures (packet, buffers) == Inserted(old(buffers), frame, now)
    {
      if frame.id !in buffers {
        buffers := buffers[frame.id := Buffer(frame.total, map[], now)];
      }
      var buf := buffers[frame.id];
      if buf.total != frame.total {
        return None;
      }
      if frame.offset !in buf.chunks {
        buf := buf.(chunks := buf.chunks[frame.offset as nat := frame.payload]);
        buffers := buffers[frame.id := buf];
      }
      packet := TryReassemble(buf.total, buf.chunks);
      if packet.Some? {
        buffers := buffers - {frame.id};
        assert buffers == old(buffers) - {frame.id};
      } else {
        assert buffers == old(buffers)[frame.id := buf];
      }
    }

    method ExpireStale(now: nat)
      modifies this
      ensures buffers == Unexpired(old(buffers), timeout, now)
    {
      buffers := map id | id in buffers && now - buffers[id].createdAt < timeout :: buffers[id];
    }
  }

  /** A sweep drops a buffer exactly when it was opened at least `timeout` ago, and leaves the others alone. */
  lemma SweepDropsExactly(bufs: Buffers, timeout: nat, now: nat, id: u32)
    ensures id in Unexpired(bufs, timeout, now) <==> id in bufs && now < bufs[id].createdAt + timeout
    ensures id in Unexpired(bufs, timeout, now) ==> Unexpired(bufs, timeout, now)[id] == bufs[id]
  {
  }

  /**
   What one fragment does. Its first fragment fixes a packet's total and the time it was opened; a
   fragment with another total is ignored; of two chunks at one offset the first stays; other packets
   are not touched.
   */
  lemma InsertExactly(bufs: Buffers, f: Fragment, now: nat, id: u32)
    ensures var (packet, bufs') := Inserted(bufs, f, now);
      && (id != f.id ==> Get(bufs', id) == Get(bufs, id))
      && (f.id in bufs && bufs[f.id].total != f.total ==> packet == None && bufs' == bufs)
      && (packet.Some? ==> f.id !in bufs' && |packet.value| == f.total)
      && (packet.None? ==> f.id in bufs')
      && (packet.None? && f.id !in bufs ==>
            bufs'[f.id] == Buffer(f.total, map[f.offset as nat := f.payload], now))
      && (packet.None? && f.id in bufs && bufs[f.id].total == f.total ==>
            && bufs'[f.id].total == f.total && bufs'[f.id].createdAt == bufs[f.id].createdAt
            && forall o: nat :: Get(bufs'[f.id].chunks, o)
                 == if o == f.offset && o !in bufs[f.id].chunks then Some(f.payload) else Get(bufs[f.id].chunks, o))
  {
  }

  // ---------------------------------------------------------------------
  // Any order, any duplicates, other packets in between

  datatype Event = Arrive(wire: seq<byte>, now: nat) | Sweep(now: nat)

  /** One event: bytes that are no fragment are ignored. */
  ghost function Step(bufs: Buffers, timeout: nat, event: Event): (Option<seq<byte>>, Buffers) {
    match event
    case Sweep(now) => (None, Unexpired(bufs, timeout, now))
    case Arrive(wire, now) =>
      match Deserialize(wire)
      case None => (None, bufs)
      case Some(f) => Inserted(bufs, f, now)
  }

  ghost function Feed(bufs: Buffers, timeout: nat, events: seq<Event>): Buffers {
    if events == [] then bufs
    else Step(Feed(bufs, timeout, events[..|events|-1]), timeout, events[|events|-1]).1
  }

  /** What the last of `events` returns. */
  ghost function LastOutput(bufs: Buffers, timeout: nat, events: seq<Event>): Option<seq<byte>>
    requires events != []
  {
    Step(Feed(bufs, timeout, events[..|events|-1]), timeout, events[|events|-1]).0
  }

  predicate IsPacket(data: seq<byte>) {
    1 <= |data| <= 65535
  }

  /** The event delivers fragment `k` of `data`. */
  predicate Delivers(event: Event, data: seq<byte>, id: u32, k: nat)
    requires k < FragmentCount(|data|)
  {
    event.Arrive? && event.wire == Serialize(FragmentAt(data, id, k))
  }

  predicate ForId(event: Event, id: u32) {
    event.Arrive? && Deserialize(event.wire).Some? && Deserialize(event.wire).value.id == id
  }

  /** What arrives under `id` are fragments of `data`; sweeps come within the timeout after `since`. */
  ghost predicate Genuine(event: Event, timeout: nat, data: seq<byte>, id: u32, since: nat) {
    && (ForId(event, id) ==> exists k :: 0 <= k < FragmentCount(|data|) && Delivers(event, data, id, k))
    && (event.Arrive? ==> since <= event.now)
    && (event.Sweep? ==> event.now < since + timeout)
  }

  ghost predicate AllGenuine(events: seq<Event>, timeout: nat, data: seq<byte>, id: u32, since: nat) {
    forall i :: 0 <= i < |events| ==> Genuine(events[i], timeout, data, id, since)
  }

  /** The fragments of `data` delivered so far. */
  function Seen(events: seq<Event>, data: seq<byte>, id: u32): set<nat> {
    set k | 0 <= k < FragmentCount(|data|) && HasArrived(events, data, id, k)
  }

  predicate HasArrived(events: seq<Event>, data: seq<byte>, id: u32, k: nat)
    requires k < FragmentCount(|data|)
  {
    exists i :: 0 <= i < |events| && Delivers(events[i], data, id, k)
  }

  predicate AllSeen(events: seq<Event>, data: seq<byte>, id: u32) {
    AllFragments(data, Seen(events, data, id))
  }

  /** The chunks at the offsets of the fragments in `seen`. */
  function ChunksOf(data: seq<byte>, seen: set<nat>): Chunks
    requires AreFragments(data, seen)
  {
    map k | k in seen :: k * MAX_FRAGMENT_PAYLOAD := Slice(data, k)
  }

  /** All of `seen` are fragments of the packet. */
  predicate AreFragments(data: seq<byte>, seen: set<nat>) {
    forall k :: k in seen ==> k < FragmentCount(|data|)
  }

  /** Every fragment of the packet is in `seen`. */
  predicate AllFragments(data: seq<byte>, seen: set<nat>) {
    forall k :: 0 <= k < FragmentCount(|data|) ==> k in seen
  }

  lemma ChunkIsSlice(data: seq<byte>, seen: set<nat>, o: nat)
    requires AreFragments(data, seen) && o in ChunksOf(data, seen)
    ensures var chunk := ChunksOf(data, seen)[o]; o + |chunk| <= |data| && chunk == data[o..o + |chunk|]
  {
    var k :| k in seen && o == k * MAX_FRAGMENT_PAYLOAD;
  }

  /** Fragment `k` is there exactly when the byte at its offset is covered. */
  lemma FragmentCovered(data: seq<byte>, seen: set<nat>, k: nat)
    requires AreFragments(data, seen) && k < FragmentCount(|data|)
    ensures k * MAX_FRAGMENT_PAYLOAD < |data|
    ensures Covered(ChunksOf(data, seen), k * MAX_FRAGMENT_PAYLOAD) <==> k in seen
  {
    CountBound(|data|, k);
    ChunkCovers(data, seen, k * MAX_FRAGMENT_PAYLOAD);
  }

  lemma AllFragmentsCover(data: seq<byte>, seen: set<nat>)
    requires AreFragments(data, seen) && AllFragments(data, seen)
    ensures Complete(|data|, ChunksOf(data, seen))
  {
    forall o | o in ChunksOf(data, seen) ensures o + |ChunksOf(data, seen)[o]| <= |data| {
      ChunkIsSlice(data, seen, o);
    }
    forall b: nat | b < |data| ensures Covered(ChunksOf(data, seen), b) {
      ChunkCovers(data, seen, b);
    }
  }

  /** The fragments in `seen` fill the packet exactly when they are all of them, and then give it back. */
  lemma ChunksComplete(data: seq<byte>, seen: set<nat>)
    requires AreFragments(data, seen)
    ensures Complete(|data|, ChunksOf(data, seen)) <==> AllFragments(data, seen)
    ensures AllFragments(data, seen) ==> Reassembled(|data|, ChunksOf(data, seen)) == Some(data)
  {
    var chunks := ChunksOf(data, seen);
    if Complete(|data|, chunks) {
      forall k | 0 <= k < FragmentCount(|data|) ensures k in seen { FragmentCovered(data, seen, k); }
    }
    if AllFragments(data, seen) {
      AllFragmentsCover(data, seen);
      forall o | o in chunks ensures chunks[o] == data[o..o + |chunks[o]|] { ChunkIsSlice(data, seen, o); }
      SlicesReassemble(data, chunks);
    }
  }

  lemma ChunkCovers(data: seq<byte>, seen: set<nat>, b: nat)
    requires AreFragments(data, seen) && b < |data|
    ensures Covered(ChunksOf(data, seen), b) <==> b / MAX_FRAGMENT_PAYLOAD in seen
  {
    var chunks, q := ChunksOf(data, seen), b / MAX_FRAGMENT_PAYLOAD;
    if q in seen {
      assert Covers(chunks, q * MAX_FRAGMENT_PAYLOAD, b);
    }
    if o: nat :| Covers(chunks, o, b) {
      var k :| k in seen && o == k * MAX_FRAGMENT_PAYLOAD;
      assert k == q;
    }
  }

  lemma FragmentFits(data: seq<byte>, id: u32, k: nat)
    requires IsPacket(data) && k < FragmentCount(|data|)
    ensures k * MAX_FRAGMENT_PAYLOAD < |data|
    ensures FragmentAt(data, id, k) == Fragment(id, k * MAX_FRAGMENT_PAYLOAD, |data|, Slice(data, k))
    ensures k * MAX_FRAGMENT_PAYLOAD + |Slice(data, k)| <= |data|
  {
  }

  lemma FragmentSurvivesWire(data: seq<byte>, id: u32, k: nat)
    requires IsPacket(data) && k < FragmentCount(|data|)
    ensures k * MAX_FRAGMENT_PAYLOAD < |data|
    ensures Deserialize(Serialize(FragmentAt(data, id, k)))
         == Some(Fragment(id, k * MAX_FRAGMENT_PAYLOAD, |data|, Slice(data, k)))
  {
    FragmentFits(data, id, k);
    WireRoundTrip(FragmentAt(data, id, k));
  }

  /** Distinct fragments differ on the wire. */
  lemma DeliversOne(event: Event, data: seq<byte>, id: u32, k: nat, k': nat)
    requires IsPacket(data) && k < FragmentCount(|data|) && k' < FragmentCount(|data|)
    requires Delivers(event, data, id, k) && Delivers(event, data, id, k')
    ensures k == k'
  {
    FragmentSurvivesWire(data, id, k);
    FragmentSurvivesWire(data, id, k');
  }

  /** The buffer for `id` holds exactly the fragments in `seen`. */
  ghost predicate Holding(bufs: Buffers, data: seq<byte>, id: u32, seen: set<nat>, since: nat) {
    && AreFragments(data, seen)
    && (seen == {} <==> id !in bufs)
    && (id in bufs ==>
          bufs[id].total == |data| && bufs[id].chunks == ChunksOf(data, seen) && bufs[id].createdAt >= since)
  }

  /** Fragments of other packets, junk and timely sweeps leave the buffer alone. */
  lemma OtherEventsKeepHolding(bufs: Buffers, timeout: nat, event: Event, data: seq<byte>, id: u32, seen: set<nat>,
                               since: nat)
    requires Holding(bufs, data, id, seen, since) && !ForId(event, id) && Genuine(event, timeout, data, id, since)
    ensures Holding(Step(bufs, timeout, event).1, data, id, seen, since)
  {
  }

  /** Fragment `k` has a chunk at its offset exactly when it was seen. */
  lemma ChunkOfFragment(data: seq<byte>, seen: set<nat>, k: nat)
    requires AreFragments(data, seen)
    ensures k * MAX_FRAGMENT_PAYLOAD in ChunksOf(data, seen) <==> k in seen
    ensures k in seen ==> ChunksOf(data, seen)[k * MAX_FRAGMENT_PAYLOAD] == Slice(data, k)
  {
  }

  lemma ChunksOfMore(data: seq<byte>, seen: set<nat>, k: nat, o: nat)
    requires AreFragments(data, seen) && k < FragmentCount(|data|) && k !in seen
    ensures Get(ChunksOf(data, seen + {k}), o)
         == Get(ChunksOf(data, seen)[k * MAX_FRAGMENT_PAYLOAD := Slice(data, k)], o)
  {
    ChunkOfFragment(data, seen + {k}, k);
    if j :| j in seen + {k} && o == j * MAX_FRAGMENT_PAYLOAD {
      ChunkOfFragment(data, seen, j);
      ChunkOfFragment(data, seen + {k}, j);
    }
  }

  lemma ChunksGrow(data: seq<byte>, seen: set<nat>, k: nat)
    requires AreFragments(data, seen) && k < FragmentCount(|data|)
    ensures var chunks := ChunksOf(data, seen);
      ChunksOf(data, seen + {k})
        == if k * MAX_FRAGMENT_PAYLOAD in chunks then chunks else chunks[k * MAX_FRAGMENT_PAYLOAD := Slice(data, k)]
  {
    ChunkOfFragment(data, seen, k);
    if k in seen {
      assert seen + {k} == seen;
    } else {
      var more, grown := ChunksOf(data, seen + {k}), ChunksOf(data, seen)[k * MAX_FRAGMENT_PAYLOAD := Slice(data, k)];
      forall o: nat ensures Get(more, o) == Get(grown, o) { ChunksOfMore(data, seen, k, o); }
      assert more.Keys == grown.Keys by {
        forall o: nat ensures o in more <==> o in grown { assert Get(more, o) == Get(grown, o); }
      }
      forall o | o in more ensures more[o] == grown[o] { assert Get(more, o) == Get(grown, o); }
    }
  }

  /** Fragment `k` is added; if it was the last one missing, the packet comes out. */
  lemma FragmentAdvances(bufs: Buffers, timeout: nat, event: Event, data: seq<byte>, id: u32, seen: set<nat>,
                         since: nat, k: nat)
    requires IsPacket(data) && Holding(bufs, data, id, seen, since)
    requires k < FragmentCount(|data|) && Delivers(event, data, id, k) && since <= event.now
    ensures var (output, bufs') := Step(bufs, timeout, event);
      if AllFragments(data, seen + {k})
      then output == Some(data) && id !in bufs'
      else output == None && Holding(bufs', data, id, seen + {k}, since)
  {
    FragmentSurvivesWire(data, id, k);
    var f := Fragment(id, k * MAX_FRAGMENT_PAYLOAD, |data|, Slice(data, k));
    assert Step(bufs, timeout, event) == Inserted(bufs, f, event.now);
    ChunksGrow(data, seen, k);
    assert ChunksOf(data, {}) == map[];
    ChunksComplete(data, seen + {k});
  }

  lemma SeenGrows(events: seq<Event>, data: seq<byte>, id: u32, event: Event)
    ensures forall k :: (k in Seen(events + [event], data, id) <==>
      k in Seen(events, data, id) || (0 <= k < FragmentCount(|data|) && Delivers(event, data, id, k)))
  {
    var longer := events + [event];
    forall k | 0 <= k < FragmentCount(|data|)
      ensures HasArrived(longer, data, id, k) <==> HasArrived(events, data, id, k) || Delivers(event, data, id, k)
    {
      if HasArrived(events, data, id, k) {
        var i :| 0 <= i < |events| && Delivers(events[i], data, id, k);
        assert longer[i] == events[i];
      }
      if Delivers(event, data, id, k) { assert longer[|events|] == event; }
    }
  }

  /** Until the last distinct fragment arrives, the buffer holds exactly the fragments seen. */
  lemma {:induction false} BufferHoldsSeen(bufs: Buffers, timeout: nat, events: seq<Event>, data: seq<byte>, id: u32,
                                           since: nat)
    requires IsPacket(data) && id !in bufs && AllGenuine(events, timeout, data, id, since) && !AllSeen(events, data, id)
    ensures Holding(Feed(bufs, timeout, events), data, id, Seen(events, data, id), since)
  {
    if events == [] {
      assert Seen(events, data, id) == {};
    } else {
      var init, last := events[..|events|-1], events[|events|-1];
      assert events == init + [last];
      SeenGrows(init, data, id, last);
      BufferHoldsSeen(bufs, timeout, init, data, id, since);
      StepHolds(Feed(bufs, timeout, init), timeout, init, last, data, id, since);
    }
  }

  /** A fragment that arrives is one more seen. */
  lemma SeenByArrival(init: seq<Event>, last: Event, data: seq<byte>, id: u32, k: nat)
    requires IsPacket(data) && k < FragmentCount(|data|) && Delivers(last, data, id, k)
    ensures Seen(init + [last], data, id) == Seen(init, data, id) + {k}
  {
    SeenGrows(init, data, id, last);
    forall j | 0 <= j < FragmentCount(|data|) && Delivers(last, data, id, j) ensures j == k {
      DeliversOne(last, data, id, j, k);
    }
  }

  /** An event that is not for the packet shows nothing new of it. */
  lemma SeenByOther(init: seq<Event>, last: Event, data: seq<byte>, id: u32)
    requires IsPacket(data) && !ForId(last, id)
    ensures Seen(init + [last], data, id) == Seen(init, data, id)
  {
    SeenGrows(init, data, id, last);
    forall j | 0 <= j < FragmentCount(|data|) ensures !Delivers(last, data, id, j) {
      FragmentSurvivesWire(data, id, j);
    }
  }

  /** One more genuine event, given what the buffer holds before it. */
  lemma StepHolds(bufs: Buffers, timeout: nat, init: seq<Event>, last: Event, data: seq<byte>, id: u32, since: nat)
    requires IsPacket(data) && Genuine(last, timeout, data, id, since)
    requires Holding(bufs, data, id, Seen(init, data, id), since)
    ensures var (output, bufs') := Step(bufs, timeout, last);
      && (ForId(last, id) ==> output == if AllSeen(init + [last], data, id) then Some(data) else None)
      && (ForId(last, id) && AllSeen(init + [last], data, id) ==> id !in bufs')
      && (!AllSeen(init + [last], data, id) ==> Holding(bufs', data, id, Seen(init + [last], data, id), since))
  {
    var seen := Seen(init, data, id);
    if ForId(last, id) {
      var k :| 0 <= k < FragmentCount(|data|) && Delivers(last, data, id, k);
      SeenByArrival(init, last, data, id, k);
      FragmentAdvances(bufs, timeout, last, data, id, seen, since, k);
    } else {
      SeenByOther(init, last, data, id);
      OtherEventsKeepHolding(bufs, timeout, last, data, id, seen, since);
    }
  }

  /**
   Fed in any order, with any duplicates, and interleaved with fragments of other packets, the
   fragments of a packet yield nothing until the last distinct one arrives, and then exactly
   the original bytes; the buffer is gone afterwards.
   */
  lemma ReassemblesInAnyOrder(bufs: Buffers, timeout: nat, events: seq<Event>, data: seq<byte>, id: u32, since: nat)
    requires IsPacket(data) && id !in bufs && AllGenuine(events, timeout, data, id, since)
    requires events != [] && ForId(events[|events|-1], id) && !AllSeen(events[..|events|-1], data, id)
    ensures LastOutput(bufs, timeout, events) == if AllSeen(events, data, id) then Some(data) else None
    ensures AllSeen(events, data, id) ==> id !in Feed(bufs, timeout, events)
  {
    var init, last := events[..|events|-1], events[|events|-1];
    assert events == init + [last];
    BufferHoldsSeen(bufs, timeout, init, data, id, since);
    StepHolds(Feed(bufs, timeout, init), timeout, init, last, data, id, since);
  }
}
