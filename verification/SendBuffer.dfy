/**
 The store-and-forward buffer of one peer: bounded, sorted by priority, evicting the least
 urgent frame on overflow and dropping frames that have waited too long.
 */
module SendBuffer {
  import opened Wrappers

  /** Lower is more urgent: control 0, route 1, data 2. */
  datatype FrameType = Control | Handshake | RouteUpdate | OtherType

  function PriorityOf(frameType: FrameType): nat {
    match frameType
    case Control => 0
    case Handshake => 0
    case RouteUpdate => 1
    case OtherType => 2
  }

  type Payload(!new)

  datatype Buffered = Buffered(enqueuedAt: nat, priority: nat, frame: Payload)

  // ---------------------------------------------------------------------
  // The operations on a list of frames

  /** The frames younger than `timeout`. */
  function Retain(frames: seq<Buffered>, timeout: nat, now: nat): seq<Buffered> {
    if frames == [] then []
    else
      var rest := Retain(frames[..|frames|-1], timeout, now);
      var last := frames[|frames|-1];
      if now - last.enqueuedAt < timeout then rest + [last] else rest
  }

  /** Whether `f` goes before a frame of this priority enqueued at this time. */
  predicate GoesBefore(f: Buffered, priority: nat, enqueuedAt: nat) {
    f.priority < priority || (f.priority == priority && f.enqueuedAt <= enqueuedAt)
  }

  /** Length of the longest prefix of frames that go before. */
  function PartitionPoint(frames: seq<Buffered>, priority: nat, enqueuedAt: nat): (k: nat)
    ensures k <= |frames|
    ensures forall i :: 0 <= i < k ==> GoesBefore(frames[i], priority, enqueuedAt)
    ensures k < |frames| ==> !GoesBefore(frames[k], priority, enqueuedAt)
  {
    if frames == [] || !GoesBefore(frames[0], priority, enqueuedAt) then 0
    else 1 + PartitionPoint(frames[1..], priority, enqueuedAt)
  }

  function InsertSorted(frames: seq<Buffered>, f: Buffered): seq<Buffered> {
    var k := PartitionPoint(frames, f.priority, f.enqueuedAt);
    frames[..k] + [f] + frames[k..]
  }

  /** The frames that stay when one of this priority wants in; `None` if it must be dropped itself. */
  function Evict(live: seq<Buffered>, capacity: nat, priority: nat): Option<seq<Buffered>> {
    if |live| < capacity then Some(live)
    else if live != [] && live[|live|-1].priority >= priority then Some(live[..|live|-1])
    else None
  }

  /** Push `f` at time `now`; it is stamped with its own, possibly later, time. */
  function Pushed(frames: seq<Buffered>, capacity: nat, timeout: nat, f: Buffered, now: nat): seq<Buffered> {
    var live := Retain(frames, timeout, now);
    match Evict(live, capacity, f.priority)
    case Some(kept) => InsertSorted(kept, f)
    case None => live
  }

  /** The frames themselves, without their stamps. */
  function Payloads(frames: seq<Buffered>): seq<Payload> {
    seq(|frames|, i requires 0 <= i < |frames| => frames[i].frame)
  }

  class PeerBuffer {
    var frames: seq<Buffered>
    const capacity: nat
    const timeout: nat

    constructor (capacity: nat, timeout: nat)
      ensures frames == [] && this.capacity == capacity && this.timeout == timeout
    {
      frames, this.capacity, this.timeout := [], capacity, timeout;
    }

    method RetainLive(now: nat)
      modifies this
      ensures frames == Retain(old(frames), timeout, now)
    {
      var kept := [];
      for i := 0 to |frames|
        invariant frames == old(frames) && kept == Retain(frames[..i], timeout, now)
      {
        assert frames[..i+1][..i] == frames[..i];
        if now - frames[i].enqueuedAt < timeout {
          kept := kept + [frames[i]];
        }
      }
      assert frames[..|frames|] == frames;
      frames := kept;
    }

    method Push(priority: nat, frame: Payload, now: nat, enqueuedAt: nat)
      modifies this
      ensures frames == Pushed(old(frames), capacity, timeout, Buffered(enqueuedAt, priority, frame), now)
    {
      RetainLive(now);
      if |frames| >= capacity {
        if frames != [] && frames[|frames|-1].priority >= priority {
          frames := frames[..|frames|-1];
        } else {
          return;
        }
      }
      var f := Buffered(enqueuedAt, priority, frame);
      var pos := PartitionPoint(frames, priority, enqueuedAt);
      frames := frames[..pos] + [f] + frames[pos..];
    }

    method Drain(now: nat) returns (out: seq<Payload>)
      modifies this
      ensures frames == [] && out == Payloads(Retain(old(frames), timeout, now))
    {
      RetainLive(now);
      out := Payloads(frames);
      frames := [];
    }

    method Expire(now: nat) returns (removed: nat)
      modifies this
      ensures frames == Retain(old(frames), timeout, now) && removed == |old(frames)| - |frames|
    {
      RetainLength(frames, timeout, now);
      var before := |frames|;
      RetainLive(now);
      removed := before - |frames|;
    }
  }

  lemma {:induction false} RetainLength(frames: seq<Buffered>, timeout: nat, now: nat)
    ensures |Retain(frames, timeout, now)| <= |frames|
  {
    if frames != [] { RetainLength(frames[..|frames|-1], timeout, now); }
  }

  // ---------------------------------------------------------------------
  // Order

  predicate Sorted(frames: seq<Buffered>) {
    forall i, j :: 0 <= i < j < |frames| ==> GoesBefore(frames[i], frames[j].priority, frames[j].enqueuedAt)
  }

  predicate Stamped(frames: seq<Buffered>, now: nat) {
    forall i :: 0 <= i < |frames| ==> frames[i].enqueuedAt <= now
  }

  /** What is kept is in order, was there before, and is what had not expired. */
  lemma {:induction false} RetainKeepsOrder(frames: seq<Buffered>, timeout: nat, now: nat)
    requires Sorted(frames)
    ensures Sorted(Retain(frames, timeout, now))
    ensures forall f :: f in Retain(frames, timeout, now) <==> f in frames && now - f.enqueuedAt < timeout
  {
    if frames != [] {
      var init, last := frames[..|frames|-1], frames[|frames|-1];
      assert frames == init + [last];
      RetainKeepsOrder(init, timeout, now);
      forall f | f in Retain(init, timeout, now) ensures GoesBefore(f, last.priority, last.enqueuedAt) {
        var i :| 0 <= i < |init| && init[i] == f;
        assert frames[i] == f;
      }
    }
  }

  /** In a sorted buffer the insertion point splits the frames cleanly by priority. */
  lemma InsertionPointSplits(frames: seq<Buffered>, f: Buffered)
    requires Sorted(frames) && Stamped(frames, f.enqueuedAt)
    ensures var k := PartitionPoint(frames, f.priority, f.enqueuedAt);
      && (forall i :: 0 <= i < k ==> frames[i].priority <= f.priority)
      && (forall i :: k <= i < |frames| ==> frames[i].priority > f.priority)
  {
    var k := PartitionPoint(frames, f.priority, f.enqueuedAt);
    forall i | k <= i < |frames| ensures frames[i].priority > f.priority {
      assert frames[k].enqueuedAt <= f.enqueuedAt;
      if i > k { assert GoesBefore(frames[k], frames[i].priority, frames[i].enqueuedAt); }
    }
  }

  lemma SplitInsertIsSorted(frames: seq<Buffered>, f: Buffered, k: nat)
    requires Sorted(frames) && Stamped(frames, f.enqueuedAt) && k <= |frames|
    requires forall i :: 0 <= i < k ==> frames[i].priority <= f.priority
    requires forall i :: k <= i < |frames| ==> frames[i].priority > f.priority
    ensures Sorted(frames[..k] + [f] + frames[k..])
  {
    var r := frames[..k] + [f] + frames[k..];
    forall i, j | 0 <= i < j < |r| ensures GoesBefore(r[i], r[j].priority, r[j].enqueuedAt) {
      var i', j' := if i > k then i - 1 else i, if j > k then j - 1 else j;
      assert i != k ==> r[i] == frames[i'];
      assert j != k ==> r[j] == frames[j'];
    }
  }

  lemma InsertKeepsOrder(frames: seq<Buffered>, f: Buffered)
    requires Sorted(frames) && Stamped(frames, f.enqueuedAt)
    ensures Sorted(InsertSorted(frames, f)) && Stamped(InsertSorted(frames, f), f.enqueuedAt)
    ensures |InsertSorted(frames, f)| == |frames| + 1
  {
    InsertionPointSplits(frames, f);
    SplitInsertIsSorted(frames, f, PartitionPoint(frames, f.priority, f.enqueuedAt));
  }

  lemma InsertAddsOne(frames: seq<Buffered>, f: Buffered)
    ensures multiset(InsertSorted(frames, f)) == multiset(frames) + multiset{f}
  {
    var k := PartitionPoint(frames, f.priority, f.enqueuedAt);
    assert frames == frames[..k] + frames[k..];
  }

  /** Expiry keeps the buffer sorted, stamped and within its bound. */
  lemma RetainKeepsInvariant(frames: seq<Buffered>, capacity: nat, timeout: nat, now: nat)
    requires Sorted(frames) && |frames| <= capacity && Stamped(frames, now)
    ensures var live := Retain(frames, timeout, now);
      Sorted(live) && |live| <= capacity && Stamped(live, now)
  {
    var live := Retain(frames, timeout, now);
    RetainKeepsOrder(frames, timeout, now);
    RetainLength(frames, timeout, now);
    forall i | 0 <= i < |live| ensures live[i].enqueuedAt <= now { assert live[i] in frames; }
  }

  /** So does a push. */
  lemma PushKeepsOrder(frames: seq<Buffered>, capacity: nat, timeout: nat, f: Buffered, now: nat)
    requires Sorted(frames) && |frames| <= capacity && Stamped(frames, now) && now <= f.enqueuedAt
    ensures var frames' := Pushed(frames, capacity, timeout, f, now);
      Sorted(frames') && |frames'| <= capacity && Stamped(frames', f.enqueuedAt)
  {
    var live := Retain(frames, timeout, now);
    RetainKeepsInvariant(frames, capacity, timeout, now);
    var kept := Evict(live, capacity, f.priority);
    if kept.Some? { InsertKeepsOrder(kept.value, f); }
  }

  // ---------------------------------------------------------------------
  // Arrival order within a priority

  function OfPriority(frames: seq<Buffered>, p: nat): seq<Buffered> {
    if frames == [] then []
    else
      var rest := OfPriority(frames[..|frames|-1], p);
      if frames[|frames|-1].priority == p then rest + [frames[|frames|-1]] else rest
  }

  /** `a` is `b` with some elements left out. */
  predicate Subsequence(a: seq<Buffered>, b: seq<Buffered>)
    decreases |b|
  {
    || a == []
    || (b != [] &&
        (|| Subsequence(a, b[..|b|-1])
         || (a[|a|-1] == b[|b|-1] && Subsequence(a[..|a|-1], b[..|b|-1]))))
  }

  lemma {:induction false} SubsequenceShorter(a: seq<Buffered>, b: seq<Buffered>)
    requires a != [] && Subsequence(a, b)
    ensures Subsequence(a[..|a|-1], b)
    decreases |b|
  {
    if Subsequence(a, b[..|b|-1]) {
      SubsequenceShorter(a, b[..|b|-1]);
    }
  }

  lemma {:induction false} OfPriorityAppend(a: seq<Buffered>, b: seq<Buffered>, p: nat)
    ensures OfPriority(a + b, p) == OfPriority(a, p) + OfPriority(b, p)
  {
    if b == [] {
      assert a + b == a;
    } else {
      OfPriorityAppend(a, b[..|b|-1], p);
      assert (a + b)[..|a + b|-1] == a + b[..|b|-1];
    }
  }

  lemma {:induction false} NoneOfPriority(frames: seq<Buffered>, p: nat)
    requires forall i :: 0 <= i < |frames| ==> frames[i].priority != p
    ensures OfPriority(frames, p) == []
  {
    if frames != [] { NoneOfPriority(frames[..|frames|-1], p); }
  }

  lemma OfPriorityInsert(a: seq<Buffered>, f: Buffered, b: seq<Buffered>, p: nat)
    ensures OfPriority(a + [f] + b, p) == OfPriority(a, p) + (if p == f.priority then [f] else []) + OfPriority(b, p)
  {
    OfPriorityAppend(a + [f], b, p);
    OfPriorityAppend(a, [f], p);
    assert OfPriority([f], p) == if p == f.priority then [f] else [];
  }

  lemma InsertBetween(a: seq<Buffered>, f: Buffered, b: seq<Buffered>, p: nat)
    requires forall i :: 0 <= i < |b| ==> b[i].priority > f.priority
    ensures OfPriority(a + [f] + b, p) == OfPriority(a + b, p) + (if p == f.priority then [f] else [])
  {
    OfPriorityInsert(a, f, b, p);
    OfPriorityAppend(a, b, p);
    if p == f.priority { NoneOfPriority(b, p); }
  }

  /** A new frame goes behind all frames of its own priority and disturbs no other priority. */
  lemma InsertAppends(frames: seq<Buffered>, f: Buffered, p: nat)
    requires Sorted(frames) && Stamped(frames, f.enqueuedAt)
    ensures OfPriority(InsertSorted(frames, f), p) == OfPriority(frames, p) + (if p == f.priority then [f] else [])
  {
    var k := PartitionPoint(frames, f.priority, f.enqueuedAt);
    InsertionPointSplits(frames, f);
    InsertAppendsAt(frames, f, k, p);
  }

  lemma InsertAppendsAt(frames: seq<Buffered>, f: Buffered, k: nat, p: nat)
    requires k <= |frames| && forall i :: k <= i < |frames| ==> frames[i].priority > f.priority
    ensures OfPriority(frames[..k] + [f] + frames[k..], p)
         == OfPriority(frames, p) + (if p == f.priority then [f] else [])
  {
    var before, after := frames[..k], frames[k..];
    forall i | 0 <= i < |after| ensures after[i].priority > f.priority { assert after[i] == frames[k + i]; }
    InsertBetween(before, f, after, p);
    assert frames == before + after;
  }

  /** Expiry only leaves frames out. */
  lemma {:induction false} RetainIsSubsequence(frames: seq<Buffered>, timeout: nat, now: nat, p: nat,
                                               all: seq<Buffered>)
    requires Subsequence(OfPriority(frames, p), all)
    ensures Subsequence(OfPriority(Retain(frames, timeout, now), p), all)
    decreases |frames|, |all|
  {
    if frames != [] {
      var init, last := frames[..|frames|-1], frames[|frames|-1];
      if last.priority != p {
        RetainIsSubsequence(init, timeout, now, p, all);
        OfPriorityAppend(Retain(init, timeout, now), [last], p);
        assert OfPriority([last], p) == [];
      } else {
        var a := OfPriority(frames, p);
        assert a[..|a|-1] == OfPriority(init, p);
        if Subsequence(a, all[..|all|-1]) {
          RetainIsSubsequence(frames, timeout, now, p, all[..|all|-1]);
        } else {
          RetainIsSubsequence(init, timeout, now, p, all[..|all|-1]);
          var kept := OfPriority(Retain(init, timeout, now), p);
          OfPriorityAppend(Retain(init, timeout, now), [last], p);
          assert OfPriority([last], p) == [last];
          assert (kept + [last])[..|kept|] == kept;
        }
      }
    }
  }

  lemma DroppedLast(live: seq<Buffered>, p: nat, all: seq<Buffered>)
    requires live != [] && Subsequence(OfPriority(live, p), all)
    ensures Subsequence(OfPriority(live[..|live|-1], p), all)
  {
    var a := OfPriority(live, p);
    if live[|live|-1].priority == p {
      assert a[..|a|-1] == OfPriority(live[..|live|-1], p);
      SubsequenceShorter(a, all);
    }
  }

  lemma SubsequenceExtends(a: seq<Buffered>, b: seq<Buffered>, f: Buffered)
    requires Subsequence(a, b)
    ensures Subsequence(a, b + [f]) && Subsequence(a + [f], b + [f])
  {
    assert (b + [f])[..|b|] == b && (a + [f])[..|a|] == a;
  }

  /** Within each priority the buffer lists frames in the order they were pushed. */
  lemma PushKeepsArrivalOrder(frames: seq<Buffered>, capacity: nat, timeout: nat, f: Buffered, now: nat, p: nat,
                              all: seq<Buffered>)
    requires Sorted(frames) && |frames| <= capacity && Stamped(frames, now) && now <= f.enqueuedAt
    requires Subsequence(OfPriority(frames, p), OfPriority(all, p))
    ensures Subsequence(OfPriority(Pushed(frames, capacity, timeout, f, now), p), OfPriority(all + [f], p))
  {
    var live := Retain(frames, timeout, now);
    RetainKeepsInvariant(frames, capacity, timeout, now);
    RetainIsSubsequence(frames, timeout, now, p, OfPriority(all, p));
    assert (all + [f])[..|all|] == all;
    var kept := Evict(live, capacity, f.priority);
    if kept.Some? {
      if kept.value != live { DroppedLast(live, p, OfPriority(all, p)); }
      InsertedInOrder(kept.value, f, p, OfPriority(all, p));
    } else {
      SubsequenceExtends(OfPriority(live, p), OfPriority(all, p), f);
    }
  }

  lemma InsertedInOrder(kept: seq<Buffered>, f: Buffered, p: nat, before: seq<Buffered>)
    requires Sorted(kept) && Stamped(kept, f.enqueuedAt) && Subsequence(OfPriority(kept, p), before)
    ensures Subsequence(OfPriority(InsertSorted(kept, f), p), if f.priority == p then before + [f] else before)
  {
    InsertAppends(kept, f, p);
    SubsequenceExtends(OfPriority(kept, p), before, f);
    assert OfPriority(kept, p) + [] == OfPriority(kept, p);
  }

  // ---------------------------------------------------------------------
  // The most urgent frames

  /** `kept` are the `capacity` most urgent frames of `all`. */
  ghost predicate MostUrgent(all: multiset<Buffered>, kept: multiset<Buffered>, capacity: nat) {
    && kept <= all
    && |kept| == Min(capacity, |all|)
    && forall f, g :: f in kept && g in all - kept ==> f.priority <= g.priority
  }

  lemma KeptEverything(all: multiset<Buffered>, kept: multiset<Buffered>)
    requires kept <= all && |kept| == |all|
    ensures kept == all
  {
    assert all == kept + (all - kept);
    assert |all - kept| == 0;
  }

  lemma LastIsWorst(live: seq<Buffered>)
    requires Sorted(live) && live != []
    ensures forall g :: g in multiset(live) ==> g.priority <= live[|live|-1].priority
  {
    var worst := live[|live|-1];
    forall g | g in multiset(live) ensures g.priority <= worst.priority {
      var i :| 0 <= i < |live| && live[i] == g;
      if i < |live| - 1 { assert GoesBefore(live[i], worst.priority, worst.enqueuedAt); }
    }
  }

  lemma RoomForAll(all: multiset<Buffered>, kept: multiset<Buffered>, f: Buffered, capacity: nat)
    requires MostUrgent(all, kept, capacity) && |kept| < capacity
    ensures MostUrgent(all + multiset{f}, kept + multiset{f}, capacity)
  {
    KeptEverything(all, kept);
  }

  lemma DropIncoming(all: multiset<Buffered>, kept: multiset<Buffered>, f: Buffered, capacity: nat)
    requires MostUrgent(all, kept, capacity) && |kept| == capacity
    requires forall g :: g in kept ==> g.priority <= f.priority
    ensures MostUrgent(all + multiset{f}, kept, capacity)
  {
    assert all + multiset{f} - kept == all - kept + multiset{f};
  }

  lemma EvictWorst(all: multiset<Buffered>, kept: multiset<Buffered>, worst: Buffered, f: Buffered, capacity: nat)
    requires MostUrgent(all, kept, capacity) && |kept| == capacity
    requires worst in kept && worst.priority >= f.priority && forall g :: g in kept ==> g.priority <= worst.priority
    ensures MostUrgent(all + multiset{f}, kept - multiset{worst} + multiset{f}, capacity)
  {
    var kept' := kept - multiset{worst} + multiset{f};
    assert all + multiset{f} - kept' == all - kept + multiset{worst};
  }

  lemma WithoutLast(live: seq<Buffered>)
    requires live != []
    ensures multiset(live[..|live|-1]) == multiset(live) - multiset{live[|live|-1]}
  {
    assert live == live[..|live|-1] + [live[|live|-1]];
  }

  lemma EvictLast(all: multiset<Buffered>, live: seq<Buffered>, capacity: nat, f: Buffered)
    requires Sorted(live) && |live| == capacity && MostUrgent(all, multiset(live), capacity)
    requires live != [] && live[|live|-1].priority >= f.priority
    ensures MostUrgent(all + multiset{f}, multiset(live[..|live|-1]) + multiset{f}, capacity)
  {
    LastIsWorst(live);
    WithoutLast(live);
    EvictWorst(all, multiset(live), live[|live|-1], f, capacity);
  }

  lemma RefuseIncoming(all: multiset<Buffered>, live: seq<Buffered>, capacity: nat, f: Buffered)
    requires Sorted(live) && |live| == capacity && MostUrgent(all, multiset(live), capacity)
    requires live != [] ==> live[|live|-1].priority < f.priority
    ensures MostUrgent(all + multiset{f}, multiset(live), capacity)
  {
    if live != [] { LastIsWorst(live); }
    DropIncoming(all, multiset(live), f, capacity);
  }

  /** Whatever eviction decides, the most urgent frames stay. */
  lemma EvictionKeepsMostUrgent(all: multiset<Buffered>, live: seq<Buffered>, capacity: nat, f: Buffered)
    requires Sorted(live) && |live| <= capacity && MostUrgent(all, multiset(live), capacity)
    ensures match Evict(live, capacity, f.priority)
      case Some(kept) => MostUrgent(all + multiset{f}, multiset(kept) + multiset{f}, capacity)
      case None => MostUrgent(all + multiset{f}, multiset(live), capacity)
  {
    if |live| < capacity {
      RoomForAll(all, multiset(live), f, capacity);
    } else if live != [] && live[|live|-1].priority >= f.priority {
      EvictLast(all, live, capacity, f);
    } else {
      RefuseIncoming(all, live, capacity, f);
    }
  }

  lemma {:induction false} RetainAll(frames: seq<Buffered>, timeout: nat, now: nat)
    requires forall i :: 0 <= i < |frames| ==> now - frames[i].enqueuedAt < timeout
    ensures Retain(frames, timeout, now) == frames
  {
    if frames != [] { RetainAll(frames[..|frames|-1], timeout, now); }
  }

  // ---------------------------------------------------------------------
  // Whole runs

  datatype Event =
    | PushEvent(f: Buffered, now: nat)
    | ExpireEvent(now: nat)
    | DrainEvent(now: nat)

  /** The buffer after a sequence of calls. */
  function Replay(capacity: nat, timeout: nat, events: seq<Event>): seq<Buffered> {
    if events == [] then []
    else
      var frames := Replay(capacity, timeout, events[..|events|-1]);
      match events[|events|-1]
      case PushEvent(f, now) => Pushed(frames, capacity, timeout, f, now)
      case ExpireEvent(now) => Retain(frames, timeout, now)
      case DrainEvent(_) => []
  }

  /** Everything pushed since the last drain, in order. */
  function PushedSinceDrain(events: seq<Event>): seq<Buffered> {
    if events == [] then []
    else
      match events[|events|-1]
      case PushEvent(f, _) => PushedSinceDrain(events[..|events|-1]) + [f]
      case ExpireEvent(_) => PushedSinceDrain(events[..|events|-1])
      case DrainEvent(_) => []
  }

  function EndOf(event: Event): nat {
    if event.PushEvent? then event.f.enqueuedAt else event.now
  }

  /** Time does not run backwards, neither between calls nor inside a push. */
  predicate Chronological(events: seq<Event>) {
    && (forall i :: 0 <= i < |events| ==> events[i].now <= EndOf(events[i]))
    && (forall i, j :: 0 <= i < j < |events| ==> EndOf(events[i]) <= events[j].now)
  }

  /**
   After any run the buffer is sorted by priority, within its capacity, and lists the frames of
   each priority in the order they were pushed since the last drain.
   */
  lemma {:induction false} RunKeepsOrder(capacity: nat, timeout: nat, events: seq<Event>, p: nat)
    requires Chronological(events)
    ensures var frames := Replay(capacity, timeout, events);
      && Sorted(frames) && |frames| <= capacity
      && (events != [] ==> Stamped(frames, EndOf(events[|events|-1])))
      && Subsequence(OfPriority(frames, p), OfPriority(PushedSinceDrain(events), p))
  {
    if events != [] {
      var init, last := events[..|events|-1], events[|events|-1];
      RunKeepsOrder(capacity, timeout, init, p);
      var frames := Replay(capacity, timeout, init);
      assert Stamped(frames, last.now) by {
        if init != [] { assert EndOf(events[|init|-1]) <= last.now; }
      }
      match last {
        case PushEvent(f, now) =>
          PushKeepsOrder(frames, capacity, timeout, f, now);
          PushKeepsArrivalOrder(frames, capacity, timeout, f, now, p, PushedSinceDrain(init));
        case ExpireEvent(now) =>
          RetainKeepsInvariant(frames, capacity, timeout, now);
          RetainIsSubsequence(frames, timeout, now, p, OfPriority(PushedSinceDrain(init), p));
        case DrainEvent(_) =>
      }
    }
  }

  /** A drain lists what is left by priority, and in arrival order within each priority. */
  lemma DrainIsOrdered(capacity: nat, timeout: nat, events: seq<Event>, now: nat, p: nat)
    requires Chronological(events)
    ensures var out := Retain(Replay(capacity, timeout, events), timeout, now);
      && Sorted(out)
      && Subsequence(OfPriority(out, p), OfPriority(PushedSinceDrain(events), p))
      && forall f :: f in out <==> f in Replay(capacity, timeout, events) && now - f.enqueuedAt < timeout
  {
    RunKeepsOrder(capacity, timeout, events, p);
    RetainKeepsOrder(Replay(capacity, timeout, events), timeout, now);
    RetainIsSubsequence(Replay(capacity, timeout, events), timeout, now, p, OfPriority(PushedSinceDrain(events), p));
  }

  /** From `start` on there are only pushes, and none comes so late that an earlier frame has expired. */
  predicate PushesWithoutExpiry(events: seq<Event>, start: nat, timeout: nat) {
    && start <= |events| && (start == 0 || events[start-1].DrainEvent?)
    && (forall i :: start <= i < |events| ==> events[i].PushEvent?)
    && (forall i, j :: start <= i < j < |events| ==> events[j].now - EndOf(events[i]) < timeout)
  }

  lemma {:induction false} PushesAfterDrain(events: seq<Event>, start: nat, timeout: nat)
    requires PushesWithoutExpiry(events, start, timeout)
    ensures |PushedSinceDrain(events)| == |events| - start
    ensures forall i :: 0 <= i < |events| - start ==> PushedSinceDrain(events)[i] == events[start + i].f
    decreases |events|
  {
    if start < |events| { PushesAfterDrain(events[..|events|-1], start, timeout); }
  }

  /** When the next push comes, nothing in the buffer has expired. */
  lemma NothingExpired(capacity: nat, timeout: nat, events: seq<Event>, start: nat, frames: seq<Buffered>)
    requires PushesWithoutExpiry(events, start, timeout) && start < |events|
    requires multiset(frames) <= multiset(PushedSinceDrain(events[..|events|-1]))
    ensures Retain(frames, timeout, events[|events|-1].now) == frames
  {
    var init, last := events[..|events|-1], events[|events|-1];
    var all := PushedSinceDrain(init);
    PushesAfterDrain(init, start, timeout);
    forall i | 0 <= i < |frames| ensures last.now - frames[i].enqueuedAt < timeout {
      assert frames[i] in multiset(frames);
      assert frames[i] in multiset(all);
      var m :| 0 <= m < |all| && all[m] == frames[i];
      assert init[start + m].f == frames[i] && events[start + m] == init[start + m];
    }
    RetainAll(frames, timeout, last.now);
  }

  lemma PushKeepsMostUrgent(frames: seq<Buffered>, all: seq<Buffered>, capacity: nat, timeout: nat, f: Buffered,
                            now: nat)
    requires Sorted(frames) && |frames| <= capacity && Retain(frames, timeout, now) == frames
    requires MostUrgent(multiset(all), multiset(frames), capacity)
    ensures MostUrgent(multiset(all + [f]), multiset(Pushed(frames, capacity, timeout, f, now)), capacity)
  {
    EvictionKeepsMostUrgent(multiset(all), frames, capacity, f);
    var kept := Evict(frames, capacity, f.priority);
    if kept.Some? { InsertAddsOne(kept.value, f); }
    assert multiset(all + [f]) == multiset(all) + multiset{f};
  }

  /**
   In a run of pushes without expiry since the last drain, the buffer holds exactly the `capacity`
   most urgent of the frames pushed: none invented, none twice, and none left out for a less urgent one.
   */
  lemma {:induction false} KeepsMostUrgent(capacity: nat, timeout: nat, events: seq<Event>, start: nat)
    requires Chronological(events) && PushesWithoutExpiry(events, start, timeout)
    ensures MostUrgent(multiset(PushedSinceDrain(events)), multiset(Replay(capacity, timeout, events)), capacity)
    decreases |events|
  {
    if start < |events| {
      var init, last := events[..|events|-1], events[|events|-1];
      KeepsMostUrgent(capacity, timeout, init, start);
      RunKeepsOrder(capacity, timeout, init, 0);
      var frames := Replay(capacity, timeout, init);
      NothingExpired(capacity, timeout, events, start, frames);
      PushKeepsMostUrgent(frames, PushedSinceDrain(init), capacity, timeout, last.f, last.now);
    }
  }

  // ---------------------------------------------------------------------
  // Which frames survive within a priority

  /** When the buffer is full, a frame as urgent as the worst one takes the place of the newest of those. */
  lemma TieReplacesNewest(frames: seq<Buffered>, capacity: nat, timeout: nat, f: Buffered, now: nat)
    requires Sorted(frames) && Stamped(frames, f.enqueuedAt) && Retain(frames, timeout, now) == frames
    requires |frames| == capacity > 0 && frames[|frames|-1].priority == f.priority
    ensures Pushed(frames, capacity, timeout, f, now) == frames[..|frames|-1] + [f]
  {
    var kept := frames[..|frames|-1];
    LastIsWorst(frames);
    forall i | 0 <= i < |kept| ensures kept[i].priority <= f.priority {
      assert kept[i] == frames[i] && frames[i] in multiset(frames);
    }
    WorstGoesLast(kept, f);
  }

  lemma WorstGoesLast(kept: seq<Buffered>, f: Buffered)
    requires Sorted(kept) && Stamped(kept, f.enqueuedAt)
    requires forall i :: 0 <= i < |kept| ==> kept[i].priority <= f.priority
    ensures InsertSorted(kept, f) == kept + [f]
  {
    InsertionPointSplits(kept, f);
    var k := PartitionPoint(kept, f.priority, f.enqueuedAt);
    assert k == |kept|;
    assert kept[..k] == kept && kept[k..] == [];
  }

  /** A frame less urgent than `p` is in the buffer. */
  predicate HoldsWorse(frames: seq<Buffered>, p: nat) {
    exists i :: 0 <= i < |frames| && frames[i].priority > p
  }

  /** The last of `kept` was pushed, and no earlier than the place it has. */
  predicate LastWasPushed(kept: seq<Buffered>, pushed: seq<Buffered>)
    requires kept != []
  {
    exists m :: |kept| - 1 <= m < |pushed| && pushed[m] == kept[|kept|-1]
  }

  /** `kept` are the oldest of `pushed`, with one that was pushed later in the last place; or all of them. */
  predicate Oldest(kept: seq<Buffered>, pushed: seq<Buffered>, complete: bool) {
    && |kept| <= |pushed|
    && (kept != [] ==> kept[..|kept|-1] == pushed[..|kept|-1] && LastWasPushed(kept, pushed))
    && (complete ==> kept == pushed)
  }

  /**
   Of the frames `all` of priority `p`, the buffer holds the oldest, except that the last place may
   have gone to a later one; and it holds all of them while there is room or something less urgent in it.
   */
  predicate OldestKept(frames: seq<Buffered>, all: seq<Buffered>, capacity: nat, p: nat) {
    Oldest(OfPriority(frames, p), OfPriority(all, p), |frames| < capacity || HoldsWorse(frames, p))
  }

  /** All there are, and one more. */
  lemma OldestGrows(kept: seq<Buffered>, pushed: seq<Buffered>, f: Buffered, complete: bool)
    requires Oldest(kept, pushed, true)
    ensures Oldest(kept + [f], pushed + [f], complete)
  {
    assert (pushed + [f])[|kept|] == f;
  }

  /** The last place changes hands, or is given up. */
  lemma OldestReplaced(kept: seq<Buffered>, pushed: seq<Buffered>, f: Buffered)
    requires Oldest(kept, pushed, false) && kept != []
    ensures Oldest(kept[..|kept|-1] + [f], pushed + [f], false) && Oldest(kept[..|kept|-1], pushed, false)
  {
    var first := kept[..|kept|-1];
    assert (first + [f])[..|first|] == first && (pushed + [f])[..|first|] == pushed[..|first|];
    assert (pushed + [f])[|pushed|] == f;
    if first != [] {
      assert first[..|first|-1] == pushed[..|first|][..|first|-1];
      assert first[|first|-1] == pushed[..|first|][|first|-1] == pushed[|first|-1];
    }
  }

  lemma OldestMissesOne(kept: seq<Buffered>, pushed: seq<Buffered>, f: Buffered)
    requires Oldest(kept, pushed, false)
    ensures Oldest(kept, pushed + [f], false)
  {
    if kept != [] {
      var m :| |kept| - 1 <= m < |pushed| && pushed[m] == kept[|kept|-1];
      assert (pushed + [f])[..|kept|-1] == pushed[..|kept|-1] && (pushed + [f])[m] == pushed[m];
    }
  }

  lemma OfPriorityPush(all: seq<Buffered>, f: Buffered, p: nat)
    ensures OfPriority(all + [f], p) == OfPriority(all, p) + if p == f.priority then [f] else []
  {
    assert (all + [f])[..|all|] == all;
  }

  lemma NothingWorse(frames: seq<Buffered>, p: nat)
    requires Sorted(frames) && frames != []
    ensures HoldsWorse(frames, p) <==> frames[|frames|-1].priority > p
    ensures frames[|frames|-1].priority < p ==> OfPriority(frames, p) == []
  {
    LastIsWorst(frames);
    forall i | 0 <= i < |frames| ensures frames[i].priority <= frames[|frames|-1].priority {
      assert frames[i] in multiset(frames);
    }
    if frames[|frames|-1].priority < p { NoneOfPriority(frames, p); }
  }

  lemma InsertHoldsWorse(frames: seq<Buffered>, f: Buffered, p: nat)
    ensures HoldsWorse(InsertSorted(frames, f), p) <==> HoldsWorse(frames, p) || f.priority > p
  {
    var k := PartitionPoint(frames, f.priority, f.enqueuedAt);
    assert frames == frames[..k] + frames[k..];
    HoldsWorseConcat(frames[..k], frames[k..], p);
    HoldsWorseConcat(frames[..k], [f], p);
    HoldsWorseConcat(frames[..k] + [f], frames[k..], p);
    assert HoldsWorse([f], p) <==> f.priority > p by { assert [f][0] == f; }
  }

  lemma HoldsWorseConcat(a: seq<Buffered>, b: seq<Buffered>, p: nat)
    ensures HoldsWorse(a + b, p) <==> HoldsWorse(a, p) || HoldsWorse(b, p)
  {
    if i :| 0 <= i < |a| && a[i].priority > p { assert (a + b)[i] == a[i]; }
    if i :| 0 <= i < |b| && b[i].priority > p { assert (a + b)[|a| + i] == b[i]; }
  }

  lemma RoomKeepsOldest(frames: seq<Buffered>, all: seq<Buffered>, capacity: nat, f: Buffered, p: nat)
    requires Sorted(frames) && Stamped(frames, f.enqueuedAt) && |frames| < capacity
    requires OldestKept(frames, all, capacity, p)
    ensures OldestKept(InsertSorted(frames, f), all + [f], capacity, p)
  {
    InsertAppends(frames, f, p);
    OfPriorityPush(all, f, p);
    var frames' := InsertSorted(frames, f);
    if p == f.priority {
      OldestGrows(OfPriority(frames, p), OfPriority(all, p), f, |frames'| < capacity || HoldsWorse(frames', p));
    }
  }

  /** The buffer after `f` took the place of the last frame, seen at priority `p`. */
  lemma Evicted(frames: seq<Buffered>, f: Buffered, p: nat)
    requires Sorted(frames) && Stamped(frames, f.enqueuedAt) && frames != []
    requires frames[|frames|-1].priority >= f.priority
    ensures var frames', worst := InsertSorted(frames[..|frames|-1], f), frames[|frames|-1].priority;
      var kept := OfPriority(frames, p);
      && |frames'| == |frames| && (HoldsWorse(frames', p) ==> worst > p)
      && (p == worst ==> kept != [])
      && OfPriority(frames', p)
         == (if p == worst then kept[..|kept|-1] else kept) + (if p == f.priority then [f] else [])
  {
    var rest := frames[..|frames|-1];
    NothingWorse(frames, p);
    InsertAppends(rest, f, p);
    InsertHoldsWorse(rest, f, p);
    if HoldsWorse(rest, p) {
      var i :| 0 <= i < |rest| && rest[i].priority > p;
      assert frames[i] == rest[i];
    }
  }

  lemma EvictionKeepsOldest(frames: seq<Buffered>, all: seq<Buffered>, capacity: nat, f: Buffered, p: nat)
    requires Sorted(frames) && Stamped(frames, f.enqueuedAt) && |frames| == capacity
    requires OldestKept(frames, all, capacity, p) && frames != [] && frames[|frames|-1].priority >= f.priority
    ensures OldestKept(InsertSorted(frames[..|frames|-1], f), all + [f], capacity, p)
  {
    var worst, kept, pushed := frames[|frames|-1].priority, OfPriority(frames, p), OfPriority(all, p);
    Evicted(frames, f, p);
    OfPriorityPush(all, f, p);
    NothingWorse(frames, p);
    if p == worst {
      OldestReplaced(kept, pushed, f);
    } else if p == f.priority {
      OldestGrows(kept, pushed, f, HoldsWorse(InsertSorted(frames[..|frames|-1], f), p));
    }
  }

  lemma RefusalKeepsOldest(frames: seq<Buffered>, all: seq<Buffered>, capacity: nat, f: Buffered, p: nat)
    requires Sorted(frames) && |frames| == capacity && OldestKept(frames, all, capacity, p)
    requires frames != [] ==> frames[|frames|-1].priority < f.priority
    ensures OldestKept(frames, all + [f], capacity, p)
  {
    if frames != [] { NothingWorse(frames, p); }
    OfPriorityPush(all, f, p);
    if p == f.priority { OldestMissesOne(OfPriority(frames, p), OfPriority(all, p), f); }
  }

  /** In a run of pushes without expiry since the last drain, the oldest frames of each priority are kept. */
  lemma {:induction false} KeepsOldest(capacity: nat, timeout: nat, events: seq<Event>, start: nat, p: nat)
    requires Chronological(events) && PushesWithoutExpiry(events, start, timeout)
    ensures OldestKept(Replay(capacity, timeout, events), PushedSinceDrain(events), capacity, p)
    decreases |events|
  {
    if start < |events| {
      var init, last := events[..|events|-1], events[|events|-1];
      KeepsOldest(capacity, timeout, init, start, p);
      KeepsMostUrgent(capacity, timeout, init, start);
      RunKeepsOrder(capacity, timeout, init, 0);
      var frames, all := Replay(capacity, timeout, init), PushedSinceDrain(init);
      NothingExpired(capacity, timeout, events, start, frames);
      assert Stamped(frames, last.f.enqueuedAt) by {
        if init != [] { assert EndOf(events[|init|-1]) <= last.now; }
      }
      PushKeepsOldest(frames, all, capacity, last.f, p);
    }
  }

  lemma PushKeepsOldest(frames: seq<Buffered>, all: seq<Buffered>, capacity: nat, f: Buffered, p: nat)
    requires Sorted(frames) && Stamped(frames, f.enqueuedAt) && |frames| <= capacity
    requires OldestKept(frames, all, capacity, p)
    ensures match Evict(frames, capacity, f.priority)
      case Some(kept) => OldestKept(InsertSorted(kept, f), all + [f], capacity, p)
      case None => OldestKept(frames, all + [f], capacity, p)
  {
    if |frames| < capacity {
      RoomKeepsOldest(frames, all, capacity, f, p);
    } else if frames != [] && frames[|frames|-1].priority >= f.priority {
      EvictionKeepsOldest(frames, all, capacity, f, p);
    } else {
      RefusalKeepsOldest(frames, all, capacity, f, p);
    }
  }

  // ---------------------------------------------------------------------
  // Frame types

  /** Every frame is pushed with the priority of its type. */
  predicate Classified(events: seq<Event>, kind: Payload -> FrameType) {
    forall i :: 0 <= i < |events| && events[i].PushEvent? ==> RightPriority(events[i].f, kind)
  }

  predicate RightPriority(f: Buffered, kind: Payload -> FrameType) {
    f.priority == PriorityOf(kind(f.frame))
  }

  predicate AllRight(frames: seq<Buffered>, kind: Payload -> FrameType) {
    forall i :: 0 <= i < |frames| ==> RightPriority(frames[i], kind)
  }

  lemma {:induction false} RetainStaysRight(frames: seq<Buffered>, timeout: nat, now: nat, kind: Payload -> FrameType)
    requires AllRight(frames, kind)
    ensures AllRight(Retain(frames, timeout, now), kind)
  {
    if frames != [] { RetainStaysRight(frames[..|frames|-1], timeout, now, kind); }
  }

  lemma {:induction false} ReplayStaysRight(capacity: nat, timeout: nat, events: seq<Event>, kind: Payload -> FrameType)
    requires Classified(events, kind)
    ensures AllRight(Replay(capacity, timeout, events), kind)
  {
    if events != [] {
      var init, last := events[..|events|-1], events[|events|-1];
      ReplayStaysRight(capacity, timeout, init, kind);
      RetainStaysRight(Replay(capacity, timeout, init), timeout, last.now, kind);
    }
  }

  /** A drain never lists a frame before one of a more urgent type: control and handshake, then routes, then data. */
  lemma DrainServesUrgentTypesFirst(capacity: nat, timeout: nat, events: seq<Event>, now: nat,
                                    kind: Payload -> FrameType,
                                    i: nat, j: nat)
    requires Chronological(events) && Classified(events, kind)
    requires i < j < |Retain(Replay(capacity, timeout, events), timeout, now)|
    ensures var out := Payloads(Retain(Replay(capacity, timeout, events), timeout, now));
      && (kind(out[j]) in {Control, Handshake} ==> kind(out[i]) in {Control, Handshake})
      && (kind(out[j]) == RouteUpdate ==> kind(out[i]) != OtherType)
  {
    DrainIsOrdered(capacity, timeout, events, now, 0);
    ReplayStaysRight(capacity, timeout, events, kind);
    RetainStaysRight(Replay(capacity, timeout, events), timeout, now, kind);
    var out := Retain(Replay(capacity, timeout, events), timeout, now);
    assert GoesBefore(out[i], out[j].priority, out[j].enqueuedAt);
    assert RightPriority(out[i], kind) && RightPriority(out[j], kind);
  }
}
