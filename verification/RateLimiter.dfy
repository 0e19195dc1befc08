/** The token bucket of the per-peer rate limiter, over exact reals, and the bound it enforces on every window. */
module RateLimiter {
  import opened Wrappers
  import Routing

  type NodeId = Routing.NodeId

  datatype Bucket = Bucket(capacity: nat, tokens: real, refillRate: real, lastRefill: real)

  function NewBucket(capacity: nat, refillRate: real, now: real): Bucket {
    Bucket(capacity, capacity as real, refillRate, now)
  }

  /** `tokens` and `gained` tokens more, up to the capacity. */
  function Capped(capacity: nat, tokens: real, gained: real): real {
    if tokens + gained < capacity as real then tokens + gained else capacity as real
  }

  function Refilled(b: Bucket, now: real): real {
    Capped(b.capacity, b.tokens, b.refillRate * (now - b.lastRefill))
  }

  /** One call at time `now`: whether it is allowed, and the bucket afterwards. */
  function Consumed(b: Bucket, now: real): (bool, Bucket) {
    var tokens := Refilled(b, now);
    if tokens >= 1.0 then (true, b.(tokens := tokens - 1.0, lastRefill := now))
    else (false, b.(tokens := tokens, lastRefill := now))
  }

  predicate BucketOk(b: Bucket) {
    0.0 <= b.tokens <= b.capacity as real && b.refillRate >= 0.0
  }

  class TokenBucket {
    const capacity: nat
    var tokens: real
    const refillRate: real
    var lastRefill: real

    function Model(): (b: Bucket)
      reads this
    {
      Bucket(capacity, tokens, refillRate, lastRefill)
    }

    constructor (capacity: nat, refillRate: real, now: real)
      ensures Model() == NewBucket(capacity, refillRate, now)
    {
      this.capacity, this.refillRate := capacity, refillRate;
      tokens, lastRefill := capacity as real, now;
    }

    method TryConsume(now: real) returns (allowed: bool)
      requires BucketOk(Model()) && now >= lastRefill
      modifies this
      ensures (allowed, Model()) == Consumed(old(Model()), now) && BucketOk(Model())
    {
      ConsumeKeepsOk(Model(), now);
      var gained := refillRate * (now - lastRefill);
      ghost var refilled := Refilled(Model(), now);
      assert refilled == Capped(capacity, tokens, gained);
      tokens := if tokens + gained < capacity as real then tokens + gained else capacity as real;
      lastRefill := now;
      assert tokens == refilled;
      if tokens >= 1.0 {
        tokens := tokens - 1.0;
        return true;
      }
      return false;
    }
  }

  /** One bucket for each peer, full when the peer is first heard. */
  class PeerLimiter {
    var buckets: map<NodeId, Bucket>
    const capacity: nat
    const refillRate: real

    ghost predicate Valid()
      reads this
    {
      refillRate >= 0.0 && forall p :: p in buckets ==> BucketOk(buckets[p])
    }

    constructor (capacity: nat, refillRate: real)
      ensures buckets == map[] && this.capacity == capacity && this.refillRate == refillRate
      ensures Valid() <==> refillRate >= 0.0
    {
      buckets, this.capacity, this.refillRate := map[], capacity, refillRate;
    }

    method Allow(peer: NodeId, now: real) returns (allowed: bool)
      requires Valid() && (peer in buckets ==> buckets[peer].lastRefill <= now)
      modifies this
      ensures Valid() && buckets == AfterEvent(old(buckets), capacity, refillRate, Message(peer, now))
      ensures allowed == Consumed(BucketOf(old(buckets), capacity, refillRate, peer, now), now).0
    {
      if peer !in buckets {
        buckets := buckets[peer := NewBucket(capacity, refillRate, now)];
      }
      ConsumeKeepsOk(buckets[peer], now);
      var (ok, after) := Consumed(buckets[peer], now);
      buckets := buckets[peer := after];
      return ok;
    }

    method RemovePeer(peer: NodeId)
      requires Valid()
      modifies this
      ensures Valid() && buckets == old(buckets) - {peer}
      ensures forall now :: buckets == AfterEvent(old(buckets), capacity, refillRate, Removal(peer, now))
    {
      buckets := buckets - {peer};
    }
  }

  lemma Accrued(rate: real, elapsed: real)
    requires rate >= 0.0 && elapsed >= 0.0
    ensures rate * elapsed >= 0.0
  {
  }

  /** The refill of two adjoining spans is the refill of the whole. */
  lemma SpansAdd(rate: real, a: real, b: real, c: real)
    ensures rate * (b - a) + rate * (c - b) == rate * (c - a)
  {
  }

  lemma ConsumeKeepsOk(b: Bucket, now: real)
    requires BucketOk(b) && now >= b.lastRefill
    ensures BucketOk(Consumed(b, now).1)
  {
    Accrued(b.refillRate, now - b.lastRefill);
  }

  // ---------------------------------------------------------------------
  // Windows

  /** A history of calls at nondecreasing times: `states[k]` is the bucket before call `k`. */
  ghost predicate Run(states: seq<Bucket>, times: seq<real>, allowed: seq<bool>) {
    && |states| == |times| + 1 == |allowed| + 1
    && BucketOk(states[0])
    && forall k :: 0 <= k < |times| ==> IsCall(states, times, allowed, k)
  }

  /** Call `k` happens no earlier than the one before and leaves its bucket behind. */
  ghost predicate IsCall(states: seq<Bucket>, times: seq<real>, allowed: seq<bool>, k: nat)
    requires |states| == |times| + 1 == |allowed| + 1 && k < |times|
  {
    states[k].lastRefill <= times[k] && (allowed[k], states[k+1]) == Consumed(states[k], times[k])
  }

  lemma {:induction false} RunKeepsOk(states: seq<Bucket>, times: seq<real>, allowed: seq<bool>, k: nat)
    requires Run(states, times, allowed) && k < |states|
    ensures BucketOk(states[k])
    ensures states[k].capacity == states[0].capacity && states[k].refillRate == states[0].refillRate
    ensures k > 0 ==> states[k].lastRefill == times[k-1]
  {
    if k > 0 {
      RunKeepsOk(states, times, allowed, k - 1);
      assert IsCall(states, times, allowed, k - 1);
      ConsumeKeepsOk(states[k-1], times[k-1]);
    }
  }

  function Permission(allowed: bool): real {
    if allowed then 1.0 else 0.0
  }

  /** Number of allowed calls among the calls `lo .. hi`. */
  function AllowedCount(allowed: seq<bool>, lo: nat, hi: nat): real
    requires lo <= hi <= |allowed|
  {
    if lo == hi then 0.0 else AllowedCount(allowed, lo, hi - 1) + Permission(allowed[hi-1])
  }

  /** A call turns tokens into permission, one for one. */
  lemma CallConserves(states: seq<Bucket>, times: seq<real>, allowed: seq<bool>, k: nat, gain: real)
    requires Run(states, times, allowed) && k < |times|
    requires gain == states[0].refillRate * (times[k] - states[k].lastRefill)
    ensures states[k+1].tokens + Permission(allowed[k]) <= states[k].tokens + gain
    ensures states[k+1].tokens + Permission(allowed[k]) <= states[0].capacity as real
  {
    RunKeepsOk(states, times, allowed, k);
    assert IsCall(states, times, allowed, k);
  }

  /** The books of a bucket: tokens before each call, and what accrues before each call. */
  ghost predicate Ledger(tokens: seq<real>, gains: seq<real>, allowed: seq<bool>, capacity: real) {
    && |tokens| == |gains| + 1 == |allowed| + 1
    && (forall k :: 0 <= k < |gains| ==> tokens[k+1] + Permission(allowed[k]) <= tokens[k] + gains[k])
    && (forall k :: 0 <= k < |gains| ==> tokens[k+1] + Permission(allowed[k]) <= capacity)
  }

  function Sum(gains: seq<real>, lo: nat, hi: nat): real
    requires lo <= hi <= |gains|
  {
    if lo == hi then 0.0 else Sum(gains, lo, hi - 1) + gains[hi-1]
  }

  /** Tokens left plus calls allowed never exceed a full bucket plus what has accrued. */
  lemma {:induction false} LedgerBalances(tokens: seq<real>, gains: seq<real>, allowed: seq<bool>, capacity: real,
                                          lo: nat, hi: nat)
    requires Ledger(tokens, gains, allowed, capacity) && lo < hi <= |gains|
    ensures tokens[hi] + AllowedCount(allowed, lo, hi) <= capacity + Sum(gains, lo + 1, hi)
    decreases hi
  {
    assert tokens[hi-1+1] + Permission(allowed[hi-1]) <= tokens[hi-1] + gains[hi-1];
    assert tokens[hi-1+1] + Permission(allowed[hi-1]) <= capacity;
    if lo + 1 < hi { LedgerBalances(tokens, gains, allowed, capacity, lo, hi - 1); }
  }

  function Tokens(states: seq<Bucket>): (r: seq<real>)
    ensures |r| == |states| && forall k :: 0 <= k < |r| ==> r[k] == states[k].tokens
  {
    seq(|states|, k requires 0 <= k < |states| => states[k].tokens)
  }

  function Gain(states: seq<Bucket>, times: seq<real>, k: nat): real
    requires k < |times| < |states|
  {
    states[0].refillRate * (times[k] - states[k].lastRefill)
  }

  function Gains(states: seq<Bucket>, times: seq<real>): (r: seq<real>)
    requires |times| < |states|
    ensures |r| == |times| && forall k :: 0 <= k < |r| ==> r[k] == Gain(states, times, k)
  {
    seq(|times|, k requires 0 <= k < |times| => Gain(states, times, k))
  }

  lemma RunIsLedger(states: seq<Bucket>, times: seq<real>, allowed: seq<bool>)
    requires Run(states, times, allowed)
    ensures Ledger(Tokens(states), Gains(states, times), allowed, states[0].capacity as real)
  {
    forall k | 0 <= k < |times|
      ensures Tokens(states)[k+1] + Permission(allowed[k]) <= Tokens(states)[k] + Gains(states, times)[k]
      ensures Tokens(states)[k+1] + Permission(allowed[k]) <= states[0].capacity as real
    {
      CallConserves(states, times, allowed, k, Gain(states, times, k));
    }
  }

  lemma GainsAreRefills(states: seq<Bucket>, times: seq<real>, allowed: seq<bool>, k: nat)
    requires Run(states, times, allowed) && 0 < k < |times|
    ensures Gains(states, times)[k] == states[0].refillRate * (times[k] - times[k-1])
  {
    RunKeepsOk(states, times, allowed, k);
  }

  lemma TokensAccountForCalls(states: seq<Bucket>, times: seq<real>, allowed: seq<bool>, lo: nat, hi: nat,
                              accrued: real)
    requires Run(states, times, allowed) && lo < hi <= |times|
    requires accrued == states[0].refillRate * (times[hi-1] - times[lo])
    ensures states[hi].tokens + AllowedCount(allowed, lo, hi) <= states[0].capacity as real + accrued
  {
    var gains := Gains(states, times);
    RunIsLedger(states, times, allowed);
    LedgerBalances(Tokens(states), gains, allowed, states[0].capacity as real, lo, hi);
    SumOfGains(states, times, allowed, lo, hi);
  }

  /** What accrues between calls adds up to the refill of the whole span. */
  lemma {:induction false} SumOfGains(states: seq<Bucket>, times: seq<real>, allowed: seq<bool>, lo: nat, hi: nat)
    requires Run(states, times, allowed) && lo < hi <= |times|
    ensures Sum(Gains(states, times), lo + 1, hi) == states[0].refillRate * (times[hi-1] - times[lo])
    decreases hi
  {
    var rate := states[0].refillRate;
    if lo + 1 == hi {
      EmptySpan(rate, times[hi-1] - times[lo]);
    } else {
      SumOfGains(states, times, allowed, lo, hi - 1);
      GainsAreRefills(states, times, allowed, hi - 1);
      SpansAdd(rate, times[lo], times[hi-2], times[hi-1]);
    }
  }

  lemma EmptySpan(rate: real, span: real)
    requires span == 0.0
    ensures rate * span == 0.0
  {
  }

  lemma InnerWindow(rate: real, s: real, first: real, last: real, t: real)
    requires rate >= 0.0 && s <= first <= last <= t
    ensures rate * (last - first) <= rate * (t - s)
  {
    Accrued(rate, first - s);
    Accrued(rate, t - last);
    SpansAdd(rate, s, last, t);
    SpansAdd(rate, s, first, last);
  }

  lemma TimesNondecreasing(states: seq<Bucket>, times: seq<real>, allowed: seq<bool>, i: nat, j: nat)
    requires Run(states, times, allowed) && i <= j < |times|
    ensures times[i] <= times[j]
    decreases j
  {
    if i < j {
      TimesNondecreasing(states, times, allowed, i, j - 1);
      RunKeepsOk(states, times, allowed, j);
      assert IsCall(states, times, allowed, j);
    }
  }

  lemma WindowArithmetic(calls: real, left: real, capacity: real, rate: real, s: real, first: real, last: real, t: real)
    requires rate >= 0.0 && left >= 0.0 && s <= first <= last <= t
    requires left + calls <= capacity + rate * (last - first)
    ensures calls <= capacity + rate * (t - s)
  {
    InnerWindow(rate, s, first, last, t);
  }

  /** In any window of time, at most a full bucket plus the refill of that window is let through. */
  lemma WindowBound(states: seq<Bucket>, times: seq<real>, allowed: seq<bool>, lo: nat, hi: nat, s: real, t: real)
    requires Run(states, times, allowed) && lo < hi <= |times| && s <= times[lo] && times[hi-1] <= t
    ensures AllowedCount(allowed, lo, hi) <= states[0].capacity as real + states[0].refillRate * (t - s)
  {
    var rate, first, last := states[0].refillRate, times[lo], times[hi-1];
    RunKeepsOk(states, times, allowed, hi);
    TimesNondecreasing(states, times, allowed, lo, hi - 1);
    TokensAccountForCalls(states, times, allowed, lo, hi, rate * (last - first));
    var calls, capacity := AllowedCount(allowed, lo, hi), states[0].capacity as real;
    WindowArithmetic(calls, states[hi].tokens, capacity, rate, s, first, last, t);
  }

  // ---------------------------------------------------------------------
  // One peer among many

  /** What happens to the limiter: a message of a peer arrives, or a peer is removed. */
  datatype Event = Message(peer: NodeId, now: real) | Removal(peer: NodeId, now: real)

  /** The bucket a message of `peer` finds: its own, or a full one when it is first heard. */
  function BucketOf(buckets: map<NodeId, Bucket>, capacity: nat, rate: real, peer: NodeId, now: real): Bucket {
    if peer in buckets then buckets[peer] else NewBucket(capacity, rate, now)
  }

  function AfterEvent(buckets: map<NodeId, Bucket>, capacity: nat, rate: real, event: Event): map<NodeId, Bucket> {
    match event
    case Message(peer, now) => buckets[peer := Consumed(BucketOf(buckets, capacity, rate, peer, now), now).1]
    case Removal(peer, _) => buckets - {peer}
  }

  /** The buckets after the first `k` events. */
  function BucketsAt(capacity: nat, rate: real, events: seq<Event>, k: nat): map<NodeId, Bucket>
    requires k <= |events|
  {
    if k == 0 then map[] else AfterEvent(BucketsAt(capacity, rate, events, k - 1), capacity, rate, events[k-1])
  }

  /** Event `k` is a message of `peer` that is let through. */
  predicate LetThrough(capacity: nat, rate: real, events: seq<Event>, k: nat, peer: NodeId)
    requires k < |events|
  {
    && events[k].Message? && events[k].peer == peer
    && Consumed(BucketOf(BucketsAt(capacity, rate, events, k), capacity, rate, peer, events[k].now), events[k].now).0
  }

  /** How many messages of `peer` are let through from event `lo` up to event `hi`. */
  function Passed(capacity: nat, rate: real, events: seq<Event>, lo: nat, hi: nat, peer: NodeId): real
    requires lo <= hi <= |events|
    decreases hi
  {
    if lo == hi then 0.0
    else
      var one := Permission(LetThrough(capacity, rate, events, hi - 1, peer));
      Passed(capacity, rate, events, lo, hi - 1, peer) + one
  }

  ghost predicate Chronological(events: seq<Event>) {
    forall i, j :: 0 <= i < j < |events| ==> events[i].now <= events[j].now
  }

  /** The bucket of `peer` is well formed, made for this limiter, and was last filled in the past. */
  predicate PeerOk(capacity: nat, rate: real, buckets: map<NodeId, Bucket>, peer: NodeId, now: real) {
    peer in buckets ==>
      && BucketOk(buckets[peer]) && buckets[peer].capacity == capacity && buckets[peer].refillRate == rate
      && buckets[peer].lastRefill <= now
  }

  lemma {:induction false} PeerStaysOk(capacity: nat, rate: real, events: seq<Event>, k: nat, peer: NodeId)
    requires rate >= 0.0 && Chronological(events) && k < |events|
    ensures PeerOk(capacity, rate, BucketsAt(capacity, rate, events, k), peer, events[k].now)
  {
    if k > 0 {
      PeerStaysOk(capacity, rate, events, k - 1, peer);
      var buckets, event := BucketsAt(capacity, rate, events, k - 1), events[k-1];
      if event.Message? && event.peer == peer {
        ConsumeKeepsOk(BucketOf(buckets, capacity, rate, peer, event.now), event.now);
      }
      assert events[k-1].now <= events[k].now;
    }
  }

  /** Tokens and permissions of one call: no more than there were and were gained, and no more than the capacity. */
  lemma CallPays(b: Bucket, now: real, gained: real)
    requires BucketOk(b) && now >= b.lastRefill && gained == b.refillRate * (now - b.lastRefill)
    ensures var (allowed, b') := Consumed(b, now);
      && 0.0 <= b'.tokens && b'.tokens + Permission(allowed) <= b.capacity as real
      && b'.tokens + Permission(allowed) <= b.tokens + gained
      && b'.lastRefill == now && b'.capacity == b.capacity && b'.refillRate == b.refillRate
  {
    ConsumeKeepsOk(b, now);
  }

  /** Once messages have passed since `s`, they and the tokens left are covered by the capacity and the refill. */
  predicate Covered(b: Option<Bucket>, passed: real, capacity: nat, rate: real, s: real) {
    || passed == 0.0
    || (&& b.Some? && b.value.lastRefill >= s && b.value.tokens >= 0.0
        && b.value.tokens + passed <= capacity as real + rate * (b.value.lastRefill - s))
  }

  /** One more message of the peer. */
  lemma MessageIsCovered(capacity: nat, rate: real, b: Bucket, passed: real, now: real, s: real)
    requires BucketOk(b) && b.capacity == capacity && b.refillRate == rate && b.lastRefill <= now && s <= now
    requires Covered(Some(b), passed, capacity, rate, s)
    ensures var (allowed, b') := Consumed(b, now); Covered(Some(b'), passed + Permission(allowed), capacity, rate, s)
  {
    var gained := rate * (now - b.lastRefill);
    CallPays(b, now, gained);
    if passed == 0.0 {
      Accrued(rate, now - s);
    } else {
      SpansAdd(rate, s, b.lastRefill, now);
    }
  }

  /** The bucket of `peer` after a message of its own, and after anything else that does not remove it. */
  lemma BucketAfter(buckets: map<NodeId, Bucket>, capacity: nat, rate: real, event: Event, peer: NodeId)
    requires event.peer == peer ==> event.Message?
    ensures Get(AfterEvent(buckets, capacity, rate, event), peer)
         == if event.peer == peer then Some(Consumed(BucketOf(buckets, capacity, rate, peer, event.now), event.now).1)
            else Get(buckets, peer)
  {
  }

  /** The bucket a message finds has the same books as the one on record, if there is none yet. */
  lemma FoundIsCovered(buckets: map<NodeId, Bucket>, passed: real, capacity: nat, rate: real, s: real, peer: NodeId,
                       now: real)
    requires Covered(Get(buckets, peer), passed, capacity, rate, s)
    ensures Covered(Some(BucketOf(buckets, capacity, rate, peer, now)), passed, capacity, rate, s)
  {
  }

  lemma {:induction false} WindowIsCovered(capacity: nat, rate: real, events: seq<Event>, lo: nat, hi: nat,
                                           peer: NodeId, s: real)
    requires rate >= 0.0 && Chronological(events) && lo <= hi <= |events|
    requires forall k :: lo <= k < hi && events[k].peer == peer ==> events[k].Message? && s <= events[k].now
    ensures Covered(Get(BucketsAt(capacity, rate, events, hi), peer), Passed(capacity, rate, events, lo, hi, peer),
                    capacity, rate, s)
    decreases hi
  {
    if lo < hi {
      WindowIsCovered(capacity, rate, events, lo, hi - 1, peer, s);
      EventIsCovered(capacity, rate, events, lo, hi - 1, peer, s);
    }
  }

  lemma EventIsCovered(capacity: nat, rate: real, events: seq<Event>, lo: nat, k: nat, peer: NodeId, s: real)
    requires rate >= 0.0 && Chronological(events) && lo <= k < |events|
    requires events[k].peer == peer ==> events[k].Message? && s <= events[k].now
    requires Covered(Get(BucketsAt(capacity, rate, events, k), peer), Passed(capacity, rate, events, lo, k, peer),
                     capacity, rate, s)
    ensures Covered(Get(BucketsAt(capacity, rate, events, k + 1), peer),
                    Passed(capacity, rate, events, lo, k + 1, peer), capacity, rate, s)
  {
    var event, buckets := events[k], BucketsAt(capacity, rate, events, k);
    var passed := Passed(capacity, rate, events, lo, k, peer);
    BucketAfter(buckets, capacity, rate, event, peer);
    if event.peer == peer {
      PeerStaysOk(capacity, rate, events, k, peer);
      FoundIsCovered(buckets, passed, capacity, rate, s, peer, event.now);
      MessageIsCovered(capacity, rate, BucketOf(buckets, capacity, rate, peer, event.now), passed, event.now, s);
    } else {
      assert Passed(capacity, rate, events, lo, k + 1, peer) == passed + 0.0;
    }
  }

  /**
   Whatever other peers do in between: as long as a peer is not removed, at most capacity + rate * (t - s)
   of its messages are let through in any window from `s` to `t`.
   */
  lemma PeerWindowBound(capacity: nat, rate: real, events: seq<Event>, lo: nat, hi: nat, peer: NodeId, s: real, t: real)
    requires rate >= 0.0 && Chronological(events) && lo <= hi <= |events| && s <= t
    requires forall k :: lo <= k < hi && events[k].peer == peer ==> events[k].Message? && s <= events[k].now <= t
    ensures Passed(capacity, rate, events, lo, hi, peer) <= capacity as real + rate * (t - s)
  {
    WindowIsCovered(capacity, rate, events, lo, hi, peer, s);
    LastFilledBy(capacity, rate, events, lo, hi, peer, s, t);
  }

  /** A covered window ends no later than its last message. */
  lemma LastFilledBy(capacity: nat, rate: real, events: seq<Event>, lo: nat, hi: nat, peer: NodeId, s: real, t: real)
    requires rate >= 0.0 && lo <= hi <= |events| && s <= t
    requires Covered(Get(BucketsAt(capacity, rate, events, hi), peer), Passed(capacity, rate, events, lo, hi, peer),
                     capacity, rate, s)
    requires forall k :: lo <= k < hi && events[k].peer == peer ==> events[k].Message? && events[k].now <= t
    ensures Passed(capacity, rate, events, lo, hi, peer) <= capacity as real + rate * (t - s)
  {
    var passed := Passed(capacity, rate, events, lo, hi, peer);
    if passed == 0.0 {
      EmptySpan(rate, s - s);
      WindowArithmetic(0.0, 0.0, capacity as real, rate, s, s, s, t);
    } else {
      LastFilled(capacity, rate, events, lo, hi, peer, t);
      var b := BucketsAt(capacity, rate, events, hi)[peer];
      WindowArithmetic(passed, b.tokens, capacity as real, rate, s, s, b.lastRefill, t);
    }
  }

  lemma {:induction false} LastFilled(capacity: nat, rate: real, events: seq<Event>, lo: nat, hi: nat, peer: NodeId,
                                      t: real)
    requires lo <= hi <= |events| && Passed(capacity, rate, events, lo, hi, peer) != 0.0
    requires forall k :: lo <= k < hi && events[k].peer == peer ==> events[k].Message? && events[k].now <= t
    ensures var buckets := BucketsAt(capacity, rate, events, hi); peer in buckets && buckets[peer].lastRefill <= t
    decreases hi
  {
    if events[hi-1].peer != peer { LastFilled(capacity, rate, events, lo, hi - 1, peer, t); }
  }

  // ---------------------------------------------------------------------
  // What must be let through

  /** A call is allowed exactly when, with the refill since the last call, there is a whole token. */
  lemma AllowedExactly(b: Bucket, now: real)
    ensures Consumed(b, now).0 <==> b.capacity >= 1 && b.tokens + b.refillRate * (now - b.lastRefill) >= 1.0
  {
  }

  /** The tokens left by a call, field by field. */
  lemma ConsumedExactly(b: Bucket, now: real, gained: real)
    requires gained == b.refillRate * (now - b.lastRefill)
    ensures var (allowed, b') := Consumed(b, now);
      && b'.capacity == b.capacity && b'.refillRate == b.refillRate && b'.lastRefill == now
      && b'.tokens + (if allowed then 1.0 else 0.0)
         == if b.tokens + gained < b.capacity as real then b.tokens + gained else b.capacity as real
  {
  }

  /** Between two messages of a peer that is not removed, its bucket stays as the first one left it. */
  lemma {:induction false} BucketWaits(capacity: nat, rate: real, events: seq<Event>, i: nat, k: nat, peer: NodeId)
    requires i < k <= |events| && events[i].Message? && events[i].peer == peer
    requires forall m :: i < m < k ==> events[m].peer != peer
    ensures var b := BucketOf(BucketsAt(capacity, rate, events, i), capacity, rate, peer, events[i].now);
      Get(BucketsAt(capacity, rate, events, k), peer) == Some(Consumed(b, events[i].now).1)
    decreases k
  {
    if i + 1 < k {
      BucketWaits(capacity, rate, events, i, k - 1, peer);
      BucketAfter(BucketsAt(capacity, rate, events, k - 1), capacity, rate, events[k-1], peer);
    }
  }

  lemma CallLeaves(b: Bucket, now: real)
    requires BucketOk(b) && b.lastRefill <= now
    ensures var b' := Consumed(b, now).1;
      b'.capacity == b.capacity && b'.refillRate == b.refillRate && b'.lastRefill == now && b'.tokens >= 0.0
  {
    CallPays(b, now, b.refillRate * (now - b.lastRefill));
  }

  /** The bucket a message finds that follows message `i` of the same peer. */
  lemma LeftBehind(capacity: nat, rate: real, events: seq<Event>, i: nat, k: nat, peer: NodeId) returns (b: Bucket)
    requires rate >= 0.0 && Chronological(events) && i < k <= |events|
    requires events[i].Message? && events[i].peer == peer
    requires forall m :: i < m < k ==> events[m].peer != peer
    ensures Get(BucketsAt(capacity, rate, events, k), peer) == Some(b)
    ensures b.capacity == capacity && b.refillRate == rate && b.lastRefill == events[i].now && b.tokens >= 0.0
  {
    PeerStaysOk(capacity, rate, events, i, peer);
    var found := BucketOf(BucketsAt(capacity, rate, events, i), capacity, rate, peer, events[i].now);
    b := Consumed(found, events[i].now).1;
    BucketWaits(capacity, rate, events, i, k, peer);
    CallLeaves(found, events[i].now);
  }

  lemma EarnsToken(b: Bucket, now: real, gained: real)
    requires b.capacity >= 1 && b.tokens >= 0.0 && gained == b.refillRate * (now - b.lastRefill) && gained >= 1.0
    ensures Consumed(b, now).0
  {
  }

  /**
   With room for at least one token, a message that comes long enough after the peer's previous one to
   earn a token is let through, whatever the peer used up before and whatever other peers do.
   */
  lemma PatientPeerPasses(capacity: nat, rate: real, events: seq<Event>, i: nat, k: nat, peer: NodeId)
    requires capacity >= 1 && rate >= 0.0 && Chronological(events) && i < k < |events|
    requires events[i].Message? && events[k].Message? && events[i].peer == events[k].peer == peer
    requires forall m :: i < m < k ==> events[m].peer != peer
    requires rate * (events[k].now - events[i].now) >= 1.0
    ensures LetThrough(capacity, rate, events, k, peer)
  {
    var left := LeftBehind(capacity, rate, events, i, k, peer);
    EarnsToken(left, events[k].now, rate * (events[k].now - events[i].now));
  }

  /** How many messages of `peer` arrive from event `lo` up to event `hi`. */
  function Arrived(events: seq<Event>, lo: nat, hi: nat, peer: NodeId): nat
    requires lo <= hi <= |events|
    decreases hi
  {
    if lo == hi then 0
    else
      var one := if events[hi-1].Message? && events[hi-1].peer == peer then 1 else 0;
      Arrived(events, lo, hi - 1, peer) + one
  }

  /** A bucket that has seen `calls` calls since it was full has at least the rest of its capacity left. */
  predicate HoldsRest(b: Option<Bucket>, capacity: nat, calls: nat) {
    (b.None? && calls == 0) || (b.Some? && b.value.tokens >= capacity as real - calls as real)
  }

  lemma CallLeavesRest(b: Bucket, now: real, gained: real, calls: nat)
    requires BucketOk(b) && b.lastRefill <= now && gained == b.refillRate * (now - b.lastRefill)
    requires b.tokens >= b.capacity as real - calls as real
    ensures Consumed(b, now).1.tokens >= b.capacity as real - (calls + 1) as real
    ensures calls < b.capacity ==> Consumed(b, now).0
  {
    Accrued(b.refillRate, now - b.lastRefill);
    assert gained >= 0.0;
    AllowedExactly(b, now);
    ConsumedExactly(b, now, gained);
    assert (calls + 1) as real == calls as real + 1.0;
    if calls < b.capacity { assert b.capacity as real - calls as real >= 1.0; }
  }

  lemma {:induction false} RestIsLeft(capacity: nat, rate: real, events: seq<Event>, i: nat, k: nat, peer: NodeId)
    requires rate >= 0.0 && Chronological(events) && i <= k <= |events|
    requires peer !in BucketsAt(capacity, rate, events, i)
    requires forall m :: i <= m < k && events[m].peer == peer ==> events[m].Message?
    ensures HoldsRest(Get(BucketsAt(capacity, rate, events, k), peer), capacity, Arrived(events, i, k, peer))
    decreases k
  {
    if i < k {
      RestIsLeft(capacity, rate, events, i, k - 1, peer);
      EventLeavesRest(capacity, rate, events, i, k - 1, peer);
    }
  }

  lemma EventLeavesRest(capacity: nat, rate: real, events: seq<Event>, i: nat, k: nat, peer: NodeId)
    requires rate >= 0.0 && Chronological(events) && i <= k < |events|
    requires events[k].peer == peer ==> events[k].Message?
    requires HoldsRest(Get(BucketsAt(capacity, rate, events, k), peer), capacity, Arrived(events, i, k, peer))
    ensures HoldsRest(Get(BucketsAt(capacity, rate, events, k + 1), peer), capacity, Arrived(events, i, k + 1, peer))
    ensures events[k].peer == peer && Arrived(events, i, k, peer) < capacity ==>
      LetThrough(capacity, rate, events, k, peer)
  {
    var buckets, event := BucketsAt(capacity, rate, events, k), events[k];
    BucketAfter(buckets, capacity, rate, event, peer);
    if event.peer == peer {
      PeerStaysOk(capacity, rate, events, k, peer);
      var b := BucketOf(buckets, capacity, rate, peer, event.now);
      CallLeavesRest(b, event.now, b.refillRate * (event.now - b.lastRefill), Arrived(events, i, k, peer));
    }
  }

  /** The first `capacity` messages of a peer newly heard are all let through. */
  lemma BurstPasses(capacity: nat, rate: real, events: seq<Event>, i: nat, k: nat, peer: NodeId)
    requires rate >= 0.0 && Chronological(events) && i <= k < |events|
    requires peer !in BucketsAt(capacity, rate, events, i)
    requires forall m :: i <= m <= k && events[m].peer == peer ==> events[m].Message?
    requires events[k].peer == peer && Arrived(events, i, k, peer) < capacity
    ensures LetThrough(capacity, rate, events, k, peer)
  {
    RestIsLeft(capacity, rate, events, i, k, peer);
    EventLeavesRest(capacity, rate, events, i, k, peer);
  }
}
