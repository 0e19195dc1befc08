/**
 The pool of external ports, and its two allocators: one loops until it is back where it
 started, the other makes a fixed number of attempts. Both are proved to return the first
 free port in cyclic order, so they are one function.
 */
module PortPool {
  import opened Wrappers

  const PORT_MIN: nat := 30000
  const PORT_MAX: nat := 59999
  const POOL_SIZE: nat := PORT_MAX - PORT_MIN + 1

  datatype Pool = Pool(next: nat, inUse: set<nat>)

  predicate InRange(port: nat) {
    PORT_MIN <= port <= PORT_MAX
  }

  predicate PoolOk(pool: Pool) {
    InRange(pool.next) && forall p :: p in pool.inUse ==> InRange(p)
  }

  function Following(port: nat): nat {
    if port >= PORT_MAX then PORT_MIN else port + 1
  }

  /** Number of steps from `a` forward to `b` around the range. */
  function Distance(a: nat, b: nat): int {
    if b >= a then b - a else b - a + POOL_SIZE
  }

  /** All ports closer to `from` than `k` steps are taken. */
  ghost predicate TakenUpTo(inUse: set<nat>, from: nat, k: int) {
    forall q: nat :: InRange(q) && Distance(from, q) < k ==> q in inUse
  }

  /**
   What an allocation is: the first free port at or after `next`, marked as used, with the
   search resuming behind it; or nothing, with the pool untouched, when every port is taken.
   */
  ghost predicate IsAllocation(pool: Pool, result: Option<nat>, pool': Pool) {
    match result
    case None => TakenUpTo(pool.inUse, pool.next, POOL_SIZE) && pool' == pool
    case Some(p) =>
      && InRange(p) && p !in pool.inUse
      && TakenUpTo(pool.inUse, pool.next, Distance(pool.next, p))
      && pool' == Pool(Following(p), pool.inUse + {p})
  }

  /** There is only one way to allocate. */
  lemma AllocationIsUnique(pool: Pool, r1: Option<nat>, p1: Pool, r2: Option<nat>, p2: Pool)
    requires PoolOk(pool) && IsAllocation(pool, r1, p1) && IsAllocation(pool, r2, p2)
    ensures r1 == r2 && p1 == p2
  {
  }

  /** There always is one: walk on from `port` once the ports before it are known to be taken. */
  lemma {:induction false} AllocationExists(pool: Pool, port: nat)
    requires PoolOk(pool) && InRange(port) && TakenUpTo(pool.inUse, pool.next, Distance(pool.next, port))
    ensures exists r: (Option<nat>, Pool) :: IsAllocation(pool, r.0, r.1)
    decreases POOL_SIZE - Distance(pool.next, port)
  {
    if port !in pool.inUse {
      var r := (Some(port), Pool(Following(port), pool.inUse + {port}));
      assert IsAllocation(pool, r.0, r.1);
    } else if Following(port) == pool.next {
      var r: (Option<nat>, Pool) := (None, pool);
      assert IsAllocation(pool, r.0, r.1);
    } else {
      AllocationExists(pool, Following(port));
    }
  }

  /** The allocation, as a function of the pool; a pool with ports out of range, which never arises, has none. */
  ghost function Allocation(pool: Pool): (r: (Option<nat>, Pool))
    ensures PoolOk(pool) ==> IsAllocation(pool, r.0, r.1) && PoolOk(r.1)
  {
    if PoolOk(pool) then
      AllocationExists(pool, pool.next);
      var r: (Option<nat>, Pool) :| IsAllocation(pool, r.0, r.1);
      r
    else (None, pool)
  }

  function Released(pool: Pool, port: nat): Pool {
    pool.(inUse := pool.inUse - {port})
  }

  function Interval(lo: nat, hi: nat): (ports: set<nat>)
    requires lo <= hi
    ensures |ports| == hi - lo && forall p: nat :: p in ports <==> lo <= p < hi
    decreases hi
  {
    if lo == hi then {} else Interval(lo, hi - 1) + {hi - 1}
  }

  lemma {:induction false} SubsetSize<T>(a: set<T>, b: set<T>)
    requires a <= b
    ensures |a| <= |b| && (|a| == |b| ==> a == b)
  {
    if a != {} {
      var x :| x in a;
      SubsetSize(a - {x}, b - {x});
    }
  }

  /** At most 30000 ports are ever in use. */
  lemma PoolIsBounded(pool: Pool)
    requires PoolOk(pool)
    ensures |pool.inUse| <= POOL_SIZE
    ensures |pool.inUse| == POOL_SIZE <==> forall p: nat :: InRange(p) ==> p in pool.inUse
  {
    var all := Interval(PORT_MIN, PORT_MAX + 1);
    SubsetSize(pool.inUse, all);
    if all <= pool.inUse { SubsetSize(all, pool.inUse); }
  }

  /** Allocation fails exactly when all 30000 ports are in use. */
  lemma FailsExactlyWhenFull(pool: Pool)
    requires PoolOk(pool)
    ensures Allocation(pool).0.None? <==> |pool.inUse| == POOL_SIZE
  {
    PoolIsBounded(pool);
  }

  /** Ports are those from 30000 to 59999, and a fresh pool starts with the first. */
  lemma PortsInLiteralRange(pool: Pool)
    requires PoolOk(pool)
    ensures Allocation(pool).0.Some? ==> 30_000 <= Allocation(pool).0.value <= 59_999
    ensures pool == Pool(30_000, {}) ==> Allocation(pool).0 == Some(30_000)
    ensures Allocation(pool).0.None? <==> forall p: nat :: 30_000 <= p <= 59_999 ==> p in pool.inUse
  {
    FailsExactlyWhenFull(pool);
    PoolIsBounded(pool);
    if pool == Pool(30_000, {}) { assert Distance(30_000, 30_000) == 0; }
  }

  /** A port that was freed comes back: when it is the only free one, the next allocation returns it. */
  lemma FreedPortComesBack(pool: Pool, port: nat)
    requires PoolOk(pool) && InRange(port)
    requires forall p: nat :: InRange(p) && p != port ==> p in pool.inUse
    ensures Allocation(Released(pool, port)).0 == Some(port)
  {
    var freed := Released(pool, port);
    FailsExactlyWhenFull(freed);
    PoolIsBounded(freed);
  }

  /** The IPv4 pool: search until the cursor is back where it started. */
  class PortPoolV4 {
    var next: nat
    var inUse: set<nat>

    function Model(): (pool: Pool)
      reads this
    {
      Pool(next, inUse)
    }

    constructor ()
      ensures Model() == Pool(PORT_MIN, {})
    {
      next, inUse := PORT_MIN, {};
    }

    method Allocate() returns (result: Option<nat>)
      requires PoolOk(Model())
      modifies this
      ensures (result, Model()) == Allocation(old(Model())) && PoolOk(Model())
    {
      var start := next;
      ghost var expected := Allocation(Model());
      while true
        invariant InRange(next) && InRange(start) && inUse == old(inUse) && start == old(next)
        invariant TakenUpTo(inUse, start, Distance(start, next))
        decreases POOL_SIZE - Distance(start, next)
      {
        var port := next;
        next := if next >= PORT_MAX then PORT_MIN else next + 1;
        if port !in inUse {
          inUse := inUse + {port};
          AllocationIsUnique(old(Model()), Some(port), Model(), expected.0, expected.1);
          return Some(port);
        }
        if next == start {
          assert TakenUpTo(inUse, start, POOL_SIZE);
          AllocationIsUnique(old(Model()), None, Model(), expected.0, expected.1);
          return None;
        }
      }
    }

    method Release(port: nat)
      modifies this
      ensures Model() == Released(old(Model()), port)
    {
      inUse := inUse - {port};
    }
  }

  /** The IPv6 pool: one attempt for each port of the range. */
  class PortPoolV6 {
    var next: nat
    var inUse: set<nat>

    function Model(): (pool: Pool)
      reads this
    {
      Pool(next, inUse)
    }

    constructor ()
      ensures Model() == Pool(PORT_MIN, {})
    {
      next, inUse := PORT_MIN, {};
    }

    method Allocate() returns (result: Option<nat>)
      requires PoolOk(Model())
      modifies this
      ensures (result, Model()) == Allocation(old(Model())) && PoolOk(Model())
    {
      ghost var start := next;
      ghost var expected := Allocation(Model());
      var total := PORT_MAX - PORT_MIN + 1;
      for tried := 0 to total
        invariant InRange(next) && inUse == old(inUse)
        invariant if tried < total then Distance(start, next) == tried else next == start
        invariant TakenUpTo(inUse, start, tried)
      {
        var port := next;
        next := if next >= PORT_MAX then PORT_MIN else next + 1;
        if port !in inUse {
          inUse := inUse + {port};
          AllocationIsUnique(old(Model()), Some(port), Model(), expected.0, expected.1);
          return Some(port);
        }
      }
      AllocationIsUnique(old(Model()), None, Model(), expected.0, expected.1);
      return None;
    }

    method Release(port: nat)
      modifies this
      ensures Model() == Released(old(Model()), port)
    {
      inUse := inUse - {port};
    }
  }
}
