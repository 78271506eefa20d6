/**
 * `createResourcePool`: exclusive leases on resources read lazily from a
 * domain. The domain iterator is a sequence and a cursor counting how much of
 * it was read; `available` is a stack (its top is the last element);
 * `pendingAcquisitions` is a FIFO of waiting acquisitions, each named by the
 * id of its deferred, and the ghost map `granted` records the lock each
 * waiter was resolved with. The ghost sequence `locks` lists the unreleased
 * locks, so that `activeLocks` can be tied to them and every resource read
 * from the domain is accounted for exactly once.
 */
module ResourcePoolModule {
  import opened JsValues

  /** The resources held by `ls`, counted with multiplicity. */
  ghost function ResourcesOf<T>(ls: seq<Lock<T>>): multiset<T>
    decreases |ls|
  {
    if ls == [] then multiset{} else ResourcesOf(ls[..|ls| - 1]) + multiset{ls[|ls| - 1].resource}
  }

  lemma {:induction false} ResourcesOfAppend<T>(a: seq<Lock<T>>, b: seq<Lock<T>>)
    ensures ResourcesOf(a + b) == ResourcesOf(a) + ResourcesOf(b)
    decreases |b|
  {
    if b == [] {
      assert a + b == a;
    } else {
      assert (a + b)[..|a + b| - 1] == a + b[..|b| - 1];
      ResourcesOfAppend(a, b[..|b| - 1]);
    }
  }

  /** Dropping one lock drops exactly its resource. */
  lemma ResourcesOfRemoveAt<T>(ls: seq<Lock<T>>, i: nat)
    requires i < |ls|
    ensures ResourcesOf(ls) == ResourcesOf(ls[..i] + ls[i + 1..]) + multiset{ls[i].resource}
    ensures |ls[..i] + ls[i + 1..]| == |ls| - 1
  {
    assert ls == ls[..i] + [ls[i]] + ls[i + 1..];
    ResourcesOfAppend(ls[..i] + [ls[i]], ls[i + 1..]);
    ResourcesOfAppend(ls[..i], [ls[i]]);
    ResourcesOfAppend(ls[..i], ls[i + 1..]);
    assert ResourcesOf([ls[i]]) == multiset{ls[i].resource} by {
      assert [ls[i]][..0] == [];
    }
  }

  /** Every resource read from the domain so far is available or held, exactly once. */
  ghost predicate Accounted<T>(domain: seq<T>, cursor: nat, available: seq<T>, locks: seq<Lock<T>>)
    requires cursor <= |domain|
  {
    multiset(available) + ResourcesOf(locks) == multiset(domain[..cursor])
  }

  /** A lock on the next domain element accounts for it. */
  lemma AccountRead<T>(domain: seq<T>, cursor: nat, available: seq<T>, locks: seq<Lock<T>>, lock: Lock<T>)
    requires cursor < |domain| && Accounted(domain, cursor, available, locks)
    requires lock.resource == domain[cursor]
    ensures Accounted(domain, cursor + 1, available, locks + [lock])
  {
    assert domain[..cursor + 1] == domain[..cursor] + [domain[cursor]];
    assert (locks + [lock])[..|locks|] == locks;
  }

  /** A lock on the top of `available` moves that resource from the stack to the lock. */
  lemma AccountPop<T>(domain: seq<T>, cursor: nat, available: seq<T>, locks: seq<Lock<T>>, lock: Lock<T>)
    requires cursor <= |domain| && Accounted(domain, cursor, available, locks)
    requires available != [] && lock.resource == available[|available| - 1]
    ensures Accounted(domain, cursor, available[..|available| - 1], locks + [lock])
  {
    assert available == available[..|available| - 1] + [lock.resource];
    assert (locks + [lock])[..|locks|] == locks;
  }

  /** Dropping the lock at `i` and pushing its resource keeps the account. */
  lemma AccountPush<T>(domain: seq<T>, cursor: nat, available: seq<T>, locks: seq<Lock<T>>, i: nat)
    requires cursor <= |domain| && i < |locks| && Accounted(domain, cursor, available, locks)
    ensures Accounted(domain, cursor, available + [locks[i].resource], locks[..i] + locks[i + 1..])
  {
    ResourcesOfRemoveAt(locks, i);
    assert multiset(available + [locks[i].resource]) == multiset(available) + multiset{locks[i].resource};
  }

  /** Replacing the lock at `i` by a new lock on the same resource keeps the account. */
  lemma AccountHandOver<T>(domain: seq<T>, cursor: nat, available: seq<T>, locks: seq<Lock<T>>, i: nat, next: Lock<T>)
    requires cursor <= |domain| && i < |locks| && Accounted(domain, cursor, available, locks)
    requires next.resource == locks[i].resource
    ensures Accounted(domain, cursor, available, locks[..i] + locks[i + 1..] + [next])
  {
    var rest := locks[..i] + locks[i + 1..];
    ResourcesOfRemoveAt(locks, i);
    assert (rest + [next])[..|rest|] == rest;
    assert ResourcesOf(rest + [next]) == ResourcesOf(rest) + multiset{next.resource};
  }

  /** The locks of `pool`, each listed once. */
  ghost predicate ListedOnce<T>(locks: seq<Lock<T>>, pool: ResourcePool<T>) {
    && (forall i, j :: 0 <= i < j < |locks| ==> locks[i] != locks[j])
    && (forall i :: 0 <= i < |locks| ==> locks[i].pool == pool)
  }

  /** Unlisting the lock at `i` leaves the others listed once, and not it. */
  lemma UnlistLock<T>(locks: seq<Lock<T>>, pool: ResourcePool<T>, i: nat)
    requires i < |locks| && ListedOnce(locks, pool)
    ensures ListedOnce(locks[..i] + locks[i + 1..], pool) && locks[i] !in locks[..i] + locks[i + 1..]
    ensures |locks[..i] + locks[i + 1..]| == |locks| - 1
    ensures forall l :: l in locks[..i] + locks[i + 1..] <==> l in locks && l != locks[i]
  {
    var rest := locks[..i] + locks[i + 1..];
    assert forall k :: 0 <= k < |rest| ==> rest[k] == (if k < i then locks[k] else locks[k + 1]);
    forall l | l in locks && l != locks[i]
      ensures l in rest
    {
      var k :| 0 <= k < |locks| && locks[k] == l;
      assert k != i;
      if k < i {
        assert rest[k] == l;
      } else {
        assert rest[k - 1] == l;
      }
    }
  }

  /** What `acquire` hands back: a lock now, or a waiting acquisition. */
  datatype Acquisition<T> = Acquired(lock: Lock<T>) | Queued(waiter: nat)

  class ResourcePool<T> {
    const domain: seq<T>
    var cursor: nat
    var isDomainExhausted: bool
    var available: seq<T>
    var pendingAcquisitions: seq<nat>
    var nextWaiterId: nat
    var activeLocks: int
    ghost var locks: seq<Lock<T>>
    ghost var granted: map<nat, Lock<T>>

    /**
     * The domain is read in order and only up to its end; every resource read
     * so far is either available or held by exactly one unreleased lock;
     * `activeLocks` counts those locks; waiters exist only while nothing is
     * available and the domain is exhausted.
     */
    ghost predicate Valid()
      reads this
    {
      && cursor <= |domain|
      && (isDomainExhausted ==> cursor == |domain|)
      && (pendingAcquisitions != [] ==> available == [] && isDomainExhausted)
      && activeLocks == |locks|
      && ListedOnce(locks, this)
      && Accounted(domain, cursor, available, locks)
      && (forall i :: 0 <= i < |pendingAcquisitions| ==>
            pendingAcquisitions[i] < nextWaiterId && pendingAcquisitions[i] !in granted)
      && (forall i, j :: 0 <= i < j < |pendingAcquisitions| ==> pendingAcquisitions[i] != pendingAcquisitions[j])
      && (forall id :: id in granted ==> id < nextWaiterId)
    }

    constructor(domain: seq<T>)
      ensures Valid()
      ensures this.domain == domain && cursor == 0 && !isDomainExhausted
      ensures available == [] && pendingAcquisitions == [] && activeLocks == 0 && granted == map[]
    {
      this.domain := domain;
      cursor := 0;
      isDomainExhausted := false;
      available := [];
      pendingAcquisitions := [];
      nextWaiterId := 0;
      activeLocks := 0;
      locks := [];
      granted := map[];
    }

    /** `createLock`: an unreleased lock on `resource`, counted in `activeLocks`. */
    method CreateLock(resource: T) returns (lock: Lock<T>)
      modifies this
      ensures fresh(lock) && lock.resource == resource && lock.pool == this && !lock.released
      ensures activeLocks == old(activeLocks) + 1 && locks == old(locks) + [lock]
      ensures cursor == old(cursor) && isDomainExhausted == old(isDomainExhausted)
      ensures available == old(available) && pendingAcquisitions == old(pendingAcquisitions)
      ensures nextWaiterId == old(nextWaiterId) && granted == old(granted)
    {
      lock := new Lock(resource, this);
      activeLocks := activeLocks + 1;
      locks := locks + [lock];
    }

    /**
     * `drainNextFromDomain`: null once the domain is exhausted, without
     * reading it again; null and exhausted when the domain ends; otherwise a
     * lock on the next domain element.
     */
    method DrainNextFromDomain() returns (lock: Option<Lock<T>>)
      requires Valid() && available == []
      modifies this
      ensures Valid()
      ensures lock.None? <==> old(cursor) == |domain|
      ensures lock.None? ==>
        && isDomainExhausted && cursor == old(cursor)
        && activeLocks == old(activeLocks) && locks == old(locks)
      ensures lock.Some? ==>
        && fresh(lock.value) && lock.value.resource == domain[old(cursor)] && !lock.value.released
        && cursor == old(cursor) + 1 && isDomainExhausted == old(isDomainExhausted)
        && activeLocks == old(activeLocks) + 1 && locks == old(locks) + [lock.value]
      ensures available == old(available) && pendingAcquisitions == old(pendingAcquisitions)
      ensures nextWaiterId == old(nextWaiterId) && granted == old(granted)
    {
      if isDomainExhausted {
        return None;
      }
      if cursor == |domain| {
        isDomainExhausted := true;
        return None;
      }
      var resource := domain[cursor];
      var l := CreateLock(resource);
      AccountRead(domain, cursor, available, old(locks), l);
      cursor := cursor + 1;
      return Some(l);
    }

    /**
     * `acquireImmediate`: the most recently released resource if there is
     * one, leaving the domain alone; otherwise the next domain element, or
     * null once the domain is exhausted.
     */
    method AcquireImmediate() returns (lock: Option<Lock<T>>)
      requires Valid()
      modifies this
      ensures Valid()
      ensures old(available) != [] ==>
        && lock.Some? && fresh(lock.value) && !lock.value.released
        && lock.value.resource == old(available)[|old(available)| - 1]
        && available == old(available)[..|old(available)| - 1]
        && cursor == old(cursor) && isDomainExhausted == old(isDomainExhausted)
      ensures old(available) == [] ==>
        && available == []
        && (lock.None? <==> old(cursor) == |domain|)
        && (lock.None? ==> isDomainExhausted && cursor == old(cursor))
        && (lock.Some? ==>
              && fresh(lock.value) && !lock.value.released && lock.value.resource == domain[old(cursor)]
              && cursor == old(cursor) + 1 && isDomainExhausted == old(isDomainExhausted))
      ensures lock.Some? ==> lock.value.pool == this
      ensures activeLocks == old(activeLocks) + (if lock.Some? then 1 else 0)
      ensures locks == old(locks) + (if lock.Some? then [lock.value] else [])
      ensures pendingAcquisitions == old(pendingAcquisitions)
      ensures nextWaiterId == old(nextWaiterId) && granted == old(granted)
    {
      if |available| == 0 {
        lock := DrainNextFromDomain();
        return;
      }
      var l := CreateLock(available[|available| - 1]);
      AccountPop(domain, cursor, available, old(locks), l);
      available := available[..|available| - 1];
      return Some(l);
    }

    /**
     * `acquire`: the immediate lock if there is one, exactly as
     * `acquireImmediate` gives it; otherwise a new waiter at the tail of the
     * queue.
     */
    method Acquire() returns (r: Acquisition<T>)
      requires Valid()
      modifies this
      ensures Valid()
      ensures r.Acquired? <==> old(available) != [] || old(cursor) < |domain|
      ensures r.Acquired? ==>
        && fresh(r.lock) && !r.lock.released && r.lock.pool == this
        && activeLocks == old(activeLocks) + 1 && locks == old(locks) + [r.lock]
        && pendingAcquisitions == old(pendingAcquisitions) && nextWaiterId == old(nextWaiterId)
      ensures r.Acquired? && old(available) != [] ==>
        && r.lock.resource == old(available)[|old(available)| - 1]
        && available == old(available)[..|old(available)| - 1]
        && cursor == old(cursor) && isDomainExhausted == old(isDomainExhausted)
      ensures r.Acquired? && old(available) == [] ==>
        && r.lock.resource == domain[old(cursor)] && available == []
        && cursor == old(cursor) + 1 && isDomainExhausted == old(isDomainExhausted)
      ensures r.Queued? ==>
        && r.waiter == old(nextWaiterId) && nextWaiterId == old(nextWaiterId) + 1
        && pendingAcquisitions == old(pendingAcquisitions) + [r.waiter]
        && available == [] && isDomainExhausted && cursor == old(cursor)
        && activeLocks == old(activeLocks) && locks == old(locks)
      ensures granted == old(granted)
    {
      var lock := AcquireImmediate();
      if lock.Some? {
        return Acquired(lock.value);
      }
      var waiter := nextWaiterId;
      nextWaiterId := nextWaiterId + 1;
      pendingAcquisitions := pendingAcquisitions + [waiter];
      return Queued(waiter);
    }

    /** The pool's side of `release` with no waiter: one lock fewer is active and its resource is pushed onto `available`. */
    method Restock(lock: Lock<T>)
      requires Valid() && lock in locks && pendingAcquisitions == []
      modifies this
      ensures Valid() && lock !in locks
      ensures forall l :: l in locks <==> l in old(locks) && l != lock
      ensures available == old(available) + [lock.resource] && pendingAcquisitions == []
      ensures activeLocks == old(activeLocks) - 1 && granted == old(granted)
      ensures cursor == old(cursor) && isDomainExhausted == old(isDomainExhausted)
      ensures nextWaiterId == old(nextWaiterId)
    {
      ghost var i :| 0 <= i < |locks| && locks[i] == lock;
      AccountPush(domain, cursor, available, locks, i);
      UnlistLock(locks, this, i);
      activeLocks := activeLocks - 1;
      locks := locks[..i] + locks[i + 1..];
      available := available + [lock.resource];
    }

    /**
     * The pool's side of `release` with waiters: the oldest waiter is
     * dequeued and resolved with a fresh lock on the same resource, so the
     * count of active locks is unchanged.
     */
    method HandOver(lock: Lock<T>) returns (ghost next: Lock<T>)
      requires Valid() && lock in locks && pendingAcquisitions != []
      modifies this
      ensures Valid() && lock !in locks && next in locks
      ensures forall l :: l in locks <==> (l in old(locks) && l != lock) || l == next
      ensures available == old(available) && pendingAcquisitions == old(pendingAcquisitions)[1..]
      ensures activeLocks == old(activeLocks)
      ensures old(pendingAcquisitions)[0] !in old(granted)
      ensures granted == old(granted)[old(pendingAcquisitions)[0] := next]
      ensures fresh(next) && next.resource == lock.resource && !next.released
      ensures cursor == old(cursor) && isDomainExhausted == old(isDomainExhausted)
      ensures nextWaiterId == old(nextWaiterId)
    {
      ghost var i :| 0 <= i < |locks| && locks[i] == lock;
      ghost var held := locks;
      UnlistLock(locks, this, i);
      activeLocks := activeLocks - 1;
      locks := locks[..i] + locks[i + 1..];
      var waiter := pendingAcquisitions[0];
      pendingAcquisitions := pendingAcquisitions[1..];
      var l := CreateLock(lock.resource);
      AccountHandOver(domain, cursor, available, held, i, l);
      granted := granted[waiter := l];
      next := l;
    }
  }

  /** A lease on one resource of `pool`. */
  class Lock<T> {
    const resource: T
    const pool: ResourcePool<T>
    var released: bool

    constructor(resource: T, pool: ResourcePool<T>)
      ensures this.resource == resource && this.pool == pool && !released
    {
      this.resource := resource;
      this.pool := pool;
      this.released := false;
    }

    /** A lock the pool made: the pool lists it exactly while it is unreleased. */
    ghost predicate Valid()
      reads this, pool
    {
      pool.Valid() && (!released <==> this in pool.locks)
    }

    /** The `resource` getter; reading a released lock's resource is a usage fault. */
    function Resource(): (r: T)
      requires !released
      reads this
      ensures r == resource
    {
      resource
    }

    function Released(): (r: bool)
      reads this
      ensures r == released
    {
      released
    }

    /**
     * `release`: false for a released lock, changing no pool state.
     * Otherwise true, `activeLocks` drops by one, and the resource goes to a
     * fresh lock for the oldest waiter or, with no waiter, onto `available`.
     */
    method Release() returns (ok: bool)
      requires Valid()
      modifies this, pool
      ensures Valid() && released && this !in pool.locks
      ensures ok == !old(released)
      ensures !ok ==>
        && pool.available == old(pool.available) && pool.pendingAcquisitions == old(pool.pendingAcquisitions)
        && pool.activeLocks == old(pool.activeLocks) && pool.locks == old(pool.locks)
        && pool.granted == old(pool.granted)
      ensures ok && old(pool.pendingAcquisitions) == [] ==>
        && pool.available == old(pool.available) + [resource]
        && pool.pendingAcquisitions == []
        && pool.activeLocks == old(pool.activeLocks) - 1
        && pool.granted == old(pool.granted)
        && (forall l :: l in pool.locks <==> l in old(pool.locks) && l != this)
      ensures ok && old(pool.pendingAcquisitions) != [] ==>
        var waiter := old(pool.pendingAcquisitions)[0];
        && pool.available == old(pool.available)
        && pool.pendingAcquisitions == old(pool.pendingAcquisitions)[1..]
        && pool.activeLocks == old(pool.activeLocks)
        && waiter !in old(pool.granted) && waiter in pool.granted
        && pool.granted == old(pool.granted)[waiter := pool.granted[waiter]]
        && fresh(pool.granted[waiter]) && pool.granted[waiter].resource == resource
        && !pool.granted[waiter].released && pool.granted[waiter] in pool.locks
        && (forall l :: l in pool.locks <==> (l in old(pool.locks) && l != this) || l == pool.granted[waiter])
      ensures pool.cursor == old(pool.cursor) && pool.isDomainExhausted == old(pool.isDomainExhausted)
      ensures pool.nextWaiterId == old(pool.nextWaiterId)
    {
      if released {
        return false;
      }
      released := true;
      if pool.pendingAcquisitions != [] {
        ghost var next := pool.HandOver(this);
      } else {
        pool.Restock(this);
      }
      return true;
    }
  }

  /**
   * With no one waiting, a released resource is the next one leased: it is
   * pushed on top of `available` and `acquireImmediate` pops it again, so the
   * pool prefers it to anything else available or left in the domain.
   */
  method ReleaseThenAcquire<T>(lock: Lock<T>) returns (again: Lock<T>)
    requires lock.Valid() && !lock.released && lock.pool.pendingAcquisitions == []
    modifies lock, lock.pool
    ensures lock.released && fresh(again) && again.Valid() && !again.released
    ensures again.resource == lock.resource && again.pool == lock.pool
    ensures lock.pool.available == old(lock.pool.available) && lock.pool.cursor == old(lock.pool.cursor)
    ensures lock.pool.pendingAcquisitions == [] && lock.pool.activeLocks == old(lock.pool.activeLocks)
    ensures forall l :: l in lock.pool.locks <==> (l in old(lock.pool.locks) && l != lock) || l == again
  {
    var pool := lock.pool;
    var ok := lock.Release();
    var next := pool.AcquireImmediate();
    again := next.value;
  }

  /**
   * Reallocating freed resources: three leases on `[1, 2, 3]` come in domain
   * order and a fourth is refused; then each resource freed is the next one
   * leased, and once all three are leased again a fifth is refused.
   */
  method ReallocateFreedResources() returns (leased: seq<int>, reused: seq<int>, refused: bool)
    ensures leased == [1, 2, 3] && reused == [2, 1, 3] && refused
  {
    var pool := new ResourcePool([1, 2, 3]);
    var first := pool.AcquireImmediate();
    var second := pool.AcquireImmediate();
    var third := pool.AcquireImmediate();
    var fourth := pool.AcquireImmediate();
    leased := [first.value.Resource(), second.value.Resource(), third.value.Resource()];
    var again2 := ReleaseThenAcquire(second.value);
    var again1 := ReleaseThenAcquire(first.value);
    var again3 := ReleaseThenAcquire(third.value);
    var fifth := pool.AcquireImmediate();
    reused := [again2.resource, again1.resource, again3.resource];
    refused := fourth.None? && fifth.None?;
  }
  /** Three `acquire` calls on a new pool over `[1, 2, 3]` lease its resources in domain order. */
  method LeaseThree() returns (pool: ResourcePool<int>, first: Lock<int>, second: Lock<int>, third: Lock<int>)
    ensures fresh(pool) && fresh(first) && fresh(second) && fresh(third) && pool.Valid()
    ensures pool.domain == [1, 2, 3] && pool.cursor == 3 && pool.available == []
    ensures pool.pendingAcquisitions == [] && pool.granted == map[] && pool.locks == [first, second, third]
    ensures first.pool == pool && second.pool == pool && third.pool == pool
    ensures !first.released && !second.released && !third.released
    ensures first.resource == 1 && second.resource == 2 && third.resource == 3
  {
    pool := new ResourcePool([1, 2, 3]);
    var a := pool.Acquire();
    var b := pool.Acquire();
    var c := pool.Acquire();
    first, second, third := a.lock, b.lock, c.lock;
  }

  /**
   * Freed resources go to waiting acquisitions: with `[1, 2, 3]` leased, two
   * more `acquire` calls wait; releasing the second lease hands resource 2 to
   * the first waiter, and releasing the first lease hands resource 1 to the
   * second. (A waiter's lock reaches it through its promise, recorded in
   * the ghost map `granted`.)
   */
  method FreedResourcesGoToWaiters() returns (leased: seq<int>, ghost handedOver: seq<int>)
    ensures leased == [1, 2, 3] && handedOver == [2, 1]
  {
    var pool, first, second, third := LeaseThree();
    leased := [first.Resource(), second.Resource(), third.Resource()];
    var fourth := pool.Acquire();
    var fifth := pool.Acquire();
    var ok := second.Release();
    ghost var granted4 := pool.granted[fourth.waiter];
    ok := first.Release();
    ghost var granted5 := pool.granted[fifth.waiter];
    handedOver := [granted4.resource, granted5.resource];
  }
}
