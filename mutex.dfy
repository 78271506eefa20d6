/**
 * `createMutex`: one active lock and a FIFO of waiting contexts. A waiting
 * context is named by the id of its promise; the ghost map `granted` records
 * the lock each waiter was resolved with. Locks are objects compared by
 * identity, as `lock !== activeLock` does.
 */
module MutexModule {
  import opened JsValues

  /** What `acquireLock` hands back: a lock now, or a waiting context. */
  datatype Acquisition = Granted(lock: MutexLock) | Queued(waiter: nat)

  /** What `runExclusive` hands back: the runner's outcome, or a context still waiting for the lock. */
  datatype RunResult<R> = Completed(outcome: Outcome<R>) | Waiting(waiter: nat)

  class Mutex {
    var activeLock: Option<MutexLock>
    var waitingContexts: seq<nat>
    var nextWaiterId: nat
    ghost var granted: map<nat, MutexLock>

    /** Contexts wait only while a lock is active; waiter ids are fresh and unresolved. */
    ghost predicate Valid()
      reads this
    {
      && (waitingContexts != [] ==> activeLock.Some?)
      && (activeLock.Some? ==> activeLock.value.mutex == this)
      && (forall i :: 0 <= i < |waitingContexts| ==>
            waitingContexts[i] < nextWaiterId && waitingContexts[i] !in granted)
      && (forall i, j :: 0 <= i < j < |waitingContexts| ==> waitingContexts[i] != waitingContexts[j])
      && (forall id :: id in granted ==> id < nextWaiterId)
    }

    constructor()
      ensures Valid() && activeLock.None? && waitingContexts == [] && granted == map[]
    {
      activeLock := None;
      waitingContexts := [];
      nextWaiterId := 0;
      granted := map[];
    }

    /** `createLock`: a lock that belongs to this mutex; the mutex is left alone. */
    method CreateLock() returns (lock: MutexLock)
      ensures fresh(lock) && lock.mutex == this && lock.releaseCalls == 0
    {
      lock := new MutexLock(this);
    }

    /**
     * `acquireLock`: on a free mutex a fresh lock becomes the active one; on
     * a held mutex a new waiter joins the tail of the queue and the active
     * lock stays.
     */
    method AcquireLock() returns (r: Acquisition)
      requires Valid()
      modifies this
      ensures Valid() && granted == old(granted)
      ensures old(activeLock).None? ==>
        && r.Granted? && fresh(r.lock) && r.lock.releaseCalls == 0
        && activeLock == Some(r.lock)
        && waitingContexts == old(waitingContexts) && nextWaiterId == old(nextWaiterId)
      ensures old(activeLock).Some? ==>
        && r == Queued(old(nextWaiterId)) && nextWaiterId == old(nextWaiterId) + 1
        && waitingContexts == old(waitingContexts) + [r.waiter]
        && activeLock == old(activeLock)
    {
      if activeLock.Some? {
        var waiter := nextWaiterId;
        nextWaiterId := nextWaiterId + 1;
        waitingContexts := waitingContexts + [waiter];
        return Queued(waiter);
      }
      var lock := CreateLock();
      activeLock := Some(lock);
      return Granted(lock);
    }

    /**
     * `acquireLockImmediate` as written: null while a lock is active;
     * otherwise a fresh lock that is never made the active one, so the
     * mutex is unchanged.
     */
    method AcquireLockImmediateAsWritten() returns (r: Option<MutexLock>)
      requires Valid()
      ensures r.None? <==> activeLock.Some?
      ensures r.Some? ==> fresh(r.value) && r.value.mutex == this && activeLock != Some(r.value)
    {
      if activeLock.Some? {
        return None;
      }
      var lock := CreateLock();
      return Some(lock);
    }

    /** `acquireLockImmediate` as intended: null while a lock is active; otherwise a fresh lock that becomes the active one. */
    method AcquireLockImmediate() returns (r: Option<MutexLock>)
      requires Valid()
      modifies this
      ensures Valid()
      ensures r.None? <==> old(activeLock).Some?
      ensures r.None? ==> activeLock == old(activeLock)
      ensures r.Some? ==> fresh(r.value) && r.value.releaseCalls == 0 && activeLock == Some(r.value)
      ensures waitingContexts == old(waitingContexts) && nextWaiterId == old(nextWaiterId) && granted == old(granted)
    {
      if activeLock.Some? {
        return None;
      }
      var lock := CreateLock();
      activeLock := Some(lock);
      return Some(lock);
    }

    /**
     * The part of `runExclusive` after the lock is acquired: the runner's
     * outcome is passed through, a value or a thrown error alike, and the
     * `finally` block releases the lock exactly once.
     */
    method RunHolding<R>(lock: MutexLock, outcome: Outcome<R>) returns (result: Outcome<R>)
      requires Valid() && activeLock == Some(lock) && lock.mutex == this
      modifies this, lock
      ensures Valid() && result == outcome
      ensures lock.releaseCalls == old(lock.releaseCalls) + 1
      ensures activeLock != Some(lock) && nextWaiterId == old(nextWaiterId)
      ensures old(waitingContexts) == [] ==> activeLock.None? && waitingContexts == [] && granted == old(granted)
      ensures old(waitingContexts) != [] ==>
        var waiter := old(waitingContexts)[0];
        && waitingContexts == old(waitingContexts)[1..]
        && activeLock.Some? && fresh(activeLock.value)
        && granted == old(granted)[waiter := activeLock.value]
    {
      var released := lock.Release();
      result := outcome;
    }

    /**
     * `runExclusive`: on a free mutex the runner runs holding a fresh lock,
     * which is then released exactly once, whether the runner returned or
     * threw. On a held mutex the call waits in the queue; what it does once
     * woken is `RunHolding`.
     */
    method RunExclusive<R>(outcome: Outcome<R>) returns (r: RunResult<R>)
      requires Valid()
      modifies this
      ensures Valid()
      ensures old(activeLock).None? ==>
        && r == Completed(outcome)
        && activeLock.None? && waitingContexts == old(waitingContexts)
        && nextWaiterId == old(nextWaiterId) && granted == old(granted)
      ensures old(activeLock).Some? ==>
        && r == Waiting(old(nextWaiterId))
        && waitingContexts == old(waitingContexts) + [r.waiter] && activeLock == old(activeLock)
        && nextWaiterId == old(nextWaiterId) + 1 && granted == old(granted)
    {
      var acquisition := AcquireLock();
      if acquisition.Queued? {
        return Waiting(acquisition.waiter);
      }
      var result := RunHolding(acquisition.lock, outcome);
      return Completed(result);
    }
  }

  /** A lock handed out by `mutex`. `releaseCalls` counts calls to `release`. */
  class MutexLock {
    const mutex: Mutex
    ghost var releaseCalls: nat

    constructor(mutex: Mutex)
      ensures this.mutex == mutex && releaseCalls == 0
    {
      this.mutex := mutex;
      releaseCalls := 0;
    }

    /**
     * `release`: false for a lock that is not the active one, changing
     * nothing in the mutex. Otherwise true: the oldest waiter, if any, is
     * dequeued and made active with a fresh lock; with no waiter the mutex
     * becomes free.
     */
    method Release() returns (ok: bool)
      requires mutex.Valid()
      modifies this, mutex
      ensures mutex.Valid()
      ensures releaseCalls == old(releaseCalls) + 1
      ensures ok <==> old(mutex.activeLock) == Some(this)
      ensures !ok ==>
        && mutex.activeLock == old(mutex.activeLock) && mutex.waitingContexts == old(mutex.waitingContexts)
        && mutex.granted == old(mutex.granted)
      ensures ok && old(mutex.waitingContexts) == [] ==>
        mutex.activeLock.None? && mutex.waitingContexts == [] && mutex.granted == old(mutex.granted)
      ensures ok && old(mutex.waitingContexts) != [] ==>
        var waiter := old(mutex.waitingContexts)[0];
        && mutex.waitingContexts == old(mutex.waitingContexts)[1..]
        && mutex.activeLock.Some? && fresh(mutex.activeLock.value) && mutex.activeLock.value != this
        && waiter !in old(mutex.granted)
        && mutex.granted == old(mutex.granted)[waiter := mutex.activeLock.value]
      ensures mutex.nextWaiterId == old(mutex.nextWaiterId)
    {
      releaseCalls := releaseCalls + 1;
      if mutex.activeLock != Some(this) {
        return false;
      }
      mutex.activeLock := None;
      if mutex.waitingContexts != [] {
        var waiter := mutex.waitingContexts[0];
        mutex.waitingContexts := mutex.waitingContexts[1..];
        var next := mutex.CreateLock();
        mutex.activeLock := Some(next);
        mutex.granted := mutex.granted[waiter := next];
      }
      return true;
    }
  }

  /**
   * The lock `acquireLockImmediate` returns as written does not hold the
   * mutex: releasing it reports false, and `acquireLock` still succeeds at
   * once, so two contexts hold the mutex together.
   */
  method ImmediateLockIsNotExclusive() returns (lock: MutexLock, released: bool, second: Acquisition)
    ensures !released && second.Granted? && second.lock != lock
  {
    var mutex := new Mutex();
    var immediate := mutex.AcquireLockImmediateAsWritten();
    lock := immediate.value;
    second := mutex.AcquireLock();
    released := lock.Release();
  }

  /** With the intended `acquireLockImmediate`, its lock excludes `acquireLock` and releases. */
  method ImmediateLockIsExclusive() returns (lock: MutexLock, released: bool, second: Acquisition)
    ensures released && second.Queued?
  {
    var mutex := new Mutex();
    var immediate := mutex.AcquireLockImmediate();
    lock := immediate.value;
    second := mutex.AcquireLock();
    released := lock.Release();
  }
}
