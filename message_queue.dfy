/**
 * `createMessageQueue`: a FIFO buffer between a publisher and a consumer, a
 * `closed` flag, and at most one pending `waitForData` future.
 *
 * A pending future is an owned slot holding the id of a deferred; the ghost
 * map `settled` records the value each deferred was resolved with. The ghost
 * histories `pushed` and `drained` are every value ever published and every
 * value ever read.
 */
module MessageQueueModule {
  import opened JsValues

  /** What `waitForData` hands back: an already resolved promise, or a pending deferred. */
  datatype Future = Resolved(value: bool) | Pending(id: nat)

  class MessageQueue<T> {
    var buffer: seq<T>
    var closed: bool
    var waitSlot: Option<nat>
    var nextDeferredId: nat
    ghost var settled: map<nat, bool>
    ghost var pushed: seq<T>
    ghost var drained: seq<T>

    /**
     * Values leave in the order they came; a pending wait exists only while
     * the queue is open and empty, and it is not yet resolved.
     */
    ghost predicate Valid()
      reads this
    {
      && pushed == drained + buffer
      && (waitSlot.Some? ==> buffer == [] && !closed && waitSlot.value < nextDeferredId && waitSlot.value !in settled)
      && (forall id :: id in settled ==> id < nextDeferredId)
    }

    constructor()
      ensures Valid()
      ensures buffer == [] && !closed && waitSlot.None? && settled == map[]
      ensures pushed == [] && drained == []
    {
      buffer := [];
      closed := false;
      waitSlot := None;
      nextDeferredId := 0;
      settled := map[];
      pushed := [];
      drained := [];
    }

    function HasData(): (r: bool)
      reads this
      ensures r <==> |buffer| > 0
    {
      |buffer| > 0
    }

    function Depth(): (r: nat)
      reads this
      ensures r == |buffer|
    {
      |buffer|
    }

    function IsClosed(): (r: bool)
      reads this
      ensures r == closed
    {
      closed
    }

    /**
     * `push`: refused once closed; otherwise the value goes to the tail, and a
     * pending wait is resolved with true and cleared.
     */
    method Push(value: T) returns (published: bool)
      requires Valid()
      modifies this
      ensures Valid()
      ensures published == !old(closed)
      ensures closed == old(closed) && nextDeferredId == old(nextDeferredId) && drained == old(drained)
      ensures old(closed) ==>
        buffer == old(buffer) && waitSlot == old(waitSlot) && settled == old(settled) && pushed == old(pushed)
      ensures !old(closed) ==>
        && buffer == old(buffer) + [value]
        && pushed == old(pushed) + [value]
        && waitSlot.None?
        && settled == (if old(waitSlot).Some? then old(settled)[old(waitSlot).value := true] else old(settled))
    {
      if closed {
        return false;
      }
      buffer := buffer + [value];
      pushed := pushed + [value];
      if waitSlot.Some? {
        settled := settled[waitSlot.value := true];
        waitSlot := None;
      }
      return true;
    }

    /** `close`: the flag is set for good; a pending wait is resolved with `hasData()` and cleared. */
    method Close()
      requires Valid()
      modifies this
      ensures Valid()
      ensures closed && waitSlot.None?
      ensures buffer == old(buffer) && nextDeferredId == old(nextDeferredId)
      ensures pushed == old(pushed) && drained == old(drained)
      ensures settled == (if old(waitSlot).Some? then old(settled)[old(waitSlot).value := |buffer| > 0] else old(settled))
    {
      closed := true;
      if waitSlot.Some? {
        settled := settled[waitSlot.value := HasData()];
        waitSlot := None;
      }
    }

    /**
     * `waitForData`: resolved at once with `hasData()` when closed or
     * non-empty; otherwise the pending future, made on the first such call
     * and handed out again on the later ones.
     */
    method WaitForData() returns (f: Future)
      requires Valid()
      modifies this
      ensures Valid()
      ensures buffer == old(buffer) && closed == old(closed) && settled == old(settled)
      ensures pushed == old(pushed) && drained == old(drained)
      ensures old(closed) || |old(buffer)| > 0 ==>
        f == Resolved(|buffer| > 0) && waitSlot == old(waitSlot) && nextDeferredId == old(nextDeferredId)
      ensures !old(closed) && old(buffer) == [] && old(waitSlot).Some? ==>
        f == Pending(old(waitSlot).value) && waitSlot == old(waitSlot) && nextDeferredId == old(nextDeferredId)
      ensures !old(closed) && old(buffer) == [] && old(waitSlot).None? ==>
        && f == Pending(old(nextDeferredId))
        && waitSlot == Some(old(nextDeferredId))
        && nextDeferredId == old(nextDeferredId) + 1
    {
      if closed || |buffer| > 0 {
        return Resolved(HasData());
      } else if waitSlot.Some? {
        return Pending(waitSlot.value);
      } else {
        waitSlot := Some(nextDeferredId);
        nextDeferredId := nextDeferredId + 1;
        return Pending(waitSlot.value);
      }
    }

    /** `readBuffer`: shifts values off the head until none is left, in push order. */
    method ReadBuffer() returns (values: seq<T>)
      requires Valid()
      modifies this
      ensures Valid()
      ensures values == old(buffer) && buffer == []
      ensures drained == old(drained) + values && pushed == old(pushed)
      ensures closed == old(closed) && waitSlot == old(waitSlot) && settled == old(settled)
      ensures nextDeferredId == old(nextDeferredId)
    {
      values := [];
      while |buffer| > 0
        invariant Valid()
        invariant values + buffer == old(buffer)
        invariant drained == old(drained) + values && pushed == old(pushed)
        invariant closed == old(closed) && waitSlot == old(waitSlot) && settled == old(settled)
        invariant nextDeferredId == old(nextDeferredId)
        decreases |buffer|
      {
        var value := buffer[0];
        buffer := buffer[1..];
        values := values + [value];
        drained := drained + [value];
      }
    }
  }
}
