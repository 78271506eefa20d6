/**
 * `createBufferedAsyncIterator`: an async iterator over results pushed into
 * an in-memory buffer, with at most one pending `next`. A pending `next` is
 * an owned slot holding a deferred's id; the ghost map `settled` records the
 * result each deferred was resolved with. The ghost histories `pushed` and
 * `delivered` are every result pushed and every result handed to a consumer,
 * whether returned at once or through a resolved deferred.
 */
module BufferedAsyncIteratorModule {
  import opened JsValues

  /** What `next` hands back: a result at once, or a pending deferred. */
  datatype NextResult<R> = Ready(result: R) | Pending(id: nat)

  class BufferedAsyncIterator<R> {
    var buffer: seq<R>
    var nextSlot: Option<nat>
    var nextDeferredId: nat
    ghost var settled: map<nat, R>
    ghost var pushed: seq<R>
    ghost var delivered: seq<R>

    /**
     * Results are delivered in push order; a pending `next` exists only
     * while the buffer is empty, and it is not yet resolved.
     */
    ghost predicate Valid()
      reads this
    {
      && pushed == delivered + buffer
      && (nextSlot.Some? ==> buffer == [] && nextSlot.value < nextDeferredId && nextSlot.value !in settled)
      && (forall id :: id in settled ==> id < nextDeferredId)
    }

    constructor()
      ensures Valid() && buffer == [] && nextSlot.None? && settled == map[]
      ensures pushed == [] && delivered == []
    {
      buffer := [];
      nextSlot := None;
      nextDeferredId := 0;
      settled := map[];
      pushed := [];
      delivered := [];
    }

    /**
     * `next`: the pending deferred again if there is one, changing nothing;
     * otherwise the head of the buffer, removed; otherwise exactly one new
     * pending deferred.
     */
    method Next() returns (r: NextResult<R>)
      requires Valid()
      modifies this
      ensures Valid()
      ensures pushed == old(pushed) && settled == old(settled)
      ensures old(nextSlot).Some? ==>
        && r == Pending(old(nextSlot).value)
        && buffer == old(buffer) && nextSlot == old(nextSlot) && nextDeferredId == old(nextDeferredId)
        && delivered == old(delivered)
      ensures old(nextSlot).None? && old(buffer) != [] ==>
        && r == Ready(old(buffer)[0])
        && buffer == old(buffer)[1..] && nextSlot.None? && nextDeferredId == old(nextDeferredId)
        && delivered == old(delivered) + [r.result]
      ensures old(nextSlot).None? && old(buffer) == [] ==>
        && r == Pending(old(nextDeferredId))
        && nextSlot == Some(old(nextDeferredId)) && nextDeferredId == old(nextDeferredId) + 1
        && buffer == [] && delivered == old(delivered)
    {
      if nextSlot.Some? {
        return Pending(nextSlot.value);
      }
      if |buffer| > 0 {
        var result := buffer[0];
        buffer := buffer[1..];
        delivered := delivered + [result];
        return Ready(result);
      }
      nextSlot := Some(nextDeferredId);
      nextDeferredId := nextDeferredId + 1;
      return Pending(nextSlot.value);
    }

    /**
     * `push`: a pending `next` is resolved with the result and cleared, and
     * the result is not buffered; otherwise it joins the tail of the buffer.
     */
    method Push(result: R)
      requires Valid()
      modifies this
      ensures Valid()
      ensures pushed == old(pushed) + [result] && nextSlot.None? && nextDeferredId == old(nextDeferredId)
      ensures old(nextSlot).Some? ==>
        && buffer == old(buffer)
        && settled == old(settled)[old(nextSlot).value := result]
        && delivered == old(delivered) + [result]
      ensures old(nextSlot).None? ==>
        && buffer == old(buffer) + [result]
        && settled == old(settled) && delivered == old(delivered)
    {
      pushed := pushed + [result];
      if nextSlot.Some? {
        settled := settled[nextSlot.value := result];
        delivered := delivered + [result];
        nextSlot := None;
        return;
      }
      buffer := buffer + [result];
    }
  }

  /** Results pushed before any `next` come out in push order. */
  method PushThenNext<R>(a: R, b: R) returns (first: NextResult<R>, second: NextResult<R>)
    ensures first == Ready(a) && second == Ready(b)
  {
    var buffered := new BufferedAsyncIterator<R>();
    buffered.Push(a);
    buffered.Push(b);
    first := buffered.Next();
    second := buffered.Next();
  }

  /** Calls to `next` made before any `push` share one deferred, which the first `push` resolves. */
  method NextThenPush<R>(a: R) returns (first: NextResult<R>, second: NextResult<R>, ghost resolved: map<nat, R>)
    ensures first.Pending? && second == first && first.id in resolved && resolved[first.id] == a
  {
    var buffered := new BufferedAsyncIterator<R>();
    first := buffered.Next();
    second := buffered.Next();
    buffered.Push(a);
    resolved := buffered.settled;
  }
}
