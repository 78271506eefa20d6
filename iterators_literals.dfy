/**
 * `range`: an iterator of `length` numbers `start, start + step, ...`.
 *
 * Numbers are modelled as exact reals (no floating-point rounding); the
 * length is compared with an integer counter exactly as the source does.
 */
module IteratorsLiterals {
  import opened JsValues

  /** One result of `next()`: a value, or done. */
  datatype IteratorResult = Value(value: real) | Done

  /** The values a range yields, in order. */
  function RangeValues(length: int, start: real, step: real): (r: seq<real>)
    ensures |r| == if length > 0 then length else 0
    ensures forall k :: 0 <= k < |r| ==> r[k] == start + step * k as real
  {
    if length <= 0 then [] else seq(length, k => start + step * k as real)
  }

  class RangeIterator {
    const length: int
    const start: real
    const step: real
    var i: nat

    /** The counter never passes the number of values to yield. */
    ghost predicate Valid()
      reads this
    {
      i <= if length > 0 then length else 0
    }

    /** `range(length, { start, step })`: an omitted `start` is 0 and an omitted `step` is 1. */
    constructor(length: int, start: Option<real>, step: Option<real>)
      ensures Valid() && i == 0
      ensures this.length == length && this.start == start.GetOr(0.0) && this.step == step.GetOr(1.0)
    {
      this.length := length;
      this.start := start.GetOr(0.0);
      this.step := step.GetOr(1.0);
      i := 0;
    }

    /** `next()`: done once `i` reaches `length`; otherwise `start + step * i`, then `i` grows. */
    method Next() returns (r: IteratorResult)
      requires Valid()
      modifies this
      ensures Valid()
      ensures old(i) >= length ==> r == Done && i == old(i)
      ensures old(i) < length ==> r == Value(RangeValues(length, start, step)[old(i)]) && i == old(i) + 1
    {
      if i >= length {
        return Done;
      }
      r := Value(start + step * i as real);
      i := i + 1;
    }
  }

  /**
   * `Array.from(range(...))`: calls `next()` until it reports done; the
   * iterator stays exhausted, so every later `next()` is done as well.
   */
  method Collect(it: RangeIterator) returns (values: seq<real>)
    requires it.Valid() && it.i == 0
    modifies it
    ensures values == RangeValues(it.length, it.start, it.step)
    ensures it.Valid() && it.i >= it.length
  {
    values := [];
    while true
      invariant it.Valid()
      invariant values == RangeValues(it.length, it.start, it.step)[..it.i]
      decreases (if it.length > 0 then it.length else 0) - it.i
    {
      var r := it.Next();
      if r.Done? {
        break;
      }
      values := values + [r.value];
    }
  }

  /** Consecutive values differ by exactly `step`. */
  lemma ConsecutiveDifference(length: int, start: real, step: real, k: nat)
    requires k + 1 < length
    ensures RangeValues(length, start, step)[k + 1] - RangeValues(length, start, step)[k] == step
  {
  }

  /** With the defaults, `range(n)` yields `0, 1, ..., n - 1`. */
  lemma DefaultRange(n: int)
    ensures forall k :: 0 <= k < |RangeValues(n, 0.0, 1.0)| ==> RangeValues(n, 0.0, 1.0)[k] == k as real
  {
  }
}
