/**
 * `fromFactory`: a getter that builds its value with a factory, once the
 * factory has succeeded. The captured `singleton` variable is an `Option`
 * whose `None` plays the empty sentinel, so any value of `T`, null and
 * undefined included, is cached once built.
 *
 * The factory may throw, and a later call may then succeed (a connection that
 * comes up, say); it is modelled as the sequence of its outcomes,
 * `factory(n)` being the outcome of its `n`-th call, and the getter counts the
 * calls made so far.
 */
module Singleton {
  import opened JsValues

  /** The `options` argument of `fromFactory`; `None` is an absent or undefined `lazy`. */
  datatype FromFactoryOptions = FromFactoryOptions(lazy: Option<bool>)

  /** The getter `fromFactory` returns, with the state it captures. */
  class Getter<T> {
    const factory: nat -> Outcome<T>
    var singleton: Option<T>
    var factoryCalls: nat

    /** The first `n` calls of the factory all threw. */
    ghost predicate ThrewUpTo(n: nat)
      reads this
    {
      forall k :: 0 <= k < n ==> factory(k).Threw?
    }

    /**
     * The factory was called until it first returned, and not again: while
     * nothing is stored every call so far threw; once a value is stored it is
     * the outcome of the last call, and every earlier call threw.
     */
    ghost predicate Valid()
      reads this
    {
      if singleton.None? then ThrewUpTo(factoryCalls)
      else factoryCalls >= 1 && ThrewUpTo(factoryCalls - 1) && factory(factoryCalls - 1) == Returned(singleton.value)
    }

    /** A lazy getter: nothing built, no factory call yet. */
    constructor Lazy(factory: nat -> Outcome<T>)
      ensures Valid() && this.factory == factory && singleton.None? && factoryCalls == 0
    {
      this.factory := factory;
      singleton := None;
      factoryCalls := 0;
    }

    /** An eager getter whose first factory call returned `value`. */
    constructor Built(factory: nat -> Outcome<T>, value: T)
      requires factory(0) == Returned(value)
      ensures Valid() && this.factory == factory && singleton == Some(value) && factoryCalls == 1
    {
      this.factory := factory;
      singleton := Some(value);
      factoryCalls := 1;
    }

    /**
     * The getter: a stored value is returned without calling the factory;
     * otherwise the factory is called, and what it returns is stored and
     * returned, while what it throws propagates and leaves the sentinel.
     */
    method Get() returns (r: Outcome<T>)
      requires Valid()
      modifies this
      ensures Valid()
      ensures old(singleton).Some? ==>
        r == Returned(old(singleton).value) && singleton == old(singleton) && factoryCalls == old(factoryCalls)
      ensures old(singleton).None? ==>
        && r == factory(old(factoryCalls)) && factoryCalls == old(factoryCalls) + 1
        && singleton == (if r.Returned? then Some(r.value) else None)
    {
      if singleton.Some? {
        return Returned(singleton.value);
      }
      r := factory(factoryCalls);
      factoryCalls := factoryCalls + 1;
      if r.Returned? {
        singleton := Some(r.value);
      }
    }
  }

  /**
   * `fromFactory`: `lazy` defaults to true. A lazy getter calls nothing yet;
   * an eager one calls the factory once, now, and `fromFactory` itself throws
   * what the factory throws.
   */
  method FromFactory<T>(factory: nat -> Outcome<T>, options: Option<FromFactoryOptions>) returns (r: Outcome<Getter<T>>)
    ensures var lazy := options.None? || options.value.lazy.GetOr(true);
      && (lazy ==>
            && r.Returned? && fresh(r.value) && r.value.Valid() && r.value.factory == factory
            && r.value.singleton.None? && r.value.factoryCalls == 0)
      && (!lazy && factory(0).Threw? ==> r == Threw(factory(0).error))
      && (!lazy && factory(0).Returned? ==>
            && r.Returned? && fresh(r.value) && r.value.Valid() && r.value.factory == factory
            && r.value.singleton == Some(factory(0).value) && r.value.factoryCalls == 1)
  {
    var lazy := if options.Some? then options.value.lazy.GetOr(true) else true;
    if lazy {
      var getter := new Getter.Lazy(factory);
      return Returned(getter);
    }
    var first := factory(0);
    if first.Threw? {
      return Threw(first.error);
    }
    var getter := new Getter.Built(factory, first.value);
    return Returned(getter);
  }

  /**
   * Two getter calls in a row: once the first has returned, the second
   * returns the same value with no further factory call; after a throw, the
   * second call tries the factory again.
   */
  method GetTwice<T>(getter: Getter<T>) returns (first: Outcome<T>, second: Outcome<T>)
    requires getter.Valid()
    modifies getter
    ensures getter.Valid()
    ensures first.Returned? ==>
      && second == first
      && getter.factoryCalls == old(getter.factoryCalls) + (if old(getter.singleton).None? then 1 else 0)
    ensures first.Threw? ==>
      && old(getter.singleton).None? && first == getter.factory(old(getter.factoryCalls))
      && second == getter.factory(old(getter.factoryCalls) + 1)
      && getter.factoryCalls == old(getter.factoryCalls) + 2
  {
    first := getter.Get();
    second := getter.Get();
  }

  /** A factory that returns null is still called only once: null is a stored value, not the sentinel. */
  method NullIsCached() returns (first: Outcome<Nullish<int>>, second: Outcome<Nullish<int>>, calls: nat)
    ensures first == Returned(Null) && second == Returned(Null) && calls == 1
  {
    var created := FromFactory((n: nat) => Returned(Null), None);
    var getter := created.value;
    first := getter.Get();
    second := getter.Get();
    calls := getter.factoryCalls;
  }

  /**
   * A factory that throws on its first call and then succeeds: the first get
   * throws, the second retries and stores the value, and the third is served
   * from the cache, so the factory ran twice.
   */
  method RetryAfterThrow() returns (first: Outcome<int>, second: Outcome<int>, third: Outcome<int>, calls: nat)
    ensures first.Threw? && second == Returned(100) && third == Returned(100) && calls == 2
  {
    var created := FromFactory((n: nat) => if n == 0 then Threw("not ready") else Returned(100), None);
    var getter := created.value;
    first := getter.Get();
    second := getter.Get();
    third := getter.Get();
    calls := getter.factoryCalls;
  }

  /** An eager getter over a throwing factory is never created: `fromFactory` throws. */
  method EagerThrows() returns (r: Outcome<Getter<int>>)
    ensures r == Threw("not ready")
  {
    r := FromFactory((n: nat) => Threw("not ready"), Some(FromFactoryOptions(Some(false))));
  }
}
