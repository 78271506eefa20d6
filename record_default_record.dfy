/**
 * `createDefaultRecord`: a record whose `get` stores and returns a default for
 * a missing key, like Python's `defaultdict`.
 *
 * The factory may return a different value on each call (a fresh array, say);
 * it is modelled as the sequence of its results, `factory(n)` being the result
 * of its `n`-th call, and the record counts the calls made so far.
 */
module RecordDefaultRecord {
  class DefaultRecord<K(==), V> {
    var contents: map<K, V>
    var factoryCalls: nat
    const factory: nat -> V

    /** `createDefaultRecord(initialValue, defaultValueFactory)`: no factory call yet. */
    constructor(initialValue: map<K, V>, factory: nat -> V)
      ensures contents == initialValue && factoryCalls == 0 && this.factory == factory
    {
      contents := initialValue;
      factoryCalls := 0;
      this.factory := factory;
    }

    /**
     * The `get` trap: a stored value is returned as it is, whatever it is;
     * a missing key gets the next factory result, stored under that key.
     */
    method Get(key: K) returns (value: V)
      modifies this
      ensures old(key in contents) ==>
        value == old(contents[key]) && contents == old(contents) && factoryCalls == old(factoryCalls)
      ensures old(key !in contents) ==>
        && value == factory(old(factoryCalls))
        && contents == old(contents)[key := value]
        && factoryCalls == old(factoryCalls) + 1
      ensures key in contents && contents[key] == value
      ensures forall k :: k in old(contents) ==> k in contents && contents[k] == old(contents[k])
      ensures contents.Keys == old(contents.Keys) + {key}
    {
      if key in contents {
        return contents[key];
      }
      var defaultValue := factory(factoryCalls);
      factoryCalls := factoryCalls + 1;
      contents := contents[key := defaultValue];
      return defaultValue;
    }
  }

  /** A second `get` of a key returns what the first stored and calls no factory. */
  method GetTwice<K(==), V>(r: DefaultRecord<K, V>, key: K) returns (first: V, second: V)
    modifies r
    ensures first == second
    ensures r.factoryCalls <= old(r.factoryCalls) + 1
  {
    first := r.Get(key);
    second := r.Get(key);
  }
}
