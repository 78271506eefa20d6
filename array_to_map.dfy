/** `toMap`: index an array by a key function whose keys must be unique. */
module ArrayToMap {
  import opened JsValues
  import opened Status
  import opened Seqs

  /** The key the key function gives each element, by position. */
  function KeysOf<T, K>(values: seq<T>, keyFunction: (T, nat) -> K): (ks: seq<K>)
    ensures |ks| == |values| && forall i :: 0 <= i < |values| ==> ks[i] == keyFunction(values[i], i)
  {
    seq(|values|, i requires 0 <= i < |values| => keyFunction(values[i], i))
  }

  /** The error text for a repeated key; `keyText` is JavaScript's `String(key)`. */
  function DuplicateKeyMessage(keyText: string): string {
    "Key " + keyText + " found more than once."
  }

  /**
   * The first `i` elements have distinct keys, and `m` maps exactly those keys
   * to their elements' values: the state of `toMap` after `i` steps.
   */
  ghost predicate MappedUpTo<T, K, V>(
    values: seq<T>, keyFunction: (T, nat) -> K, valueFunction: (T, nat) -> V, i: nat, m: map<K, V>)
    requires i <= |values|
  {
    var ks := KeysOf(values, keyFunction);
    && (forall a, b :: 0 <= a < b < i ==> ks[a] != ks[b])
    && m.Keys == Elements(ks[..i])
    && (forall j :: 0 <= j < i ==> ks[j] in m && m[ks[j]] == valueFunction(values[j], j))
  }

  /** A key not seen before is added with its value. */
  lemma MapStep<T, K, V>(
    values: seq<T>, keyFunction: (T, nat) -> K, valueFunction: (T, nat) -> V, i: nat, m: map<K, V>)
    requires i < |values| && MappedUpTo(values, keyFunction, valueFunction, i, m)
    requires keyFunction(values[i], i) !in m
    ensures MappedUpTo(values, keyFunction, valueFunction, i + 1, m[keyFunction(values[i], i) := valueFunction(values[i], i)])
  {
    var ks := KeysOf(values, keyFunction);
    assert ks[..i + 1][..i] == ks[..i];
  }

  /** A key seen before makes position `i` the first repeat. */
  lemma MapRepeat<T, K, V>(
    values: seq<T>, keyFunction: (T, nat) -> K, valueFunction: (T, nat) -> V, i: nat, m: map<K, V>)
    requires i < |values| && MappedUpTo(values, keyFunction, valueFunction, i, m)
    requires keyFunction(values[i], i) in m
    ensures IsFirstDuplicate(KeysOf(values, keyFunction), i)
    ensures !Distinct(KeysOf(values, keyFunction))
  {
    var ks := KeysOf(values, keyFunction);
    var j :| 0 <= j < i && ks[..i][j] == ks[i];
    assert ks[j] == ks[i];
    assert ks[i] in ks[..i];
  }

  /** After the last element every key is distinct and mapped. */
  lemma MapDone<T, K, V>(
    values: seq<T>, keyFunction: (T, nat) -> K, valueFunction: (T, nat) -> V, m: map<K, V>)
    requires MappedUpTo(values, keyFunction, valueFunction, |values|, m)
    ensures Distinct(KeysOf(values, keyFunction))
    ensures m.Keys == Elements(KeysOf(values, keyFunction))
    ensures forall i :: 0 <= i < |values| ==> m[keyFunction(values[i], i)] == valueFunction(values[i], i)
    ensures |m| == |values|
  {
    var ks := KeysOf(values, keyFunction);
    assert ks[..|values|] == ks;
    DistinctCardinality(ks);
  }

  /**
   * `toMap`: an error naming the first repeated key if two elements share a
   * key, and otherwise OK with every element's key mapped to its value.
   */
  method ToMap<T, K(==), V>(
    values: seq<T>,
    keyFunction: (T, nat) -> K,
    valueFunction: (T, nat) -> V,
    keyText: K -> string,
    traceback: string
  ) returns (r: StatusOr<map<K, V>, string>)
    ensures IsOk(r) <==> Distinct(KeysOf(values, keyFunction))
    ensures IsOk(r) ==>
      && r.value.Keys == Elements(KeysOf(values, keyFunction))
      && (forall i :: 0 <= i < |values| ==> r.value[keyFunction(values[i], i)] == valueFunction(values[i], i))
      && |r.value| == |values|
    ensures !IsOk(r) ==> exists j ::
      && IsFirstDuplicate(KeysOf(values, keyFunction), j)
      && r == FromError(DuplicateKeyMessage(keyText(keyFunction(values[j], j))), None, traceback)
  {
    var m: map<K, V> := map[];
    for i := 0 to |values|
      invariant MappedUpTo(values, keyFunction, valueFunction, i, m)
    {
      var key := keyFunction(values[i], i);
      if key in m {
        MapRepeat(values, keyFunction, valueFunction, i, m);
        return FromError(DuplicateKeyMessage(keyText(key)), None, traceback);
      }
      MapStep(values, keyFunction, valueFunction, i, m);
      m := m[key := valueFunction(values[i], i)];
    }
    MapDone(values, keyFunction, valueFunction, m);
    r := FromValue(m);
  }
}
