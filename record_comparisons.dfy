/**
 * `compareEntries`: the shallow difference between two records.
 *
 * The source builds each part with `toRecord` over keys taken from a set, so
 * no key repeats; its `toRecord` still rejects a key named like an
 * `Object.prototype` property, and `throwIfError` then throws. The model
 * states the intended comparison, with the parts written directly as maps. Values are compared with `!==`, modelled as
 * inequality of values.
 */
module RecordComparisons {
  datatype Modification<V> = Modification(from: V, to: V)

  datatype ComparisonResult<V> = ComparisonResult(
    added: map<string, V>,
    deleted: map<string, V>,
    modified: map<string, Modification<V>>)

  function CompareEntries<V(==)>(from: map<string, V>, to: map<string, V>): (r: ComparisonResult<V>)
    ensures forall k :: k in r.added <==> k in to && k !in from
    ensures forall k :: k in r.added ==> r.added[k] == to[k]
    ensures forall k :: k in r.deleted <==> k in from && k !in to
    ensures forall k :: k in r.deleted ==> r.deleted[k] == from[k]
    ensures forall k :: k in r.modified <==> k in from && k in to && from[k] != to[k]
    ensures forall k :: k in r.modified ==> r.modified[k] == Modification(from[k], to[k])
  {
    var addedKeys := to.Keys - from.Keys;
    var deletedKeys := from.Keys - to.Keys;
    var commonKeys := from.Keys * to.Keys;
    ComparisonResult(
      map key | key in addedKeys :: to[key],
      map key | key in deletedKeys :: from[key],
      map key | key in commonKeys && to[key] != from[key] :: Modification(from[key], to[key]))
  }

  /** No key is in two parts, and a common key with an unchanged value is in none. */
  lemma PartsAreDisjoint<V>(from: map<string, V>, to: map<string, V>)
    ensures
      var r := CompareEntries(from, to);
      && r.added.Keys !! r.deleted.Keys
      && r.added.Keys !! r.modified.Keys
      && r.deleted.Keys !! r.modified.Keys
      && forall k :: k in from && k in to && from[k] == to[k] ==>
           k !in r.added && k !in r.deleted && k !in r.modified
  {
  }

  /** The record `to` rebuilt from `from` and the comparison. */
  function Patch<V>(from: map<string, V>, c: ComparisonResult<V>): (r: map<string, V>)
  {
    map k | k in (from.Keys - c.deleted.Keys) + c.added.Keys ::
      if k in c.added then c.added[k]
      else if k in c.modified then c.modified[k].to
      else from[k]
  }

  /** Applying the comparison to `from` gives `to` back, so it loses nothing. */
  lemma PatchRestoresTo<V>(from: map<string, V>, to: map<string, V>)
    ensures Patch(from, CompareEntries(from, to)) == to
  {
    var c := CompareEntries(from, to);
    var p := Patch(from, c);
    assert p.Keys == to.Keys;
    forall k | k in to
      ensures p[k] == to[k]
    {
      if k !in from {
        assert k in c.added;
      } else if from[k] != to[k] {
        assert k in c.modified;
      }
    }
  }

  /** A record compared with itself has no differences. */
  lemma CompareWithItself<V>(record: map<string, V>)
    ensures CompareEntries(record, record) == ComparisonResult(map[], map[], map[])
  {
    var r := CompareEntries(record, record);
    assert r.added.Keys == {} && r.deleted.Keys == {} && r.modified.Keys == {};
  }
}
