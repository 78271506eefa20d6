/** `mapValues`: a record with every value replaced by `mapper(value, key)`. */
module RecordMappings {
  function MapValues<K, V, R>(record: map<K, V>, mapper: (V, K) -> R): (r: map<K, R>)
    ensures r.Keys == record.Keys && |r| == |record|
    ensures forall k :: k in r ==> r[k] == mapper(record[k], k)
  {
    map k | k in record :: mapper(record[k], k)
  }

  /** Mapping twice is mapping once with the composed mapper. */
  lemma MapValuesCompose<K, V, R, S>(record: map<K, V>, f: (V, K) -> R, g: (R, K) -> S)
    ensures MapValues(MapValues(record, f), g) == MapValues(record, (v: V, k: K) => g(f(v, k), k))
  {
  }

  /** The mapper that returns each value unchanged gives the record back. */
  lemma MapValuesIdentity<K, V>(record: map<K, V>)
    ensures MapValues(record, (v: V, k: K) => v) == record
  {
  }

  /** An empty record maps to an empty record. */
  lemma MapValuesEmpty<K, V, R>(mapper: (V, K) -> R)
    ensures MapValues(map[], mapper) == map[]
  {
  }
}
