/**
 * `partition`: group an array's values by a discriminator's key, stably.
 *
 * A JavaScript `Map` remembers the order its keys were first set in; the
 * model returns that order beside the map as `keyOrder`.
 */
module ArrayPartition {
  import opened Seqs
  import opened ArrayToMap

  /** The values whose discriminator key is `k`, in input order. */
  function Group<T, K(==)>(values: seq<T>, discriminator: (T, nat) -> K, k: K): (g: seq<T>)
    ensures |g| <= |values|
    decreases |values|
  {
    if values == [] then []
    else
      var n := |values| - 1;
      Group(values[..n], discriminator, k) + (if discriminator(values[n], n) == k then [values[n]] else [])
  }

  /** The distinct elements of `s`, each at the place it first occurs. */
  function FirstOccurrences<K(==)>(s: seq<K>): (r: seq<K>)
    ensures |r| <= |s|
    decreases |s|
  {
    if s == [] then []
    else
      var n := |s| - 1;
      FirstOccurrences(s[..n]) + (if s[n] in s[..n] then [] else [s[n]])
  }

  /** Growing the input by one value adds it to its own group only. */
  lemma GroupSnoc<T, K>(values: seq<T>, discriminator: (T, nat) -> K, i: nat, k: K)
    requires i < |values|
    ensures Group(values[..i + 1], discriminator, k) ==
      Group(values[..i], discriminator, k) + (if discriminator(values[i], i) == k then [values[i]] else [])
  {
    assert values[..i + 1][..i] == values[..i];
  }

  lemma FirstOccurrencesSnoc<K>(s: seq<K>, i: nat)
    requires i < |s|
    ensures FirstOccurrences(s[..i + 1]) == FirstOccurrences(s[..i]) + (if s[i] in s[..i] then [] else [s[i]])
  {
    assert s[..i + 1][..i] == s[..i];
  }

  /** A key nobody produced has an empty group. */
  lemma {:induction false} GroupOfAbsentKey<T, K>(values: seq<T>, discriminator: (T, nat) -> K, k: K)
    requires k !in KeysOf(values, discriminator)
    ensures Group(values, discriminator, k) == []
    decreases |values|
  {
    if values != [] {
      var n := |values| - 1;
      assert KeysOf(values[..n], discriminator) == KeysOf(values, discriminator)[..n];
      GroupOfAbsentKey(values[..n], discriminator, k);
    }
  }

  /** Every produced key has a non-empty group. */
  lemma {:induction false} GroupOfPresentKey<T, K>(values: seq<T>, discriminator: (T, nat) -> K, i: nat)
    requires i < |values|
    ensures values[i] in Group(values, discriminator, discriminator(values[i], i))
    ensures |Group(values, discriminator, discriminator(values[i], i))| > 0
    decreases |values|
  {
    var n := |values| - 1;
    if i < n {
      assert values[..n][i] == values[i];
      GroupOfPresentKey(values[..n], discriminator, i);
    }
  }

  /** Each group keeps the input's relative order. */
  lemma {:induction false} GroupIsSubsequence<T, K>(values: seq<T>, discriminator: (T, nat) -> K, k: K)
    ensures IsSubsequence(Group(values, discriminator, k), values)
    decreases |values|
  {
    if values != [] {
      var n := |values| - 1;
      GroupIsSubsequence(values[..n], discriminator, k);
      assert values[..n] + [values[n]] == values;
      if discriminator(values[n], n) == k {
        assert Group(values, discriminator, k)[..|Group(values, discriminator, k)| - 1] == Group(values[..n], discriminator, k);
      } else {
        assert Group(values, discriminator, k) == Group(values[..n], discriminator, k);
        SubsequenceOfPrefix(Group(values[..n], discriminator, k), values[..n], values[n]);
      }
    }
  }

  /** The first-occurrence list holds exactly the elements of `s`. */
  lemma {:induction false} FirstOccurrencesMembers<K>(s: seq<K>)
    ensures forall x :: x in FirstOccurrences(s) <==> x in s
    decreases |s|
  {
    if s != [] {
      var n := |s| - 1;
      FirstOccurrencesMembers(s[..n]);
      assert s == s[..n] + [s[n]];
    }
  }

  lemma FirstOccurrencesOmitsAbsent<K>(s: seq<K>, x: K)
    requires x !in s
    ensures x !in FirstOccurrences(s)
  {
    FirstOccurrencesMembers(s);
  }

  /** ... and holds each of them once. */
  lemma {:induction false} FirstOccurrencesDistinct<K>(s: seq<K>)
    ensures Distinct(FirstOccurrences(s))
    decreases |s|
  {
    if s != [] {
      var n := |s| - 1;
      FirstOccurrencesDistinct(s[..n]);
      FirstOccurrencesMembers(s[..n]);
    }
  }

  /** The total size of the groups named in `keys`. */
  function GroupSizes<T, K(==)>(values: seq<T>, discriminator: (T, nat) -> K, keys: seq<K>): (total: nat)
    decreases |keys|
  {
    if keys == [] then 0
    else GroupSizes(values, discriminator, keys[..|keys| - 1]) + |Group(values, discriminator, keys[|keys| - 1])|
  }

  /** Adding one value to the input adds one to the sizes of the distinct keys that include its key. */
  lemma {:induction false} GroupSizesSnoc<T, K>(values: seq<T>, discriminator: (T, nat) -> K, i: nat, keys: seq<K>)
    requires i < |values| && Distinct(keys)
    ensures GroupSizes(values[..i + 1], discriminator, keys) ==
      GroupSizes(values[..i], discriminator, keys) + (if discriminator(values[i], i) in keys then 1 else 0)
    decreases |keys|
  {
    if keys != [] {
      var m := |keys| - 1;
      assert Distinct(keys[..m]);
      GroupSizesSnoc(values, discriminator, i, keys[..m]);
      GroupSnoc(values, discriminator, i, keys[m]);
      assert keys == keys[..m] + [keys[m]];
      if discriminator(values[i], i) == keys[m] {
        assert discriminator(values[i], i) !in keys[..m];
      }
    }
  }

  /** The groups of all produced keys together hold every input value once. */
  lemma {:induction false} GroupSizesSum<T, K>(values: seq<T>, discriminator: (T, nat) -> K)
    ensures GroupSizes(values, discriminator, FirstOccurrences(KeysOf(values, discriminator))) == |values|
    decreases |values|
  {
    if values != [] {
      var n := |values| - 1;
      var ks := KeysOf(values, discriminator);
      var init := values[..n];
      assert KeysOf(init, discriminator) == ks[..n];
      GroupSizesSum(init, discriminator);
      var prev := FirstOccurrences(ks[..n]);
      assert GroupSizes(init, discriminator, prev) == n;
      FirstOccurrencesDistinct(ks[..n]);
      FirstOccurrencesSnoc(ks, n);
      assert ks[..n + 1] == ks;
      assert values[..n + 1] == values;
      GroupSizesSnoc(values, discriminator, n, prev);
      if ks[n] in ks[..n] {
        FirstOccurrencesMembers(ks[..n]);
        assert FirstOccurrences(ks) == prev;
        assert GroupSizes(values, discriminator, prev) == n + 1;
      } else {
        FirstOccurrencesOmitsAbsent(ks[..n], ks[n]);
        assert GroupSizes(values, discriminator, prev) == n;
        GroupOfAbsentKey(init, discriminator, ks[n]);
        GroupSnoc(values, discriminator, n, ks[n]);
        assert |Group(values, discriminator, ks[n])| == 1;
        var all := prev + [ks[n]];
        assert FirstOccurrences(ks) == all;
        assert all[..|all| - 1] == prev;
        assert GroupSizes(values, discriminator, all) == n + 1;
      }
    }
  }

  lemma ElementsOfPrefix<K>(s: seq<K>, i: nat)
    requires i < |s|
    ensures Elements(s[..i + 1]) == Elements(s[..i]) + {s[i]}
  {
    assert s[..i + 1][..i] == s[..i];
  }

  lemma ElementsMembers<K>(s: seq<K>)
    ensures forall x :: x in Elements(s) <==> x in s
  {
  }

  /** Every group recorded in `partitions` is the group of the first `i` values. */
  ghost predicate HoldsGroups<T, K>(values: seq<T>, discriminator: (T, nat) -> K, i: nat, partitions: map<K, seq<T>>)
    requires i <= |values|
  {
    forall k :: k in partitions ==> partitions[k] == Group(values[..i], discriminator, k)
  }

  /** `partitions` and `keyOrder` are what `partition` has built from the first `i` values. */
  ghost predicate PartitionedUpTo<T, K>(
    values: seq<T>, discriminator: (T, nat) -> K, i: nat, partitions: map<K, seq<T>>, keyOrder: seq<K>)
    requires i <= |values|
  {
    var ks := KeysOf(values, discriminator);
    && partitions.Keys == Elements(ks[..i])
    && HoldsGroups(values, discriminator, i, partitions)
    && keyOrder == FirstOccurrences(ks[..i])
  }

  /** One step of the loop for a key not seen before: a new group, at the end of the order. */
  lemma PartitionStepNew<T, K>(
    values: seq<T>, discriminator: (T, nat) -> K, i: nat, partitions: map<K, seq<T>>, keyOrder: seq<K>)
    requires i < |values| && PartitionedUpTo(values, discriminator, i, partitions, keyOrder)
    requires discriminator(values[i], i) !in partitions
    ensures PartitionedUpTo(values, discriminator, i + 1,
      partitions[discriminator(values[i], i) := [values[i]]], keyOrder + [discriminator(values[i], i)])
  {
    var ks := KeysOf(values, discriminator);
    var key := discriminator(values[i], i);
    ElementsOfPrefix(ks, i);
    FirstOccurrencesSnoc(ks, i);
    ElementsMembers(ks[..i]);
    forall k | k in partitions {
      GroupSnoc(values, discriminator, i, k);
    }
    GroupSnoc(values, discriminator, i, key);
    assert KeysOf(values[..i], discriminator) == ks[..i];
    GroupOfAbsentKey(values[..i], discriminator, key);
  }

  /** One step of the loop for a key seen before: its group grows, the order is kept. */
  lemma PartitionStepExisting<T, K>(
    values: seq<T>, discriminator: (T, nat) -> K, i: nat, partitions: map<K, seq<T>>, keyOrder: seq<K>)
    requires i < |values| && PartitionedUpTo(values, discriminator, i, partitions, keyOrder)
    requires discriminator(values[i], i) in partitions
    ensures PartitionedUpTo(values, discriminator, i + 1,
      partitions[discriminator(values[i], i) := partitions[discriminator(values[i], i)] + [values[i]]], keyOrder)
  {
    var ks := KeysOf(values, discriminator);
    var key := discriminator(values[i], i);
    ElementsOfPrefix(ks, i);
    FirstOccurrencesSnoc(ks, i);
    ElementsMembers(ks[..i]);
    forall k | k in partitions {
      GroupSnoc(values, discriminator, i, k);
    }
  }

  /** Once every value is consumed, the groups and the order are those of the whole input. */
  lemma PartitionDone<T, K>(values: seq<T>, discriminator: (T, nat) -> K, partitions: map<K, seq<T>>, keyOrder: seq<K>)
    requires PartitionedUpTo(values, discriminator, |values|, partitions, keyOrder)
    ensures forall k :: k in partitions <==> k in KeysOf(values, discriminator)
    ensures forall k :: k in partitions ==> partitions[k] == Group(values, discriminator, k)
    ensures keyOrder == FirstOccurrences(KeysOf(values, discriminator))
  {
    var ks := KeysOf(values, discriminator);
    assert values[..|values|] == values && ks[..|values|] == ks;
    ElementsMembers(ks);
  }

  /**
   * `partition`: the map from each produced key to its group, and the order
   * in which the keys were first set.
   */
  method Partition<T, K(==)>(values: seq<T>, discriminator: (T, nat) -> K)
    returns (partitions: map<K, seq<T>>, keyOrder: seq<K>)
    ensures forall k :: k in partitions <==> k in KeysOf(values, discriminator)
    ensures forall k :: k in partitions ==> partitions[k] == Group(values, discriminator, k)
    ensures keyOrder == FirstOccurrences(KeysOf(values, discriminator))
  {
    partitions := map[];
    keyOrder := [];
    for i := 0 to |values|
      invariant PartitionedUpTo(values, discriminator, i, partitions, keyOrder)
    {
      var value := values[i];
      var discrimination := discriminator(value, i);
      if discrimination !in partitions {
        PartitionStepNew(values, discriminator, i, partitions, keyOrder);
        partitions := partitions[discrimination := [value]];
        keyOrder := keyOrder + [discrimination];
      } else {
        PartitionStepExisting(values, discriminator, i, partitions, keyOrder);
        partitions := partitions[discrimination := partitions[discrimination] + [value]];
      }
    }
    PartitionDone(values, discriminator, partitions, keyOrder);
  }

  /** `partition` of an empty array: no partitions and no keys. */
  method PartitionOfEmpty<T, K(==)>(discriminator: (T, nat) -> K) returns (partitions: map<K, seq<T>>, keyOrder: seq<K>)
    ensures partitions == map[] && keyOrder == []
  {
    partitions, keyOrder := Partition([], discriminator);
  }
}
