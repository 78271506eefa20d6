/** `batch` over a synchronous iterable: consecutive runs of at most `maxBatchSize` values. */
module IteratorsBatch {
  /** The batches joined back together. */
  function Flatten<T>(batches: seq<seq<T>>): (r: seq<T>)
    decreases |batches|
  {
    if batches == [] then [] else Flatten(batches[..|batches| - 1]) + batches[|batches| - 1]
  }

  lemma FlattenSnoc<T>(batches: seq<seq<T>>, b: seq<T>)
    ensures Flatten(batches + [b]) == Flatten(batches) + b
  {
    assert (batches + [b])[..|batches|] == batches;
  }

  /** The state of the loop after `i` values: full batches so far, then the open one. */
  ghost predicate BatchedUpTo<T>(values: seq<T>, maxBatchSize: int, i: nat, batches: seq<seq<T>>, currentBatch: seq<T>)
    requires i <= |values|
  {
    && Flatten(batches) + currentBatch == values[..i]
    && (forall j :: 0 <= j < |batches| ==> |batches[j]| == maxBatchSize)
    && (maxBatchSize >= 1 ==> |currentBatch| < maxBatchSize)
    && (maxBatchSize < 1 ==> batches == [])
  }

  lemma BatchStep<T>(values: seq<T>, maxBatchSize: int, i: nat, batches: seq<seq<T>>, currentBatch: seq<T>)
    requires i < |values| && BatchedUpTo(values, maxBatchSize, i, batches, currentBatch)
    ensures |currentBatch + [values[i]]| == maxBatchSize ==>
      BatchedUpTo(values, maxBatchSize, i + 1, batches + [currentBatch + [values[i]]], [])
    ensures |currentBatch + [values[i]]| != maxBatchSize ==>
      BatchedUpTo(values, maxBatchSize, i + 1, batches, currentBatch + [values[i]])
  {
    assert values[..i + 1] == values[..i] + [values[i]];
    FlattenSnoc(batches, currentBatch + [values[i]]);
  }

  /**
   * `sychronousBatch`: the batches join back to the input; each but the last
   * holds exactly `maxBatchSize` values, and the last is non-empty and no
   * larger. A `maxBatchSize` below 1 is never reached by a growing batch, so
   * then every value lands in one batch.
   */
  method SynchronousBatch<T>(values: seq<T>, maxBatchSize: int) returns (batches: seq<seq<T>>)
    ensures Flatten(batches) == values
    ensures forall j :: 0 <= j < |batches| ==> |batches[j]| > 0
    ensures maxBatchSize >= 1 ==>
      && (forall j :: 0 <= j < |batches| - 1 ==> |batches[j]| == maxBatchSize)
      && (forall j :: 0 <= j < |batches| ==> |batches[j]| <= maxBatchSize)
    ensures maxBatchSize < 1 ==> batches == (if values == [] then [] else [values])
    ensures values == [] <==> batches == []
  {
    batches := [];
    var currentBatch: seq<T> := [];
    for i := 0 to |values|
      invariant BatchedUpTo(values, maxBatchSize, i, batches, currentBatch)
    {
      BatchStep(values, maxBatchSize, i, batches, currentBatch);
      currentBatch := currentBatch + [values[i]];
      if |currentBatch| == maxBatchSize {
        batches := batches + [currentBatch];
        currentBatch := [];
      }
    }
    assert values[..|values|] == values;
    if |currentBatch| > 0 {
      FlattenSnoc(batches, currentBatch);
      batches := batches + [currentBatch];
    }
    if batches != [] {
      FlattenNonEmpty(batches);
    }
  }

  /** A last batch with values makes the flattening non-empty. */
  lemma FlattenNonEmpty<T>(batches: seq<seq<T>>)
    requires batches != [] && |batches[|batches| - 1]| > 0
    ensures Flatten(batches) != []
  {
  }
}
