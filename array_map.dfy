/** `map`: transform an array with a fallible transformer, stopping at the first error. */
module ArrayMap {
  import opened Status
  import StatusAll

  /** What `values.map(transformer)` would produce: every element transformed. */
  function TransformAll<In, Out, E>(values: seq<In>, transformer: In -> StatusOr<Out, E>): (r: seq<StatusOr<Out, E>>)
    ensures |r| == |values| && forall i :: 0 <= i < |values| ==> r[i] == transformer(values[i])
  {
    seq(|values|, i requires 0 <= i < |values| => transformer(values[i]))
  }

  /**
   * The result is that of `all(values.map(transformer))`, which the source
   * documents as the slower equivalent; `transformed` counts the calls of the
   * transformer, which stop right after the first error.
   */
  method Map<In, Out, E>(values: seq<In>, transformer: In -> StatusOr<Out, E>)
    returns (r: StatusOr<seq<Out>, E>, ghost transformed: nat)
    ensures r == StatusAll.AllOf(TransformAll(values, transformer))
    ensures IsOk(r) ==> transformed == |values| && |r.value| == |values|
    ensures !IsOk(r) ==> exists k :: StatusAll.IsFirstError(TransformAll(values, transformer), k) && transformed == k + 1
  {
    ghost var all := TransformAll(values, transformer);
    var transformedValues: seq<Out> := [];
    transformed := 0;
    for i := 0 to |values|
      invariant transformed == i
      invariant |transformedValues| == i
      invariant forall j :: 0 <= j < i ==> IsOk(all[j]) && transformedValues[j] == all[j].value
    {
      var maybeTransformedValue := transformer(values[i]);
      transformed := transformed + 1;
      if !IsOk(maybeTransformedValue) {
        r := maybeTransformedValue.Propagate();
        assert StatusAll.IsFirstError(all, i);
        ghost var expected := StatusAll.AllOf(all);
        ghost var k :| StatusAll.IsFirstError(all, k) && expected == all[k].Propagate();
        StatusAll.FirstErrorUnique(all, i, k);
        return;
      }
      transformedValues := transformedValues + [maybeTransformedValue.value];
    }
    r := FromValue(transformedValues);
    assert StatusAll.AllOk(all);
    assert StatusAll.AllOf(all).value == transformedValues;
  }
}
