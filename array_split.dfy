/** `split`: a filter that returns both what it keeps and what it drops. */
module ArraySplit {
  import opened Seqs

  method Split<T>(values: seq<T>, filter: T -> bool) returns (included: seq<T>, excluded: seq<T>)
    ensures included == Filter(values, filter)
    ensures excluded == Filter(values, x => !filter(x))
    ensures |included| + |excluded| == |values|
    ensures multiset(included) + multiset(excluded) == multiset(values)
  {
    included, excluded := [], [];
    for i := 0 to |values|
      invariant included == Filter(values[..i], filter)
      invariant excluded == Filter(values[..i], x => !filter(x))
    {
      assert values[..i + 1][..i] == values[..i];
      if filter(values[i]) {
        included := included + [values[i]];
      } else {
        excluded := excluded + [values[i]];
      }
    }
    assert values[..|values|] == values;
    FilterComplementLength(values, filter);
    FilterComplementMultiset(values, filter);
  }
}
