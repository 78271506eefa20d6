/** `filterOk` and `split` over lists of statuses. */
module StatusFilter {
  import opened Status
  import opened Seqs
  import StatusAll

  /** The values of the OK entries of `list`, in input order. */
  function OkValues<T, E>(list: seq<StatusOr<T, E>>): (r: seq<T>)
    ensures |r| <= |list|
    decreases |list|
  {
    if list == [] then []
    else
      var init := OkValues(list[..|list| - 1]);
      if IsOk(list[|list| - 1]) then init + [list[|list| - 1].value] else init
  }

  /** The error entries of `list`, in input order. */
  function ErrorEntries<T, E>(list: seq<StatusOr<T, E>>): (r: seq<StatusOr<T, E>>)
    ensures forall i :: 0 <= i < |r| ==> !IsOk(r[i])
  {
    Filter(list, (s: StatusOr<T, E>) => !IsOk(s))
  }

  /** Every OK entry contributes one value and every error one entry. */
  lemma {:induction false} OkValuesAndErrorsPartition<T, E>(list: seq<StatusOr<T, E>>)
    ensures |OkValues(list)| + |ErrorEntries(list)| == |list|
    decreases |list|
  {
    if list != [] {
      OkValuesAndErrorsPartition(list[..|list| - 1]);
    }
  }

  /** The OK values are exactly the values of the entries the filter `isOk` keeps. */
  lemma {:induction false} OkValuesAreFilteredValues<T, E>(list: seq<StatusOr<T, E>>)
    ensures |OkValues(list)| == |Filter(list, (s: StatusOr<T, E>) => IsOk(s))|
    ensures forall i :: 0 <= i < |OkValues(list)| ==>
      OkValues(list)[i] == Filter(list, (s: StatusOr<T, E>) => IsOk(s))[i].value
    decreases |list|
  {
    if list != [] {
      OkValuesAreFilteredValues(list[..|list| - 1]);
    }
  }

  /** On a list without errors `filterOk` agrees with the value of `all`. */
  lemma {:induction false} OkValuesOfAllOk<T, E>(list: seq<StatusOr<T, E>>)
    requires StatusAll.AllOk(list)
    ensures OkValues(list) == StatusAll.AllOf(list).value
    decreases |list|
  {
    if list != [] {
      OkValuesOfAllOk(list[..|list| - 1]);
      var r := OkValues(list);
      var expected := StatusAll.AllOf(list).value;
      assert |r| == |list| by { OkValuesAndErrorsPartition(list); NoErrorsWhenAllOk(list); }
      forall i | 0 <= i < |list| ensures r[i] == expected[i] {
        if i < |list| - 1 {
          assert StatusAll.AllOf(list[..|list| - 1]).value[i] == list[i].value;
        }
      }
    }
  }

  lemma {:induction false} NoErrorsWhenAllOk<T, E>(list: seq<StatusOr<T, E>>)
    requires StatusAll.AllOk(list)
    ensures ErrorEntries(list) == []
    decreases |list|
  {
    if list != [] {
      NoErrorsWhenAllOk(list[..|list| - 1]);
    }
  }

  /** `filterOk` without its console warnings: the OK values in input order. */
  method FilterOk<T, E>(maybeValues: seq<StatusOr<T, E>>) returns (values: seq<T>)
    ensures values == OkValues(maybeValues)
  {
    values := [];
    for i := 0 to |maybeValues|
      invariant values == OkValues(maybeValues[..i])
    {
      assert maybeValues[..i + 1][..i] == maybeValues[..i];
      if IsOk(maybeValues[i]) {
        values := values + [maybeValues[i].value];
      }
    }
    assert maybeValues[..|maybeValues|] == maybeValues;
  }

  /** `split`: the OK values and the error entries, each in input order. */
  method Split<T, E>(maybeValues: seq<StatusOr<T, E>>) returns (values: seq<T>, errors: seq<StatusOr<T, E>>)
    ensures values == OkValues(maybeValues)
    ensures errors == ErrorEntries(maybeValues)
    ensures |values| + |errors| == |maybeValues|
  {
    values, errors := [], [];
    for i := 0 to |maybeValues|
      invariant values == OkValues(maybeValues[..i])
      invariant errors == ErrorEntries(maybeValues[..i])
    {
      assert maybeValues[..i + 1][..i] == maybeValues[..i];
      if IsOk(maybeValues[i]) {
        values := values + [maybeValues[i].value];
      } else {
        errors := errors + [maybeValues[i]];
      }
    }
    assert maybeValues[..|maybeValues|] == maybeValues;
    OkValuesAndErrorsPartition(maybeValues);
  }
}
