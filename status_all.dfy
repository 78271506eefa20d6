/** `all` and `allRecord`: collapse many statuses into one, stopping at the first error. */
module StatusAll {
  import opened Status

  /** Every entry of `list` is OK. */
  ghost predicate AllOk<T, E>(list: seq<StatusOr<T, E>>) {
    forall i :: 0 <= i < |list| ==> IsOk(list[i])
  }

  /** `k` is the position of the first error in `list`. */
  ghost predicate IsFirstError<T, E>(list: seq<StatusOr<T, E>>, k: int) {
    0 <= k < |list| && !IsOk(list[k]) && forall j :: 0 <= j < k ==> IsOk(list[j])
  }

  /**
   * The meaning of `all`: OK with the unwrapped values, in order, when every
   * entry is OK, and otherwise the first error.
   */
  function AllOf<T, E>(list: seq<StatusOr<T, E>>): (r: StatusOr<seq<T>, E>)
    ensures IsOk(r) <==> AllOk(list)
    ensures IsOk(r) ==> |r.value| == |list| && forall i :: 0 <= i < |list| ==> r.value[i] == list[i].value
    ensures !IsOk(r) ==> exists k :: IsFirstError(list, k) && r == list[k].Propagate()
    decreases |list|
  {
    if list == [] then Ok([])
    else if !IsOk(list[0]) then list[0].Propagate()
    else
      var rest := AllOf(list[1..]);
      if IsOk(rest) then
        Ok([list[0].value] + rest.value)
      else
        FirstErrorOfTail(list, rest);
        rest
  }

  /** A first error of the tail, behind an OK head, is a first error of the whole list. */
  lemma FirstErrorOfTail<T, E, U>(list: seq<StatusOr<T, E>>, r: StatusOr<U, E>)
    requires |list| > 0 && IsOk(list[0])
    requires exists k :: IsFirstError(list[1..], k) && r == list[1..][k].Propagate()
    ensures exists k :: IsFirstError(list, k) && r == list[k].Propagate()
  {
    var k :| IsFirstError(list[1..], k) && r == list[1..][k].Propagate();
    assert IsFirstError(list, k + 1);
  }

  /** The first error of a list is unique. */
  lemma FirstErrorUnique<T, E>(list: seq<StatusOr<T, E>>, k: int, k': int)
    requires IsFirstError(list, k) && IsFirstError(list, k')
    ensures k == k'
  {
  }

  /** `all`, as the source writes it: one pass that returns at the first error. */
  method All<T, E>(list: seq<StatusOr<T, E>>) returns (r: StatusOr<seq<T>, E>)
    ensures r == AllOf(list)
  {
    var resultList: seq<T> := [];
    for i := 0 to |list|
      invariant |resultList| == i
      invariant forall j :: 0 <= j < i ==> IsOk(list[j]) && resultList[j] == list[j].value
    {
      if !IsOk(list[i]) {
        r := list[i].Propagate();
        assert IsFirstError(list, i);
        ghost var expected := AllOf(list);
        ghost var k :| IsFirstError(list, k) && expected == list[k].Propagate();
        FirstErrorUnique(list, i, k);
        return;
      }
      resultList := resultList + [list[i].value];
    }
    r := FromValue(resultList);
    assert AllOk(list);
    assert AllOf(list).value == resultList;
  }

  /** `k` is the first key, in entry order, whose status is an error. */
  ghost predicate IsFirstErrorKey<K, T, E>(record: map<K, StatusOr<T, E>>, order: seq<K>, k: int)
    requires forall i :: 0 <= i < |order| ==> order[i] in record
  {
    0 <= k < |order| && !IsOk(record[order[k]]) && forall j :: 0 <= j < k ==> IsOk(record[order[j]])
  }

  /** `order` lists the keys of `m` once each: the order `Object.entries` yields them in. */
  ghost predicate IsEntryOrder<K, V>(m: map<K, V>, order: seq<K>) {
    && (forall i :: 0 <= i < |order| ==> order[i] in m)
    && (forall k :: k in m ==> k in order)
    && (forall i, j :: 0 <= i < j < |order| ==> order[i] != order[j])
  }

  /**
   * `allRecord`: OK with the same keys and the unwrapped values when every
   * entry is OK, otherwise the first error in entry order.
   */
  method AllRecord<K, T, E>(record: map<K, StatusOr<T, E>>, order: seq<K>) returns (r: StatusOr<map<K, T>, E>)
    requires IsEntryOrder(record, order)
    ensures IsOk(r) <==> forall k :: k in record ==> IsOk(record[k])
    ensures IsOk(r) ==> r.value.Keys == record.Keys && forall k :: k in record ==> r.value[k] == record[k].value
    ensures !IsOk(r) ==> exists k :: IsFirstErrorKey(record, order, k) && r == record[order[k]].Propagate()
  {
    var resultRecord: map<K, T> := map[];
    for i := 0 to |order|
      invariant resultRecord.Keys == set j | 0 <= j < i :: order[j]
      invariant forall j :: 0 <= j < i ==> IsOk(record[order[j]]) && resultRecord[order[j]] == record[order[j]].value
    {
      var key := order[i];
      var statusOr := record[key];
      if !IsOk(statusOr) {
        assert IsFirstErrorKey(record, order, i);
        return statusOr.Propagate();
      }
      resultRecord := resultRecord[key := statusOr.value];
    }
    assert forall k :: k in record ==> exists j :: 0 <= j < |order| && order[j] == k;
    r := FromValue(resultRecord);
  }
}
