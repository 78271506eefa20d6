/** `moveAfter`: a copy of an array with one element moved behind another. */
module ArrayMoveAfter {
  import opened JsValues

  /** `s` without its element at `i`. */
  function RemoveAt<T>(s: seq<T>, i: int): (r: seq<T>)
    requires 0 <= i < |s|
    ensures |r| == |s| - 1
    ensures forall j :: 0 <= j < i ==> r[j] == s[j]
    ensures forall j :: i <= j < |r| ==> r[j] == s[j + 1]
  {
    s[..i] + s[i + 1..]
  }

  /**
   * Where the target lands: first when `after` is null or negative; otherwise
   * `after` is clamped to the last index, and the target lands at `after` when
   * it started at or before it and at `after + 1` when it started behind it.
   */
  function Destination(length: nat, target: int, after: Option<int>): (p: int)
    requires 0 <= target < length
    ensures 0 <= p < length
  {
    if after.None? || after.value < 0 then 0
    else
      var clamped := if after.value > length - 1 then length - 1 else after.value;
      if target <= clamped then clamped else clamped + 1
  }

  function MoveAfter<T>(values: seq<T>, target: int, after: Option<int>): (r: seq<T>)
    ensures |r| == |values|
    ensures !(0 <= target < |values|) ==> r == values
    ensures 0 <= target < |values| ==>
      var p := Destination(|values|, target, after);
      r[p] == values[target] && RemoveAt(r, p) == RemoveAt(values, target)
  {
    if target >= |values| || target < 0 then values
    else
      var after := if after.Some? && after.value < 0 then None else after;
      var after := if after.Some? && after.value > |values| - 1 then Some(|values| - 1) else after;
      if after.None? then
        [values[target]] + values[..target] + values[target + 1..]
      else
        var valuesWithoutTarget := values[..target] + values[target + 1..];
        var after := if target <= after.value then after.value - 1 else after.value;
        valuesWithoutTarget[..after + 1] + [values[target]] + valuesWithoutTarget[after + 1..]
  }

  lemma MultisetOfRemoveAt<T>(s: seq<T>, i: int)
    requires 0 <= i < |s|
    ensures multiset(s) == multiset(RemoveAt(s, i)) + multiset{s[i]}
  {
    assert s == s[..i] + [s[i]] + s[i + 1..];
  }

  /** Moving an element never adds, loses or duplicates one. */
  lemma MoveAfterIsPermutation<T>(values: seq<T>, target: int, after: Option<int>)
    ensures multiset(MoveAfter(values, target, after)) == multiset(values)
  {
    if 0 <= target < |values| {
      var r := MoveAfter(values, target, after);
      MultisetOfRemoveAt(r, Destination(|values|, target, after));
      MultisetOfRemoveAt(values, target);
    }
  }

  /** A null or negative `after` moves the target to the front. */
  lemma MoveToFront<T>(values: seq<T>, target: int, after: Option<int>)
    requires 0 <= target < |values|
    requires after.None? || after.value < 0
    ensures MoveAfter(values, target, after) == [values[target]] + RemoveAt(values, target)
  {
    var r := MoveAfter(values, target, after);
    assert r == [r[0]] + RemoveAt(r, 0);
  }

  /** An `after` at or past the last index moves the target to the back. */
  lemma MoveToBack<T>(values: seq<T>, target: int, after: int)
    requires 0 <= target < |values| && after >= |values| - 1
    ensures MoveAfter(values, target, Some(after)) == RemoveAt(values, target) + [values[target]]
  {
    var r := MoveAfter(values, target, Some(after));
    assert r == RemoveAt(r, |values| - 1) + [r[|values| - 1]];
  }

  /** Moving an element after itself gives the input back. */
  lemma MoveAfterItself<T>(values: seq<T>, target: int)
    requires 0 <= target < |values|
    ensures MoveAfter(values, target, Some(target)) == values
  {
    var r := MoveAfter(values, target, Some(target));
    forall j | 0 <= j < |values| ensures r[j] == values[j] {
      if j < target {
        assert r[j] == RemoveAt(r, target)[j];
      } else if j > target {
        assert r[j] == RemoveAt(r, target)[j - 1];
      }
    }
  }
}
