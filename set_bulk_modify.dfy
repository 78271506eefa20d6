/** `bulkModify`: add or delete many values of a caller's set in place. */
module SetBulkModify {
  import opened JsValues

  /** A JavaScript `Set` object: callers share it, and `bulkModify` changes it. */
  class MutableSet<T(==)> {
    var elements: set<T>

    constructor(elements: set<T>)
      ensures this.elements == elements
    {
      this.elements := elements;
    }
  }

  /** The set after applying `entries` in order: add on true, delete on false. */
  function Applied<T(==)>(s: set<T>, entries: seq<(T, bool)>): (r: set<T>)
    decreases |entries|
  {
    if entries == [] then s
    else
      var prev := Applied(s, entries[..|entries| - 1]);
      var (value, condition) := entries[|entries| - 1];
      if condition then prev + {value} else prev - {value}
  }

  /** The condition of the last entry for `x`, if any entry names it. */
  function LastCondition<T(==)>(entries: seq<(T, bool)>, x: T): Option<bool>
    decreases |entries|
  {
    if entries == [] then None
    else
      var n := |entries| - 1;
      if entries[n].0 == x then Some(entries[n].1) else LastCondition(entries[..n], x)
  }

  /** `LastCondition` finds the entry for `x` that no later entry overrides. */
  lemma {:induction false} LastConditionIsLast<T>(entries: seq<(T, bool)>, x: T)
    ensures LastCondition(entries, x).None? <==> forall i :: 0 <= i < |entries| ==> entries[i].0 != x
    ensures LastCondition(entries, x).Some? ==> exists i ::
      && 0 <= i < |entries|
      && entries[i] == (x, LastCondition(entries, x).value)
      && forall j :: i < j < |entries| ==> entries[j].0 != x
    decreases |entries|
  {
    if entries != [] {
      var n := |entries| - 1;
      if entries[n].0 != x {
        LastConditionIsLast(entries[..n], x);
        assert forall i :: 0 <= i < n ==> entries[..n][i] == entries[i];
        if LastCondition(entries, x).Some? {
          var i :| 0 <= i < n && entries[..n][i] == (x, LastCondition(entries, x).value)
            && forall j :: i < j < n ==> entries[..n][j].0 != x;
          assert entries[i] == (x, LastCondition(entries, x).value);
        }
      }
    }
  }

  /**
   * A value is in the result exactly when its last entry says true; a value
   * that no entry names keeps its membership.
   */
  lemma {:induction false} AppliedMembership<T>(s: set<T>, entries: seq<(T, bool)>, x: T)
    ensures x in Applied(s, entries) <==>
      match LastCondition(entries, x)
      case None => x in s
      case Some(condition) => condition
    decreases |entries|
  {
    if entries != [] {
      AppliedMembership(s, entries[..|entries| - 1], x);
    }
  }

  method BulkModify<T(==)>(s: MutableSet<T>, entries: seq<(T, bool)>)
    modifies s
    ensures s.elements == Applied(old(s.elements), entries)
  {
    ghost var initial := s.elements;
    for i := 0 to |entries|
      invariant s.elements == Applied(initial, entries[..i])
    {
      var (value, condition) := entries[i];
      assert entries[..i + 1][..i] == entries[..i];
      if condition {
        s.elements := s.elements + {value};
      } else {
        s.elements := s.elements - {value};
      }
    }
    assert entries[..|entries|] == entries;
  }
}
