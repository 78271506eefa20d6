/** `filterNull` and `filterNullLike`. */
module ArrayFilters {
  import opened JsValues
  import opened Seqs

  predicate NotNull<T>(v: Nullish<T>) {
    !v.Null?
  }

  /** The loose `v != null`: neither null nor undefined. */
  predicate NotNullLike<T>(v: Nullish<T>) {
    !v.IsNullLike()
  }

  /** Drops every `null`; `undefined` entries stay, since `!==` tells them apart. */
  function FilterNull<T>(items: seq<Nullish<T>>): (r: seq<Nullish<T>>)
    ensures forall i :: 0 <= i < |r| ==> !r[i].Null?
  {
    Filter(items, NotNull)
  }

  /** The values carried by entries that are all present. */
  function Unwrap<T>(s: seq<Nullish<T>>): (r: seq<T>)
    requires forall i :: 0 <= i < |s| ==> s[i].Present?
    ensures |r| == |s| && forall i :: 0 <= i < |s| ==> s[i] == Present(r[i])
  {
    seq(|s|, i requires 0 <= i < |s| => s[i].value)
  }

  /** Drops both `null` and `undefined` and unwraps what is left. */
  function FilterNullLike<T>(items: seq<Nullish<T>>): (r: seq<T>)
    ensures |r| <= |items|
  {
    Unwrap(Filter(items, NotNullLike))
  }

  /** Both results keep the surviving entries in their input order. */
  lemma FiltersAreSubsequences<T>(items: seq<Nullish<T>>)
    ensures IsSubsequence(FilterNull(items), items)
    ensures IsSubsequence(Filter(items, NotNullLike), items)
  {
    FilterIsSubsequence(items, NotNull);
    FilterIsSubsequence(items, NotNullLike);
  }

  /**
   * Nothing but nulls (respectively null-likes) is dropped: what each filter
   * keeps and the nulls (null-likes) of the input make up the input's multiset.
   */
  lemma FiltersDropOnlyNulls<T>(items: seq<Nullish<T>>)
    ensures multiset(FilterNull(items)) + multiset(Filter(items, (v: Nullish<T>) => v.Null?)) == multiset(items)
    ensures multiset(Filter(items, NotNullLike)) + multiset(Filter(items, (v: Nullish<T>) => v.IsNullLike()))
         == multiset(items)
  {
    FilterComplementaryMultiset(items, NotNull, (v: Nullish<T>) => v.Null?);
    FilterComplementaryMultiset(items, NotNullLike, (v: Nullish<T>) => v.IsNullLike());
  }

  /** Entries that are not null-like are never null, so dropping nulls first changes nothing. */
  lemma {:induction false} NullLikeAfterNull<T>(items: seq<Nullish<T>>)
    ensures Filter(FilterNull(items), NotNullLike) == Filter(items, NotNullLike)
    decreases |items|
  {
    if items != [] {
      var init := items[..|items| - 1];
      NullLikeAfterNull(init);
    }
  }

  /** `filterNullLike` only removes more: applied after `filterNull` it gives the same result. */
  lemma FilterNullLikeAfterFilterNull<T>(items: seq<Nullish<T>>)
    ensures FilterNullLike(FilterNull(items)) == FilterNullLike(items)
  {
    NullLikeAfterNull(items);
  }

  /** The entries `filterNullLike` keeps form a subsequence of `filterNull`'s result. */
  lemma NullLikeWithinNull<T>(items: seq<Nullish<T>>)
    ensures IsSubsequence(Filter(items, NotNullLike), FilterNull(items))
  {
    NullLikeAfterNull(items);
    FilterIsSubsequence(FilterNull(items), NotNullLike);
  }

  /** An entry survives `filterNullLike` exactly when it holds a value. */
  lemma {:induction false} FilterNullLikeKeepsPresent<T>(items: seq<Nullish<T>>)
    ensures |FilterNullLike(items)| == |Filter(items, (v: Nullish<T>) => v.Present?)|
    decreases |items|
  {
    if items != [] {
      FilterNullLikeKeepsPresent(items[..|items| - 1]);
    }
  }
}
