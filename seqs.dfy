/** Sequence helpers shared by the array and status utilities. */
module Seqs {

  /** The elements of `s` that satisfy `p`, in their original order (`Array.filter`). */
  function Filter<T>(s: seq<T>, p: T -> bool): (r: seq<T>)
    ensures |r| <= |s|
    ensures forall i :: 0 <= i < |r| ==> p(r[i])
    decreases |s|
  {
    if s == [] then []
    else if p(s[|s| - 1]) then Filter(s[..|s| - 1], p) + [s[|s| - 1]]
    else Filter(s[..|s| - 1], p)
  }

  /** `sub` can be obtained from `s` by deleting elements. */
  ghost predicate IsSubsequence<T>(sub: seq<T>, s: seq<T>)
    decreases |s|
  {
    if sub == [] then true
    else if s == [] then false
    else if sub[|sub| - 1] == s[|s| - 1] then IsSubsequence(sub[..|sub| - 1], s[..|s| - 1])
    else IsSubsequence(sub, s[..|s| - 1])
  }

  lemma {:induction false} FilterIsSubsequence<T>(s: seq<T>, p: T -> bool)
    ensures IsSubsequence(Filter(s, p), s)
    decreases |s|
  {
    if s != [] {
      var init := s[..|s| - 1];
      FilterIsSubsequence(init, p);
      if p(s[|s| - 1]) {
        assert Filter(s, p)[..|Filter(s, p)| - 1] == Filter(init, p);
      } else {
        SubsequenceOfPrefix(Filter(init, p), init, s[|s| - 1]);
      }
    }
  }

  /** Extending the longer sequence keeps a subsequence a subsequence. */
  lemma {:induction false} SubsequenceOfPrefix<T>(sub: seq<T>, s: seq<T>, x: T)
    requires IsSubsequence(sub, s)
    ensures IsSubsequence(sub, s + [x])
    decreases |s|, 1
  {
    var t := s + [x];
    assert t[..|t| - 1] == s;
    if sub != [] && sub[|sub| - 1] == x {
      SubsequenceDropLast(sub, s);
    }
  }

  lemma {:induction false} SubsequenceDropLast<T>(sub: seq<T>, s: seq<T>)
    requires sub != [] && IsSubsequence(sub, s)
    ensures IsSubsequence(sub[..|sub| - 1], s)
    decreases |s|, 0
  {
    var init := sub[..|sub| - 1];
    if sub[|sub| - 1] == s[|s| - 1] {
      SubsequenceOfPrefix(init, s[..|s| - 1], s[|s| - 1]);
      assert s[..|s| - 1] + [s[|s| - 1]] == s;
    } else {
      SubsequenceDropLast(sub, s[..|s| - 1]);
      SubsequenceOfPrefix(init, s[..|s| - 1], s[|s| - 1]);
      assert s[..|s| - 1] + [s[|s| - 1]] == s;
    }
  }

  /** Filtering twice keeps what both predicates keep. */
  lemma {:induction false} FilterFilter<T>(s: seq<T>, p: T -> bool, q: T -> bool)
    ensures Filter(Filter(s, p), q) == Filter(s, x => p(x) && q(x))
    decreases |s|
  {
    if s != [] {
      var init := s[..|s| - 1];
      var x := s[|s| - 1];
      FilterFilter(init, p, q);
      if p(x) {
        var fp := Filter(s, p);
        assert fp[..|fp| - 1] == Filter(init, p);
      }
    }
  }

  /** Filtering distributes over concatenation. */
  lemma {:induction false} FilterAppend<T>(s: seq<T>, t: seq<T>, p: T -> bool)
    ensures Filter(s + t, p) == Filter(s, p) + Filter(t, p)
    decreases |t|
  {
    if t == [] {
      assert s + t == s;
    } else {
      var tInit := t[..|t| - 1];
      assert (s + t)[..|s + t| - 1] == s + tInit;
      FilterAppend(s, tInit, p);
    }
  }

  /** What `p` keeps and what it drops add up to the whole sequence. */
  lemma {:induction false} FilterComplementLength<T>(s: seq<T>, p: T -> bool)
    ensures |Filter(s, p)| + |Filter(s, x => !p(x))| == |s|
    decreases |s|
  {
    if s != [] {
      FilterComplementLength(s[..|s| - 1], p);
    }
  }

  /** ... and the same as multisets: no element is lost or duplicated. */
  lemma FilterComplementMultiset<T>(s: seq<T>, p: T -> bool)
    ensures multiset(Filter(s, p)) + multiset(Filter(s, x => !p(x))) == multiset(s)
  {
    FilterComplementaryMultiset(s, p, x => !p(x));
  }

  /** The same, for any `q` that disagrees with `p` on every element of `s`. */
  lemma {:induction false} FilterComplementaryMultiset<T>(s: seq<T>, p: T -> bool, q: T -> bool)
    requires forall i :: 0 <= i < |s| ==> q(s[i]) == !p(s[i])
    ensures multiset(Filter(s, p)) + multiset(Filter(s, q)) == multiset(s)
    decreases |s|
  {
    if s != [] {
      var init := s[..|s| - 1];
      FilterComplementaryMultiset(init, p, q);
      assert s == init + [s[|s| - 1]];
    }
  }

  /** Two filters that agree on every element of `s` keep the same elements. */
  lemma {:induction false} FilterExtensional<T>(s: seq<T>, p: T -> bool, q: T -> bool)
    requires forall i :: 0 <= i < |s| ==> p(s[i]) == q(s[i])
    ensures Filter(s, p) == Filter(s, q)
    decreases |s|
  {
    if s != [] {
      FilterExtensional(s[..|s| - 1], p, q);
    }
  }

  /** No value occurs twice in `s`. */
  ghost predicate Distinct<T>(s: seq<T>) {
    forall i, j :: 0 <= i < j < |s| ==> s[i] != s[j]
  }

  /** Position `j` holds the first value of `s` that repeats an earlier one. */
  ghost predicate IsFirstDuplicate<T>(s: seq<T>, j: int) {
    0 <= j < |s| && s[j] in s[..j] && Distinct(s[..j])
  }

  /** A sequence with a repeat has a first repeat. */
  lemma {:induction false} FirstDuplicateExists<T>(s: seq<T>)
    requires !Distinct(s)
    ensures exists j :: IsFirstDuplicate(s, j)
    decreases |s|
  {
    var init := s[..|s| - 1];
    assert init[..|init|] == init;
    if Distinct(init) {
      var i, j :| 0 <= i < j < |s| && s[i] == s[j];
      assert j == |s| - 1;
      assert s[..j] == init;
      assert s[i] == init[i];
      assert IsFirstDuplicate(s, j);
    } else {
      FirstDuplicateExists(init);
      var j :| IsFirstDuplicate(init, j);
      assert init[..j] == s[..j];
      assert IsFirstDuplicate(s, j);
    }
  }

  /** The first repeat is unique. */
  lemma FirstDuplicateUnique<T>(s: seq<T>, j: int, j': int)
    requires IsFirstDuplicate(s, j) && IsFirstDuplicate(s, j')
    ensures j == j'
  {
  }

  /** The set of values occurring in `s`. */
  ghost function Elements<T>(s: seq<T>): (r: set<T>)
    ensures forall i :: 0 <= i < |s| ==> s[i] in r
    ensures forall x :: x in r ==> exists i :: 0 <= i < |s| && s[i] == x
    decreases |s|
  {
    if s == [] then {} else Elements(s[..|s| - 1]) + {s[|s| - 1]}
  }

  /** Without repeats, a sequence has as many distinct values as positions. */
  lemma {:induction false} DistinctCardinality<T>(s: seq<T>)
    requires Distinct(s)
    ensures |Elements(s)| == |s|
    decreases |s|
  {
    if s != [] {
      var init := s[..|s| - 1];
      DistinctCardinality(init);
      assert s[|s| - 1] !in Elements(init);
    }
  }
}
