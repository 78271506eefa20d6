/**
 * Set algebra from `set/basic.ts`. Each operation walks one set element by
 * element and builds a fresh result; the argument sets are values here, so
 * none of them can be changed. A JavaScript `Set` walks in insertion order;
 * none of these results depends on that order, so the walk picks any
 * remaining element.
 */
module SetBasic {
  /** `isSuperset(set, subset)`: false at the first element of `subset` missing from `set`. */
  method IsSuperset<T(==)>(s: set<T>, subset: set<T>) returns (r: bool)
    ensures r <==> subset <= s
  {
    var remaining := subset;
    while remaining != {}
      invariant remaining <= subset
      invariant subset - remaining <= s
      decreases |remaining|
    {
      var elem :| elem in remaining;
      if elem !in s {
        return false;
      }
      remaining := remaining - {elem};
    }
    return true;
  }

  /** The elements of at least one of `sets`. */
  ghost predicate InSome<T>(sets: seq<set<T>>, x: T) {
    exists i :: 0 <= i < |sets| && x in sets[i]
  }

  /** `union(...sets)`: every element of every set, added one at a time. */
  method Union<T(==)>(sets: seq<set<T>>) returns (u: set<T>)
    ensures forall x :: x in u <==> InSome(sets, x)
  {
    u := {};
    for i := 0 to |sets|
      invariant forall x :: x in u <==> InSome(sets[..i], x)
    {
      var remaining := sets[i];
      while remaining != {}
        invariant remaining <= sets[i]
        invariant forall x :: x in u <==> InSome(sets[..i], x) || x in sets[i] - remaining
        decreases |remaining|
      {
        var elem :| elem in remaining;
        u := u + {elem};
        remaining := remaining - {elem};
      }
      InSomeSnoc(sets, i);
    }
    assert sets[..|sets|] == sets;
  }

  lemma InSomeSnoc<T>(sets: seq<set<T>>, i: nat)
    requires i < |sets|
    ensures forall x :: InSome(sets[..i + 1], x) <==> InSome(sets[..i], x) || x in sets[i]
  {
    forall x | InSome(sets[..i + 1], x)
      ensures InSome(sets[..i], x) || x in sets[i]
    {
      var j :| 0 <= j < i + 1 && x in sets[..i + 1][j];
      if j < i {
        assert x in sets[..i][j];
      }
    }
    forall x | InSome(sets[..i], x)
      ensures InSome(sets[..i + 1], x)
    {
      var j :| 0 <= j < i && x in sets[..i][j];
      assert x in sets[..i + 1][j];
    }
    forall x | x in sets[i]
      ensures InSome(sets[..i + 1], x)
    {
      assert x in sets[..i + 1][i];
    }
  }

  /** `intersection(a, b)`: the elements of `b` that `a` has. */
  method Intersection<T(==)>(a: set<T>, b: set<T>) returns (r: set<T>)
    ensures forall x :: x in r <==> x in a && x in b
  {
    r := {};
    var remaining := b;
    while remaining != {}
      invariant remaining <= b
      invariant forall x :: x in r <==> x in a && x in b - remaining
      decreases |remaining|
    {
      var elem :| elem in remaining;
      if elem in a {
        r := r + {elem};
      }
      remaining := remaining - {elem};
    }
  }

  /** `symmetricDifference(a, b)`: a copy of `a`, with each element of `b` toggled. */
  method SymmetricDifference<T(==)>(a: set<T>, b: set<T>) returns (r: set<T>)
    ensures forall x :: x in r <==> (x in a) != (x in b)
  {
    r := a;
    var remaining := b;
    while remaining != {}
      invariant remaining <= b
      invariant forall x :: x in r <==> if x in b - remaining then x !in a else x in a
      decreases |remaining|
    {
      var elem :| elem in remaining;
      if elem in r {
        r := r - {elem};
      } else {
        r := r + {elem};
      }
      remaining := remaining - {elem};
    }
  }

  /** `difference(a, b)`: a copy of `a` with each element of `b` deleted. */
  method Difference<T(==)>(a: set<T>, b: set<T>) returns (r: set<T>)
    ensures forall x :: x in r <==> x in a && x !in b
  {
    r := a;
    var remaining := b;
    while remaining != {}
      invariant remaining <= b
      invariant forall x :: x in r <==> x in a && x !in b - remaining
      decreases |remaining|
    {
      var elem :| elem in remaining;
      r := r - {elem};
      remaining := remaining - {elem};
    }
  }
}
