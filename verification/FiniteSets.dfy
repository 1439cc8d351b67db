/** Finite sets: their sizes, and the elements of a sequence. */
module FiniteSets {
  function Elements<T(==)>(s: seq<T>): set<T> {
    set x | x in s
  }

  lemma SubsetSize<T>(a: set<T>, b: set<T>)
    requires a <= b
    ensures |a| <= |b|
  {
    assert b == a + (b - a);
  }

  lemma SameSizeSubset<T>(a: set<T>, b: set<T>)
    requires a <= b && |a| == |b|
    ensures a == b
  {
    assert |b - a| == |b| - |a * b| && a * b == a;
  }

  lemma UnionSize<T>(a: set<T>, b: set<T>, x: T)
    requires x !in a + b
    ensures |a + b + {x}| == |a| + |b - a| + 1
  {
    assert a + b == a + (b - a);
  }

  lemma DropSharedElement<T>(a: set<T>, x: T, b: set<T>)
    requires a !! b && x in b
    ensures (a + {x}) - b == a
  {
  }

  /** A set meets another in all its elements exactly when it is part of it. */
  lemma FullMeet<T>(a: set<T>, b: set<T>)
    ensures |a * b| >= |a| <==> a <= b
  {
    if a <= b {
      assert a * b == a;
    } else if |a * b| >= |a| {
      SubsetSize(a * b, a);
      SameSizeSubset(a * b, a);
    }
  }

  predicate IsDistinct<T(==)>(s: seq<T>) {
    forall i, j :: 0 <= i < j < |s| ==> s[i] != s[j]
  }

  lemma {:induction false} DistinctSize<T>(s: seq<T>)
    requires IsDistinct(s)
    ensures |Elements(s)| == |s|
  {
    if s != [] {
      var init, last := s[..|s| - 1], s[|s| - 1];
      DistinctSize(init);
      assert s == init + [last];
      assert Elements(s) == Elements(init) + {last};
    }
  }
}
