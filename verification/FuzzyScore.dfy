/** The fuzzy match score of two lists of token hashes, the Jaccard index of their sets, over the reals. */
module FuzzyScore {
  import opened FiniteSets

  /** |A ∩ B| / |A ∪ B|, and 0 when either set is empty. */
  function Score<T(==)>(a: set<T>, b: set<T>): real {
    if a == {} || b == {} then 0.0
    else
      SubsetSize(a, a + b);
      |a * b| as real / |a + b| as real
  }

  lemma CountOneMore<T>(q: set<T>, c: set<T>, todo: set<T>, h: T)
    requires todo <= q && h in todo
    ensures |(q - (todo - {h})) * c| == |(q - todo) * c| + if h in c then 1 else 0
  {
    if h in c {
      assert (q - (todo - {h})) * c == (q - todo) * c + {h};
    } else {
      assert (q - (todo - {h})) * c == (q - todo) * c;
    }
  }

  /** The score depends on the two sets only, whatever the order and the repetitions in the lists. */
  method FuzzyMatchScore<T(==)>(query: seq<T>, candidate: seq<T>) returns (score: real)
    ensures score == Score(Elements(query), Elements(candidate))
    ensures query == [] || candidate == [] ==> score == 0.0
    ensures query != [] && candidate != [] ==>
      var q, c := Elements(query), Elements(candidate);
      |q + c| > 0 && score == |q * c| as real / |q + c| as real
  {
    if |query| == 0 || |candidate| == 0 {
      return 0.0;
    }
    var q, c := Elements(query), Elements(candidate);
    assert query[0] in q && candidate[0] in c;
    var intersection := 0;
    var todo := q;
    while todo != {}
      invariant todo <= q
      invariant intersection == |(q - todo) * c|
      decreases |todo|
    {
      var h :| h in todo;
      CountOneMore(q, c, todo, h);
      if h in c {
        intersection := intersection + 1;
      }
      todo := todo - {h};
    }
    assert q - todo == q;
    assert query[0] in q + c;
    var union := |q| + |c| - intersection;
    score := if union == 0 then 0.0 else intersection as real / union as real;
  }

  lemma ScoreIsSymmetric<T>(a: set<T>, b: set<T>)
    ensures Score(a, b) == Score(b, a)
  {
    assert a * b == b * a && a + b == b + a;
  }

  lemma QuotientBounds(x: nat, y: nat)
    requires x <= y && 0 < y
    ensures 0.0 <= x as real / y as real <= 1.0
    ensures x as real / y as real == 1.0 <==> x == y
  {
    var r := x as real / y as real;
    var v := y as real;
    assert r * v == x as real;
    assert (1.0 - r) * v == v - x as real;
    if x == y {
      assert r == 1.0;
    } else {
      assert v - x as real > 0.0;
      assert r != 1.0;
    }
  }

  lemma ScoreIsAFraction<T>(a: set<T>, b: set<T>)
    ensures 0.0 <= Score(a, b) <= 1.0
  {
    if a != {} && b != {} {
      SubsetSize(a * b, a + b);
      QuotientBounds(|a * b|, |a + b|);
    }
  }

  /** Two token sets score 1 exactly when they are equal and not empty. */
  lemma PerfectScoreMeansEqual<T>(a: set<T>, b: set<T>)
    ensures Score(a, b) == 1.0 <==> a == b && a != {}
  {
    if a != {} && b != {} {
      SubsetSize(a * b, a + b);
      QuotientBounds(|a * b|, |a + b|);
      if |a * b| == |a + b| {
        SameSizeSubset(a * b, a + b);
      }
      if a == b {
        assert a * b == a && a + b == a;
      }
    }
  }

  /** Two token sets score 0 exactly when they have nothing in common. */
  lemma ZeroScoreMeansDisjoint<T>(a: set<T>, b: set<T>)
    ensures Score(a, b) == 0.0 <==> a * b == {}
  {
    if a != {} && b != {} {
      var r := |a * b| as real / |a + b| as real;
      assert r * |a + b| as real == |a * b| as real;
    }
  }

  lemma FractionGrows(x: real, y: real, c: real)
    requires 0.0 <= x <= y && 0.0 < y && 0.0 <= c
    ensures x / y <= (x + c) / (y + c)
  {
    var r := x / y;
    assert r * y == x;
    assert r <= 1.0;
    assert r * (y + c) == x + r * c;
    assert r * c <= c;
  }

  lemma FractionShrinks(x: real, y: real, z: real)
    requires 0.0 <= x && 0.0 < y <= z
    ensures x / z <= x / y
  {
    var r := x / z;
    assert r * z == x;
    assert r >= 0.0;
    assert r * y <= r * z;
  }

  /** Inclusion and exclusion behind the triangle inequality. */
  lemma RegionsFit<T>(a: set<T>, b: set<T>, c: set<T>)
    ensures |a * b| + |c - (a + b)| + |b * c| + |a - (b + c)| <= |a + b + c| + |a * c|
  {
    var x, y := a * b + (c - (a + b)), b * c + (a - (b + c));
    assert |x| == |a * b| + |c - (a + b)| by {
      assert a * b !! c - (a + b);
    }
    assert |y| == |b * c| + |a - (b + c)| by {
      assert b * c !! a - (b + c);
    }
    SubsetSize(x + y, a + b + c);
    SubsetSize(x * y, a * c);
  }

  lemma OneSide<T>(a: set<T>, b: set<T>, c: set<T>)
    requires a != {} && b != {}
    ensures a + b + c != {} && Score(a, b) <= (|a * b| + |c - (a + b)|) as real / |a + b + c| as real
  {
    assert a * b <= a + b;
    SubsetSize(a * b, a + b);
    assert a + b + c == a + b + (c - (a + b));
    FractionGrows(|a * b| as real, |a + b| as real, |c - (a + b)| as real);
  }

  lemma SumOfQuotients(x: nat, y: nat, z: nat, u: nat)
    requires 0 < u && x + y <= u + z
    ensures x as real / u as real + y as real / u as real <= 1.0 + z as real / u as real
  {
    assert (x + y) as real == x as real + y as real && (u + z) as real == u as real + z as real;
    SumOfReals(x as real, y as real, z as real, u as real);
  }

  lemma SumOfReals(x: real, y: real, z: real, v: real)
    requires 0.0 < v && x + y <= v + z
    ensures x / v + y / v <= 1.0 + z / v
  {
    var p, q, r := x / v, y / v, z / v;
    assert p * v == x && q * v == y && r * v == z;
    var gap := p + q - (1.0 + r);
    assert gap * v == p * v + q * v - (v + r * v);
    assert gap * v <= 0.0;
    assert gap <= 0.0;
  }

  /** The triangle inequality for one minus the score; with an empty set a side has length one. */
  lemma DistanceObeysTriangle<T>(a: set<T>, b: set<T>, c: set<T>)
    ensures 1.0 - Score(a, c) <= (1.0 - Score(a, b)) + (1.0 - Score(b, c))
  {
    ScoreIsAFraction(a, b);
    ScoreIsAFraction(b, c);
    ScoreIsAFraction(a, c);
    if a != {} && b != {} && c != {} {
      NonEmptyTriangle(a, b, c);
    }
  }

  lemma NonEmptyTriangle<T>(a: set<T>, b: set<T>, c: set<T>)
    requires a != {} && b != {} && c != {}
    ensures Score(a, b) + Score(b, c) <= 1.0 + Score(a, c)
  {
    var u := a + b + c;
    OneSide(a, b, c);
    OneSide(b, c, a);
    assert b + c + a == u;
    RegionsFit(a, b, c);
    var x, y := |a * b| + |c - (a + b)|, |b * c| + |a - (b + c)|;
    SumOfQuotients(x, y, |a * c|, |u|);
    SubsetSize(a + c, u);
    FractionShrinks(|a * c| as real, |a + c| as real, |u| as real);
  }
}
