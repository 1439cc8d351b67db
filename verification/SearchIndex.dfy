/**
 What the blind search index finds. All tokens of a value, n-grams, prefixes and the equality
 token, lie in one table without a mark of their kind, and every lookup compares with all of
 them; the results are stated against the plain substring, prefix and equality tests.
 */
module SearchIndex {
  import opened BlindIndex
  import opened FiniteSets
  import opened FuzzyScore
  import opened Wrappers

  // ---------- what is stored and what is found ----------

  function EqualityToken(v: string): string {
    "=" + v
  }

  /** Everything stored for a value. */
  function Stored(v: string, n: nat): set<string>
    requires n >= 1
  {
    if v == [] then {} else Grams(v, n) + Prefixes(v, n) + {EqualityToken(v)}
  }

  /** Contains lookup: as many distinct stored hashes as the query has n-grams. */
  predicate ContainsHit(h: Hash, ctx: Context, q: string, v: string, n: nat)
    requires n >= 1
  {
    && q != []
    && |Hashes(h, ctx, Grams(q, n)) * Hashes(h, ctx, Stored(v, n))| >= |Grams(q, n)|
  }

  /** Prefix lookup: any stored hash of any prefix token of the query. */
  predicate PrefixHit(h: Hash, ctx: Context, p: string, v: string, n: nat)
    requires n >= 1
  {
    Hashes(h, ctx, Prefixes(p, n)) * Hashes(h, ctx, Stored(v, n)) != {}
  }

  /** Equality lookup: the hash of the one equality token. */
  predicate EqualityHit(h: Hash, ctx: Context, q: string, v: string, n: nat)
    requires n >= 1
  {
    q != [] && HashOf(h, ctx, EqualityToken(q)) in Hashes(h, ctx, Stored(v, n))
  }

  /** Fuzzy lookup: the n-gram hashes of the query score enough against all that is stored. */
  predicate FuzzyHit(h: Hash, ctx: Context, q: string, v: string, n: nat, minScore: real)
    requires n >= 1
  {
    q != [] && v != [] && Score(Hashes(h, ctx, Grams(q, n)), Hashes(h, ctx, Stored(v, n))) >= minScore
  }

  // ---------- one token ----------

  /** The string without its trailing spaces. */
  function RTrim(s: string): (r: string)
    ensures r <= s && (r == [] || r[|r| - 1] != ' ')
    ensures forall k :: |r| <= k < |s| ==> s[k] == ' '
  {
    if s == [] || s[|s| - 1] != ' ' then s else RTrim(s[..|s| - 1])
  }

  /** The value starts with the query, up to trailing spaces; a blank query needs a leading space. */
  predicate StartsLike(v: string, q: string) {
    if RTrim(q) == [] then v != [] && v[0] == ' ' else RTrim(q) <= v
  }

  /** The padded query occurs in the padded value or is its equality token. */
  predicate OccursPadded(q: string, v: string, n: nat) {
    IsSubstring(PadEnd(q, n), PadEnd(v, n)) || PadEnd(q, n) == EqualityToken(v)
  }

  lemma PadOfTrim(q: string, n: nat)
    requires |q| <= n
    ensures PadEnd(RTrim(q), n) == PadEnd(q, n)
  {
    var r := RTrim(q);
    forall k | 0 <= k < n ensures PadEnd(r, n)[k] == PadEnd(q, n)[k] {
      assert k < |r| ==> r[k] == q[k];
    }
  }

  lemma PaddedPrefixStartsLike(v: string, w: string, q: string, n: nat)
    requires w <= v && 1 <= |w| <= n && |q| <= n && PadEnd(w, n) == PadEnd(q, n)
    ensures StartsLike(v, q)
  {
    var r, t := RTrim(q), PadEnd(q, n);
    PadOfTrim(q, n);
    if r == [] {
      assert t[0] == ' ' && t[0] == w[0];
    } else {
      assert t[|r| - 1] == r[|r| - 1];
      assert |r| <= |w|;
      assert r == t[..|r|] == w[..|r|];
    }
  }

  lemma PrefixTokenShape(v: string, n: nat, len: nat)
    requires len <= |v|
    ensures PrefixToken(v, n, len) == PadEnd(v[..Min(len, n)], n)
  {
    assert len >= n ==> v[..len][..n] == v[..n];
  }

  /** A padded query is a prefix token of a value exactly when the value starts like it. */
  lemma PrefixTokenIff(v: string, q: string, n: nat)
    requires 1 <= |q| <= n
    ensures PadEnd(q, n) in Prefixes(v, n) <==> StartsLike(v, q)
  {
    if PadEnd(q, n) in Prefixes(v, n) {
      var len :| 1 <= len <= Min(|v|, 3 * n) && PrefixToken(v, n, len) == PadEnd(q, n);
      PrefixTokenShape(v, n, len);
      PaddedPrefixStartsLike(v, v[..Min(len, n)], q, n);
    }
    if StartsLike(v, q) {
      StartsLikeHasToken(v, q, n);
    }
  }

  lemma StartsLikeHasToken(v: string, q: string, n: nat)
    requires 1 <= |q| <= n && StartsLike(v, q)
    ensures exists len :: 1 <= len <= Min(|v|, 3 * n) && PrefixToken(v, n, len) == PadEnd(q, n)
  {
    var r := RTrim(q);
    PadOfTrim(q, n);
    if r == [] {
      PrefixTokenShape(v, n, 1);
      assert v[..1] == " ";
      assert PrefixToken(v, n, 1) == PadEnd(" ", n);
      assert PadEnd(" ", n) == PadEnd(q, n);
    } else {
      PrefixTokenShape(v, n, |r|);
      assert v[..|r|] == r;
      assert PrefixToken(v, n, |r|) == PadEnd(q, n);
    }
  }

  /** Which values store the padded form of a query of at most `n` characters. */
  lemma StoredIff(v: string, q: string, n: nat)
    requires 1 <= |q| <= n && v != []
    ensures PadEnd(q, n) in Stored(v, n) <==> OccursPadded(q, v, n) || StartsLike(v, q)
  {
    GramsAreSubstrings(v, n, PadEnd(q, n));
    PrefixTokenIff(v, q, n);
  }

  lemma EqualityTokenIsNoGram(v: string, n: nat)
    requires n >= 1 && v != []
    ensures EqualityToken(v) !in Grams(v, n)
  {
    var t, p := EqualityToken(v), PadEnd(v, n);
    GramsAreSubstrings(v, n, t);
    if |t| == n {
      SubstringOfItsLength(t, p);
      PaddedIsNotShifted(v, v);
    }
  }

  lemma SubstringOfItsLength(t: string, p: string)
    requires |t| == |p|
    ensures IsSubstring(t, p) <==> t == p
  {
    assert Window(p, 0, |t|) == p;
  }

  lemma EqualityTokenIsNoPrefix(v: string, n: nat)
    requires n >= 1 && v != []
    ensures EqualityToken(v) !in Prefixes(v, n)
  {
    forall len | 1 <= len <= Min(|v|, 3 * n) ensures PrefixToken(v, n, len) != EqualityToken(v) {
      PrefixTokenShape(v, n, len);
      PaddedIsNotShifted(v, v[..Min(len, n)]);
    }
  }

  /**
   The equality token is never one of the value's n-grams or prefix tokens: storing all three
   violates no unique index.
   */
  lemma EqualityTokenIsNew(v: string, n: nat)
    requires n >= 1 && v != []
    ensures EqualityToken(v) !in Grams(v, n) + Prefixes(v, n)
  {
    EqualityTokenIsNoGram(v, n);
    EqualityTokenIsNoPrefix(v, n);
  }

  /** "=v" is no padded prefix of `v`: they differ behind the equals signs that `v` starts with. */
  lemma PaddedIsNotShifted(v: string, w: string)
    requires w <= v && w != []
    ensures PadEnd(w, |v| + 1) != EqualityToken(v)
  {
    var k := 0;
    while k < |w| && w[k] == '='
      invariant k <= |w| && forall i :: 0 <= i < k ==> w[i] == '='
    {
      k := k + 1;
    }
    assert EqualityToken(v)[k] == if k == 0 then '=' else w[k - 1];
    assert PadEnd(w, |v| + 1)[k] == if k == |w| then ' ' else w[k];
  }

  // ---------- contains search ----------

  lemma SubstringsOfSubstrings(g: string, q: string, v: string)
    requires IsSubstring(g, q) && IsSubstring(q, v)
    ensures IsSubstring(g, v)
  {
    var i :| 0 <= i && i + |g| <= |q| && Window(q, i, |g|) == g;
    var j :| 0 <= j && j + |q| <= |v| && Window(v, j, |q|) == q;
    forall k | 0 <= k < |g| ensures Window(v, j + i, |g|)[k] == g[k] {
      assert g[k] == Window(q, i, |g|)[k] == q[i + k];
      assert q[i + k] == Window(v, j, |q|)[i + k] == v[j + (i + k)];
    }
    assert Window(v, j + i, |g|) == g;
  }

  lemma GramsOfAPartAreStored(q: string, v: string, n: nat)
    requires n >= 1 && |q| >= n && IsSubstring(q, v)
    ensures Grams(q, n) <= Grams(v, n) <= Stored(v, n)
  {
    forall g | g in Grams(q, n) ensures g in Grams(v, n) {
      GramsAreSubstrings(q, n, g);
      SubstringsOfSubstrings(g, q, v);
      GramsAreSubstrings(v, n, g);
    }
  }

  /**
   Completeness on the tokens: under any hash a query of at least `n` characters has all its hashes
   stored with a value it occurs in.
   */
  lemma ContainsSearchIsComplete(h: Hash, ctx: Context, q: string, v: string, n: nat)
    requires n >= 1 && |q| >= n && IsSubstring(q, v)
    ensures Hashes(h, ctx, Grams(q, n)) <= Hashes(h, ctx, Stored(v, n))
  {
    GramsOfAPartAreStored(q, v, n);
    HashesKeepSubset(h, ctx, Grams(q, n), Stored(v, n));
  }

  /** The lookup hits exactly when all n-grams of the query are stored, provided no two hashes are equal. */
  lemma ContainsHitIff(h: Hash, ctx: Context, q: string, v: string, n: nat)
    requires IsInjective(h) && n >= 1
    ensures ContainsHit(h, ctx, q, v, n) <==> q != [] && Grams(q, n) <= Stored(v, n)
  {
    FullMeet(Hashes(h, ctx, Grams(q, n)), Hashes(h, ctx, Stored(v, n)));
    HashesKeepSize(h, ctx, Grams(q, n));
    HashesReflectSubset(h, ctx, Grams(q, n), Stored(v, n));
  }

  lemma ShortQueryHasOneGram(q: string, n: nat)
    requires n >= 1 && 1 <= |q| <= n
    ensures Grams(q, n) == {PadEnd(q, n)}
  {
    var p := PadEnd(q, n);
    forall g ensures g in Grams(q, n) <==> g == p {
      GramsAreSubstrings(q, n, g);
      if |g| == n {
        SubstringOfItsLength(g, p);
      }
    }
  }

  /**
   A query of at most `n` characters finds a value exactly when the padded query occurs in the
   padded value, or the value starts like it, or the padded query is the value's equality token.
   */
  lemma ShortQueryFinds(h: Hash, ctx: Context, q: string, v: string, n: nat)
    requires IsInjective(h) && 1 <= |q| <= n && v != []
    ensures ContainsHit(h, ctx, q, v, n) <==> OccursPadded(q, v, n) || StartsLike(v, q)
  {
    ContainsHitIff(h, ctx, q, v, n);
    ShortQueryHasOneGram(q, n);
    StoredIff(v, q, n);
  }

  lemma GramsAreStoredIff(q: string, v: string, n: nat)
    requires 1 <= n <= |q|
    ensures Grams(q, n) <= Stored(v, n) <==> forall i :: 0 <= i <= |q| - n ==> Window(q, i, n) in Stored(v, n)
  {
  }

  /** A longer query finds a value exactly when each of its windows does. */
  lemma LongQueryFinds(h: Hash, ctx: Context, q: string, v: string, n: nat)
    requires IsInjective(h) && 1 <= n <= |q| && v != []
    ensures ContainsHit(h, ctx, q, v, n) <==>
      forall i :: 0 <= i <= |q| - n ==> OccursPadded(Window(q, i, n), v, n) || StartsLike(v, Window(q, i, n))
  {
    ContainsHitIff(h, ctx, q, v, n);
    GramsAreStoredIff(q, v, n);
    forall i | 0 <= i <= |q| - n
      ensures Window(q, i, n) in Stored(v, n)
         <==> OccursPadded(Window(q, i, n), v, n) || StartsLike(v, Window(q, i, n))
    {
      StoredIff(v, Window(q, i, n), n);
    }
  }

  // ---------- when contains search is exact ----------

  /** A window that does not end in a space lies in front of the padding. */
  lemma PaddingHoldsNoMatch(q: string, v: string, n: nat)
    requires q != [] && q[|q| - 1] != ' '
    ensures IsSubstring(q, PadEnd(v, n)) <==> IsSubstring(q, v)
  {
    var p := PadEnd(v, n);
    if i :| 0 <= i && i + |q| <= |p| && Window(p, i, |q|) == q {
      assert p[i + |q| - 1] == Window(p, i, |q|)[|q| - 1];
      assert Window(v, i, |q|) == Window(p, i, |q|);
    }
    if i :| 0 <= i && i + |q| <= |v| && Window(v, i, |q|) == q {
      assert Window(p, i, |q|) == Window(v, i, |q|);
    }
  }

  lemma PrefixesAreSubstrings(q: string, v: string)
    requires q <= v
    ensures IsSubstring(q, v)
  {
    assert Window(v, 0, |q|) == q;
  }

  /**
   A query of `n` characters that neither starts with an equals sign nor ends in a space finds
   exactly the values it occurs in.
   */
  lemma FullQueryIsExact(h: Hash, ctx: Context, q: string, v: string, n: nat)
    requires IsInjective(h) && 1 <= n == |q| && v != []
    requires n == 1 || (q[0] != '=' && q[n - 1] != ' ')
    ensures ContainsHit(h, ctx, q, v, n) <==> IsSubstring(q, v)
  {
    ShortQueryFinds(h, ctx, q, v, n);
    if n == 1 {
      OneCharacterOccursIff(q, v);
    } else {
      FullQueryOccursIff(q, v);
    }
  }

  lemma FullQueryOccursIff(q: string, v: string)
    requires |q| > 1 && v != [] && q[0] != '=' && q[|q| - 1] != ' '
    ensures OccursPadded(q, v, |q|) || StartsLike(v, q) <==> IsSubstring(q, v)
  {
    assert PadEnd(q, |q|) == q && EqualityToken(v)[0] == '=';
    PaddingHoldsNoMatch(q, v, |q|);
    if StartsLike(v, q) {
      PrefixesAreSubstrings(q, v);
    }
  }

  lemma OneCharacterOccursIff(q: string, v: string)
    requires |q| == 1 && v != []
    ensures OccursPadded(q, v, 1) || StartsLike(v, q) <==> IsSubstring(q, v)
  {
    assert PadEnd(v, 1) == v && PadEnd(q, 1) == q && |EqualityToken(v)| > 1;
    if StartsLike(v, q) {
      assert Window(v, 0, 1) == q;
    }
  }

  /** A shorter query misses the value that encloses it in another character. */
  lemma ShortQueryMisses(h: Hash, ctx: Context, q: string, n: nat, c: char)
    requires IsInjective(h) && 1 <= |q| < n && c !in q && c != ' '
    ensures IsSubstring(q, [c] + q + [c]) && !ContainsHit(h, ctx, q, [c] + q + [c], n)
  {
    var v := [c] + q + [c];
    assert IsSubstring(q, v) by {
      assert Window(v, 1, |q|) == q;
    }
    ShortQueryFinds(h, ctx, q, v, n);
    assert !OccursPadded(q, v, n) by {
      EnclosedIsNotPadded(q, n, c);
      assert PadEnd(q, n)[n - 1] == ' ' && EqualityToken(v)[|v|] == c;
    }
    assert !StartsLike(v, q) by {
      assert RTrim(q) != [] ==> RTrim(q)[0] == q[0] != c;
    }
  }

  lemma EnclosedIsNotPadded(q: string, n: nat, c: char)
    requires 1 <= |q| < n && c !in q && c != ' '
    ensures !IsSubstring(PadEnd(q, n), PadEnd([c] + q + [c], n))
  {
    var v := [c] + q + [c];
    var p, t := PadEnd(v, n), PadEnd(q, n);
    forall i | 0 <= i && i + n <= |p| ensures Window(p, i, n) != t {
      assert i <= 1;
      assert Window(p, i, n)[0] == p[i] && Window(p, i, n)[|q|] == p[i + |q|];
      assert t[0] == q[0] != c && t[|q|] == ' ';
      assert p[0] == c && p[1 + |q|] == c;
    }
  }

  /** A query that ends in a space finds a shorter value. */
  lemma TrailingSpaceOvermatches(h: Hash, ctx: Context, q: string, n: nat) returns (v: string)
    requires IsInjective(h) && 2 <= |q| <= n && q[|q| - 1] == ' '
    ensures v != [] && ContainsHit(h, ctx, q, v, n) && !IsSubstring(q, v)
  {
    v := if RTrim(q) == [] then " " else RTrim(q);
    ShortQueryFinds(h, ctx, q, v, n);
    assert StartsLike(v, q);
    assert |v| < |q|;
  }

  /** A query that starts with an equals sign finds the value it would be the equality token of. */
  lemma EqualsSignOvermatches(h: Hash, ctx: Context, q: string, n: nat)
    requires IsInjective(h) && 2 <= |q| == n && q[0] == '='
    ensures ContainsHit(h, ctx, q, q[1..], n) && !IsSubstring(q, q[1..])
  {
    var v := q[1..];
    assert OccursPadded(q, v, n) by {
      assert PadEnd(q, n) == q == EqualityToken(v);
    }
    ShortQueryFinds(h, ctx, q, v, n);
    assert |v| < |q|;
  }

  /** The windows of a query, each followed by a separator. */
  function Spread(q: string, n: nat, c: char, k: nat): string
    requires k == 0 || k + n <= |q| + 1
  {
    if k == 0 then [] else Spread(q, n, c, k - 1) + (Window(q, k - 1, n) + [c])
  }

  lemma {:induction false} SpreadHoldsTheWindows(q: string, n: nat, c: char, k: nat, i: nat)
    requires k + n <= |q| + 1 && i < k
    ensures IsSubstring(Window(q, i, n), Spread(q, n, c, k))
  {
    var before, last := Spread(q, n, c, k - 1), Window(q, k - 1, n) + [c];
    if i < k - 1 {
      SpreadHoldsTheWindows(q, n, c, k - 1, i);
      PrefixesAreSubstrings(before, before + last);
      SubstringsOfSubstrings(Window(q, i, n), before, before + last);
    } else {
      assert Window(before + last, |before|, n) == Window(q, i, n);
    }
  }

  /** Every stretch of `m` characters holds the separator. */
  predicate IsBroken(s: string, m: nat, c: char) {
    forall i :: 0 <= i && i + m <= |s| ==> c in Window(s, i, m)
  }

  lemma {:induction false} SpreadIsBroken(q: string, n: nat, c: char, k: nat)
    requires k == 0 || k + n <= |q| + 1
    ensures var s := Spread(q, n, c, k); IsBroken(s, n + 1, c) && (s != [] ==> s[|s| - 1] == c)
  {
    if k > 0 {
      SpreadIsBroken(q, n, c, k - 1);
      BrokenExtends(Spread(q, n, c, k - 1), Window(q, k - 1, n), n + 1, c);
    }
  }

  lemma BrokenExtends(s: string, w: string, m: nat, c: char)
    requires IsBroken(s, m, c) && (s != [] ==> s[|s| - 1] == c) && |w| + 1 == m
    ensures IsBroken(s + (w + [c]), m, c)
  {
    var t := s + (w + [c]);
    forall i | 0 <= i && i + m <= |t| ensures c in Window(t, i, m) {
      if i + m <= |s| {
        assert Window(t, i, m) == Window(s, i, m);
      } else if i < |s| {
        assert Window(t, i, m)[|s| - 1 - i] == t[|s| - 1] == c;
      } else {
        assert Window(t, i, m)[m - 1] == t[|t| - 1] == c;
      }
    }
  }

  lemma BrokenHoldsNothingLonger(q: string, s: string, m: nat, c: char)
    requires IsBroken(s, m, c) && m <= |q| && c !in q
    ensures !IsSubstring(q, s)
  {
    forall i | 0 <= i && i + |q| <= |s| ensures Window(s, i, |q|) != q {
      var k :| 0 <= k < m && Window(s, i, m)[k] == c;
      assert Window(s, i, |q|)[k] == s[i + k] == c;
    }
  }

  /** A longer query finds the value that holds its windows apart. */
  lemma LongQueryOvermatches(h: Hash, ctx: Context, q: string, n: nat, c: char) returns (v: string)
    requires IsInjective(h) && 1 <= n < |q| && c !in q
    ensures v != [] && ContainsHit(h, ctx, q, v, n) && !IsSubstring(q, v)
  {
    var k := |q| - n + 1;
    v := Spread(q, n, c, k);
    SpreadIsBroken(q, n, c, k);
    BrokenHoldsNothingLonger(q, v, n + 1, c);
    SpreadHoldsTheWindows(q, n, c, k, 0);
    forall g | g in Grams(q, n) ensures g in Stored(v, n) {
      var i :| 0 <= i < k && Window(q, i, n) == g;
      SpreadHoldsTheWindows(q, n, c, k, i);
      GramsOfAPartAreStored(g, v, n);
      ShortQueryHasOneGram(g, n);
    }
    ContainsHitIff(h, ctx, q, v, n);
  }

  ghost predicate IsExactQuery(h: Hash, ctx: Context, q: string, n: nat)
    requires n >= 1
  {
    forall v :: v != [] ==> (ContainsHit(h, ctx, q, v, n) <==> IsSubstring(q, v))
  }

  lemma InexactQuery(h: Hash, ctx: Context, q: string, n: nat, c: char)
    requires IsInjective(h) && n >= 1 && c !in q && c != ' '
    requires |q| != n || (n > 1 && (q[0] == '=' || q[n - 1] == ' '))
    ensures !IsExactQuery(h, ctx, q, n)
  {
    if q == [] {
      assert Window([c], 0, 0) == q;
      assert IsSubstring(q, [c]) && !ContainsHit(h, ctx, q, [c], n);
    } else if |q| < n {
      ShortQueryMisses(h, ctx, q, n, c);
    } else if |q| > n {
      var v := LongQueryOvermatches(h, ctx, q, n, c);
    } else if q[n - 1] == ' ' {
      var v := TrailingSpaceOvermatches(h, ctx, q, n);
    } else {
      EqualsSignOvermatches(h, ctx, q, n);
    }
  }

  /**
   A query finds exactly the values it occurs in, whatever the values, if and only if it has `n`
   characters and, for `n` above one, neither starts with an equals sign nor ends in a space.
   */
  lemma ContainsSearchIsExactIff(h: Hash, ctx: Context, q: string, n: nat, c: char)
    requires IsInjective(h) && n >= 1 && c !in q && c != ' '
    ensures IsExactQuery(h, ctx, q, n) <==> |q| == n && (n == 1 || (q[0] != '=' && q[n - 1] != ' '))
  {
    if |q| == n && (n == 1 || (q[0] != '=' && q[n - 1] != ' ')) {
      forall v | v != [] ensures ContainsHit(h, ctx, q, v, n) <==> IsSubstring(q, v) {
        FullQueryIsExact(h, ctx, q, v, n);
      }
    } else {
      InexactQuery(h, ctx, q, n, c);
    }
  }

  // ---------- prefix search ----------

  lemma TokensOfAPrefixAreStored(p: string, v: string, n: nat)
    requires n >= 1 && p != [] && p <= v
    ensures Prefixes(p, n) <= Stored(v, n) && PrefixToken(p, n, 1) in Prefixes(p, n)
  {
    forall t | t in Prefixes(p, n) ensures t in Stored(v, n) {
      var len :| 1 <= len <= Min(|p|, 3 * n) && PrefixToken(p, n, len) == t;
      assert p[..len] == v[..len];
      assert PrefixToken(v, n, len) == t;
    }
  }

  lemma SharedTokenMeets(h: Hash, ctx: Context, ts: set<string>, us: set<string>, t: string)
    requires t in ts && t in us
    ensures Hashes(h, ctx, ts) * Hashes(h, ctx, us) != {}
  {
    assert HashOf(h, ctx, t) in Hashes(h, ctx, ts) * Hashes(h, ctx, us);
  }

  /** Completeness of autocomplete: under any hash a non-empty query finds every value it is a prefix of. */
  lemma PrefixSearchIsComplete(h: Hash, ctx: Context, p: string, v: string, n: nat)
    requires n >= 1 && p != [] && p <= v
    ensures PrefixHit(h, ctx, p, v, n)
    ensures Hashes(h, ctx, Prefixes(p, n)) <= Hashes(h, ctx, Stored(v, n))
  {
    TokensOfAPrefixAreStored(p, v, n);
    HashesKeepSubset(h, ctx, Prefixes(p, n), Stored(v, n));
    SharedTokenMeets(h, ctx, Prefixes(p, n), Stored(v, n), PrefixToken(p, n, 1));
  }

  /** Whether two hash sets meet is whether the token sets do. */
  lemma HashesReflectMeeting(h: Hash, ctx: Context, ts: set<string>, us: set<string>)
    requires IsInjective(h)
    ensures Hashes(h, ctx, ts) * Hashes(h, ctx, us) != {} <==> ts * us != {}
  {
    if x :| x in Hashes(h, ctx, ts) * Hashes(h, ctx, us) {
      var t :| t in ts && HashOf(h, ctx, t) == x;
      HashesReflectMember(h, ctx, us, t);
      assert t in ts * us;
    }
    if t :| t in ts * us {
      SharedTokenMeets(h, ctx, ts, us, t);
    }
  }

  /** The prefix tokens of a query are its first characters, padded. */
  lemma PrefixTokensArePadded(p: string, n: nat)
    requires n >= 1
    ensures forall t :: t in Prefixes(p, n) <==> exists l :: 1 <= l <= Min(|p|, n) && PadEnd(p[..l], n) == t
  {
    forall len | 1 <= len <= Min(|p|, 3 * n) ensures PrefixToken(p, n, len) == PadEnd(p[..Min(len, n)], n) {
      PrefixTokenShape(p, n, len);
    }
    forall t | t in Prefixes(p, n) ensures exists l :: 1 <= l <= Min(|p|, n) && PadEnd(p[..l], n) == t {
      var len :| 1 <= len <= Min(|p|, 3 * n) && PrefixToken(p, n, len) == t;
      assert PadEnd(p[..Min(len, n)], n) == t;
    }
    forall l | 1 <= l <= Min(|p|, n) ensures PadEnd(p[..l], n) in Prefixes(p, n) {
      assert PrefixToken(p, n, l) == PadEnd(p[..l], n);
    }
  }

  /**
   One of the padded beginnings of the query, up to `n` characters, occurs in the padded value or is
   its equality token.
   */
  predicate SomeBeginningOccurs(p: string, v: string, n: nat) {
    exists l :: 1 <= l <= Min(|p|, n) && OccursPadded(p[..l], v, n)
  }

  lemma StartsLikeBeginning(v: string, p: string, l: nat)
    requires 1 <= l <= |p| && StartsLike(v, p[..l])
    ensures v != [] && v[0] == p[0]
  {
    var r := RTrim(p[..l]);
    assert p[..l][0] == p[0];
    assert r != [] ==> r[0] == p[0];
  }

  lemma BeginningIsStored(p: string, v: string, n: nat, l: nat)
    requires 1 <= l <= Min(|p|, n) && v != []
    ensures PadEnd(p[..l], n) in Stored(v, n) ==> OccursPadded(p[..l], v, n) || v[0] == p[0]
    ensures OccursPadded(p[..l], v, n) ==> PadEnd(p[..l], n) in Stored(v, n)
  {
    StoredIff(v, p[..l], n);
    if StartsLike(v, p[..l]) {
      StartsLikeBeginning(v, p, l);
    }
  }

  lemma FirstCharacterIsStored(p: string, v: string, n: nat)
    requires n >= 1 && p != [] && v != [] && v[0] == p[0]
    ensures PadEnd(p[..1], n) in Stored(v, n)
  {
    StoredIff(v, p[..1], n);
    assert p[..1] == [p[0]] && (p[0] != ' ' ==> RTrim(p[..1]) == p[..1]);
    assert StartsLike(v, p[..1]);
  }

  lemma PrefixTokensMeetIff(p: string, v: string, n: nat)
    requires n >= 1 && p != [] && v != []
    ensures Prefixes(p, n) * Stored(v, n) != {} <==> v[0] == p[0] || SomeBeginningOccurs(p, v, n)
  {
    PrefixTokensArePadded(p, n);
    if t :| t in Prefixes(p, n) * Stored(v, n) {
      var l :| 1 <= l <= Min(|p|, n) && PadEnd(p[..l], n) == t;
      BeginningIsStored(p, v, n, l);
    }
    if v[0] == p[0] {
      FirstCharacterIsStored(p, v, n);
      assert PadEnd(p[..1], n) in Prefixes(p, n) * Stored(v, n);
    }
    if l :| 1 <= l <= Min(|p|, n) && OccursPadded(p[..l], v, n) {
      BeginningIsStored(p, v, n, l);
      assert PadEnd(p[..l], n) in Prefixes(p, n) * Stored(v, n);
    }
  }

  /**
   Autocomplete finds a value exactly when the first characters agree or some beginning of the
   query, padded, occurs in it: it asks for any one of the query's tokens, not for all.
   */
  lemma PrefixSearchFinds(h: Hash, ctx: Context, p: string, v: string, n: nat)
    requires IsInjective(h) && n >= 1 && p != [] && v != []
    ensures PrefixHit(h, ctx, p, v, n) <==> v[0] == p[0] || SomeBeginningOccurs(p, v, n)
  {
    HashesReflectMeeting(h, ctx, Prefixes(p, n), Stored(v, n));
    PrefixTokensMeetIff(p, v, n);
  }

  /** No query is safe: for each there is a value that autocomplete finds although the query is no prefix of it. */
  lemma PrefixSearchOvermatches(h: Hash, ctx: Context, p: string, n: nat) returns (v: string)
    requires IsInjective(h) && n >= 1 && p != []
    ensures v != [] && PrefixHit(h, ctx, p, v, n) && !(p <= v)
  {
    if |p| > 1 {
      v := p[..1];
    } else {
      v := [if p[0] == 'a' then 'b' else 'a'] + PadEnd(p, n);
      assert Window(PadEnd(v, n), 1, n) == PadEnd(p, n);
      assert p[..1] == p;
      assert OccursPadded(p[..1], v, n);
    }
    PrefixSearchFinds(h, ctx, p, v, n);
  }

  /** Text as a user types it: not empty, no space at either end, no two in a row. */
  predicate IsTidy(s: string) {
    && s != [] && s[0] != ' ' && s[|s| - 1] != ' '
    && forall i :: 0 <= i && i + 2 <= |s| ==> Window(s, i, 2) != "  "
  }

  lemma NoTwoSpaces(s: string, i: nat)
    requires IsTidy(s) && i + 2 <= |s|
    ensures s[i] != ' ' || s[i + 1] != ' '
  {
    assert Window(s, i, 2) == [s[i], s[i + 1]];
  }

  lemma OneCharacterIsExact(a: char, v: string, n: nat)
    requires n >= 3 && a != ' ' && IsTidy(v) && OccursPadded([a], v, n)
    ensures v[0] == a
  {
    var t, p := PadEnd([a], n), PadEnd(v, n);
    assert EqualityToken(v)[|v|] != ' ' && t[n - 1] == ' ';
    var i :| 0 <= i && i + n <= |p| && Window(p, i, n) == t;
    assert p[i] == t[0] == a && p[i + 1] == t[1] == ' ' && p[i + 2] == t[2] == ' ';
    if i + 3 <= |v| {
      NoTwoSpaces(v, i + 1);
    }
  }

  lemma TidyOvermatch(h: Hash, ctx: Context, a: char, v: string, n: nat)
    requires IsInjective(h) && n >= 1 && n + 1 <= |v| && v[0] != a && IsTidy(v)
    requires Window(v, 1, n) == PadEnd([a], n)
    ensures PrefixHit(h, ctx, [a], v, n) && !([a] <= v)
  {
    assert [a][..1] == [a] && PadEnd(v, n) == v && |PadEnd([a], n)| == n;
    assert Window(v, 1, |PadEnd([a], n)|) == PadEnd([a], n);
    assert OccursPadded([a][..1], v, n);
    PrefixSearchFinds(h, ctx, [a], v, n);
  }

  /** The tidy value that a one-character query finds with n-grams of one or two characters. */
  lemma SmallGramsOvermatch(h: Hash, ctx: Context, a: char, n: nat) returns (v: string)
    requires IsInjective(h) && 1 <= n <= 2 && a != ' '
    ensures IsTidy(v) && PrefixHit(h, ctx, [a], v, n) && !([a] <= v)
  {
    var c := if a == 'x' then 'y' else 'x';
    if n == 1 {
      v := [c, a];
      assert Window(v, 1, 1) == [a] == PadEnd([a], 1);
    } else {
      v := [c, a, ' ', c];
      assert Window(v, 1, 2) == [a, ' '] == PadEnd([a], 2);
    }
    forall i | 0 <= i && i + 2 <= |v| ensures Window(v, i, 2) != "  " {
      assert Window(v, i, 2) == [v[i], v[i + 1]];
    }
    TidyOvermatch(h, ctx, a, v, n);
  }

  lemma OneCharacterQueryIsExact(h: Hash, ctx: Context, p: string, v: string, n: nat)
    requires IsInjective(h) && n >= 3 && |p| == 1 && IsTidy(p) && IsTidy(v)
    ensures PrefixHit(h, ctx, p, v, n) <==> p <= v
  {
    PrefixSearchFinds(h, ctx, p, v, n);
    if l :| 1 <= l <= Min(|p|, n) && OccursPadded(p[..l], v, n) {
      assert p[..l] == p == [p[0]];
      OneCharacterIsExact(p[0], v, n);
    }
  }

  ghost predicate IsExactPrefixQuery(h: Hash, ctx: Context, p: string, n: nat)
    requires n >= 1
  {
    forall v :: IsTidy(v) ==> (PrefixHit(h, ctx, p, v, n) <==> p <= v)
  }

  /**
   Over tidy values autocomplete is exact if and only if the query has one character and n-grams have
   three or more.
   */
  lemma PrefixSearchIsExactIff(h: Hash, ctx: Context, p: string, n: nat)
    requires IsInjective(h) && n >= 1 && IsTidy(p)
    ensures IsExactPrefixQuery(h, ctx, p, n) <==> |p| == 1 && n >= 3
  {
    if |p| > 1 {
      var v := p[..1];
      PrefixSearchFinds(h, ctx, p, v, n);
      assert IsTidy(v) && PrefixHit(h, ctx, p, v, n) && !(p <= v);
    } else {
      assert p == [p[0]];
      if n < 3 {
        var v := SmallGramsOvermatch(h, ctx, p[0], n);
      } else {
        forall v | IsTidy(v) ensures PrefixHit(h, ctx, p, v, n) <==> p <= v {
          OneCharacterQueryIsExact(h, ctx, p, v, n);
        }
      }
    }
  }

  /**
   All prefix tokens of a query are prefix tokens of a value exactly when the value starts like its
   first `n` characters.
   */
  lemma AllPrefixTokensAgree(h: Hash, ctx: Context, p: string, v: string, n: nat)
    requires IsInjective(h) && n >= 1 && p != []
    ensures Hashes(h, ctx, Prefixes(p, n)) <= Hashes(h, ctx, Prefixes(v, n)) <==> StartsLike(v, p[..Min(|p|, n)])
  {
    var start := p[..Min(|p|, n)];
    HashesReflectSubset(h, ctx, Prefixes(p, n), Prefixes(v, n));
    PrefixTokensArePadded(p, n);
    PrefixTokenIff(v, start, n);
    if StartsLike(v, start) {
      forall t | t in Prefixes(p, n) ensures t in Prefixes(v, n) {
        var l :| 1 <= l <= Min(|p|, n) && PadEnd(p[..l], n) == t;
        assert start[..l] == p[..l];
        ShorterBeginningsAgree(v, start, l);
        PrefixTokenIff(v, p[..l], n);
      }
    }
  }

  lemma ShorterBeginningsAgree(v: string, s: string, l: nat)
    requires 1 <= l <= |s| && StartsLike(v, s)
    ensures StartsLike(v, s[..l])
  {
    var r, k := RTrim(s), RTrim(s[..l]);
    assert s[..l][0] == s[0];
    if k == [] {
      assert s[0] == ' ';
    } else {
      assert s[|k| - 1] == s[..l][|k| - 1] == k[|k| - 1] != ' ';
      assert |k| <= |r|;
      assert k == r[..|k|];
    }
  }

  // ---------- equality search ----------

  /**
   Equality lookup finds the equal value, and besides it the values that hold "=query" as a token of
   `n` characters.
   */
  lemma EqualitySearchFinds(h: Hash, ctx: Context, q: string, v: string, n: nat)
    requires IsInjective(h) && n >= 1 && q != [] && v != []
    ensures EqualityHit(h, ctx, q, v, n) <==>
      q == v || (|q| + 1 == n && (OccursPadded("=" + q, v, n) || StartsLike(v, "=" + q)))
  {
    var t := EqualityToken(q);
    HashesReflectMember(h, ctx, Stored(v, n), t);
    assert t[1..] == q && EqualityToken(v)[1..] == v;
    if |t| == n {
      StoredIff(v, t, n);
    } else {
      GramsAreSubstrings(v, n, t);
    }
  }

  ghost predicate IsExactEqualityQuery(h: Hash, ctx: Context, q: string, n: nat)
    requires n >= 1
  {
    forall v :: v != [] ==> (EqualityHit(h, ctx, q, v, n) <==> q == v)
  }

  lemma EqualityOvermatches(h: Hash, ctx: Context, q: string, n: nat)
    requires IsInjective(h) && q != [] && |q| + 1 == n
    ensures EqualityHit(h, ctx, q, "=" + q, n)
  {
    var v := "=" + q;
    EqualitySearchFinds(h, ctx, q, v, n);
    PrefixesAreSubstrings(PadEnd(v, n), PadEnd(v, n));
  }

  /**
   It finds the equal value alone, whatever the values, if and only if the query is empty or
   "=query" is no n-gram by its length.
   */
  lemma EqualitySearchIsExactIff(h: Hash, ctx: Context, q: string, n: nat)
    requires IsInjective(h) && n >= 1
    ensures IsExactEqualityQuery(h, ctx, q, n) <==> q == [] || |q| + 1 != n
  {
    if q != [] && |q| + 1 == n {
      EqualityOvermatches(h, ctx, q, n);
      assert |"=" + q| != |q|;
    } else {
      forall v | v != [] ensures EqualityHit(h, ctx, q, v, n) <==> q == v {
        if q != [] {
          EqualitySearchFinds(h, ctx, q, v, n);
        }
      }
    }
  }

  // ---------- fuzzy search ----------

  lemma SomeGram(v: string, n: nat)
    requires n >= 1 && v != []
    ensures Grams(v, n) != {}
  {
    var p := PadEnd(v, n);
    var g := Window(p, 0, n);
    assert Window(p, 0, |g|) == g;
    GramsAreSubstrings(v, n, g);
  }

  lemma ScoreOfPart(a: set<string>, b: set<string>)
    requires a != {} && a < b
    ensures b != {} && Score(a, b) == |a| as real / |b| as real < 1.0
  {
    assert a * b == a && a + b == b;
    PerfectScoreMeansEqual(a, b);
    ScoreIsAFraction(a, b);
  }

  /** A value never scores 1 for itself: its n-grams are compared with all that is stored for it. */
  lemma OwnScore(h: Hash, ctx: Context, v: string, n: nat)
    requires IsInjective(h) && n >= 1 && v != []
    ensures Stored(v, n) != {}
    ensures Score(Hashes(h, ctx, Grams(v, n)), Hashes(h, ctx, Stored(v, n)))
         == |Grams(v, n)| as real / |Stored(v, n)| as real < 1.0
  {
    var g, s := Hashes(h, ctx, Grams(v, n)), Hashes(h, ctx, Stored(v, n));
    SomeGram(v, n);
    EqualityTokenIsNew(v, n);
    HashesKeepSize(h, ctx, Grams(v, n));
    HashesKeepSize(h, ctx, Stored(v, n));
    HashesReflectSubset(h, ctx, Grams(v, n), Stored(v, n));
    HashesReflectSubset(h, ctx, Stored(v, n), Grams(v, n));
    ScoreOfPart(g, s);
  }

  /** The score from which fuzzy lookup returns a value, unless the caller asks for another one. */
  const MIN_SCORE := 0.4

  lemma StoredSize(v: string, n: nat)
    requires n >= 1 && v != []
    ensures |Stored(v, n)| == |Grams(v, n)| + |Prefixes(v, n) - Grams(v, n)| + 1
  {
    EqualityTokenIsNew(v, n);
    UnionSize(Grams(v, n), Prefixes(v, n), EqualityToken(v));
  }

  lemma SignOfProduct(x: real, y: real)
    requires y > 0.0
    ensures x * y >= 0.0 <==> x >= 0.0
  {
  }

  lemma TwoFifths(score: real, part: nat, whole: nat)
    requires whole > 0 && score == part as real / whole as real
    ensures score >= MIN_SCORE <==> 5 * part >= 2 * whole
  {
    var w := whole as real;
    assert score * w == part as real;
    assert (score - MIN_SCORE) * w == part as real - MIN_SCORE * w;
    SignOfProduct(score - MIN_SCORE, w);
  }

  lemma FindsItselfByCounts(h: Hash, ctx: Context, v: string, n: nat)
    requires IsInjective(h) && n >= 1 && v != []
    ensures FuzzyHit(h, ctx, v, v, n, MIN_SCORE) <==> 5 * |Grams(v, n)| >= 2 * |Stored(v, n)|
  {
    var score := Score(Hashes(h, ctx, Grams(v, n)), Hashes(h, ctx, Stored(v, n)));
    OwnScore(h, ctx, v, n);
    TwoFifths(score, |Grams(v, n)|, |Stored(v, n)|);
  }

  /**
   Fuzzy lookup of a value finds that value, at the default score, if and only if three times its
   n-grams are at least twice its other tokens: the prefixes that are no n-grams, and the equality token.
   */
  lemma FuzzyFindsItselfIff(h: Hash, ctx: Context, v: string, n: nat)
    requires IsInjective(h) && n >= 1 && v != []
    ensures FuzzyHit(h, ctx, v, v, n, MIN_SCORE) <==>
      3 * |Grams(v, n)| >= 2 * (|Prefixes(v, n) - Grams(v, n)| + 1)
  {
    var part, whole := |Grams(v, n)|, |Stored(v, n)|;
    assert whole == part + |Prefixes(v, n) - Grams(v, n)| + 1 by {
      StoredSize(v, n);
    }
    assert FuzzyHit(h, ctx, v, v, n, MIN_SCORE) <==> 5 * part >= 2 * whole by {
      FindsItselfByCounts(h, ctx, v, n);
    }
  }

  // ---------- values without spaces ----------

  /** The padded beginnings of a value, up to length `k`. */
  function Beginnings(v: string, n: nat, k: nat): set<string>
    requires k <= |v|
  {
    set l | 1 <= l <= k :: PadEnd(v[..l], n)
  }

  lemma OneMoreBeginning(v: string, n: nat, k: nat)
    requires 1 <= k <= |v|
    ensures Beginnings(v, n, k) == Beginnings(v, n, k - 1) + {PadEnd(v[..k], n)}
  {
    assert PadEnd(v[..k], n) in Beginnings(v, n, k);
  }

  lemma PrefixesAreBeginnings(v: string, n: nat)
    requires n >= 1
    ensures Prefixes(v, n) == Beginnings(v, n, Min(|v|, n))
  {
    PrefixTokensArePadded(v, n);
  }

  /** Without spaces the padding tells how long a beginning is. */
  lemma LongerBeginningDiffers(v: string, n: nat, l: nat, k: nat)
    requires ' ' !in v && l < k <= Min(|v|, n)
    ensures PadEnd(v[..l], n) != PadEnd(v[..k], n)
  {
    assert PadEnd(v[..l], n)[k - 1] == ' ';
    assert PadEnd(v[..k], n)[k - 1] == v[k - 1];
  }

  lemma NextBeginningIsNew(v: string, n: nat, k: nat)
    requires ' ' !in v && 1 <= k <= Min(|v|, n)
    ensures PadEnd(v[..k], n) !in Beginnings(v, n, k - 1)
  {
    forall l | 1 <= l <= k - 1 ensures PadEnd(v[..l], n) != PadEnd(v[..k], n) {
      LongerBeginningDiffers(v, n, l, k);
    }
  }

  lemma {:induction false} BeginningsSize(v: string, n: nat, k: nat)
    requires ' ' !in v && k <= Min(|v|, n)
    ensures |Beginnings(v, n, k)| == k
  {
    if k > 0 {
      var shorter, t := Beginnings(v, n, k - 1), PadEnd(v[..k], n);
      BeginningsSize(v, n, k - 1);
      assert Beginnings(v, n, k) == shorter + {t} && t !in shorter by {
        OneMoreBeginning(v, n, k);
        NextBeginningIsNew(v, n, k);
      }
    }
  }

  /** Of the beginnings only the longest is an n-gram. */
  lemma BeginningIsGramIff(v: string, n: nat, l: nat)
    requires n >= 1 && ' ' !in v && 1 <= l <= Min(|v|, n)
    ensures PadEnd(v[..l], n) in Grams(v, n) <==> l == Min(|v|, n)
  {
    var t, p := PadEnd(v[..l], n), PadEnd(v, n);
    GramsAreSubstrings(v, n, t);
    if l == Min(|v|, n) {
      assert Window(p, 0, n) == t;
    } else if |v| < n {
      SubstringOfItsLength(t, p);
      assert v[..|v|] == v;
      LongerBeginningDiffers(v, n, l, |v|);
    } else {
      assert t[n - 1] == ' ' && p == v;
      forall i | 0 <= i && i + n <= |p| ensures Window(p, i, n) != t {
        assert Window(p, i, n)[n - 1] == v[i + n - 1];
      }
    }
  }

  lemma ShorterBeginningsAreNoGrams(v: string, n: nat)
    requires n >= 1 && v != [] && ' ' !in v
    ensures Beginnings(v, n, Min(|v|, n) - 1) !! Grams(v, n)
  {
    var k := Min(|v|, n);
    forall t | t in Beginnings(v, n, k - 1) ensures t !in Grams(v, n) {
      var l :| 1 <= l <= k - 1 && PadEnd(v[..l], n) == t;
      BeginningIsGramIff(v, n, l);
    }
  }

  lemma BeginningsBesideGrams(v: string, n: nat)
    requires n >= 1 && v != [] && ' ' !in v
    ensures |Prefixes(v, n) - Grams(v, n)| + 1 == Min(|v|, n)
  {
    var k := Min(|v|, n);
    var shorter, t, grams := Beginnings(v, n, k - 1), PadEnd(v[..k], n), Grams(v, n);
    assert Prefixes(v, n) == shorter + {t} by {
      PrefixesAreBeginnings(v, n);
      OneMoreBeginning(v, n, k);
    }
    assert shorter !! grams && t in grams by {
      ShorterBeginningsAreNoGrams(v, n);
      BeginningIsGramIff(v, n, k);
    }
    DropSharedElement(shorter, t, grams);
    BeginningsSize(v, n, k - 1);
  }

  /**
   A value without spaces finds itself if and only if three times its different n-grams are at
   least twice its length, where no more than `n` characters count.
   */
  lemma UnspacedFindsItselfIff(h: Hash, ctx: Context, v: string, n: nat)
    requires IsInjective(h) && n >= 1 && v != [] && ' ' !in v
    ensures FuzzyHit(h, ctx, v, v, n, MIN_SCORE) <==> 3 * |Grams(v, n)| >= 2 * Min(|v|, n)
  {
    FuzzyFindsItselfIff(h, ctx, v, n);
    BeginningsBesideGrams(v, n);
  }

  lemma {:induction false} WindowsSize(s: string, n: nat, k: nat)
    requires k == 0 || k + n <= |s| + 1
    ensures |Windows(s, n, k)| <= k
  {
    if k > 0 {
      WindowsSize(s, n, k - 1);
      OneMoreWindow(s, n, k - 1);
    }
  }

  lemma GramsSize(v: string, n: nat)
    requires n >= 1 && v != []
    ensures |Grams(v, n)| <= Max(1, |v| - n + 1)
  {
    var p := PadEnd(v, n);
    WindowsSize(p, n, |p| - n + 1);
  }

  /** By its length alone: such a value does not find itself, whatever its characters. */
  lemma TooShortToFindItself(h: Hash, ctx: Context, v: string, n: nat)
    requires IsInjective(h) && n >= 1 && v != [] && ' ' !in v
    requires 3 * Max(1, |v| - n + 1) < 2 * Min(|v|, n)
    ensures !FuzzyHit(h, ctx, v, v, n, MIN_SCORE)
  {
    UnspacedFindsItselfIff(h, ctx, v, n);
    GramsSize(v, n);
  }

  lemma RepetitionHasOneGram(v: string, n: nat, c: char)
    requires n >= 1 && v != [] && forall i :: 0 <= i < |v| ==> v[i] == c
    ensures |Grams(v, n)| <= 1
  {
    var p := PadEnd(v, n);
    var first := Window(p, 0, n);
    forall g | g in Grams(v, n) ensures g == first {
      GramsAreSubstrings(v, n, g);
      var i :| 0 <= i && i + |g| <= |p| && Window(p, i, |g|) == g;
      assert i > 0 ==> p == v;
    }
    SubsetSize(Grams(v, n), {first});
  }

  /** By its characters: one repeated character never does, at any length above one, for `n` above one. */
  lemma RepetitionMissesItself(h: Hash, ctx: Context, v: string, n: nat, c: char)
    requires IsInjective(h) && n >= 2 && |v| >= 2 && c != ' ' && forall i :: 0 <= i < |v| ==> v[i] == c
    ensures !FuzzyHit(h, ctx, v, v, n, MIN_SCORE)
  {
    UnspacedFindsItselfIff(h, ctx, v, n);
    RepetitionHasOneGram(v, n, c);
  }

  /** The first character of a value, padded, is stored and is not the padded value. */
  lemma FirstTokenIsOneMore(v: string, n: nat)
    requires IsTidy(v) && 2 <= |v| <= n
    ensures PadEnd(v[..1], n) in Prefixes(v, n) && PadEnd(v[..1], n) != PadEnd(v, n)
  {
    var first := v[..1];
    assert RTrim(first) == first;
    PrefixTokenIff(v, first, n);
    assert PadEnd(v, n)[|v| - 1] == v[|v| - 1] != ' ';
    assert PadEnd(first, n)[|v| - 1] == ' ';
  }

  /** Inner spaces or not, fuzzy lookup of a value of two to `n` characters does not find that value. */
  lemma ShortValueMissesItself(h: Hash, ctx: Context, v: string, n: nat)
    requires IsInjective(h) && IsTidy(v) && 2 <= |v| <= n
    ensures !FuzzyHit(h, ctx, v, v, n, MIN_SCORE)
  {
    FuzzyFindsItselfIff(h, ctx, v, n);
    ShortQueryHasOneGram(v, n);
    FirstTokenIsOneMore(v, n);
    SubsetSize({PadEnd(v[..1], n)}, Prefixes(v, n) - Grams(v, n));
  }
}
