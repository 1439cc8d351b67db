/**
 The tokens of the blind search index: n-grams, prefixes and the equality token of normalized
 text, hashed with their context. The keyed hash is a parameter; normalized text is taken as
 input.
 */
module BlindIndex {
  import opened FiniteSets
  import opened NulJoined
  import opened Wrappers

  // ---------- tokens ----------

  function PadEnd(s: string, n: nat): (p: string)
    ensures |p| == if |s| < n then n else |s|
    ensures s <= p
    ensures forall k :: |s| <= k < |p| ==> p[k] == ' '
    decreases n - |s|
  {
    if |s| >= n then s else PadEnd(s + [' '], n)
  }

  function Window(s: string, i: nat, n: nat): string
    requires i + n <= |s|
  {
    s[i..i + n]
  }

  /** The windows of length `n` that start before `k`. */
  function Windows(s: string, n: nat, k: nat): set<string>
    requires k == 0 || k + n <= |s| + 1
  {
    set i | 0 <= i < k :: Window(s, i, n)
  }

  lemma OneMoreWindow(s: string, n: nat, k: nat)
    requires k + n <= |s|
    ensures Windows(s, n, k + 1) == Windows(s, n, k) + {Window(s, k, n)}
  {
    assert Window(s, k, n) in Windows(s, n, k + 1);
  }

  /** The n-grams of a value: all its windows, a short value padded with spaces. */
  function Grams(s: string, n: nat): set<string>
    requires n >= 1
  {
    if s == [] then {} else var p := PadEnd(s, n); Windows(p, n, |p| - n + 1)
  }

  predicate IsSubstring(q: string, v: string) {
    exists i :: 0 <= i && i + |q| <= |v| && Window(v, i, |q|) == q
  }

  lemma WindowsAreSubstrings(p: string, n: nat, g: string)
    requires n <= |p|
    ensures g in Windows(p, n, |p| - n + 1) <==> |g| == n && IsSubstring(g, p)
  {
    if |g| == n && IsSubstring(g, p) {
      var i :| 0 <= i && i + |g| <= |p| && Window(p, i, |g|) == g;
      assert Window(p, i, n) == g;
    }
    if i :| 0 <= i < |p| - n + 1 && Window(p, i, n) == g {
      assert Window(p, i, |g|) == g;
    }
  }

  lemma GramsAreSubstrings(s: string, n: nat, g: string)
    requires n >= 1 && s != []
    ensures g in Grams(s, n) <==> |g| == n && IsSubstring(g, PadEnd(s, n))
  {
    WindowsAreSubstrings(PadEnd(s, n), n, g);
  }

  /** `Set.add` on a set kept in insertion order. */
  method AddDistinct(s: seq<string>, x: string) returns (r: seq<string>)
    requires IsDistinct(s)
    ensures Elements(r) == Elements(s) + {x} && IsDistinct(r) && s <= r
  {
    r := if x in s then s else s + [x];
  }

  /** One n-gram per window, duplicates dropped, in order of appearance. */
  method GenerateNgrams(normalized: string, ngramSize: int) returns (grams: seq<string>)
    ensures Elements(grams) == Grams(normalized, Max(1, ngramSize))
    ensures IsDistinct(grams)
  {
    grams := [];
    if |normalized| == 0 {
      return;
    }
    var n := if ngramSize > 1 then ngramSize else 1;
    var padded := PadEnd(normalized, n);
    var i := 0;
    while i <= |padded| - n
      invariant 0 <= i <= |padded| - n + 1
      invariant Elements(grams) == Windows(padded, n, i)
      invariant IsDistinct(grams)
    {
      var g := Window(padded, i, n);
      OneMoreWindow(padded, n, i);
      grams := AddDistinct(grams, g);
      i := i + 1;
    }
  }

  function CutOrPad(slice: string, n: nat): (t: string)
    ensures |t| == n
  {
    if |slice| >= n then slice[..n] else PadEnd(slice, n)
  }

  /** The prefix token of length `len`: cut or padded to `n` characters. */
  function PrefixToken(s: string, n: nat, len: nat): (t: string)
    requires len <= |s|
    ensures |t| == n
  {
    CutOrPad(s[..len], n)
  }

  function PrefixSet(s: string, n: nat, k: nat): set<string>
    requires k <= |s|
  {
    set len | 1 <= len <= k :: PrefixToken(s, n, len)
  }

  lemma OneMorePrefix(s: string, n: nat, k: nat)
    requires k < |s|
    ensures PrefixSet(s, n, k + 1) == PrefixSet(s, n, k) + {PrefixToken(s, n, k + 1)}
  {
    assert PrefixToken(s, n, k + 1) in PrefixSet(s, n, k + 1);
  }

  /** The prefix tokens of a value. */
  function Prefixes(s: string, n: nat): set<string> {
    PrefixSet(s, n, Min(|s|, 3 * n))
  }

  method PrefixTokens(normalized: string, ngramSize: int) returns (tokens: seq<string>)
    ensures Elements(tokens) == Prefixes(normalized, Max(1, ngramSize))
    ensures IsDistinct(tokens)
  {
    tokens := [];
    if |normalized| == 0 {
      return;
    }
    var n: nat := if ngramSize > 1 then ngramSize else 1;
    var maxLen := Min(|normalized|, 3 * n);
    var len := 1;
    while len <= maxLen
      invariant 1 <= len <= maxLen + 1
      invariant Elements(tokens) == PrefixSet(normalized, n, len - 1)
      invariant IsDistinct(tokens)
    {
      var slice := normalized[..len];
      OneMorePrefix(normalized, n, len - 1);
      tokens := AddDistinct(tokens, CutOrPad(slice, n));
      len := len + 1;
    }
  }

  // ---------- hashing ----------

  datatype Context = Context(tenant: string, table: string, field: string)

  function Material(ctx: Context, token: string): string {
    ctx.tenant + [NUL] + ctx.table + [NUL] + ctx.field + [NUL] + token
  }

  type Hash = string -> string

  function HashOf(h: Hash, ctx: Context, token: string): string {
    h(Material(ctx, token))
  }

  function Hashes(h: Hash, ctx: Context, tokens: set<string>): set<string> {
    set t | t in tokens :: HashOf(h, ctx, t)
  }

  ghost predicate IsInjective(h: Hash) {
    forall a, b :: h(a) == h(b) ==> a == b
  }

  predicate IsClean(ctx: Context) {
    NulFree(ctx.tenant) && NulFree(ctx.table) && NulFree(ctx.field)
  }

  lemma MaterialNests(ctx: Context, token: string)
    ensures Material(ctx, token) == ctx.tenant + [NUL] + (ctx.table + [NUL] + (ctx.field + [NUL] + token))
  {
  }

  /** The hashed material determines context and token when the three context parts hold no NUL; the token may. */
  lemma MaterialIsInjective(c: Context, t: string, d: Context, u: string)
    requires IsClean(c) && IsClean(d) && Material(c, t) == Material(d, u)
    ensures c == d && t == u
  {
    MaterialNests(c, t);
    MaterialNests(d, u);
    var inC, inD := c.field + [NUL] + t, d.field + [NUL] + u;
    SplitAtNul(c.tenant, c.table + [NUL] + inC, d.tenant, d.table + [NUL] + inD);
    SplitAtNul(c.table, inC, d.table, inD);
    SplitAtNul(c.field, t, d.field, u);
  }

  /** Token hashes of different tenants, tables or fields never meet, so a query only finds values of its own column. */
  lemma ContextsAreSeparate(h: Hash, c: Context, ts: set<string>, d: Context, us: set<string>)
    requires IsInjective(h) && IsClean(c) && IsClean(d) && c != d
    ensures Hashes(h, c, ts) * Hashes(h, d, us) == {}
  {
    forall x | x in Hashes(h, c, ts) && x in Hashes(h, d, us) ensures false {
      var t :| t in ts && HashOf(h, c, t) == x;
      var u :| u in us && HashOf(h, d, u) == x;
      MaterialIsInjective(c, t, d, u);
    }
  }

  lemma HashesKeepSubset(h: Hash, ctx: Context, ts: set<string>, us: set<string>)
    requires ts <= us
    ensures Hashes(h, ctx, ts) <= Hashes(h, ctx, us)
  {
  }

  /** Under an injective hash, comparing hash sets is comparing token sets. */
  lemma HashesReflectSubset(h: Hash, ctx: Context, ts: set<string>, us: set<string>)
    requires IsInjective(h)
    ensures Hashes(h, ctx, ts) <= Hashes(h, ctx, us) <==> ts <= us
  {
    if Hashes(h, ctx, ts) <= Hashes(h, ctx, us) {
      forall t | t in ts ensures t in us {
        assert HashOf(h, ctx, t) in Hashes(h, ctx, ts);
        var u :| u in us && HashOf(h, ctx, u) == HashOf(h, ctx, t);
        var head := ctx.tenant + [NUL] + ctx.table + [NUL] + ctx.field + [NUL];
        assert (head + t)[|head|..] == t && (head + u)[|head|..] == u;
      }
    }
  }

  /** A bijective image has the same size. */
  lemma {:induction false} HashesKeepSize(h: Hash, ctx: Context, ts: set<string>)
    requires IsInjective(h)
    ensures |Hashes(h, ctx, ts)| == |ts|
    decreases |ts|
  {
    if t :| t in ts {
      var rest := ts - {t};
      HashesKeepSize(h, ctx, rest);
      HashesReflectMember(h, ctx, rest, t);
      assert Hashes(h, ctx, ts) == Hashes(h, ctx, rest) + {HashOf(h, ctx, t)};
    }
  }

  lemma HashesReflectMember(h: Hash, ctx: Context, ts: set<string>, t: string)
    requires IsInjective(h)
    ensures HashOf(h, ctx, t) in Hashes(h, ctx, ts) <==> t in ts
  {
    HashesReflectSubset(h, ctx, {t}, ts);
    assert Hashes(h, ctx, {t}) == {HashOf(h, ctx, t)};
  }
}
