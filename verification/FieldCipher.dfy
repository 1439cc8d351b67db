/**
 Field encryption: `SFENC1:` envelopes bound to a scope, table and field, and the loop that
 peels nested envelopes off. AES-GCM and JSON are parameters, collected in a `Suite`.
 */
module FieldCipher {
  import opened NulJoined
  import opened Wrappers

  type Key = string

  datatype Context = Context(scope: string, table: string, field: string)

  datatype Envelope = Envelope(kv: int, sealed: string)

  /** `seal` takes key, nonce, additional data and plaintext; `unseal` fails on a wrong tag. */
  datatype Suite = Suite(
    seal: (Key, nat, string, string) -> string,
    unseal: (Key, string, string) -> Option<string>,
    toJson: Envelope -> string,
    fromJson: string -> Option<Envelope>)

  /** Authenticated encryption opens exactly under the key and additional data it was sealed with; JSON round-trips. */
  ghost predicate Ideal(suite: Suite) {
    && (forall k, iv, a, p, k', a' ::
          suite.unseal(k', a', suite.seal(k, iv, a, p)) == if k == k' && a == a' then Some(p) else None)
    && (forall e :: suite.fromJson(suite.toJson(e)) == Some(e))
  }

  datatype Error = KeyLength | NotAnEnvelope | InvalidEnvelope | Unauthentic | TooDeep

  const PREFIX := "SFENC1:"

  /** The characters that String.prototype.trim removes. */
  predicate IsSpace(c: char) {
    || '\t' <= c <= '\r' || c == ' ' || c == '\U{00A0}' || c == '\U{1680}' || '\U{2000}' <= c <= '\U{200A}'
    || c == '\U{2028}' || c == '\U{2029}' || c == '\U{202F}' || c == '\U{205F}' || c == '\U{3000}' || c == '\U{FEFF}'
  }

  predicate IsBlank(s: string) {
    forall k :: 0 <= k < |s| ==> IsSpace(s[k])
  }

  predicate IsEnvelope(stored: string) {
    PREFIX <= stored
  }

  function Aad(ctx: Context): string {
    ctx.scope + [NUL] + ctx.table + [NUL] + ctx.field
  }

  function Serialize(suite: Suite, e: Envelope): string {
    PREFIX + suite.toJson(e)
  }

  function Parse(suite: Suite, stored: string): Result<Envelope, Error> {
    if !IsEnvelope(stored) then Err(NotAnEnvelope)
    else
      match suite.fromJson(stored[|PREFIX|..])
      case None => Err(InvalidEnvelope)
      case Some(e) => Ok(e)
  }

  function EncryptField(suite: Suite, plaintext: string, key: Key, ctx: Context, kv: int, iv: nat)
    : Result<string, Error>
  {
    if IsBlank(plaintext) then Ok("")
    else if |key| != 32 then Err(KeyLength)
    else Ok(Serialize(suite, Envelope(kv, suite.seal(key, iv, Aad(ctx), plaintext))))
  }

  function DecryptField(suite: Suite, stored: string, key: Key, ctx: Context): Result<string, Error> {
    if IsBlank(stored) then Ok("")
    else
      match Parse(suite, stored)
      case Err(e) => Err(e)
      case Ok(e) =>
        match suite.unseal(key, Aad(ctx), e.sealed)
        case None => Err(Unauthentic)
        case Some(p) => Ok(p)
  }

  // ---------- blanks and answers, said literally ----------

  /** The code points of white space: tab to carriage return, blank, and the blanks outside ASCII. */
  predicate IsSpaceCode(n: int) {
    || 9 <= n <= 13 || n == 32 || n == 160 || n == 5760 || 8192 <= n <= 8202
    || n == 8232 || n == 8233 || n == 8239 || n == 8287 || n == 12288 || n == 65279
  }

  lemma SpacesAreExact(c: char)
    ensures IsSpace(c) <==> IsSpaceCode(c as int)
  {
  }

  /** Blank is what has white space only, so one visible character is enough for a value to be encrypted. */
  lemma BlanksAreExact(s: string)
    ensures IsBlank(s) <==> forall k :: 0 <= k < |s| ==> IsSpaceCode(s[k] as int)
  {
    forall k | 0 <= k < |s| ensures IsSpace(s[k]) <==> IsSpaceCode(s[k] as int) {
      SpacesAreExact(s[k]);
    }
  }

  /** A blank becomes the empty string, a key of another length than 32 is refused, all else gets the prefix. */
  lemma EncryptionAnswers(suite: Suite, plaintext: string, key: Key, ctx: Context, kv: int, iv: nat)
    ensures var c := EncryptField(suite, plaintext, key, ctx, kv, iv);
      if forall k :: 0 <= k < |plaintext| ==> IsSpaceCode(plaintext[k] as int) then c == Ok("")
      else if |key| != 32 then c == Err(KeyLength)
      else c.Ok? && "SFENC1:" <= c.value
  {
    BlanksAreExact(plaintext);
  }

  /** Decrypting tells a blank, a value without the prefix, broken JSON and a failed tag apart. */
  lemma DecryptionAnswers(suite: Suite, stored: string, key: Key, ctx: Context)
    ensures var p := DecryptField(suite, stored, key, ctx);
      if forall k :: 0 <= k < |stored| ==> IsSpaceCode(stored[k] as int) then p == Ok("")
      else if !("SFENC1:" <= stored) then p == Err(NotAnEnvelope)
      else if suite.fromJson(stored[7..]) == None then p == Err(InvalidEnvelope)
      else
        var inner := suite.unseal(key, Aad(ctx), suite.fromJson(stored[7..]).value.sealed);
        p == if inner == None then Err(Unauthentic) else Ok(inner.value)
  {
    BlanksAreExact(stored);
  }

  /** Scope, table and field in this order, with a NUL between each two. */
  lemma AadIsExact(ctx: Context)
    ensures var a, i := Aad(ctx), |ctx.scope|;
      var j := i + 1 + |ctx.table|;
      && |a| == j + 1 + |ctx.field| && a[..i] == ctx.scope && a[i + 1..j] == ctx.table && a[j + 1..] == ctx.field
      && a[i] as int == 0 && a[j] as int == 0
  {
  }

  // ---------- context binding ----------

  /** The additional data determines the context as long as scope and table hold no NUL; the field may. */
  lemma AadIsInjective(c: Context, d: Context)
    requires NulFree(c.scope) && NulFree(c.table) && NulFree(d.scope) && NulFree(d.table)
    ensures Aad(c) == Aad(d) <==> c == d
  {
    if Aad(c) == Aad(d) {
      assert Aad(c) == c.scope + [NUL] + (c.table + [NUL] + c.field);
      assert Aad(d) == d.scope + [NUL] + (d.table + [NUL] + d.field);
      SplitAtNul(c.scope, c.table + [NUL] + c.field, d.scope, d.table + [NUL] + d.field);
      SplitAtNul(c.table, c.field, d.table, d.field);
    }
  }

  /** With a NUL in a scope or table two contexts can share their additional data. */
  lemma NulInATableCollides(a: string, b: string, c: string, d: string)
    ensures var x, y := Context(a + [NUL] + b, c, d), Context(a, b + [NUL] + c, d); x != y && Aad(x) == Aad(y)
  {
  }

  predicate IsClean(c: Context) {
    NulFree(c.scope) && NulFree(c.table) && NulFree(c.field)
  }

  lemma CleanContextIsUnique(c: Context, d: Context)
    requires IsClean(c) && Aad(c) == Aad(d)
    ensures c == d
  {
    var s, i, j := Aad(c), |c.scope|, |c.scope| + 1 + |c.table|;
    forall k | 0 <= k < |s| && k != i && k != j ensures s[k] != NUL {
      assert k < i ==> s[k] == c.scope[k];
      assert i < k < j ==> s[k] == c.table[k - i - 1];
      assert j < k ==> s[k] == c.field[k - j - 1];
    }
    var x, y := |d.scope|, |d.scope| + 1 + |d.table|;
    assert s[x] == NUL && s[y] == NUL;
    assert s[..i] == c.scope && s[i + 1..j] == c.table && s[j + 1..] == c.field;
    assert s[..x] == d.scope && s[x + 1..y] == d.table && s[y + 1..] == d.field;
  }

  lemma CutAtNul(s: string) returns (a: string, b: string)
    requires !NulFree(s)
    ensures s == a + [NUL] + b
  {
    var i :| 0 <= i < |s| && s[i] == NUL;
    a, b := s[..i], s[i + 1..];
  }

  lemma CollidingContext(c: Context) returns (d: Context)
    requires !IsClean(c)
    ensures d != c && Aad(d) == Aad(c)
  {
    if !NulFree(c.scope) {
      var a, b := CutAtNul(c.scope);
      NulInATableCollides(a, b, c.table, c.field);
      d := Context(a, b + [NUL] + c.table, c.field);
    } else if !NulFree(c.table) {
      var a, b := CutAtNul(c.table);
      NulInATableCollides(c.scope, a, b, c.field);
      d := Context(c.scope + [NUL] + a, b, c.field);
    } else {
      var a, b := CutAtNul(c.field);
      d := Context(c.scope, c.table + [NUL] + a, b);
    }
  }

  ghost predicate HasItsOwnAad(c: Context) {
    forall d :: Aad(d) == Aad(c) ==> d == c
  }

  /** No other context shares the additional data if and only if scope, table and field hold no NUL. */
  lemma AadIsUniqueIff(c: Context)
    ensures HasItsOwnAad(c) <==> IsClean(c)
  {
    if IsClean(c) {
      forall d | Aad(d) == Aad(c) ensures d == c {
        CleanContextIsUnique(c, d);
      }
    } else {
      var d := CollidingContext(c);
    }
  }

  lemma EncryptedIsAnEnvelope(suite: Suite, plaintext: string, key: Key, ctx: Context, kv: int, iv: nat)
    requires Ideal(suite) && !IsBlank(plaintext) && |key| == 32
    ensures var c := EncryptField(suite, plaintext, key, ctx, kv, iv);
      && c.Ok? && IsEnvelope(c.value) && !IsBlank(c.value)
      && Parse(suite, c.value) == Ok(Envelope(kv, suite.seal(key, iv, Aad(ctx), plaintext)))
  {
    var e := Envelope(kv, suite.seal(key, iv, Aad(ctx), plaintext));
    var stored := PREFIX + suite.toJson(e);
    assert stored[0] == 'S' && !IsSpace(stored[0]);
    assert stored[|PREFIX|..] == suite.toJson(e);
  }

  /**
   A stored value opens under a key and a context exactly when they are the ones it was written
   with; otherwise it fails closed.
   */
  lemma OpensOnlyInItsOwnContext(suite: Suite, p: string, key: Key, ctx: Context, kv: int, iv: nat,
                                 key': Key, ctx': Context)
    requires Ideal(suite) && !IsBlank(p) && |key| == 32
    requires NulFree(ctx.scope) && NulFree(ctx.table) && NulFree(ctx'.scope) && NulFree(ctx'.table)
    ensures var c := EncryptField(suite, p, key, ctx, kv, iv);
      && c.Ok?
      && DecryptField(suite, c.value, key', ctx') == if key == key' && ctx == ctx' then Ok(p) else Err(Unauthentic)
  {
    EncryptedIsAnEnvelope(suite, p, key, ctx, kv, iv);
    AadIsInjective(ctx, ctx');
  }

  /** What a context wrote under a key opens nowhere else: every other context fails closed. */
  ghost predicate OpensNowhereElse(suite: Suite, stored: string, key: Key, ctx: Context) {
    forall other :: other != ctx ==> DecryptField(suite, stored, key, other) == Err(Unauthentic)
  }

  /** A stored value opens in no context but its own if and only if that context holds no NUL. */
  lemma OpensNowhereElseIff(suite: Suite, p: string, key: Key, ctx: Context, kv: int, iv: nat)
    requires Ideal(suite) && !IsBlank(p) && |key| == 32
    ensures var c := EncryptField(suite, p, key, ctx, kv, iv);
      c.Ok? && (OpensNowhereElse(suite, c.value, key, ctx) <==> IsClean(ctx))
  {
    var c := EncryptField(suite, p, key, ctx, kv, iv);
    EncryptedIsAnEnvelope(suite, p, key, ctx, kv, iv);
    if IsClean(ctx) {
      AadIsUniqueIff(ctx);
    } else {
      var other := CollidingContext(ctx);
      assert DecryptField(suite, c.value, key, other) == Ok(p);
    }
  }

  /**
   Decrypting what was encrypted gives the value back exactly when it is empty or not blank; other
   blanks come back empty.
   */
  lemma RoundTrip(suite: Suite, p: string, key: Key, ctx: Context, kv: int, iv: nat)
    requires Ideal(suite) && |key| == 32
    ensures var c := EncryptField(suite, p, key, ctx, kv, iv);
      && c.Ok?
      && (DecryptField(suite, c.value, key, ctx) == Ok(p) <==> p == "" || !IsBlank(p))
      && (IsBlank(p) ==> DecryptField(suite, c.value, key, ctx) == Ok(""))
  {
    if !IsBlank(p) {
      EncryptedIsAnEnvelope(suite, p, key, ctx, kv, iv);
    }
  }

  // ---------- nesting ----------

  /** The depth unless the caller asks for another one. */
  const MAX_NESTING := 8

  /** What the unwrapping loop computes from a value at a depth. */
  function Unwrapped(suite: Suite, value: string, key: Key, ctx: Context, depth: int, maxDepth: int)
    : Result<string, Error>
    decreases maxDepth - depth
  {
    if !IsEnvelope(value) then Ok(value)
    else if depth >= maxDepth then Err(TooDeep)
    else
      match DecryptField(suite, value, key, ctx)
      case Err(e) => Err(e)
      case Ok(inner) => Unwrapped(suite, inner, key, ctx, depth + 1, maxDepth)
  }

  method UnwrapEnvelope(suite: Suite, stored: string, key: Key, ctx: Context, maxDepth: int := MAX_NESTING)
    returns (plaintext: Result<string, Error>)
    ensures IsBlank(stored) ==> plaintext == Ok("")
    ensures !IsBlank(stored) ==> plaintext == Unwrapped(suite, stored, key, ctx, 0, maxDepth)
    ensures plaintext.Ok? ==> !IsEnvelope(plaintext.value)
  {
    if IsBlank(stored) {
      return Ok("");
    }
    var value := stored;
    var depth := 0;
    while IsEnvelope(value)
      invariant Unwrapped(suite, stored, key, ctx, 0, maxDepth) == Unwrapped(suite, value, key, ctx, depth, maxDepth)
      decreases maxDepth - depth
    {
      if depth >= maxDepth {
        return Err(TooDeep);
      }
      var inner := DecryptField(suite, value, key, ctx);
      if inner.Err? {
        return Err(inner.error);
      }
      value := inner.value;
      depth := depth + 1;
    }
    return Ok(value);
  }

  /** A plaintext encrypted once per nonce, the last one outermost. */
  function Layered(suite: Suite, p: string, key: Key, ctx: Context, kv: int, ivs: seq<nat>): Result<string, Error> {
    if ivs == [] then Ok(p)
    else
      match Layered(suite, p, key, ctx, kv, ivs[..|ivs| - 1])
      case Err(e) => Err(e)
      case Ok(inner) => EncryptField(suite, inner, key, ctx, kv, ivs[|ivs| - 1])
  }

  lemma {:induction false} LayeredUnwrapsByDepth(
      suite: Suite, p: string, key: Key, ctx: Context, kv: int, ivs: seq<nat>, depth: nat, maxDepth: int)
    requires Ideal(suite) && |key| == 32 && !IsBlank(p) && !IsEnvelope(p)
    ensures var c := Layered(suite, p, key, ctx, kv, ivs);
      && c.Ok? && !IsBlank(c.value)
      && Unwrapped(suite, c.value, key, ctx, depth, maxDepth)
           == if ivs == [] || depth + |ivs| <= maxDepth then Ok(p) else Err(TooDeep)
    decreases |ivs|
  {
    if ivs != [] {
      var inner := Layered(suite, p, key, ctx, kv, ivs[..|ivs| - 1]);
      LayeredUnwrapsByDepth(suite, p, key, ctx, kv, ivs[..|ivs| - 1], depth + 1, maxDepth);
      EncryptedIsAnEnvelope(suite, inner.value, key, ctx, kv, ivs[|ivs| - 1]);
    }
  }

  /**
   Unwrapping n nested envelopes gives the plaintext back exactly when n is at most the allowed
   depth, and fails otherwise.
   */
  lemma NestedEnvelopesUnwrap(suite: Suite, p: string, key: Key, ctx: Context, kv: int, ivs: seq<nat>, maxDepth: nat)
    requires Ideal(suite) && |key| == 32 && !IsBlank(p) && !IsEnvelope(p)
    ensures var c := Layered(suite, p, key, ctx, kv, ivs);
      && c.Ok? && !IsBlank(c.value)
      && Unwrapped(suite, c.value, key, ctx, 0, maxDepth) == if |ivs| <= maxDepth then Ok(p) else Err(TooDeep)
  {
    LayeredUnwrapsByDepth(suite, p, key, ctx, kv, ivs, 0, maxDepth);
  }

  // ---------- the assumption can be met ----------

  /** A self-delimiting code: each character is announced by '1', the end by '0'. */
  function Delimited(s: string): string {
    if s == [] then ['0'] else ['1', s[0]] + Delimited(s[1..])
  }

  function Unary(n: nat): string {
    if n == 0 then [] else ['1'] + Unary(n - 1)
  }

  lemma {:induction false} DelimitedSplits(a: string, x: string, b: string, y: string)
    requires Delimited(a) + x == Delimited(b) + y
    ensures a == b && x == y
  {
    var s, t := Delimited(a) + x, Delimited(b) + y;
    assert s[0] == (if a == [] then '0' else '1') && t[0] == if b == [] then '0' else '1';
    if a == [] {
      assert s[1..] == x && t[1..] == y;
    } else {
      assert s[1] == a[0] && t[1] == b[0];
      assert s[2..] == Delimited(a[1..]) + x && t[2..] == Delimited(b[1..]) + y;
      DelimitedSplits(a[1..], x, b[1..], y);
      assert a == [a[0]] + a[1..] && b == [b[0]] + b[1..];
    }
  }

  function TextSeal(k: Key, iv: nat, a: string, p: string): string {
    Delimited(k) + (Delimited(a) + (Delimited(p) + Unary(iv)))
  }

  ghost function TextUnseal(k: Key, a: string, c: string): Option<string> {
    if exists iv, p :: TextSeal(k, iv, a, p) == c then
      var iv, p :| TextSeal(k, iv, a, p) == c;
      Some(p)
    else None
  }

  lemma TextSealIsIdeal(k: Key, iv: nat, a: string, p: string, k': Key, a': string)
    ensures TextUnseal(k', a', TextSeal(k, iv, a, p)) == if k == k' && a == a' then Some(p) else None
  {
    forall iv', p' | TextSeal(k', iv', a', p') == TextSeal(k, iv, a, p) ensures k == k' && a == a' && p == p' {
      DelimitedSplits(k', Delimited(a') + (Delimited(p') + Unary(iv')), k, Delimited(a) + (Delimited(p) + Unary(iv)));
      DelimitedSplits(a', Delimited(p') + Unary(iv'), a, Delimited(p) + Unary(iv));
      DelimitedSplits(p', Unary(iv'), p, Unary(iv));
    }
  }

  function TextJson(e: Envelope): string {
    Delimited(e.sealed) + if e.kv < 0 then ['-'] + Unary(-e.kv) else Unary(e.kv)
  }

  ghost function TextParse(t: string): Option<Envelope> {
    if exists e :: TextJson(e) == t then
      var e :| TextJson(e) == t;
      Some(e)
    else None
  }

  lemma {:induction false} UnaryHasItsLength(n: nat)
    ensures |Unary(n)| == n && '-' !in Unary(n)
  {
    if n > 0 {
      UnaryHasItsLength(n - 1);
    }
  }

  lemma TextJsonIsInjective(d: Envelope, e: Envelope)
    requires TextJson(d) == TextJson(e)
    ensures d == e
  {
    var x := if d.kv < 0 then ['-'] + Unary(-d.kv) else Unary(d.kv);
    var y := if e.kv < 0 then ['-'] + Unary(-e.kv) else Unary(e.kv);
    DelimitedSplits(d.sealed, x, e.sealed, y);
    UnaryHasItsLength(if d.kv < 0 then -d.kv else d.kv);
    UnaryHasItsLength(if e.kv < 0 then -e.kv else e.kv);
    assert d.kv < 0 <==> x != [] && x[0] == '-';
    assert e.kv < 0 <==> y != [] && y[0] == '-';
  }

  /** The idealization is consistent: some suite, though not a secret one, meets it. */
  lemma AnIdealSuiteExists() returns (suite: Suite)
    ensures Ideal(suite)
  {
    suite := Suite(TextSeal, TextUnseal, TextJson, TextParse);
    forall k, iv, a, p, k', a'
      ensures suite.unseal(k', a', suite.seal(k, iv, a, p)) == if k == k' && a == a' then Some(p) else None
    {
      TextSealIsIdeal(k, iv, a, p, k', a');
    }
    forall e ensures suite.fromJson(suite.toJson(e)) == Some(e) {
      forall d | TextJson(d) == TextJson(e) ensures d == e {
        TextJsonIsInjective(d, e);
      }
    }
  }
}
