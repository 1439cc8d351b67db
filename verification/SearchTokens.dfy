/**
 The token table and the lookups over it. Every row holds the key of a field, an entity and one
 hash; the table is what the last synchronized values of all fields store.
 */
module SearchTokens {
  import opened BlindIndex
  import opened FiniteSets
  import opened FuzzyScore
  import opened SearchIndex
  import opened Wrappers

  /** A searchable field; rows without a tenant belong to the platform. */
  datatype FieldKey = FieldKey(tenant: Option<string>, table: string, field: string)

  datatype TokenRow = TokenRow(key: FieldKey, entity: string, hash: string)

  const PLATFORM_SCOPE := "platform"

  function ContextOf(key: FieldKey): Context {
    Context(if key.tenant.Some? then key.tenant.value else PLATFORM_SCOPE, key.table, key.field)
  }

  /** Two fields hash with one context only if they are the same, or the tenant's name is that of the platform. */
  lemma FieldsHaveTheirOwnContext(k: FieldKey, l: FieldKey)
    ensures ContextOf(k) == ContextOf(l) <==>
      && k.table == l.table && k.field == l.field
      && (k.tenant == l.tenant || (k.tenant == None && l.tenant == Some("platform"))
          || (k.tenant == Some("platform") && l.tenant == None))
  {
  }

  type Values = map<(FieldKey, string), string>

  function HashesFor(h: Hash, key: FieldKey, v: string, n: nat): set<string>
    requires n >= 1
  {
    Hashes(h, ContextOf(key), Stored(v, n))
  }

  /** Whether the synchronized values call for a row. */
  ghost predicate IsRow(h: Hash, n: nat, values: Values, r: TokenRow)
    requires n >= 1
  {
    (r.key, r.entity) in values && r.hash in HashesFor(h, r.key, values[(r.key, r.entity)], n)
  }

  ghost predicate IsIndex(h: Hash, n: nat, values: Values, rows: set<TokenRow>)
    requires n >= 1
  {
    forall r :: r in rows <==> IsRow(h, n, values, r)
  }

  function RowsOf(key: FieldKey, entity: string, hashes: set<string>): set<TokenRow> {
    set x | x in hashes :: TokenRow(key, entity, x)
  }

  function RowsBut(rows: set<TokenRow>, key: FieldKey, entity: string): set<TokenRow> {
    set r | r in rows && !(r.key == key && r.entity == entity)
  }

  lemma ReplacedRows(h: Hash, n: nat, values: Values, rows: set<TokenRow>, key: FieldKey, entity: string, v: string)
    requires n >= 1 && IsIndex(h, n, values, rows)
    ensures IsIndex(h, n, values[(key, entity) := v],
                    RowsBut(rows, key, entity) + RowsOf(key, entity, HashesFor(h, key, v, n)))
  {
    var now := values[(key, entity) := v];
    forall r
      ensures r in RowsBut(rows, key, entity) + RowsOf(key, entity, HashesFor(h, key, v, n)) <==> IsRow(h, n, now, r)
    {
      if r.key == key && r.entity == entity {
        assert r == TokenRow(key, entity, r.hash);
      } else {
        assert r in rows <==> IsRow(h, n, values, r);
      }
    }
  }

  predicate IsOf(k: (FieldKey, string), tenant: Option<string>, table: string, entity: string) {
    k.0.tenant == tenant && k.0.table == table && k.1 == entity
  }

  /** The hashes of the query that the entity has rows for, without repetition. */
  function Matched(rows: set<TokenRow>, key: FieldKey, entity: string, hashes: seq<string>): set<string> {
    set r | r in rows && r.key == key && r.entity == entity && r.hash in hashes :: r.hash
  }

  lemma MatchedAreStored(h: Hash, n: nat, values: Values, rows: set<TokenRow>,
                         key: FieldKey, e: string, hashes: seq<string>)
    requires n >= 1 && IsIndex(h, n, values, rows)
    ensures Matched(rows, key, e, hashes)
         == if (key, e) in values then Elements(hashes) * HashesFor(h, key, values[(key, e)], n) else {}
  {
    forall x ensures x in Matched(rows, key, e, hashes) <==> IsRow(h, n, values, TokenRow(key, e, x)) && x in hashes {
      assert TokenRow(key, e, x) in rows <==> IsRow(h, n, values, TokenRow(key, e, x));
    }
  }

  lemma HashesOfThree(h: Hash, ctx: Context, a: set<string>, b: set<string>, t: string)
    ensures Hashes(h, ctx, a + b + {t}) == Hashes(h, ctx, a) + Hashes(h, ctx, b) + {HashOf(h, ctx, t)}
  {
  }

  lemma MatchesAllIff(h: Hash, n: nat, values: Values, rows: set<TokenRow>, key: FieldKey, e: string,
                      query: string, hashes: seq<string>)
    requires n >= 1 && IsIndex(h, n, values, rows)
    requires Elements(hashes) == Hashes(h, ContextOf(key), Grams(query, n)) && |hashes| == |Grams(query, n)|
    requires hashes == [] <==> query == []
    ensures hashes != [] && |Matched(rows, key, e, hashes)| >= |hashes| <==>
      (key, e) in values && ContainsHit(h, ContextOf(key), query, values[(key, e)], n)
  {
    MatchedAreStored(h, n, values, rows, key, e, hashes);
  }

  /** All hashes the entity has rows for. */
  function HashesOf(rows: set<TokenRow>, key: FieldKey, entity: string): set<string> {
    set r | r in rows && r.key == key && r.entity == entity :: r.hash
  }

  lemma HashesAreStored(h: Hash, n: nat, values: Values, rows: set<TokenRow>, key: FieldKey, e: string)
    requires n >= 1 && IsIndex(h, n, values, rows)
    ensures HashesOf(rows, key, e) == if (key, e) in values then HashesFor(h, key, values[(key, e)], n) else {}
  {
    forall x ensures x in HashesOf(rows, key, e) <==> IsRow(h, n, values, TokenRow(key, e, x)) {
      assert TokenRow(key, e, x) in rows <==> IsRow(h, n, values, TokenRow(key, e, x));
    }
  }

  lemma NothingStoredIff(h: Hash, key: FieldKey, v: string, n: nat)
    requires n >= 1
    ensures HashesFor(h, key, v, n) == {} <==> v == []
  {
    if v != [] {
      assert HashOf(h, ContextOf(key), EqualityToken(v)) in HashesFor(h, key, v, n);
    }
  }

  // ---------- ranking ----------

  datatype Scored = Scored(entity: string, score: real)

  predicate IsRanked(s: seq<Scored>) {
    forall i, j :: 0 <= i < j < |s| ==> s[i].score >= s[j].score
  }

  predicate HasDistinctEntities(s: seq<Scored>) {
    forall i, j :: 0 <= i < j < |s| ==> s[i].entity != s[j].entity
  }

  /** Puts an entry behind all that score as much. */
  function Placed(s: seq<Scored>, x: Scored): seq<Scored> {
    if s == [] || s[|s| - 1].score >= x.score then s + [x]
    else Placed(s[..|s| - 1], x) + [s[|s| - 1]]
  }

  /** The list sorted by falling score; entries of one score keep their order. */
  function Ranked(s: seq<Scored>): seq<Scored> {
    if s == [] then [] else Placed(Ranked(s[..|s| - 1]), s[|s| - 1])
  }

  lemma {:induction false} PlacedMembers(s: seq<Scored>, x: Scored, y: Scored)
    ensures y in Placed(s, x) <==> y in s || y == x
  {
    if s != [] && s[|s| - 1].score < x.score {
      PlacedMembers(s[..|s| - 1], x, y);
      assert s == s[..|s| - 1] + [s[|s| - 1]];
    }
  }

  lemma {:induction false} PlacedIsRanked(s: seq<Scored>, x: Scored)
    requires IsRanked(s)
    ensures IsRanked(Placed(s, x))
  {
    if s != [] && s[|s| - 1].score < x.score {
      var front, last := s[..|s| - 1], s[|s| - 1];
      PlacedIsRanked(front, x);
      forall y | y in Placed(front, x) ensures y.score >= last.score {
        PlacedMembers(front, x, y);
      }
    }
  }

  lemma {:induction false} PlacedIsDistinct(s: seq<Scored>, x: Scored)
    requires HasDistinctEntities(s) && forall y :: y in s ==> y.entity != x.entity
    ensures HasDistinctEntities(Placed(s, x))
  {
    if s != [] && s[|s| - 1].score < x.score {
      var front, last := s[..|s| - 1], s[|s| - 1];
      assert last in s;
      PlacedIsDistinct(front, x);
      forall y | y in Placed(front, x) ensures y.entity != last.entity {
        PlacedMembers(front, x, y);
      }
    }
  }

  /** Sorting keeps every entry, adds none and brings them in order. */
  lemma {:induction false} RankedKeeps(s: seq<Scored>)
    requires HasDistinctEntities(s)
    ensures IsRanked(Ranked(s)) && HasDistinctEntities(Ranked(s))
    ensures forall y :: y in Ranked(s) <==> y in s
  {
    if s != [] {
      var front, last := s[..|s| - 1], s[|s| - 1];
      RankedKeeps(front);
      PlacedIsRanked(Ranked(front), last);
      PlacedIsDistinct(Ranked(front), last);
      assert s == front + [last];
      forall y ensures y in Ranked(s) <==> y in s {
        PlacedMembers(Ranked(front), last, y);
      }
    }
  }

  /** The score of an entity for a query, from what its value stores. */
  ghost function ScoreOf(h: Hash, n: nat, values: Values, key: FieldKey, e: string, query: string): real
    requires n >= 1
  {
    var stored := if (key, e) in values then HashesFor(h, key, values[(key, e)], n) else {};
    Score(Hashes(h, ContextOf(key), Grams(query, n)), stored)
  }

  /** The entries are those of `entities` that score enough, each once with its score. */
  ghost predicate AreScores(h: Hash, n: nat, values: Values, key: FieldKey, query: string, minScore: real,
                            entities: set<string>, s: seq<Scored>)
    requires n >= 1
  {
    && HasDistinctEntities(s)
    && forall y :: y in s <==>
         y.entity in entities && y.score == ScoreOf(h, n, values, key, y.entity, query) && y.score >= minScore
  }

  lemma OneMoreScore(h: Hash, n: nat, values: Values, key: FieldKey, query: string, minScore: real,
                     entities: set<string>, s: seq<Scored>, e: string)
    requires n >= 1 && AreScores(h, n, values, key, query, minScore, entities, s) && e !in entities
    ensures var score := ScoreOf(h, n, values, key, e, query);
      AreScores(h, n, values, key, query, minScore, entities + {e},
                if score >= minScore then s + [Scored(e, score)] else s)
  {
    forall i | 0 <= i < |s| ensures s[i].entity != e {
      assert s[i] in s;
    }
  }

  function EntitiesIn(s: seq<Scored>): seq<string> {
    seq(|s|, i requires 0 <= i < |s| => s[i].entity)
  }

  lemma InEntitiesIff(h: Hash, n: nat, values: Values, key: FieldKey, query: string, minScore: real,
                      entities: set<string>, s: seq<Scored>, e: string)
    requires n >= 1 && AreScores(h, n, values, key, query, minScore, entities, s)
    ensures e in EntitiesIn(s) <==> e in entities && ScoreOf(h, n, values, key, e, query) >= minScore
  {
    var ids, y := EntitiesIn(s), Scored(e, ScoreOf(h, n, values, key, e, query));
    if e in ids {
      var i :| 0 <= i < |ids| && ids[i] == e;
      assert s[i] in s;
    }
    if y in s {
      var i :| 0 <= i < |s| && s[i] == y;
      assert ids[i] == e;
    }
  }

  ghost predicate ListsBestFirst(h: Hash, n: nat, values: Values, key: FieldKey, query: string, ids: seq<string>)
    requires n >= 1
  {
    && (forall i, j :: 0 <= i < j < |ids| ==> ids[i] != ids[j])
    && (forall i, j :: 0 <= i < j < |ids| ==>
          ScoreOf(h, n, values, key, ids[i], query) >= ScoreOf(h, n, values, key, ids[j], query))
  }

  lemma RankedListsBestFirst(h: Hash, n: nat, values: Values, key: FieldKey, query: string, minScore: real,
                             entities: set<string>, s: seq<Scored>)
    requires n >= 1 && AreScores(h, n, values, key, query, minScore, entities, s) && IsRanked(s)
    ensures ListsBestFirst(h, n, values, key, query, EntitiesIn(s))
  {
    var ids := EntitiesIn(s);
    forall i | 0 <= i < |s| ensures s[i].score == ScoreOf(h, n, values, key, ids[i], query) {
      assert s[i] in s;
    }
    forall i, j | 0 <= i < j < |ids|
      ensures ScoreOf(h, n, values, key, ids[i], query) >= ScoreOf(h, n, values, key, ids[j], query)
    {
      assert s[i].score >= s[j].score;
    }
  }

  lemma RankedAreScores(h: Hash, n: nat, values: Values, key: FieldKey, query: string, minScore: real,
                        entities: set<string>, s: seq<Scored>)
    requires n >= 1 && AreScores(h, n, values, key, query, minScore, entities, s)
    ensures AreScores(h, n, values, key, query, minScore, entities, Ranked(s)) && IsRanked(Ranked(s))
  {
    RankedKeeps(s);
  }

  /** The entities that have rows for a field. */
  function EntitiesOf(rows: set<TokenRow>, key: FieldKey): set<string> {
    set r | r in rows && r.key == key :: r.entity
  }

  lemma HasRowsIff(h: Hash, n: nat, values: Values, rows: set<TokenRow>, key: FieldKey, e: string)
    requires n >= 1 && IsIndex(h, n, values, rows)
    ensures e in EntitiesOf(rows, key) <==> (key, e) in values && values[(key, e)] != []
  {
    HashesAreStored(h, n, values, rows, key, e);
    if r :| r in rows && r.key == key && r.entity == e {
      assert r.hash in HashesOf(rows, key, e);
    }
    if (key, e) in values {
      NothingStoredIff(h, key, values[(key, e)], n);
      if x :| x in HashesOf(rows, key, e) {
        assert TokenRow(key, e, x) in rows;
      }
    }
  }

  lemma NoHashesIff(h: Hash, ctx: Context, query: string, n: nat, hashes: seq<string>)
    requires n >= 1 && Elements(hashes) == Hashes(h, ctx, Grams(query, n))
    ensures hashes == [] <==> query == []
  {
    assert hashes != [] ==> hashes[0] in Elements(hashes);
    if query != [] {
      SomeGram(query, n);
      var g :| g in Grams(query, n);
      assert HashOf(h, ctx, g) in Elements(hashes);
    }
  }

  lemma FuzzyHitIff(h: Hash, n: nat, values: Values, rows: set<TokenRow>, key: FieldKey, e: string,
                    query: string, minScore: real)
    requires n >= 1 && IsIndex(h, n, values, rows) && query != []
    ensures e in EntitiesOf(rows, key) && ScoreOf(h, n, values, key, e, query) >= minScore <==>
      (key, e) in values && FuzzyHit(h, ContextOf(key), query, values[(key, e)], n, minScore)
  {
    HasRowsIff(h, n, values, rows, key, e);
  }

  class TokenTable {
    const h: Hash
    const ngramSize: nat
    var rows: set<TokenRow>
    /** The value each field of each entity was last synchronized with. */
    ghost var values: Values

    ghost predicate Valid()
      reads this
    {
      ngramSize >= 1 && IsIndex(h, ngramSize, values, rows)
    }

    constructor (h: Hash, ngramSize: nat)
      requires ngramSize >= 1
      ensures Valid() && values == map[] && this.h == h && this.ngramSize == ngramSize
    {
      this.h, this.ngramSize, rows, values := h, ngramSize, {}, map[];
    }

    method HashAll(ctx: Context, tokens: seq<string>) returns (hashes: seq<string>)
      ensures |hashes| == |tokens|
      ensures Elements(hashes) == Hashes(h, ctx, Elements(tokens))
    {
      hashes := seq(|tokens|, i requires 0 <= i < |tokens| reads this => HashOf(h, ctx, tokens[i]));
      forall x | x in Hashes(h, ctx, Elements(tokens)) ensures x in hashes {
        var i :| 0 <= i < |tokens| && HashOf(h, ctx, tokens[i]) == x;
        assert hashes[i] == x;
      }
    }

    /** All hashes stored for a value, the three kinds in one set. */
    method StoredHashes(key: FieldKey, normalized: string) returns (all: set<string>)
      requires ngramSize >= 1
      ensures all == HashesFor(h, key, normalized, ngramSize)
    {
      if normalized == [] {
        return {};
      }
      var ctx := ContextOf(key);
      var grams := GenerateNgrams(normalized, ngramSize);
      var prefixes := PrefixTokens(normalized, ngramSize);
      var gramHashes := HashAll(ctx, grams);
      var prefixHashes := HashAll(ctx, prefixes);
      HashesOfThree(h, ctx, Elements(grams), Elements(prefixes), EqualityToken(normalized));
      all := Elements(gramHashes) + Elements(prefixHashes) + {HashOf(h, ctx, EqualityToken(normalized))};
    }

    /** Replaces the rows of one field of one entity. */
    method SyncField(key: FieldKey, entity: string, normalized: string)
      requires Valid()
      modifies this
      ensures Valid() && values == old(values)[(key, entity) := normalized]
    {
      ReplacedRows(h, ngramSize, values, rows, key, entity, normalized);
      rows := RowsBut(rows, key, entity);
      var all := StoredHashes(key, normalized);
      rows := rows + RowsOf(key, entity, all);
      values := values[(key, entity) := normalized];
    }

    method DeleteEntity(tenant: Option<string>, table: string, entity: string)
      requires Valid()
      modifies this
      ensures Valid()
      ensures rows == set r |
        r in old(rows) && !(r.key.tenant == tenant && r.key.table == table && r.entity == entity)
      ensures values == map k |
        k in old(values) && !(k.0.tenant == tenant && k.0.table == table && k.1 == entity) :: old(values)[k]
    {
      rows := set r | r in rows && !IsOf((r.key, r.entity), tenant, table, entity);
      values := map k | k in values && !IsOf(k, tenant, table, entity) :: values[k];
    }

    /** Entities with at least as many distinct matched hashes as the query lists. */
    method FindMatchingAll(key: FieldKey, hashes: seq<string>) returns (ids: set<string>)
      requires Valid()
      ensures forall e :: e in ids <==> hashes != [] && |Matched(rows, key, e, hashes)| >= |hashes|
    {
      if |hashes| == 0 {
        return {};
      }
      var candidates := set r | r in rows && r.key == key && r.hash in hashes :: r.entity;
      ids := set e | e in candidates && |Matched(rows, key, e, hashes)| >= |hashes|;
      forall e | |Matched(rows, key, e, hashes)| >= |hashes| ensures e in candidates {
        var x :| x in Matched(rows, key, e, hashes);
        assert TokenRow(key, e, x) in rows;
      }
    }

    /** Contains search: exactly the entities whose value the query hits. */
    method FindByContains(key: FieldKey, query: string) returns (ids: set<string>)
      requires Valid()
      ensures forall e :: e in ids <==>
        (key, e) in values && ContainsHit(h, ContextOf(key), query, values[(key, e)], ngramSize)
    {
      var grams := GenerateNgrams(query, ngramSize);
      var hashes := HashAll(ContextOf(key), grams);
      ids := FindMatchingAll(key, hashes);
      DistinctSize(grams);
      NoHashesIff(h, ContextOf(key), query, ngramSize, hashes);
      forall e ensures e in ids <==>
        (key, e) in values && ContainsHit(h, ContextOf(key), query, values[(key, e)], ngramSize)
      {
        MatchesAllIff(h, ngramSize, values, rows, key, e, query, hashes);
      }
    }

    /** Equality search: exactly the entities whose value the equality token of the query hits. */
    method FindByExactValue(key: FieldKey, query: string) returns (ids: set<string>)
      requires Valid()
      ensures forall e :: e in ids <==>
        (key, e) in values && EqualityHit(h, ContextOf(key), query, values[(key, e)], ngramSize)
    {
      if query == [] {
        return {};
      }
      var x := HashOf(h, ContextOf(key), EqualityToken(query));
      ids := FindMatchingAll(key, [x]);
      forall e ensures e in ids <==>
        (key, e) in values && EqualityHit(h, ContextOf(key), query, values[(key, e)], ngramSize)
      {
        MatchedAreStored(h, ngramSize, values, rows, key, e, [x]);
        assert Elements([x]) == {x};
        if (key, e) in values {
          FullMeet({x}, HashesFor(h, key, values[(key, e)], ngramSize));
        }
      }
    }

    /** Prefix search: exactly the entities whose value any prefix token of the query hits. */
    method FindByPrefix(key: FieldKey, query: string) returns (ids: set<string>)
      requires Valid()
      ensures forall e :: e in ids <==>
        (key, e) in values && PrefixHit(h, ContextOf(key), query, values[(key, e)], ngramSize)
    {
      var tokens := PrefixTokens(query, ngramSize);
      var hashes := HashAll(ContextOf(key), tokens);
      ids := set r | r in rows && r.key == key && r.hash in hashes :: r.entity;
      forall e ensures e in ids <==>
        (key, e) in values && PrefixHit(h, ContextOf(key), query, values[(key, e)], ngramSize)
      {
        MatchedAreStored(h, ngramSize, values, rows, key, e, hashes);
        assert e in ids <==> Matched(rows, key, e, hashes) != {} by {
          if x :| x in Matched(rows, key, e, hashes) {
            assert TokenRow(key, e, x) in rows;
          }
          if r :| r in rows && r.key == key && r.hash in hashes && r.entity == e {
            assert r.hash in Matched(rows, key, e, hashes);
          }
        }
      }
    }

    /** The union over the searchable fields of a table. */
    method FindByAnyField(tenant: Option<string>, table: string, fields: seq<string>, query: string)
      returns (ids: set<string>)
      requires Valid()
      ensures forall e :: e in ids <==> exists f :: f in fields && FieldHit(FieldKey(tenant, table, f), e, query)
    {
      ids := {};
      for i := 0 to |fields|
        invariant forall e ::
          e in ids <==> exists f :: f in fields[..i] && FieldHit(FieldKey(tenant, table, f), e, query)
      {
        var found := FindByContains(FieldKey(tenant, table, fields[i]), query);
        ids := ids + found;
        assert fields[..i + 1] == fields[..i] + [fields[i]];
      }
      assert fields[..|fields|] == fields;
    }

    /** The hashes of one entity, in whatever order its rows come. */
    method ListHashes(key: FieldKey, e: string) returns (hashes: seq<string>)
      ensures Elements(hashes) == HashesOf(rows, key, e)
    {
      hashes := [];
      var todo := HashesOf(rows, key, e);
      while todo != {}
        invariant todo + Elements(hashes) == HashesOf(rows, key, e)
        decreases |todo|
      {
        var x :| x in todo;
        hashes := hashes + [x];
        todo := todo - {x};
      }
    }

    method ScoreEntity(key: FieldKey, e: string, query: string, hashes: seq<string>) returns (score: real)
      requires Valid() && Elements(hashes) == Hashes(h, ContextOf(key), Grams(query, ngramSize))
      ensures score == ScoreOf(h, ngramSize, values, key, e, query)
    {
      var list := ListHashes(key, e);
      score := FuzzyMatchScore(hashes, list);
      HashesAreStored(h, ngramSize, values, rows, key, e);
    }

    /** Scores every entity of the field and keeps those that score enough. */
    method ScoreAll(key: FieldKey, query: string, hashes: seq<string>, minScore: real) returns (scored: seq<Scored>)
      requires Valid() && Elements(hashes) == Hashes(h, ContextOf(key), Grams(query, ngramSize))
      ensures AreScores(h, ngramSize, values, key, query, minScore, EntitiesOf(rows, key), scored)
    {
      scored := [];
      var entities := EntitiesOf(rows, key);
      var todo := entities;
      while todo != {}
        invariant todo <= entities
        invariant AreScores(h, ngramSize, values, key, query, minScore, entities - todo, scored)
        decreases |todo|
      {
        var e :| e in todo;
        var score := ScoreEntity(key, e, query, hashes);
        OneMoreScore(h, ngramSize, values, key, query, minScore, entities - todo, scored, e);
        if score >= minScore {
          scored := scored + [Scored(e, score)];
        }
        assert entities - (todo - {e}) == entities - todo + {e};
        todo := todo - {e};
      }
      assert entities - todo == entities;
    }

    /** Fuzzy search: exactly the entities whose value scores enough, the best ones first. */
    method FindByFuzzy(key: FieldKey, query: string, minScore: real := MIN_SCORE) returns (ids: seq<string>)
      requires Valid()
      ensures forall e :: e in ids <==>
        (key, e) in values && FuzzyHit(h, ContextOf(key), query, values[(key, e)], ngramSize, minScore)
      ensures ListsBestFirst(h, ngramSize, values, key, query, ids)
    {
      var grams := GenerateNgrams(query, ngramSize);
      var hashes := HashAll(ContextOf(key), grams);
      NoHashesIff(h, ContextOf(key), query, ngramSize, hashes);
      if |hashes| == 0 {
        return [];
      }
      var scored := ScoreAll(key, query, hashes, minScore);
      ghost var entities := EntitiesOf(rows, key);
      RankedAreScores(h, ngramSize, values, key, query, minScore, entities, scored);
      var ranked := Ranked(scored);
      RankedListsBestFirst(h, ngramSize, values, key, query, minScore, entities, ranked);
      ids := EntitiesIn(ranked);
      forall e ensures e in ids <==>
        (key, e) in values && FuzzyHit(h, ContextOf(key), query, values[(key, e)], ngramSize, minScore)
      {
        InEntitiesIff(h, ngramSize, values, key, query, minScore, entities, ranked, e);
        FuzzyHitIff(h, ngramSize, values, rows, key, e, query, minScore);
      }
    }

    ghost predicate FieldHit(key: FieldKey, e: string, query: string)
      reads this
      requires ngramSize >= 1
    {
      (key, e) in values && ContainsHit(h, ContextOf(key), query, values[(key, e)], ngramSize)
    }
  }
}
