/**
 How long a buffer that `get` handed out stays usable. The caller holds the cache's own buffer,
 so it is intact exactly as long as its entry stays, and zeros afterwards.
 */
module DekLifetimes {
  import opened Wrappers
  import opened LruSpec
  import opened DekCaches

  type Entry = Cached<array<byte>>
  type Call = Op<array<byte>>

  // ---------- members ----------

  lemma {:induction false} InLive<T>(s: Contents<T>, e: Cached<T>, now: int)
    ensures e in Live(s, now) <==> e in s && now < e.expiresAt
  {
    if s != [] {
      InLive(s[1..], e, now);
      assert s == [s[0]] + s[1..];
    }
  }

  lemma {:induction false} InWithout<T>(s: Contents<T>, e: Cached<T>, id: string)
    ensures e in Without(s, id) <==> e in s && e.id != id
  {
    if s != [] {
      InWithout(s[1..], e, id);
      assert s == [s[0]] + s[1..];
    }
  }

  lemma {:induction false} FoundIsTheOnly<T>(s: Contents<T>, e: Cached<T>)
    requires DistinctIds(s) && e in s
    ensures Find(s, e.id) == Some(e)
  {
    if s[0] != e {
      assert e in s[1..];
      FindIsMember(s[1..], s[0].id);
      FoundIsTheOnly(s[1..], e);
    }
  }

  lemma InTouch<T>(s: Contents<T>, e: Cached<T>, id: string, now: int, later: int)
    requires DistinctIds(s)
    ensures e in Touch(s, id, now, later) <==> e in s && now < e.expiresAt && (e.id == id ==> later < e.expiresAt)
  {
    var live := Live(s, now);
    InLive(s, e, now);
    LiveKeeps(s, now);
    InWithout(live, e, id);
    FindIsMember(live, id);
    if e in live && e.id == id {
      FoundIsTheOnly(live, e);
    }
  }

  /** What stays of the entries in a `set` before the oldest are evicted. */
  function Staying<T>(s: Contents<T>, id: string, now: int): Contents<T> {
    Without(Live(s, now), id)
  }

  lemma IsStaying<T>(s: Contents<T>, e: Cached<T>, id: string, now: int)
    ensures e in Staying(s, id, now) <==> e in s && now < e.expiresAt && e.id != id
  {
    InLive(s, e, now);
    InWithout(Live(s, now), e, id);
  }

  /** The entries younger than `e`. */
  function Behind<T>(s: Contents<T>, e: Cached<T>): Contents<T> {
    if s == [] then [] else if s[0].id == e.id then s[1..] else Behind(s[1..], e)
  }

  /** Staying entries keep their order, so the number behind an entry counts those that stay. */
  lemma {:induction false} StayingBehind<T>(s: Contents<T>, e: Cached<T>, id: string, now: int) returns (i: nat)
    requires DistinctIds(s) && e in s && now < e.expiresAt && e.id != id
    ensures i < |Staying(s, id, now)| && Staying(s, id, now)[i] == e
    ensures i + 1 + |Staying(Behind(s, e), id, now)| == |Staying(s, id, now)|
  {
    if s[0] == e {
      i := 0;
    } else {
      assert e in s[1..];
      FindIsMember(s[1..], s[0].id);
      var k := StayingBehind(s[1..], e, id, now);
      i := if now < s[0].expiresAt && s[0].id != id then k + 1 else k;
    }
  }

  lemma {:induction false} KeysDiffer<T>(s: Contents<T>, i: nat, j: nat)
    requires DistinctIds(s) && i < j < |s|
    ensures s[i].id != s[j].id
  {
    if i == 0 {
      FindIsMember(s[1..], s[0].id);
      assert s[1..][j - 1] == s[j];
    } else {
      KeysDiffer(s[1..], i - 1, j - 1);
    }
  }

  lemma SurplusSparesIff(n: nat, i: nat, capacity: Capacity)
    requires i < n
    ensures Surplus(n, capacity) <= i <==> (capacity.Some? ==> n - i < Max(1, capacity.value))
  {
  }

  /** Eviction spares the entry exactly when it and the younger ones leave a place free. */
  lemma EvictSparesIff<T>(kept: Contents<T>, i: nat, capacity: Capacity)
    requires DistinctIds(kept) && i < |kept|
    ensures kept[i] in Evict(kept, capacity) <==> (capacity.Some? ==> |kept| - i < Max(1, capacity.value))
  {
    var j := Surplus(|kept|, capacity);
    var rest := kept[j..];
    EvictDropsSurplus(kept, capacity);
    SurplusSparesIff(|kept|, i, capacity);
    if i >= j {
      assert rest[i - j] == kept[i];
    } else {
      forall k | 0 <= k < |rest| ensures rest[k] != kept[i] {
        KeysDiffer(kept, i, j + k);
      }
    }
  }

  // ---------- one call ----------

  /** Whether the entry is still there after a call. */
  predicate Survives<T>(s: Contents<T>, e: Cached<T>, op: Op<T>, capacity: Capacity) {
    match op
    case Get(id, now, later) => now < e.expiresAt && (id == e.id ==> later < e.expiresAt)
    case Set(id, _, _, now, _) =>
      && now < e.expiresAt && id != e.id
      && (capacity.Some? ==> |Staying(Behind(s, e), id, now)| + 1 < Max(1, capacity.value))
    case Delete(id) => id != e.id
    case Clear => false
    case Size(now) => now < e.expiresAt
  }

  lemma InPut<T>(s: Contents<T>, e: Cached<T>, put: Cached<T>, now: int, capacity: Capacity)
    requires DistinctIds(s) && e in s && e != put
    ensures e in Put(s, put, now, capacity) <==>
      && now < e.expiresAt && put.id != e.id
      && (capacity.Some? ==> |Staying(Behind(s, e), put.id, now)| + 1 < Max(1, capacity.value))
  {
    var kept := Staying(s, put.id, now);
    IsStaying(s, e, put.id, now);
    if e in kept {
      LiveKeeps(s, now);
      WithoutKeeps(Live(s, now), put.id);
      var i := StayingBehind(s, e, put.id, now);
      EvictSparesIff(kept, i, capacity);
    } else {
      EvictDropsSurplus(kept, capacity);
    }
  }

  lemma EntrySurvivesIff<T>(s: Contents<T>, e: Cached<T>, op: Op<T>, ttl: int, capacity: Capacity)
    requires DistinctIds(s) && e in s && (op.Set? ==> op.dek != e.dek)
    ensures e in Apply(s, op, ttl, capacity) <==> Survives(s, e, op, capacity)
  {
    match op
    case Get(id, now, later) => InTouch(s, e, id, now, later);
    case Set(id, dek, v, now, later) => InPut(s, e, Cached(id, dek, v, later + ttl), now, capacity);
    case Delete(id) => InWithout(s, e, id);
    case Clear =>
    case Size(now) => InLive(s, e, now);
  }

  lemma PutAddsOne<T>(s: Contents<T>, e: Cached<T>, put: Cached<T>, now: int, capacity: Capacity)
    requires e in Put(s, put, now, capacity)
    ensures e in s || e == put
  {
    var kept := Staying(s, put.id, now);
    IsStaying(s, e, put.id, now);
    EvictDropsSurplus(kept, capacity);
  }

  /** A call stores nothing but the entry of a `set`. */
  lemma ApplyAddsOne<T>(s: Contents<T>, e: Cached<T>, op: Op<T>, ttl: int, capacity: Capacity)
    requires DistinctIds(s) && e in Apply(s, op, ttl, capacity)
    ensures e in s || (op.Set? && e.dek == op.dek)
  {
    match op
    case Get(id, now, later) => InTouch(s, e, id, now, later);
    case Set(id, dek, v, now, later) => PutAddsOne(s, e, Cached(id, dek, v, later + ttl), now, capacity);
    case Delete(id) => InWithout(s, e, id);
    case Clear =>
    case Size(now) => InLive(s, e, now);
  }

  // ---------- buffers ----------

  lemma {:induction false} BuffersDiffer(s: Entries, e: Entry, x: Entry)
    requires DistinctBuffers(s) && e in s && x in s && e != x
    ensures e.dek != x.dek
  {
    if e == s[0] {
      assert x in s[1..];
    } else if x == s[0] {
      assert e in s[1..];
    } else {
      BuffersDiffer(s[1..], e, x);
    }
  }

  lemma TouchKeepsBuffers(s: Entries, id: string, now: int, later: int)
    requires DistinctIds(s) && DistinctBuffers(s)
    ensures DistinctBuffers(Touch(s, id, now, later))
  {
    var live := Live(s, now);
    LiveKeeps(s, now);
    LiveBuffers(s, now);
    WithoutBuffers(live, id);
    if Find(live, id).Some? {
      AppendBuffers(Without(live, id), Find(live, id).value);
    }
  }

  lemma PutKeepsBuffers(s: Entries, put: Entry, now: int, capacity: Capacity)
    requires DistinctIds(s) && DistinctBuffers(s) && put.dek !in BuffersOf(s)
    ensures DistinctBuffers(Put(s, put, now, capacity))
  {
    var kept := Staying(s, put.id, now);
    LiveKeeps(s, now);
    LiveBuffers(s, now);
    WithoutBuffers(Live(s, now), put.id);
    EvictDropsSurplus(kept, capacity);
    SuffixBuffers(kept, Surplus(|kept|, capacity));
    AppendBuffers(Evict(kept, capacity), put);
  }

  lemma ApplyKeepsBuffers(s: Entries, op: Call, ttl: int, capacity: Capacity)
    requires DistinctIds(s) && DistinctBuffers(s) && (op.Set? ==> op.dek !in BuffersOf(s))
    ensures DistinctBuffers(Apply(s, op, ttl, capacity))
  {
    var next := Apply(s, op, ttl, capacity);
    assert DistinctBuffers(next) by {
      match op {
        case Get(id, now, later) =>
          assert next == Touch(s, id, now, later);
          TouchKeepsBuffers(s, id, now, later);
        case Set(id, dek, v, now, later) =>
          assert next == Put(s, Cached(id, dek, v, later + ttl), now, capacity);
          PutKeepsBuffers(s, Cached(id, dek, v, later + ttl), now, capacity);
        case Delete(id) => WithoutBuffers(s, id);
        case Clear =>
        case Size(now) => LiveBuffers(s, now);
      }
    }
  }

  /** One call leaves a cached buffer in the cache if and only if its entry survives the call. */
  lemma BufferSurvivesIff(s: Entries, e: Entry, op: Call, ttl: int, capacity: Capacity)
    requires DistinctIds(s) && DistinctBuffers(s) && e in s && (op.Set? ==> op.dek !in BuffersOf(s))
    ensures e.dek in BuffersOf(Apply(s, op, ttl, capacity)) <==> Survives(s, e, op, capacity)
  {
    assert e.dek in BuffersOf(s);
    EntrySurvivesIff(s, e, op, ttl, capacity);
    forall x | x in Apply(s, op, ttl, capacity) && x != e ensures x.dek != e.dek {
      ApplyAddsOne(s, x, op, ttl, capacity);
      if x in s {
        BuffersDiffer(s, e, x);
      }
    }
  }

  // ---------- any number of calls ----------

  function AfterCalls<T>(s: Contents<T>, calls: seq<Op<T>>, ttl: int, capacity: Capacity): Contents<T>
    decreases |calls|
  {
    if calls == [] then s else AfterCalls(Apply(s, calls[0], ttl, capacity), calls[1..], ttl, capacity)
  }

  predicate SurvivesAll<T>(s: Contents<T>, e: Cached<T>, calls: seq<Op<T>>, ttl: int, capacity: Capacity)
    decreases |calls|
  {
    calls == [] ||
    (Survives(s, e, calls[0], capacity) && SurvivesAll(Apply(s, calls[0], ttl, capacity), e, calls[1..], ttl, capacity))
  }

  /** Every `set` allocates its copy: no buffer of the cache, nor `held`, which a caller may still hold. */
  ghost predicate CopiesAreNew(s: Entries, held: array<byte>, calls: seq<Call>, ttl: int, capacity: Capacity)
    decreases |calls|
  {
    calls == [] ||
    (&& (calls[0].Set? ==> calls[0].dek !in BuffersOf(s) && calls[0].dek != held)
     && CopiesAreNew(Apply(s, calls[0], ttl, capacity), held, calls[1..], ttl, capacity))
  }

  /** A buffer that left the cache never comes back. */
  lemma {:induction false} GoneForGood(s: Entries, b: array<byte>, calls: seq<Call>, ttl: int, capacity: Capacity)
    requires DistinctIds(s) && b !in BuffersOf(s) && CopiesAreNew(s, b, calls, ttl, capacity)
    ensures b !in BuffersOf(AfterCalls(s, calls, ttl, capacity))
    decreases |calls|
  {
    if calls != [] {
      ApplyKeepsDistinct(s, calls[0], ttl, capacity);
      forall x | x in Apply(s, calls[0], ttl, capacity) ensures x.dek != b {
        ApplyAddsOne(s, x, calls[0], ttl, capacity);
      }
      GoneForGood(Apply(s, calls[0], ttl, capacity), b, calls[1..], ttl, capacity);
    }
  }

  /** After any calls the buffer is still cached exactly when its entry survived each of them. */
  lemma {:induction false} BufferOutlivesIff(s: Entries, e: Entry, calls: seq<Call>, ttl: int, capacity: Capacity)
    requires DistinctIds(s) && DistinctBuffers(s) && e in s && CopiesAreNew(s, e.dek, calls, ttl, capacity)
    ensures e.dek in BuffersOf(AfterCalls(s, calls, ttl, capacity)) <==> SurvivesAll(s, e, calls, ttl, capacity)
    decreases |calls|
  {
    if calls != [] {
      var next := Apply(s, calls[0], ttl, capacity);
      ApplyKeepsDistinct(s, calls[0], ttl, capacity);
      ApplyKeepsBuffers(s, calls[0], ttl, capacity);
      BufferSurvivesIff(s, e, calls[0], ttl, capacity);
      EntrySurvivesIff(s, e, calls[0], ttl, capacity);
      if Survives(s, e, calls[0], capacity) {
        BufferOutlivesIff(next, e, calls[1..], ttl, capacity);
      } else {
        GoneForGood(next, e.dek, calls[1..], ttl, capacity);
      }
    }
  }

  // ---------- two callers ----------

  lemma {:induction false} NothingBehindTheLast<T>(s: Contents<T>, e: Cached<T>)
    requires Find(s, e.id).None?
    ensures Behind(s + [e], e) == []
  {
    if s == [] {
      assert s + [e] == [e];
    } else {
      assert (s + [e])[1..] == s[1..] + [e];
      NothingBehindTheLast(s[1..], e);
    }
  }

  /** A hit becomes the youngest entry. */
  lemma HitIsYoungest<T>(s: Contents<T>, id: string, now: int, later: int)
    requires DistinctIds(s) && Lookup(s, id, now, later).Some?
    ensures var hit := Lookup(s, id, now, later).value;
      hit in Touch(s, id, now, later) && hit.id == id && Behind(Touch(s, id, now, later), hit) == []
  {
    LiveKeeps(s, now);
    FindIsMember(Live(s, now), id);
    WithoutKeeps(Live(s, now), id);
    NothingBehindTheLast(Without(Live(s, now), id), Lookup(s, id, now, later).value);
  }

  /** Whether a buffer just handed out for a key outlasts a `set` of another call. */
  predicate Outlasts(held: Entry, other: string, at: int, maxEntries: int) {
    at < held.expiresAt && other != held.id && maxEntries > 1
  }

  lemma OutlastsIff(s: Entries, held: Entry, put: Entry, at: int, maxEntries: int)
    requires DistinctIds(s) && DistinctBuffers(s) && held in s && Behind(s, held) == [] && put.dek !in BuffersOf(s)
    ensures held.dek in BuffersOf(Put(s, put, at, Some(maxEntries))) <==> Outlasts(held, put.id, at, maxEntries)
  {
    var call := Set(put.id, put.dek, put.keyVersion, at, put.expiresAt);
    BufferSurvivesIff(s, held, call, 0, Some(maxEntries));
    assert Apply(s, call, 0, Some(maxEntries)) == Put(s, put, at, Some(maxEntries));
  }

  /**
   One caller still holds the buffer of its lookup while another call stores a key: the bytes in
   its hands are the key's own if the buffer outlasts that call, and otherwise they are zeros.
   */
  method HoldAcrossSet(cache: DekCache, id: string, now: int, other: string, dek: array<byte>, keyVersion: int, at: int)
    returns (held: Option<Entry>)
    requires cache.Valid()
    modifies cache, cache.Buffers()
    ensures cache.Valid() && held == Lookup(old(cache.entries), id, now, now)
    ensures held.Some? ==>
      (held.value.dek in cache.Buffers() <==> Outlasts(held.value, other, at, cache.maxEntries))
    ensures held.Some? ==> Lookup(old(cache.Bytes()), id, now, now).Some?
    ensures held.Some? ==>
      if Outlasts(held.value, other, at, cache.maxEntries)
      then held.value.dek[..] == Lookup(old(cache.Bytes()), id, now, now).value.dek
      else AllZero(held.value.dek[..])
  {
    held := cache.Get(id, now, now);
    ghost var s := cache.entries;
    var stored := cache.Set(other, dek, keyVersion, at, at);
    if held.Some? {
      HitIsYoungest(old(cache.entries), id, now, now);
      OutlastsIff(s, held.value, Cached(other, stored, keyVersion, at + cache.ttlMs), at, cache.maxEntries);
    }
  }

  // ---------- any calls on the heap ----------

  ghost function Seen(e: Entry): Cached<seq<byte>>
    reads e.dek
  {
    Cached(e.id, e.dek[..], e.keyVersion, e.expiresAt)
  }

  /** A call as recorded, with the bytes it stored instead of the buffer they came from. */
  predicate IsRecordOf(call: Call, op: Op<seq<byte>>) {
    match call
    case Get(id, now, later) => op == Op.Get(id, now, later)
    case Set(id, _, v, now, later) =>
      op.Set? && op.id == id && op.keyVersion == v && op.now == now && op.later == later
    case Delete(id) => op == Op.Delete(id)
    case Clear => op == Op.Clear
    case Size(now) => op == Op.Size(now)
  }

  lemma {:induction false} ViewBehind(s: Entries, e: Entry)
    ensures View(Behind(s, e)) == Behind(View(s), Seen(e))
  {
    if s != [] {
      assert View(s)[1..] == View(s[1..]);
      ViewBehind(s[1..], e);
    }
  }

  lemma ViewSurvives(s: Entries, e: Entry, call: Call, op: Op<seq<byte>>, capacity: Capacity)
    requires IsRecordOf(call, op)
    ensures Survives(s, e, call, capacity) <==> Survives(View(s), Seen(e), op, capacity)
  {
    if call.Set? {
      ViewBehind(s, e);
      ViewLive(Behind(s, e), call.now);
      ViewWithout(Live(Behind(s, e), call.now), call.id);
    }
  }

  /** Whether an entry survived the calls recorded since `past`. */
  predicate SurvivedSince<T(==)>(past: Trace<T>, t: Trace<T>, e: Cached<T>, ttl: int, capacity: Capacity) {
    t == past || (t.Then? && SurvivedSince(past, t.past, e, ttl, capacity)
                  && Survives(State(t.past, ttl, capacity), e, t.op, capacity))
  }

  /** The trace continues `past` by the records of some calls. */
  predicate Continues(past: Trace<seq<byte>>, t: Trace<seq<byte>>, calls: seq<Call>) {
    if calls == [] then t == past
    else t.Then? && IsRecordOf(calls[|calls| - 1], t.op) && Continues(past, t.past, calls[..|calls| - 1])
  }

  function Length<T>(t: Trace<T>): nat {
    if t.Start? then 0 else Length(t.past) + 1
  }

  lemma {:induction false} ContinuesIsLonger(past: Trace<seq<byte>>, t: Trace<seq<byte>>, calls: seq<Call>)
    requires Continues(past, t, calls)
    ensures Length(t) == Length(past) + |calls|
    decreases |calls|
  {
    if calls != [] {
      ContinuesIsLonger(past, t.past, calls[..|calls| - 1]);
    }
  }

  /** What a call makes of the entries, with the copy a `set` stores in place of its argument. */
  predicate IsStored(call: Call, done: Call) {
    match call
    case Set(id, _, v, now, later) => done.Set? && done == Op.Set(id, done.dek, v, now, later)
    case _ => done == call
  }

  lemma StoredSurvives(s: Entries, e: Entry, call: Call, done: Call, ttl: int, capacity: Capacity)
    requires IsStored(call, done) && DistinctIds(s) && DistinctBuffers(s) && e in s
    requires done.Set? ==> done.dek !in BuffersOf(s)
    ensures e in Apply(s, done, ttl, capacity) <==> Survives(s, e, call, capacity)
    ensures e.dek in BuffersOf(Apply(s, done, ttl, capacity)) <==> Survives(s, e, call, capacity)
  {
    EntrySurvivesIff(s, e, done, ttl, capacity);
    BufferSurvivesIff(s, e, done, ttl, capacity);
  }

  /** The cache did one call: the entries are those of the call, and what left them is zeroed. */
  twostate predicate HasDone(before: set<array<byte>>, cache: DekCache, call: Call, new done: Call)
    reads cache, before
  {
    && IsStored(call, done)
    && cache.entries == Apply(old(cache.entries), done, cache.ttlMs, Some(cache.maxEntries))
    && cache.trace.Then? && cache.trace.past == old(cache.trace) && IsRecordOf(call, cache.trace.op)
    && KeepsOrZeroes(before, cache.Buffers())
    && fresh(cache.Buffers() - before)
    && (done.Set? ==> fresh(done.dek))
  }

  method PerformSet(cache: DekCache, id: string, dek: array<byte>, keyVersion: int, now: int, later: int)
    returns (ghost done: Call)
    requires cache.Valid()
    modifies cache, cache.Buffers()
    ensures cache.Valid() && HasDone(old(cache.Buffers()), cache, Op.Set(id, dek, keyVersion, now, later), done)
  {
    var stored := cache.Set(id, dek, keyVersion, now, later);
    done := Op.Set(id, stored, keyVersion, now, later);
    SetIsPut(old(cache.entries), id, stored, keyVersion, now, later, cache.ttlMs, Some(cache.maxEntries));
  }

  method Perform(cache: DekCache, call: Call) returns (ghost done: Call)
    requires cache.Valid()
    modifies cache, cache.Buffers()
    ensures cache.Valid() && HasDone(old(cache.Buffers()), cache, call, done)
  {
    done := call;
    match call {
      case Get(id, now, later) => var _ := cache.Get(id, now, later);
      case Set(id, dek, v, now, later) => done := PerformSet(cache, id, dek, v, now, later);
      case Delete(id) => cache.Delete(id);
      case Clear => cache.Clear();
      case Size(now) => var _ := cache.Size(now);
    }
  }

  /** The holder of a buffer has its bytes while it is cached, and zeros afterwards. */
  ghost predicate IsHeld(cache: DekCache, held: Entry, seen: Cached<seq<byte>>)
    reads cache, held.dek
  {
    && (held.dek in cache.Buffers() <==> held in cache.entries)
    && if held in cache.entries then Seen(held) == seen else AllZero(held.dek[..])
  }

  /** One call while somebody holds a buffer that is or was cached. */
  method PerformWhileHeld(cache: DekCache, call: Call, ghost held: Entry, ghost seen: Cached<seq<byte>>)
    requires cache.Valid() && IsHeld(cache, held, seen)
    modifies cache, cache.Buffers()
    ensures cache.Valid() && IsHeld(cache, held, seen) && fresh(cache.Buffers() - old(cache.Buffers()))
    ensures cache.trace.Then? && cache.trace.past == old(cache.trace) && IsRecordOf(call, cache.trace.op)
    ensures held in cache.entries <==>
      held in old(cache.entries)
      && Survives(old(cache.Bytes()), seen, cache.trace.op, Some(cache.maxEntries))
  {
    ghost var s, capacity := cache.entries, Some(cache.maxEntries);
    ghost var stays := held in s && Survives(s, held, call, capacity);
    if held in s {
      forall op | IsRecordOf(call, op) ensures Survives(View(s), seen, op, capacity) <==> stays {
        ViewSurvives(s, held, call, op, capacity);
      }
    }
    ghost var done := Perform(cache, call);
    if held in s {
      StoredSurvives(s, held, call, done, cache.ttlMs, capacity);
    }
  }

  /**
   Any calls in any order while somebody holds a buffer of the cache: the bytes held are unchanged
   if the entry survived each of the calls, and otherwise they are zeros.
   */
  method HoldAcrossCalls(cache: DekCache, calls: seq<Call>, ghost held: Entry)
    requires cache.Valid() && held in cache.entries
    modifies cache, cache.Buffers()
    ensures cache.Valid() && Continues(old(cache.trace), cache.trace, calls)
    ensures held.dek in cache.Buffers() <==>
      SurvivedSince(old(cache.trace), cache.trace, old(Seen(held)), cache.ttlMs, Some(cache.maxEntries))
    ensures if held.dek in cache.Buffers() then held.dek[..] == old(held.dek[..]) else AllZero(held.dek[..])
  {
    ghost var start, seen := cache.trace, Seen(held);
    assert calls[..0] == [];
    for i := 0 to |calls|
      invariant cache.Valid() && IsHeld(cache, held, seen) && fresh(cache.Buffers() - old(cache.Buffers()))
      invariant Continues(start, cache.trace, calls[..i])
      invariant held in cache.entries <==>
        SurvivedSince(start, cache.trace, seen, cache.ttlMs, Some(cache.maxEntries))
    {
      assert calls[..i + 1][..i] == calls[..i];
      ContinuesIsLonger(start, cache.trace, calls[..i]);
      PerformWhileHeld(cache, calls[i], held, seen);
    }
    assert calls[..|calls|] == calls;
  }
}
