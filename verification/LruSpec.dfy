/**
 What the DEK cache of packages/crypto/src/dek-cache.ts does to its ordered entries, as
 functions on values, oldest entry first, and what that means over whole traces of calls:
 LRU inclusion, agreement with a plain map with expiry, and bounded size.
 */
module LruSpec {
  import opened Wrappers

  /** One entry; `T` is the buffer object in the class and its bytes in the specification. */
  datatype Cached<T> = Cached(id: string, dek: T, keyVersion: int, expiresAt: int)

  type Contents<T> = seq<Cached<T>>

  /** No capacity, or the `maxEntries` option. */
  type Capacity = Option<int>

  // ---------- the pieces of one call ----------

  function Live<T>(s: Contents<T>, now: int): Contents<T> {
    if s == [] then []
    else if now < s[0].expiresAt then [s[0]] + Live(s[1..], now)
    else Live(s[1..], now)
  }

  function Without<T>(s: Contents<T>, id: string): Contents<T> {
    if s == [] then []
    else if s[0].id != id then [s[0]] + Without(s[1..], id)
    else Without(s[1..], id)
  }

  function Find<T>(s: Contents<T>, id: string): Option<Cached<T>> {
    if s == [] then None else if s[0].id == id then Some(s[0]) else Find(s[1..], id)
  }

  /** The eviction loop frees one place, but stops on an empty cache: capacities below one act as one. */
  function Evict<T>(s: Contents<T>, capacity: Capacity): Contents<T>
    decreases |s|
  {
    if capacity.Some? && |s| >= capacity.value && s != [] then Evict(s[1..], capacity) else s
  }

  /** A lookup drops what has expired and moves a hit to the young end. */
  function Touch<T>(s: Contents<T>, id: string, now: int, later: int): Contents<T> {
    var live := Live(s, now);
    var e := Find(live, id);
    if e.None? then live
    else if later >= e.value.expiresAt then Without(live, id)
    else Without(live, id) + [e.value]
  }

  function Lookup<T>(s: Contents<T>, id: string, now: int, later: int): Option<Cached<T>> {
    var e := Find(Live(s, now), id);
    if e.None? || later >= e.value.expiresAt then None else e
  }

  function Put<T>(s: Contents<T>, e: Cached<T>, now: int, capacity: Capacity): Contents<T> {
    Evict(Without(Live(s, now), e.id), capacity) + [e]
  }

  // ---------- the calls ----------

  datatype Op<T> =
    | Get(id: string, now: int, later: int)
    | Set(id: string, dek: T, keyVersion: int, now: int, later: int)
    | Delete(id: string)
    | Clear
    | Size(now: int)

  datatype Response<T> = Hit(entry: Cached<T>) | Miss | Count(n: nat) | Done

  function Apply<T>(s: Contents<T>, op: Op<T>, ttl: int, capacity: Capacity): Contents<T> {
    match op
    case Get(id, now, later) => Touch(s, id, now, later)
    case Set(id, dek, v, now, later) => Put(s, Cached(id, dek, v, later + ttl), now, capacity)
    case Delete(id) => Without(s, id)
    case Clear => []
    case Size(now) => Live(s, now)
  }

  lemma SetIsPut<T>(s: Contents<T>, id: string, dek: T, v: int, now: int, later: int, ttl: int, capacity: Capacity)
    ensures Apply(s, Set(id, dek, v, now, later), ttl, capacity)
         == Put(s, Cached(id, dek, v, later + ttl), now, capacity)
  {
  }

  function Respond<T>(s: Contents<T>, op: Op<T>): Response<T> {
    match op
    case Get(id, now, later) =>
      var e := Lookup(s, id, now, later);
      if e.None? then Miss else Hit(e.value)
    case Size(now) => Count(|Live(s, now)|)
    case Set(_, _, _, _, _) => Done
    case Delete(_) => Done
    case Clear => Done
  }

  /** A trace of calls, last call outermost. */
  datatype Trace<T> = Start | Then(past: Trace<T>, op: Op<T>)

  function State<T>(t: Trace<T>, ttl: int, capacity: Capacity): Contents<T> {
    if t.Start? then [] else Apply(State(t.past, ttl, capacity), t.op, ttl, capacity)
  }

  // ---------- distinct keys ----------

  predicate DistinctIds<T>(s: Contents<T>) {
    s == [] || (Find(s[1..], s[0].id).None? && DistinctIds(s[1..]))
  }

  lemma {:induction false} FindIsMember<T>(s: Contents<T>, id: string)
    ensures Find(s, id).Some? ==> Find(s, id).value in s && Find(s, id).value.id == id
    ensures Find(s, id).None? <==> forall e :: e in s ==> e.id != id
  {
    if s != [] {
      FindIsMember(s[1..], id);
      assert s == [s[0]] + s[1..];
    }
  }

  lemma {:induction false} FindInParts<T>(a: Contents<T>, b: Contents<T>, id: string)
    ensures Find(a + b, id) == if Find(a, id).Some? then Find(a, id) else Find(b, id)
  {
    if a == [] {
      assert a + b == b;
    } else {
      FindInParts(a[1..], b, id);
      assert (a + b)[1..] == a[1..] + b;
    }
  }

  lemma {:induction false} DistinctAppend<T>(s: Contents<T>, e: Cached<T>)
    requires DistinctIds(s) && Find(s, e.id).None?
    ensures DistinctIds(s + [e])
  {
    if s != [] {
      DistinctAppend(s[1..], e);
      assert (s + [e])[1..] == s[1..] + [e];
      FindInParts(s[1..], [e], s[0].id);
    }
  }

  lemma {:induction false} DistinctSuffix<T>(s: Contents<T>, i: nat)
    requires DistinctIds(s) && i <= |s|
    ensures DistinctIds(s[i..])
    ensures forall id :: Find(s, id).None? ==> Find(s[i..], id).None?
  {
    if i > 0 {
      DistinctSuffix(s[1..], i - 1);
      assert s[1..][i - 1..] == s[i..];
    }
  }

  lemma {:induction false} LiveKeeps<T>(s: Contents<T>, now: int)
    requires DistinctIds(s)
    ensures DistinctIds(Live(s, now))
    ensures forall id :: Find(Live(s, now), id) ==
                         if Find(s, id).Some? && now < Find(s, id).value.expiresAt then Find(s, id) else None
  {
    if s != [] {
      LiveKeeps(s[1..], now);
      if now < s[0].expiresAt {
        assert ([s[0]] + Live(s[1..], now))[1..] == Live(s[1..], now);
      }
    }
  }

  lemma {:induction false} WithoutKeeps<T>(s: Contents<T>, id: string)
    requires DistinctIds(s)
    ensures DistinctIds(Without(s, id))
    ensures forall k :: Find(Without(s, id), k) == if k == id then None else Find(s, k)
  {
    if s != [] {
      WithoutKeeps(s[1..], id);
      if s[0].id != id {
        assert ([s[0]] + Without(s[1..], id))[1..] == Without(s[1..], id);
      }
    }
  }

  lemma {:induction false} WithoutAbsent<T>(s: Contents<T>, id: string)
    requires Find(s, id).None?
    ensures Without(s, id) == s
  {
    if s != [] {
      WithoutAbsent(s[1..], id);
    }
  }

  lemma {:induction false} FiltersShrink<T>(s: Contents<T>, id: string, now: int)
    ensures |Without(s, id)| <= |s| && |Live(s, now)| <= |s|
    ensures Find(s, id).Some? ==> |Without(s, id)| < |s|
  {
    if s != [] {
      FiltersShrink(s[1..], id, now);
    }
  }

  /** How many of `n` entries the eviction loop drops. */
  function Surplus(n: nat, capacity: Capacity): (k: nat)
    ensures k <= n
  {
    if capacity.Some? && n >= capacity.value then n - Min(n, Max(1, capacity.value) - 1) else 0
  }

  lemma {:induction false} EvictDropsSurplus<T>(s: Contents<T>, capacity: Capacity)
    ensures Evict(s, capacity) == s[Surplus(|s|, capacity)..]
    decreases |s|
  {
    if capacity.Some? && |s| >= capacity.value && s != [] {
      EvictDropsSurplus(s[1..], capacity);
      assert Surplus(|s|, capacity) == Surplus(|s| - 1, capacity) + 1;
    }
  }

  lemma EvictionSize<T>(s: Contents<T>, capacity: int)
    ensures |Evict(s, Some(capacity))| < Max(1, capacity)
  {
    EvictDropsSurplus(s, Some(capacity));
  }

  lemma TouchKeepsDistinct<T>(s: Contents<T>, id: string, now: int, later: int)
    requires DistinctIds(s)
    ensures DistinctIds(Touch(s, id, now, later))
  {
    LiveKeeps(s, now);
    WithoutKeeps(Live(s, now), id);
    FindIsMember(Live(s, now), id);
    if Find(Live(s, now), id).Some? {
      DistinctAppend(Without(Live(s, now), id), Find(Live(s, now), id).value);
    }
  }

  lemma PutKeepsDistinct<T>(s: Contents<T>, e: Cached<T>, now: int, capacity: Capacity)
    requires DistinctIds(s)
    ensures DistinctIds(Put(s, e, now, capacity))
  {
    var w := Without(Live(s, now), e.id);
    LiveKeeps(s, now);
    WithoutKeeps(Live(s, now), e.id);
    EvictDropsSurplus(w, capacity);
    DistinctSuffix(w, Surplus(|w|, capacity));
    DistinctAppend(Evict(w, capacity), e);
  }

  lemma ApplyKeepsDistinct<T>(s: Contents<T>, op: Op<T>, ttl: int, capacity: Capacity)
    requires DistinctIds(s)
    ensures DistinctIds(Apply(s, op, ttl, capacity))
  {
    match op
    case Get(id, now, later) => TouchKeepsDistinct(s, id, now, later);
    case Set(id, dek, v, now, later) => PutKeepsDistinct(s, Cached(id, dek, v, later + ttl), now, capacity);
    case Delete(id) => WithoutKeeps(s, id);
    case Clear =>
    case Size(now) => LiveKeeps(s, now);
  }

  lemma {:induction false} StateIsDistinct<T>(t: Trace<T>, ttl: int, capacity: Capacity)
    ensures DistinctIds(State(t, ttl, capacity))
  {
    if t.Then? {
      StateIsDistinct(t.past, ttl, capacity);
      ApplyKeepsDistinct(State(t.past, ttl, capacity), t.op, ttl, capacity);
    }
  }

  // ---------- subsequences ----------

  ghost predicate Sub<T>(a: Contents<T>, b: Contents<T>) {
    a == [] || (b != [] && ((a[0] == b[0] && Sub(a[1..], b[1..])) || Sub(a, b[1..])))
  }

  lemma {:induction false} SubTail<T>(a: Contents<T>, b: Contents<T>)
    requires Sub(a, b) && a != []
    ensures b != [] && Sub(a[1..], b[1..]) && |a| <= |b|
  {
    if a[0] == b[0] && Sub(a[1..], b[1..]) {
      SubLength(a[1..], b[1..]);
    } else {
      SubTail(a, b[1..]);
    }
  }

  lemma {:induction false} SubLength<T>(a: Contents<T>, b: Contents<T>)
    requires Sub(a, b)
    ensures |a| <= |b|
    decreases b, 0
  {
    if a != [] {
      if Sub(a, b[1..]) { SubLength(a, b[1..]); } else { SubLength(a[1..], b[1..]); }
    }
  }

  lemma {:induction false} SubDrop<T>(a: Contents<T>, b: Contents<T>, i: nat)
    requires Sub(a, b) && i <= |a|
    ensures Sub(a[i..], b)
  {
    if i == 0 {
      assert a[0..] == a;
    } else {
      SubTail(a, b);
      SubDrop(a[1..], b[1..], i - 1);
      assert a[1..][i - 1..] == a[i..];
    }
  }

  /** Dropping at least as much from the smaller side keeps the order inclusion. */
  lemma {:induction false} SubSuffix<T>(a: Contents<T>, b: Contents<T>, i: nat, j: nat)
    requires Sub(a, b) && j <= i <= |a|
    ensures j <= |b| && Sub(a[i..], b[j..])
  {
    if j == 0 {
      SubDrop(a, b, i);
      assert b[0..] == b;
    } else {
      SubTail(a, b);
      SubSuffix(a[1..], b[1..], i - 1, j - 1);
      assert a[1..][i - 1..] == a[i..];
      assert b[1..][j - 1..] == b[j..];
    }
  }

  lemma {:induction false} SubAppend<T>(a: Contents<T>, b: Contents<T>, e: Cached<T>)
    requires Sub(a, b)
    ensures Sub(a + [e], b + [e]) && Sub(a, b + [e])
  {
    if b == [] {
      assert ([e] + [])[1..] == [];
      assert a + [e] == [e] && b + [e] == [e];
    } else {
      assert (b + [e])[1..] == b[1..] + [e];
      if Sub(a, b[1..]) {
        SubAppend(a, b[1..], e);
      } else if a != [] {
        SubAppend(a[1..], b[1..], e);
        assert (a + [e])[1..] == a[1..] + [e];
      }
    }
  }

  lemma {:induction false} SubLive<T>(a: Contents<T>, b: Contents<T>, now: int)
    requires Sub(a, b)
    ensures Sub(Live(a, now), Live(b, now)) && |Live(b, now)| - |Live(a, now)| <= |b| - |a|
  {
    if b != [] {
      if Sub(a, b[1..]) {
        SubLive(a, b[1..], now);
        if now < b[0].expiresAt { assert Live(b, now)[1..] == Live(b[1..], now); }
      } else if a != [] {
        SubLive(a[1..], b[1..], now);
        if now < b[0].expiresAt {
          assert Live(b, now)[1..] == Live(b[1..], now) && Live(a, now)[1..] == Live(a[1..], now);
        }
      }
    }
  }

  lemma {:induction false} SubWithout<T>(a: Contents<T>, b: Contents<T>, id: string)
    requires Sub(a, b)
    ensures Sub(Without(a, id), Without(b, id)) && |Without(b, id)| - |Without(a, id)| <= |b| - |a|
  {
    if b != [] {
      if Sub(a, b[1..]) {
        SubWithout(a, b[1..], id);
        if b[0].id != id { assert Without(b, id)[1..] == Without(b[1..], id); }
      } else if a != [] {
        SubWithout(a[1..], b[1..], id);
        if b[0].id != id {
          assert Without(b, id)[1..] == Without(b[1..], id) && Without(a, id)[1..] == Without(a[1..], id);
        }
      }
    }
  }

  lemma {:induction false} SubFind<T>(a: Contents<T>, b: Contents<T>, id: string)
    requires Sub(a, b) && DistinctIds(b) && Find(a, id).Some?
    ensures Find(b, id) == Find(a, id)
  {
    if Sub(a, b[1..]) {
      SubFind(a, b[1..], id);
      FindIsMember(b[1..], id);
      FindIsMember(b[1..], b[0].id);
    } else if a[0].id != id {
      SubFind(a[1..], b[1..], id);
    }
  }

  // ---------- LRU inclusion ----------

  ghost predicate Smaller(m: Capacity, big: Capacity) {
    big.None? || (m.Some? && Max(1, m.value) <= Max(1, big.value))
  }

  /** The smaller cache is an ordered part of the larger, and lags by no more than the capacities differ. */
  ghost predicate Included<T>(a: Contents<T>, b: Contents<T>, m: Capacity, big: Capacity)
    requires Smaller(m, big)
  {
    && Sub(a, b)
    && (big.Some? ==> |b| - |a| <= Max(1, big.value) - Max(1, m.value))
  }

  lemma SurplusOrder(n: nat, k: nat, m: Capacity, big: Capacity)
    requires Smaller(m, big) && n <= k
    requires big.Some? ==> k - n <= Max(1, big.value) - Max(1, m.value)
    ensures Surplus(k, big) <= Surplus(n, m)
    ensures big.Some? ==> (k - Surplus(k, big)) - (n - Surplus(n, m)) <= Max(1, big.value) - Max(1, m.value)
  {
  }

  lemma EvictIncluded<T>(a: Contents<T>, b: Contents<T>, m: Capacity, big: Capacity, e: Cached<T>)
    requires Smaller(m, big) && Included(a, b, m, big)
    ensures Included(Evict(a, m) + [e], Evict(b, big) + [e], m, big)
  {
    var i, j := Surplus(|a|, m), Surplus(|b|, big);
    EvictDropsSurplus(a, m);
    EvictDropsSurplus(b, big);
    SubLength(a, b);
    SurplusOrder(|a|, |b|, m, big);
    SubSuffix(a, b, i, j);
    SubAppend(a[i..], b[j..], e);
  }

  lemma GetIncluded<T>(a: Contents<T>, b: Contents<T>, id: string, now: int, later: int, ttl: int,
                       m: Capacity, big: Capacity)
    requires Smaller(m, big) && Included(a, b, m, big) && DistinctIds(a) && DistinctIds(b)
    ensures Included(Apply(a, Get(id, now, later), ttl, m), Apply(b, Get(id, now, later), ttl, big), m, big)
  {
    var a1, b1 := Live(a, now), Live(b, now);
    SubLive(a, b, now);
    LiveKeeps(a, now);
    LiveKeeps(b, now);
    SubWithout(a1, b1, id);
    if Find(a1, id).Some? {
      SubFind(a1, b1, id);
      SubAppend(Without(a1, id), Without(b1, id), Find(a1, id).value);
    } else if Find(b1, id).Some? {
      WithoutAbsent(a1, id);
      FiltersShrink(b1, id, now);
      SubAppend(a1, Without(b1, id), Find(b1, id).value);
    }
  }

  lemma PutIncluded<T>(a: Contents<T>, b: Contents<T>, e: Cached<T>, now: int, m: Capacity, big: Capacity)
    requires Smaller(m, big) && Included(a, b, m, big)
    ensures Included(Put(a, e, now, m), Put(b, e, now, big), m, big)
  {
    SubLive(a, b, now);
    SubWithout(Live(a, now), Live(b, now), e.id);
    EvictIncluded(Without(Live(a, now), e.id), Without(Live(b, now), e.id), m, big, e);
  }

  lemma SetIncluded<T>(a: Contents<T>, b: Contents<T>, id: string, dek: T, v: int, now: int, later: int, ttl: int,
                       m: Capacity, big: Capacity)
    requires Smaller(m, big) && Included(a, b, m, big)
    ensures Included(Apply(a, Set(id, dek, v, now, later), ttl, m), Apply(b, Set(id, dek, v, now, later), ttl, big),
                     m, big)
  {
    PutIncluded(a, b, Cached(id, dek, v, later + ttl), now, m, big);
    SetIsPut(a, id, dek, v, now, later, ttl, m);
    SetIsPut(b, id, dek, v, now, later, ttl, big);
  }

  lemma ApplyKeepsInclusion<T>(a: Contents<T>, b: Contents<T>, op: Op<T>, ttl: int, m: Capacity, big: Capacity)
    requires Smaller(m, big) && Included(a, b, m, big) && DistinctIds(a) && DistinctIds(b)
    ensures Included(Apply(a, op, ttl, m), Apply(b, op, ttl, big), m, big)
  {
    match op {
      case Get(id, now, later) => GetIncluded(a, b, id, now, later, ttl, m, big);
      case Set(id, dek, v, now, later) => SetIncluded(a, b, id, dek, v, now, later, ttl, m, big);
      case Delete(id) => SubWithout(a, b, id);
      case Clear =>
      case Size(now) => SubLive(a, b, now);
    }
  }

  /** After the same calls, the cache with less capacity holds an ordered sub-cache of the other. */
  lemma {:induction false} LruInclusion<T>(t: Trace<T>, ttl: int, m: Capacity, big: Capacity)
    requires Smaller(m, big)
    ensures Included(State(t, ttl, m), State(t, ttl, big), m, big)
  {
    if t.Then? {
      LruInclusion(t.past, ttl, m, big);
      StateIsDistinct(t.past, ttl, m);
      StateIsDistinct(t.past, ttl, big);
      ApplyKeepsInclusion(State(t.past, ttl, m), State(t.past, ttl, big), t.op, ttl, m, big);
    }
  }

  /** Whatever the smaller cache still finds, the larger finds too, with the same bytes, version and expiry. */
  lemma HitsAgree<T>(t: Trace<T>, op: Op<T>, ttl: int, m: Capacity, big: Capacity)
    requires Smaller(m, big)
    ensures var small, large := Respond(State(t, ttl, m), op), Respond(State(t, ttl, big), op);
            && (small.Hit? ==> large == small)
            && (small.Count? ==> large.Count? && small.n <= large.n)
  {
    var a, b := State(t, ttl, m), State(t, ttl, big);
    LruInclusion(t, ttl, m, big);
    StateIsDistinct(t, ttl, m);
    StateIsDistinct(t, ttl, big);
    match op
    case Get(id, now, later) =>
      SubLive(a, b, now);
      LiveKeeps(b, now);
      if Find(Live(a, now), id).Some? { SubFind(Live(a, now), Live(b, now), id); }
    case Size(now) => SubLive(a, b, now); SubLength(Live(a, now), Live(b, now));
    case Set(_, _, _, _, _) =>
    case Delete(_) =>
    case Clear =>
  }

  /** The cache never exceeds its capacity, where capacities below one act as one. */
  lemma {:induction false} SizeIsBounded<T>(t: Trace<T>, ttl: int, capacity: int)
    ensures |State(t, ttl, Some(capacity))| <= Max(1, capacity)
  {
    if t.Then? {
      var s := State(t.past, ttl, Some(capacity));
      SizeIsBounded(t.past, ttl, capacity);
      match t.op
      case Get(id, now, _) => FiltersShrink(s, id, now); FiltersShrink(Live(s, now), id, now);
      case Set(id, _, _, now, _) => EvictionSize(Without(Live(s, now), id), capacity);
      case Delete(id) => FiltersShrink(s, id, 0);
      case Clear =>
      case Size(now) => FiltersShrink(s, "", now);
    }
  }

  // ---------- the plain map with expiry ----------

  /** The last entry set for each key, with no capacity and no clean-up. */
  function Plain<T>(t: Trace<T>, ttl: int): map<string, Cached<T>> {
    if t.Start? then map[]
    else
      var m := Plain(t.past, ttl);
      match t.op
      case Set(id, dek, v, _, later) => m[id := Cached(id, dek, v, later + ttl)]
      case Delete(id) => m - {id}
      case Clear => map[]
      case Get(_, _, _) => m
      case Size(_) => m
  }

  function PlainGet<T>(m: map<string, Cached<T>>, id: string, later: int): Response<T> {
    if id in m && later < m[id].expiresAt then Hit(m[id]) else Miss
  }

  function LastReading<T>(op: Op<T>, before: int): int {
    match op
    case Get(_, _, later) => later
    case Set(_, _, _, _, later) => later
    case Size(now) => now
    case Delete(_) => before
    case Clear => before
  }

  predicate Monotone<T>(op: Op<T>, before: int) {
    match op
    case Get(_, now, later) => before <= now <= later
    case Set(_, _, _, now, later) => before <= now <= later
    case Size(now) => before <= now
    case Delete(_) => true
    case Clear => true
  }

  function ClockOf<T>(t: Trace<T>, start: int): int {
    if t.Start? then start else LastReading(t.op, ClockOf(t.past, start))
  }

  /** The clock never goes back between readings. */
  predicate Timed<T>(t: Trace<T>, start: int) {
    t.Start? || (Timed(t.past, start) && Monotone(t.op, ClockOf(t.past, start)))
  }

  /** Every entry is the plain map's, and what is missing from the cache has expired. */
  ghost predicate MatchesPlain<T>(s: Contents<T>, m: map<string, Cached<T>>, clock: int) {
    && (forall id :: Find(s, id).Some? ==> id in m && m[id] == Find(s, id).value)
    && (forall id :: id in m && Find(s, id).None? ==> m[id].expiresAt <= clock)
  }

  lemma FindAfterPut<T>(s: Contents<T>, e: Cached<T>)
    requires DistinctIds(s)
    ensures forall k :: Find(Without(s, e.id) + [e], k) == if k == e.id then Some(e) else Find(s, k)
  {
    WithoutKeeps(s, e.id);
    forall k
      ensures Find(Without(s, e.id) + [e], k) == if k == e.id then Some(e) else Find(s, k)
    {
      FindInParts(Without(s, e.id), [e], k);
    }
  }

  lemma GetMatchesPlain<T>(s: Contents<T>, m: map<string, Cached<T>>, id: string, now: int, later: int,
                           ttl: int, clock: int)
    requires MatchesPlain(s, m, clock) && DistinctIds(s) && clock <= now <= later
    ensures MatchesPlain(Apply(s, Get(id, now, later), ttl, None), m, later)
  {
    LiveKeeps(s, now);
    WithoutKeeps(Live(s, now), id);
    FindIsMember(Live(s, now), id);
    if Find(Live(s, now), id).Some? {
      FindAfterPut(Live(s, now), Find(Live(s, now), id).value);
    }
  }

  lemma SetMatchesPlain<T>(s: Contents<T>, m: map<string, Cached<T>>, e: Cached<T>, now: int, clock: int)
    requires MatchesPlain(s, m, clock) && DistinctIds(s) && clock <= now
    ensures MatchesPlain(Without(Live(s, now), e.id) + [e], m[e.id := e], now)
  {
    LiveKeeps(s, now);
    FindAfterPut(Live(s, now), e);
  }

  lemma {:induction false} UnboundedMatchesPlain<T>(t: Trace<T>, ttl: int, start: int)
    requires Timed(t, start)
    ensures MatchesPlain(State(t, ttl, None), Plain(t, ttl), ClockOf(t, start))
  {
    if t.Then? {
      var s, m := State(t.past, ttl, None), Plain(t.past, ttl);
      UnboundedMatchesPlain(t.past, ttl, start);
      StateIsDistinct(t.past, ttl, None);
      match t.op {
        case Get(id, now, later) => GetMatchesPlain(s, m, id, now, later, ttl, ClockOf(t.past, start));
        case Set(id, dek, v, now, later) =>
          SetMatchesPlain(s, m, Cached(id, dek, v, later + ttl), now, ClockOf(t.past, start));
        case Delete(id) => WithoutKeeps(s, id);
        case Clear =>
        case Size(now) => LiveKeeps(s, now);
      }
    }
  }

  /**
   Without a capacity the cache answers every lookup exactly like the plain map; with one, it
   may miss, but every hit is the plain map's answer.
   */
  lemma CacheRefinesPlainMap<T>(t: Trace<T>, id: string, now: int, later: int, ttl: int, capacity: Capacity, start: int)
    requires Timed(Then(t, Get(id, now, later)), start)
    ensures Respond(State(t, ttl, None), Get(id, now, later)) == PlainGet(Plain(t, ttl), id, later)
    ensures Respond(State(t, ttl, capacity), Get(id, now, later)).Hit? ==>
              Respond(State(t, ttl, capacity), Get(id, now, later)) == PlainGet(Plain(t, ttl), id, later)
  {
    UnboundedMatchesPlain(t, ttl, start);
    StateIsDistinct(t, ttl, None);
    LiveKeeps(State(t, ttl, None), now);
    HitsAgree(t, Get(id, now, later), ttl, capacity, None);
  }
}
