/**
 The in-memory cache of decrypted tenant keys, packages/crypto/src/dek-cache.ts, with its
 buffers on the heap. `Date.now()` is a parameter, once for each time a call reads it.

 Memory discipline: the cache's buffers are distinct, a stored buffer is always a fresh copy,
 and every buffer that leaves the cache is zeroed, also when a caller still holds it.
 */
module DekCaches {
  import opened Wrappers
  import opened LruSpec

  newtype byte = x: int | 0 <= x < 256

  type Entries = Contents<array<byte>>

  ghost function BuffersOf(s: Entries): set<array<byte>> {
    set e | e in s :: e.dek
  }

  ghost predicate DistinctBuffers(s: Entries) {
    s == [] || (s[0].dek !in BuffersOf(s[1..]) && DistinctBuffers(s[1..]))
  }

  ghost predicate AllZero(b: seq<byte>) {
    forall i :: 0 <= i < |b| ==> b[i] == 0
  }

  /** The entries with the bytes their buffers hold now. */
  ghost function View(s: Entries): (v: Contents<seq<byte>>)
    reads BuffersOf(s)
    ensures |v| == |s|
  {
    if s == [] then []
    else [Cached(s[0].id, s[0].dek[..], s[0].keyVersion, s[0].expiresAt)] + View(s[1..])
  }

  lemma {:induction false} ViewAt(s: Entries, i: nat)
    requires i < |s|
    ensures View(s)[i] == Cached(s[i].id, s[i].dek[..], s[i].keyVersion, s[i].expiresAt)
  {
    if i > 0 {
      ViewAt(s[1..], i - 1);
    }
  }

  lemma ViewConcat(a: Entries, b: Entries)
    ensures View(a + b) == View(a) + View(b)
  {
    forall i | 0 <= i < |a + b|
      ensures View(a + b)[i] == (View(a) + View(b))[i]
    {
      ViewAt(a + b, i);
      if i < |a| { ViewAt(a, i); } else { ViewAt(b, i - |a|); }
    }
  }

  lemma ViewAppend(s: Entries, e: Cached<array<byte>>)
    ensures View(s + [e]) == View(s) + [Cached(e.id, e.dek[..], e.keyVersion, e.expiresAt)]
  {
    ViewConcat(s, [e]);
  }

  lemma {:induction false} ViewLive(s: Entries, now: int)
    ensures View(Live(s, now)) == Live(View(s), now)
  {
    if s != [] {
      ViewLive(s[1..], now);
      assert View(s)[1..] == View(s[1..]);
      if now < s[0].expiresAt { assert Live(s, now)[1..] == Live(s[1..], now); }
    }
  }

  lemma {:induction false} ViewWithout(s: Entries, id: string)
    ensures View(Without(s, id)) == Without(View(s), id)
  {
    if s != [] {
      ViewWithout(s[1..], id);
      assert View(s)[1..] == View(s[1..]);
      if s[0].id != id { assert Without(s, id)[1..] == Without(s[1..], id); }
    }
  }

  lemma {:induction false} ViewFind(s: Entries, id: string)
    ensures Find(View(s), id) == (if Find(s, id).None? then None
                                  else var e := Find(s, id).value;
                                  Some(Cached(e.id, e.dek[..], e.keyVersion, e.expiresAt)))
  {
    if s != [] {
      ViewFind(s[1..], id);
      assert View(s)[1..] == View(s[1..]);
    }
  }

  lemma {:induction false} ViewEvict(s: Entries, capacity: Capacity)
    ensures View(Evict(s, capacity)) == Evict(View(s), capacity)
    decreases |s|
  {
    if s != [] {
      assert View(s)[1..] == View(s[1..]);
      ViewEvict(s[1..], capacity);
    }
  }

  lemma ViewTouch(s: Entries, id: string, now: int, later: int)
    ensures View(Touch(s, id, now, later)) == Touch(View(s), id, now, later)
    ensures Lookup(View(s), id, now, later) ==
            (if Lookup(s, id, now, later).None? then None
             else var e := Lookup(s, id, now, later).value;
             Some(Cached(e.id, e.dek[..], e.keyVersion, e.expiresAt)))
  {
    ViewLive(s, now);
    ViewFind(Live(s, now), id);
    ViewWithout(Live(s, now), id);
    if Find(Live(s, now), id).Some? {
      ViewConcat(Without(Live(s, now), id), [Find(Live(s, now), id).value]);
    }
  }

  lemma ViewPrepared(s: Entries, id: string, now: int, capacity: Capacity)
    ensures View(Evict(Without(Live(s, now), id), capacity)) == Evict(Without(Live(View(s), now), id), capacity)
  {
    ViewLive(s, now);
    ViewWithout(Live(s, now), id);
    ViewEvict(Without(Live(s, now), id), capacity);
  }

  /** Entries whose buffers did not change look the same. */
  twostate lemma {:induction false} ViewUnchanged(s: Entries)
    requires forall b :: b in BuffersOf(s) ==> old(allocated(b)) && b[..] == old(b[..])
    ensures View(s) == old(View(s))
  {
    if s != [] {
      assert s[0] in s;
      forall b | b in BuffersOf(s[1..])
        ensures b in BuffersOf(s)
      {
      }
      ViewUnchanged(s[1..]);
    }
  }

  lemma {:induction false} LiveBuffers(s: Entries, now: int)
    requires DistinctBuffers(s)
    ensures DistinctBuffers(Live(s, now)) && BuffersOf(Live(s, now)) <= BuffersOf(s)
  {
    if s != [] {
      LiveBuffers(s[1..], now);
      assert BuffersOf(s) == {s[0].dek} + BuffersOf(s[1..]);
      if now < s[0].expiresAt { assert Live(s, now)[1..] == Live(s[1..], now); }
    }
  }

  lemma {:induction false} WithoutBuffers(s: Entries, id: string)
    requires DistinctBuffers(s) && DistinctIds(s)
    ensures DistinctBuffers(Without(s, id)) && DistinctIds(Without(s, id))
    ensures Find(s, id).None? ==> BuffersOf(Without(s, id)) == BuffersOf(s)
    ensures Find(s, id).Some? ==>
              Find(s, id).value.dek in BuffersOf(s)
              && BuffersOf(Without(s, id)) == BuffersOf(s) - {Find(s, id).value.dek}
  {
    WithoutKeeps(s, id);
    if s != [] {
      assert BuffersOf(s) == {s[0].dek} + BuffersOf(s[1..]);
      if s[0].id == id {
        WithoutAbsent(s[1..], id);
      } else {
        WithoutBuffers(s[1..], id);
        assert Without(s, id)[1..] == Without(s[1..], id);
        assert BuffersOf(Without(s, id)) == {s[0].dek} + BuffersOf(Without(s[1..], id));
      }
    }
  }

  lemma {:induction false} SuffixBuffers(s: Entries, i: nat)
    requires DistinctBuffers(s) && i <= |s|
    ensures DistinctBuffers(s[i..]) && BuffersOf(s[i..]) <= BuffersOf(s)
  {
    if i == 0 {
      assert s[0..] == s;
    } else {
      SuffixBuffers(s[1..], i - 1);
      assert s[1..][i - 1..] == s[i..];
    }
  }

  lemma {:induction false} AppendBuffers(s: Entries, e: Cached<array<byte>>)
    requires DistinctBuffers(s) && e.dek !in BuffersOf(s)
    ensures DistinctBuffers(s + [e]) && BuffersOf(s + [e]) == BuffersOf(s) + {e.dek}
  {
    if s != [] {
      AppendBuffers(s[1..], e);
      assert (s + [e])[1..] == s[1..] + [e];
      assert BuffersOf(s) == {s[0].dek} + BuffersOf(s[1..]);
    }
  }

  /** Deleting the key at position `i` of a cache with distinct keys cuts out that position. */
  lemma {:induction false} WithoutAt<T>(s: Contents<T>, i: nat)
    requires DistinctIds(s) && i < |s|
    ensures Without(s, s[i].id) == s[..i] + s[i + 1..]
  {
    if i == 0 {
      WithoutAbsent(s[1..], s[0].id);
    } else {
      FindIsMember(s[1..], s[0].id);
      assert s[i] in s[1..];
      WithoutAt(s[1..], i - 1);
      assert s[1..][..i - 1] == s[1..i];
      assert s[1..][i..] == s[i + 1..];
      assert [s[0]] + s[1..i] == s[..i];
    }
  }

  /** A buffer that was in the cache either stays, unchanged, or left it zeroed. */
  twostate predicate KeepsOrZeroes(before: set<array<byte>>, new after: set<array<byte>>)
    reads before
  {
    forall b :: b in before ==> if b in after then b[..] == old(b[..]) else AllZero(b[..])
  }

  /** `Buffer.fill(0)`. */
  method FillZero(b: array<byte>)
    modifies b
    ensures AllZero(b[..])
  {
    forall i | 0 <= i < b.Length {
      b[i] := 0;
    }
  }

  /** `Buffer.from(dek)`. */
  method CopyOf(dek: array<byte>) returns (copy: array<byte>)
    ensures fresh(copy) && copy[..] == dek[..]
  {
    copy := new byte[dek.Length](i requires 0 <= i < dek.Length reads dek => dek[i]);
  }

  lemma LiveStep<T>(s: Contents<T>, i: nat, now: int)
    requires i < |s|
    ensures s[..i] + Live(s[i..], now) == if now < s[i].expiresAt then s[..i + 1] + Live(s[i + 1..], now)
                                          else s[..i] + Live(s[i + 1..], now)
  {
  }

  lemma CutAt<T>(s: seq<T>, i: nat)
    requires i < |s|
    ensures var cut := s[..i] + s[i + 1..];
            |cut| == |s| - 1 && cut[..i] == s[..i] && cut[i..] == s[i + 1..]
  {
  }

  lemma DropOne<T>(s: seq<T>, k: nat)
    requires k < |s|
    ensures s[k..][0] == s[k] && s[k..][1..] == s[k + 1..]
  {
  }

  lemma EvictKeepsAbsent<T>(s: Contents<T>, id: string, capacity: Capacity)
    requires DistinctIds(s) && Find(s, id).None?
    ensures Find(Evict(s, capacity), id).None?
  {
    EvictDropsSurplus(s, capacity);
    DistinctSuffix(s, Surplus(|s|, capacity));
  }

  class DekCache {
    const ttlMs: int
    const maxEntries: int
    /** Insertion order, oldest first. */
    var entries: Entries
    /** The calls so far, with the bytes they stored. */
    ghost var trace: Trace<seq<byte>>

    ghost function Buffers(): set<array<byte>>
      reads `entries
    {
      BuffersOf(entries)
    }

    ghost predicate IsSound()
      reads `entries
    {
      DistinctIds(entries) && DistinctBuffers(entries) && |entries| <= Max(1, maxEntries)
    }

    /** The keys, bytes, versions and expiry times in the cache, oldest first. */
    ghost function Bytes(): Contents<seq<byte>>
      reads `entries, Buffers()
    {
      View(entries)
    }

    /** The cache is in the state its calls lead to. */
    ghost predicate Valid()
      reads this, Buffers()
    {
      IsSound() && Bytes() == State(trace, ttlMs, Some(maxEntries))
    }

    constructor (ttlMs: int, maxEntries: int)
      ensures Valid() && entries == [] && trace == Start && this.ttlMs == ttlMs && this.maxEntries == maxEntries
    {
      this.ttlMs := ttlMs;
      this.maxEntries := maxEntries;
      entries := [];
      trace := Start;
    }

    /** Every call ends with its entry in the trace. */
    ghost method Record(op: Op<seq<byte>>)
      requires IsSound() && Bytes() == Apply(State(trace, ttlMs, Some(maxEntries)), op, ttlMs, Some(maxEntries))
      modifies `trace
      ensures Valid() && trace == Then(old(trace), op)
    {
      trace := Then(trace, op);
    }

    method ZeroAndDelete(id: string)
      requires IsSound()
      modifies this`entries, Buffers()
      ensures IsSound() && entries == Without(old(entries), id)
      ensures Buffers() <= old(Buffers()) && KeepsOrZeroes(old(Buffers()), Buffers())
    {
      WithoutBuffers(entries, id);
      FiltersShrink(entries, id, 0);
      var entry := Find(entries, id);
      if entry.Some? {
        FillZero(entry.value.dek);
      }
      entries := Without(entries, id);
    }

    /** Iterates the live map: deleting the visited entry moves the next one to its place. */
    method EvictExpired(now: int)
      requires IsSound()
      modifies this`entries, Buffers()
      ensures IsSound() && entries == Live(old(entries), now)
      ensures Buffers() <= old(Buffers()) && KeepsOrZeroes(old(Buffers()), Buffers())
    {
      var i := 0;
      assert entries[..0] == [] && entries[0..] == entries;
      while i < |entries|
        invariant IsSound() && i <= |entries|
        invariant entries[..i] + Live(entries[i..], now) == Live(old(entries), now)
        invariant Buffers() <= old(Buffers()) && KeepsOrZeroes(old(Buffers()), Buffers())
        decreases |entries| - i
      {
        LiveStep(entries, i, now);
        if now >= entries[i].expiresAt {
          WithoutAt(entries, i);
          CutAt(entries, i);
          ZeroAndDelete(entries[i].id);
        } else {
          i := i + 1;
        }
      }
      assert entries[..i] == entries && entries[i..] == [];
    }

    /** Moves the entry for `id` to the young end. */
    method Bump(id: string) returns (entry: Cached<array<byte>>)
      requires IsSound() && Find(entries, id).Some?
      modifies this`entries
      ensures IsSound() && Buffers() == old(Buffers())
      ensures entry == Find(old(entries), id).value && entries == Without(old(entries), id) + [entry]
    {
      entry := Find(entries, id).value;
      FindIsMember(entries, id);
      WithoutKeeps(entries, id);
      WithoutBuffers(entries, id);
      FiltersShrink(entries, id, 0);
      DistinctAppend(Without(entries, id), entry);
      AppendBuffers(Without(entries, id), entry);
      entries := Without(entries, id) + [entry];
    }

    method Select(id: string, now: int, later: int) returns (r: Option<Cached<array<byte>>>)
      requires IsSound()
      modifies this`entries, Buffers()
      ensures IsSound() && entries == Touch(old(entries), id, now, later)
      ensures r == Lookup(old(entries), id, now, later)
      ensures Buffers() <= old(Buffers()) && KeepsOrZeroes(old(Buffers()), Buffers())
    {
      EvictExpired(now);
      r := Find(entries, id);
      if r.None? {
        return;
      }
      if later >= r.value.expiresAt {
        ZeroAndDelete(id);
        return None;
      }
      var entry := Bump(id);
      return Some(entry);
    }

    /** The result in terms of bytes, and the cached buffer behind it. */
    ghost predicate IsHit(hit: Option<Cached<seq<byte>>>, r: Option<Cached<array<byte>>>)
      reads `entries, Buffers()
    {
      match hit
      case None => r.None?
      case Some(e) => r.Some? && r.value.dek in Buffers()
                      && e == Cached(r.value.id, r.value.dek[..], r.value.keyVersion, r.value.expiresAt)
    }

    /** `Get` short of the trace. */
    method LookUp(id: string, now: int, later: int) returns (r: Option<Cached<array<byte>>>)
      requires IsSound()
      modifies this`entries, Buffers()
      ensures IsSound() && entries == Touch(old(entries), id, now, later)
      ensures Bytes() == Touch(old(Bytes()), id, now, later)
      ensures r == Lookup(old(entries), id, now, later) && IsHit(Lookup(old(Bytes()), id, now, later), r)
      ensures Buffers() <= old(Buffers()) && KeepsOrZeroes(old(Buffers()), Buffers())
    {
      ViewTouch(entries, id, now, later);
      r := Select(id, now, later);
      ViewUnchanged(entries);
      if r.Some? {
        assert entries[|entries| - 1] == r.value;
      }
    }

    /** The entry handed out is the cached one: its buffer is still the cache's. */
    method Get(id: string, now: int, later: int) returns (r: Option<Cached<array<byte>>>)
      requires Valid()
      modifies this, Buffers()
      ensures Valid() && trace == Then(old(trace), Op.Get(id, now, later))
      ensures entries == Touch(old(entries), id, now, later)
      ensures Bytes() == Touch(old(Bytes()), id, now, later)
      ensures r == Lookup(old(entries), id, now, later) && IsHit(Lookup(old(Bytes()), id, now, later), r)
      ensures Buffers() <= old(Buffers()) && KeepsOrZeroes(old(Buffers()), Buffers())
    {
      r := LookUp(id, now, later);
      Record(Op.Get(id, now, later));
    }

    /** The eviction loop of `Set`. */
    method MakeRoom()
      requires IsSound()
      modifies this`entries, Buffers()
      ensures IsSound() && entries == Evict(old(entries), Some(maxEntries))
      ensures Buffers() <= old(Buffers()) && KeepsOrZeroes(old(Buffers()), Buffers())
    {
      while |entries| >= maxEntries
        invariant IsSound() && Evict(entries, Some(maxEntries)) == Evict(old(entries), Some(maxEntries))
        invariant Buffers() <= old(Buffers()) && KeepsOrZeroes(old(Buffers()), Buffers())
        decreases |entries|
      {
        if entries == [] {
          break;
        }
        DropOldest(entries[0].id);
      }
    }

    method DropOldest(id: string)
      requires IsSound() && entries != [] && entries[0].id == id
      modifies this`entries, Buffers()
      ensures IsSound() && entries == old(entries[1..])
      ensures Buffers() <= old(Buffers()) && KeepsOrZeroes(old(Buffers()), Buffers())
    {
      WithoutAt(entries, 0);
      ZeroAndDelete(id);
    }

    /** Drops expired entries, the old entry for `id`, and the oldest ones if the cache is full. */
    method Prepare(id: string, now: int)
      requires IsSound()
      modifies this`entries, Buffers()
      ensures IsSound() && entries == Evict(Without(Live(old(entries), now), id), Some(maxEntries))
      ensures |entries| < Max(1, maxEntries) && Find(entries, id).None?
      ensures Buffers() <= old(Buffers()) && KeepsOrZeroes(old(Buffers()), Buffers())
    {
      EvictExpired(now);
      if Find(entries, id).Some? {
        ZeroAndDelete(id);
      }
      WithoutKeeps(Live(old(entries), now), id);
      WithoutAbsent(entries, id);
      EvictKeepsAbsent(entries, id, Some(maxEntries));
      EvictionSize(entries, maxEntries);
      MakeRoom();
    }

    /** Stores a copy of `dek` at the young end. */
    method Insert(id: string, dek: array<byte>, keyVersion: int, expiresAt: int) returns (ghost stored: array<byte>)
      requires IsSound() && |entries| < Max(1, maxEntries) && Find(entries, id).None?
      modifies this`entries
      ensures IsSound() && fresh(stored) && stored[..] == dek[..] && Buffers() == old(Buffers()) + {stored}
      ensures entries == old(entries) + [Cached(id, stored, keyVersion, expiresAt)]
    {
      var buffer := CopyOf(dek);
      stored := buffer;
      var entry := Cached(id, buffer, keyVersion, expiresAt);
      DistinctAppend(entries, entry);
      AppendBuffers(entries, entry);
      entries := entries + [entry];
    }

    method Replace(id: string, dek: array<byte>, keyVersion: int, now: int, expiresAt: int)
      returns (ghost rest: Entries, ghost stored: array<byte>)
      requires IsSound()
      modifies this`entries, Buffers()
      ensures IsSound() && fresh(stored) && stored[..] == dek[..]
      ensures entries == rest + [Cached(id, stored, keyVersion, expiresAt)]
      ensures rest == Evict(Without(Live(old(entries), now), id), Some(maxEntries))
      ensures forall b :: b in BuffersOf(rest) ==> b in old(Buffers()) && b[..] == old(b[..])
      ensures dek[..] == old(dek[..]) || (dek in old(Buffers()) && dek !in Buffers() && AllZero(dek[..]))
      ensures Buffers() - {stored} <= old(Buffers()) && KeepsOrZeroes(old(Buffers()), Buffers())
    {
      Prepare(id, now);
      rest := entries;
      stored := Insert(id, dek, keyVersion, expiresAt);
    }

    /** `Set` short of the trace. */
    method Store(id: string, dek: array<byte>, keyVersion: int, now: int, later: int)
      returns (ghost stored: array<byte>)
      requires IsSound()
      modifies this`entries, Buffers()
      ensures IsSound() && fresh(stored) && stored[..] == dek[..]
      ensures entries == Put(old(entries), Cached(id, stored, keyVersion, later + ttlMs), now, Some(maxEntries))
      ensures Bytes() == Put(old(Bytes()), Cached(id, dek[..], keyVersion, later + ttlMs), now, Some(maxEntries))
      ensures dek[..] == old(dek[..]) || (dek in old(Buffers()) && dek !in Buffers() && AllZero(dek[..]))
      ensures Buffers() <= old(Buffers()) + {stored} && KeepsOrZeroes(old(Buffers()), Buffers())
    {
      ghost var rest;
      ghost var before := Evict(Without(Live(Bytes(), now), id), Some(maxEntries));
      assert View(Evict(Without(Live(entries, now), id), Some(maxEntries))) == before by {
        ViewPrepared(entries, id, now, Some(maxEntries));
      }
      rest, stored := Replace(id, dek, keyVersion, now, later + ttlMs);
      assert Bytes() == before + [Cached(id, dek[..], keyVersion, later + ttlMs)] by {
        ViewUnchanged(rest);
        ViewAppend(rest, Cached(id, stored, keyVersion, later + ttlMs));
      }
    }

    /**
     The bytes stored are those of `dek` after the clean-up: a caller that passes a buffer of
     this cache which leaves it in this very call stores zeros.
     */
    method Set(id: string, dek: array<byte>, keyVersion: int, now: int, later: int) returns (ghost stored: array<byte>)
      requires Valid()
      modifies this, Buffers()
      ensures Valid() && trace == Then(old(trace), Op.Set(id, dek[..], keyVersion, now, later))
      ensures fresh(stored) && stored[..] == dek[..]
      ensures entries == Put(old(entries), Cached(id, stored, keyVersion, later + ttlMs), now, Some(maxEntries))
      ensures Bytes() == Put(old(Bytes()), Cached(id, dek[..], keyVersion, later + ttlMs), now, Some(maxEntries))
      ensures dek[..] == old(dek[..]) || (dek in old(Buffers()) && dek !in Buffers() && AllZero(dek[..]))
      ensures Buffers() <= old(Buffers()) + {stored} && KeepsOrZeroes(old(Buffers()), Buffers())
    {
      ghost var before := Bytes();
      stored := Store(id, dek, keyVersion, now, later);
      SetIsPut(before, id, dek[..], keyVersion, now, later, ttlMs, Some(maxEntries));
      Record(Op.Set(id, dek[..], keyVersion, now, later));
    }

    /** `Delete` short of the trace. */
    method Remove(id: string)
      requires IsSound()
      modifies this`entries, Buffers()
      ensures IsSound() && entries == Without(old(entries), id) && Bytes() == Without(old(Bytes()), id)
      ensures Buffers() <= old(Buffers()) && KeepsOrZeroes(old(Buffers()), Buffers())
    {
      ViewWithout(entries, id);
      ZeroAndDelete(id);
      ViewUnchanged(entries);
    }

    method Delete(id: string)
      requires Valid()
      modifies this, Buffers()
      ensures Valid() && trace == Then(old(trace), Op.Delete(id))
      ensures entries == Without(old(entries), id) && Bytes() == Without(old(Bytes()), id)
      ensures Buffers() <= old(Buffers()) && KeepsOrZeroes(old(Buffers()), Buffers())
    {
      Remove(id);
      Record(Op.Delete(id));
    }

    /** `Clear` short of the trace. */
    method DeleteAll()
      requires IsSound()
      modifies this`entries, Buffers()
      ensures IsSound() && entries == [] && KeepsOrZeroes(old(Buffers()), Buffers())
    {
      var keys := seq(|entries|, i requires 0 <= i < |entries| reads this => entries[i].id);
      for k := 0 to |keys|
        invariant IsSound() && entries == old(entries)[k..]
        invariant Buffers() <= old(Buffers()) && KeepsOrZeroes(old(Buffers()), Buffers())
      {
        DropOne(old(entries), k);
        DropOldest(keys[k]);
      }
    }

    method Clear()
      requires Valid()
      modifies this, Buffers()
      ensures Valid() && trace == Then(old(trace), Op.Clear)
      ensures entries == [] && KeepsOrZeroes(old(Buffers()), Buffers())
    {
      DeleteAll();
      Record(Op.Clear);
    }

    /** `Size` short of the trace and the count. */
    method DropExpired(now: int)
      requires IsSound()
      modifies this`entries, Buffers()
      ensures IsSound() && entries == Live(old(entries), now) && Bytes() == Live(old(Bytes()), now)
      ensures Buffers() <= old(Buffers()) && KeepsOrZeroes(old(Buffers()), Buffers())
    {
      ViewLive(entries, now);
      EvictExpired(now);
      ViewUnchanged(entries);
    }

    method Size(now: int) returns (n: nat)
      requires Valid()
      modifies this, Buffers()
      ensures Valid() && trace == Then(old(trace), Op.Size(now))
      ensures entries == Live(old(entries), now) && n == |entries| && Bytes() == Live(old(Bytes()), now)
      ensures Buffers() <= old(Buffers()) && KeepsOrZeroes(old(Buffers()), Buffers())
    {
      DropExpired(now);
      Record(Op.Size(now));
      return |entries|;
    }
  }

  /**
   Two caches after the same calls with the same bytes: the one with less capacity holds an ordered
   part of the other, byte for byte.
   */
  lemma SmallerCacheIsIncluded(small: DekCache, large: DekCache)
    requires small.ttlMs == large.ttlMs && Max(1, small.maxEntries) <= Max(1, large.maxEntries)
    ensures small.Valid() && large.Valid() && small.trace == large.trace ==>
      Included(small.Bytes(), large.Bytes(), Some(small.maxEntries), Some(large.maxEntries))
  {
    LruInclusion(small.trace, small.ttlMs, Some(small.maxEntries), Some(large.maxEntries));
  }

  lemma {:induction false} LiveWithout<T>(s: Contents<T>, id: string, now: int)
    ensures Without(Live(s, now), id) == Live(Without(s, id), now)
  {
    if s != [] {
      LiveWithout(s[1..], id, now);
      if now < s[0].expiresAt { assert Live(s, now)[1..] == Live(s[1..], now); }
      if s[0].id != id { assert Without(s, id)[1..] == Without(s[1..], id); }
    }
  }

  lemma EvictedBuffers(kept: Entries, e: Cached<array<byte>>, capacity: Capacity)
    requires DistinctBuffers(kept)
    ensures BuffersOf(Evict(kept, capacity) + [e]) <= BuffersOf(kept) + {e.dek}
  {
    EvictDropsSurplus(kept, capacity);
    SuffixBuffers(kept, Surplus(|kept|, capacity));
  }

  /** The buffer cached for a key does not survive a `Set` of that key. */
  lemma PutDropsOldBuffer(s: Entries, e: Cached<array<byte>>, now: int, capacity: Capacity)
    requires DistinctBuffers(s) && DistinctIds(s) && Find(s, e.id).Some? && e.dek !in BuffersOf(s)
    ensures Find(s, e.id).value.dek !in BuffersOf(Put(s, e, now, capacity))
  {
    var kept := Without(Live(s, now), e.id);
    WithoutBuffers(s, e.id);
    LiveWithout(s, e.id, now);
    LiveBuffers(Without(s, e.id), now);
    EvictedBuffers(kept, e, capacity);
  }

  lemma TouchedIsLast<T>(s: Contents<T>, id: string, now: int)
    requires DistinctIds(s) && Lookup(s, id, now, now).Some?
    ensures Find(Touch(s, id, now, now), id) == Lookup(s, id, now, now)
  {
    LiveKeeps(s, now);
    FindIsMember(Live(s, now), id);
    FindAfterPut(Live(s, now), Lookup(s, id, now, now).value);
  }

  /**
   Setting a key again from the buffer that `Get` handed out destroys it: the buffer is zeroed
   before it is copied, and the cache then holds zeros.
   */
  method SetFromOwnEntry(cache: DekCache, id: string, keyVersion: int, now: int)
    returns (found: bool, ghost stored: array<byte>)
    requires cache.Valid()
    modifies cache, cache.Buffers()
    ensures cache.Valid()
    ensures found <==> Lookup(old(cache.entries), id, now, now).Some?
    ensures found ==> AllZero(stored[..]) && cache.entries != []
    ensures found ==>
      cache.entries[|cache.entries| - 1] == Cached(id, stored, keyVersion, now + cache.ttlMs)
  {
    var entry := cache.Get(id, now, now);
    found := entry.Some?;
    stored := new byte[0];
    if found {
      ghost var s := cache.entries;
      TouchedIsLast(old(cache.entries), id, now);
      FindIsMember(s, id);
      stored := cache.Set(id, entry.value.dek, keyVersion, now, now);
      PutDropsOldBuffer(s, Cached(id, stored, keyVersion, now + cache.ttlMs), now, Some(cache.maxEntries));
    }
  }
}
