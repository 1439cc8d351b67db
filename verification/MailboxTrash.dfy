/**
 Emptying the trash: the loop deletes the rows it pages over and still advances its offset, so
 every second page of the original listing is passed by.
 */
module MailboxTrash {
  import opened Wrappers

  const PAGE_SIZE := 500

  /** A thread in the trash, with the stored attachment paths of each of its messages. */
  datatype TrashedThread = TrashedThread(id: nat, messages: seq<seq<string>>)

  function Concat(lists: seq<seq<string>>): seq<string> {
    if lists == [] then [] else Concat(lists[..|lists| - 1]) + lists[|lists| - 1]
  }

  /** All attachment paths of some threads, in order. */
  function BlobPaths(threads: seq<TrashedThread>): seq<string> {
    if threads == [] then [] else BlobPaths(threads[..|threads| - 1]) + Concat(threads[|threads| - 1].messages)
  }

  predicate HasDistinctIds(listing: seq<TrashedThread>) {
    forall i, j :: 0 <= i < j < |listing| ==> listing[i].id != listing[j].id
  }

  /** LIMIT and OFFSET over a listing. */
  function Page(listing: seq<TrashedThread>, offset: nat): seq<TrashedThread> {
    if offset >= |listing| then []
    else if offset + PAGE_SIZE <= |listing| then listing[offset..offset + PAGE_SIZE]
    else listing[offset..]
  }

  /** Whether position `k` of the original listing is deleted: the first half of every thousand. */
  predicate IsHit(k: nat) {
    k % (2 * PAGE_SIZE) < PAGE_SIZE
  }

  /** The elements at hit positions, and the others; `from` is the position of the first element. */
  function Deleted(listing: seq<TrashedThread>, from: nat): seq<TrashedThread>
    decreases |listing|
  {
    if listing == [] then []
    else if IsHit(from) then [listing[0]] + Deleted(listing[1..], from + 1)
    else Deleted(listing[1..], from + 1)
  }

  function Kept(listing: seq<TrashedThread>, from: nat): seq<TrashedThread>
    decreases |listing|
  {
    if listing == [] then []
    else if IsHit(from) then Kept(listing[1..], from + 1)
    else [listing[0]] + Kept(listing[1..], from + 1)
  }

  function Removed(listing: seq<TrashedThread>, id: nat): seq<TrashedThread> {
    if listing == [] then []
    else if listing[0].id == id then Removed(listing[1..], id)
    else [listing[0]] + Removed(listing[1..], id)
  }

  lemma {:induction false} NothingRemoved(listing: seq<TrashedThread>, id: nat)
    requires forall k :: 0 <= k < |listing| ==> listing[k].id != id
    ensures Removed(listing, id) == listing
  {
    if listing != [] {
      NothingRemoved(listing[1..], id);
    }
  }

  lemma {:induction false} RemovedOfTwo(a: seq<TrashedThread>, b: seq<TrashedThread>, id: nat)
    ensures Removed(a + b, id) == Removed(a, id) + Removed(b, id)
    decreases |a|
  {
    if a == [] {
      assert a + b == b;
    } else {
      assert (a + b)[1..] == a[1..] + b;
      RemovedOfTwo(a[1..], b, id);
    }
  }

  lemma RestIsDistinct(a: seq<TrashedThread>, b: seq<TrashedThread>, c: seq<TrashedThread>)
    requires HasDistinctIds(a + b + c)
    ensures HasDistinctIds(a + c)
  {
    var s := a + b + c;
    assert forall k :: 0 <= k < |a| ==> (a + c)[k] == s[k];
    assert forall k :: |a| <= k < |a + c| ==> (a + c)[k] == s[k + |b|];
  }

  lemma OthersDiffer(a: seq<TrashedThread>, x: TrashedThread, b: seq<TrashedThread>)
    requires HasDistinctIds(a + [x] + b)
    ensures forall k :: 0 <= k < |a| ==> a[k].id != x.id
    ensures forall k :: 0 <= k < |b| ==> b[k].id != x.id
  {
    var s := a + [x] + b;
    assert s[|a|] == x;
    assert forall k :: 0 <= k < |a| ==> s[k] == a[k];
    assert forall k :: 0 <= k < |b| ==> s[k + |a| + 1] == b[k];
  }

  lemma OneRemoved(x: TrashedThread)
    ensures Removed([x], x.id) == []
  {
  }

  lemma RemovedFromTheMiddle(a: seq<TrashedThread>, x: TrashedThread, b: seq<TrashedThread>)
    requires HasDistinctIds(a + [x] + b)
    ensures Removed(a + [x] + b, x.id) == a + b && HasDistinctIds(a + b)
  {
    RestIsDistinct(a, [x], b);
    OthersDiffer(a, x, b);
    calc {
      Removed(a + [x] + b, x.id);
      { RemovedOfTwo(a + [x], b, x.id); }
      Removed(a + [x], x.id) + Removed(b, x.id);
      { RemovedOfTwo(a, [x], x.id); }
      Removed(a, x.id) + Removed([x], x.id) + Removed(b, x.id);
      { NothingRemoved(a, x.id); NothingRemoved(b, x.id); OneRemoved(x); }
      a + [] + b;
      a + b;
    }
  }

  // ---------- runs of positions ----------

  lemma {:induction false} SplitPositions(a: seq<TrashedThread>, b: seq<TrashedThread>, from: nat)
    ensures Deleted(a + b, from) == Deleted(a, from) + Deleted(b, from + |a|)
    ensures Kept(a + b, from) == Kept(a, from) + Kept(b, from + |a|)
    decreases |a|
  {
    if a == [] {
      assert a + b == b;
    } else {
      assert (a + b)[1..] == a[1..] + b;
      SplitPositions(a[1..], b, from + 1);
    }
  }

  lemma {:induction false} AllHit(a: seq<TrashedThread>, from: nat)
    requires forall k :: from <= k < from + |a| ==> IsHit(k)
    ensures Deleted(a, from) == a && Kept(a, from) == []
    decreases |a|
  {
    if a != [] {
      AllHit(a[1..], from + 1);
    }
  }

  lemma {:induction false} NoneHit(a: seq<TrashedThread>, from: nat)
    requires forall k :: from <= k < from + |a| ==> !IsHit(k)
    ensures Deleted(a, from) == [] && Kept(a, from) == a
    decreases |a|
  {
    if a != [] {
      NoneHit(a[1..], from + 1);
    }
  }

  lemma HitsOfAThousand(i: nat, k: nat)
    requires 2 * PAGE_SIZE * i <= k < 2 * PAGE_SIZE * (i + 1)
    ensures IsHit(k) <==> k < 2 * PAGE_SIZE * i + PAGE_SIZE
  {
    assert k == 2 * PAGE_SIZE * i + (k - 2 * PAGE_SIZE * i);
    assert k % (2 * PAGE_SIZE) == k - 2 * PAGE_SIZE * i;
  }

  /** One page and what the next offset skips. */
  lemma OneRound(page: seq<TrashedThread>, skipped: seq<TrashedThread>, i: nat)
    requires |page| <= PAGE_SIZE && |skipped| <= PAGE_SIZE && (skipped != [] ==> |page| == PAGE_SIZE)
    ensures Deleted(page + skipped, 2 * PAGE_SIZE * i) == page
    ensures Kept(page + skipped, 2 * PAGE_SIZE * i) == skipped
  {
    var from := 2 * PAGE_SIZE * i;
    SplitPositions(page, skipped, from);
    forall k | from <= k < from + |page| ensures IsHit(k) {
      HitsOfAThousand(i, k);
    }
    AllHit(page, from);
    forall k | from + |page| <= k < from + |page| + |skipped| ensures !IsHit(k) {
      HitsOfAThousand(i, k);
    }
    NoneHit(skipped, from + |page|);
  }

  function DeletedSize(n: nat): nat {
    PAGE_SIZE * (n / 1000) + Min(PAGE_SIZE, n % 1000)
  }

  lemma AThousandMore(n: nat)
    ensures DeletedSize(n + 1000) == DeletedSize(n) + PAGE_SIZE
  {
    assert (n + 1000) / 1000 == n / 1000 + 1 && (n + 1000) % 1000 == n % 1000;
  }

  lemma FirstThousand(a: seq<TrashedThread>, i: nat)
    requires |a| <= 1000
    ensures |Deleted(a, 2 * PAGE_SIZE * i)| == Min(PAGE_SIZE, |a|)
    ensures |Kept(a, 2 * PAGE_SIZE * i)| == |a| - Min(PAGE_SIZE, |a|)
  {
    var n := Min(PAGE_SIZE, |a|);
    assert a[..n] + a[n..] == a;
    OneRound(a[..n], a[n..], i);
  }

  lemma CountOfTwo(a: seq<TrashedThread>, b: seq<TrashedThread>, i: nat)
    requires |a| == 1000
    ensures |Deleted(a + b, 2 * PAGE_SIZE * i)| == PAGE_SIZE + |Deleted(b, 2 * PAGE_SIZE * (i + 1))|
    ensures |Kept(a + b, 2 * PAGE_SIZE * i)| == PAGE_SIZE + |Kept(b, 2 * PAGE_SIZE * (i + 1))|
  {
    FirstThousand(a, i);
    SplitPositions(a, b, 2 * PAGE_SIZE * i);
    assert 2 * PAGE_SIZE * i + |a| == 2 * PAGE_SIZE * (i + 1);
  }

  /** How many threads the loop deletes: 500 of every thousand, and up to 500 of the rest. */
  lemma {:induction false} DeletedCount(listing: seq<TrashedThread>, i: nat)
    ensures |Deleted(listing, 2 * PAGE_SIZE * i)| == 500 * (|listing| / 1000) + Min(500, |listing| % 1000)
    ensures |Kept(listing, 2 * PAGE_SIZE * i)| == |listing| - |Deleted(listing, 2 * PAGE_SIZE * i)|
    decreases |listing|
  {
    if |listing| < 1000 {
      FirstThousand(listing, i);
    } else {
      var a, b := listing[..1000], listing[1000..];
      assert a + b == listing;
      CountOfTwo(a, b, i);
      DeletedCount(b, i + 1);
      AThousandMore(|b|);
    }
  }

  lemma AllDeletedIffOnePage(n: nat)
    ensures DeletedSize(n) == n <==> n <= PAGE_SIZE
  {
    assert n == 1000 * (n / 1000) + n % 1000;
  }

  lemma CountFromTheStart(listing: seq<TrashedThread>)
    ensures |Kept(listing, 0)| == |listing| - DeletedSize(|listing|)
  {
    var start := 2 * PAGE_SIZE * 0;
    DeletedCount(listing, 0);
    assert start == 0 && |Kept(listing, start)| == |listing| - DeletedSize(|listing|);
  }

  /** The loop empties the trash exactly when it holds at most one page. */
  lemma EmptiesIffOnePage(listing: seq<TrashedThread>)
    ensures Kept(listing, 0) == [] <==> |listing| <= 500
  {
    CountFromTheStart(listing);
    AllDeletedIffOnePage(|listing|);
    assert |Kept(listing, 0)| == 0 <==> Kept(listing, 0) == [];
  }

  // ---------- position by position ----------

  lemma ThousandAtATime(listing: seq<TrashedThread>, i: nat)
    requires |listing| >= 1000
    ensures Deleted(listing, 1000 * i) == listing[..500] + Deleted(listing[1000..], 1000 * (i + 1))
    ensures Kept(listing, 1000 * i) == listing[500..1000] + Kept(listing[1000..], 1000 * (i + 1))
  {
    var a, b := listing[..1000], listing[1000..];
    assert a + b == listing && listing[..500] + listing[500..1000] == a;
    SplitPositions(a, b, 1000 * i);
    OneRound(listing[..500], listing[500..1000], i);
  }

  lemma LessThanAThousand(listing: seq<TrashedThread>, i: nat)
    requires |listing| < 1000
    ensures Deleted(listing, 1000 * i) == listing[..Min(500, |listing|)]
    ensures Kept(listing, 1000 * i) == listing[Min(500, |listing|)..]
  {
    var n := Min(500, |listing|);
    assert listing[..n] + listing[n..] == listing;
    OneRound(listing[..n], listing[n..], i);
  }

  lemma ThousandsAndRest(j: nat)
    requires j >= 500
    ensures 1000 * (j / 500) + j % 500 == 1000 + 1000 * ((j - 500) / 500) + (j - 500) % 500
  {
    assert j / 500 == (j - 500) / 500 + 1 && j % 500 == (j - 500) % 500;
  }

  /** The j-th thread that is deleted stood at position 1000 (j / 500) + j mod 500. */
  lemma {:induction false} DeletedAt(listing: seq<TrashedThread>, i: nat, j: nat)
    requires j < |Deleted(listing, 1000 * i)|
    ensures 1000 * (j / 500) + j % 500 < |listing|
    ensures Deleted(listing, 1000 * i)[j] == listing[1000 * (j / 500) + j % 500]
    decreases |listing|
  {
    if |listing| < 1000 {
      LessThanAThousand(listing, i);
    } else {
      ThousandAtATime(listing, i);
      if j >= 500 {
        DeletedAt(listing[1000..], i + 1, j - 500);
        ThousandsAndRest(j);
      }
    }
  }

  /** The j-th thread that stays stood 500 positions behind that. */
  lemma {:induction false} KeptAt(listing: seq<TrashedThread>, i: nat, j: nat)
    requires j < |Kept(listing, 1000 * i)|
    ensures 1000 * (j / 500) + 500 + j % 500 < |listing|
    ensures Kept(listing, 1000 * i)[j] == listing[1000 * (j / 500) + 500 + j % 500]
    decreases |listing|
  {
    if |listing| < 1000 {
      LessThanAThousand(listing, i);
    } else {
      ThousandAtATime(listing, i);
      if j >= 500 {
        KeptAt(listing[1000..], i + 1, j - 500);
        ThousandsAndRest(j);
      }
    }
  }

  // ---------- attachment paths ----------

  /** The paths of some messages are those of each message, one message after the other. */
  lemma {:induction false} ConcatIsExact(a: seq<seq<string>>, b: seq<seq<string>>, paths: seq<string>)
    ensures Concat([]) == [] && Concat([paths]) == paths && Concat(a + b) == Concat(a) + Concat(b)
    decreases |b|
  {
    if b == [] {
      assert a + b == a;
    } else {
      var front, last := b[..|b| - 1], b[|b| - 1];
      ConcatIsExact(a, front, paths);
      assert a + b == a + front + [last];
      assert (a + front + [last])[..|a + front|] == a + front;
      AppendAssociates(Concat(a), Concat(front), last);
    }
  }

  /** The paths of some threads are those of each thread's messages, one thread after the other. */
  lemma BlobPathsAreExact(a: seq<TrashedThread>, b: seq<TrashedThread>, thread: TrashedThread)
    ensures BlobPaths([]) == [] && BlobPaths([thread]) == Concat(thread.messages)
    ensures BlobPaths(a + b) == BlobPaths(a) + BlobPaths(b)
  {
    BlobPathsOfOneMore([], thread);
    assert [] + [thread] == [thread];
    BlobPathsOfTwo(a, b);
  }

  // ---------- the loop ----------

  lemma AppendAssociates<T>(a: seq<T>, b: seq<T>, c: seq<T>)
    ensures a + (b + c) == a + b + c
  {
  }

  lemma BlobPathsOfOneMore(a: seq<TrashedThread>, x: TrashedThread)
    ensures BlobPaths(a + [x]) == BlobPaths(a) + Concat(x.messages)
  {
    assert (a + [x])[..|a|] == a;
  }

  lemma {:induction false} BlobPathsOfTwo(a: seq<TrashedThread>, b: seq<TrashedThread>)
    ensures BlobPaths(a + b) == BlobPaths(a) + BlobPaths(b)
    decreases |b|
  {
    if b == [] {
      assert a + b == a;
    } else {
      var front, last := b[..|b| - 1], b[|b| - 1];
      assert b == front + [last];
      calc {
        BlobPaths(a + (front + [last]));
        { AppendAssociates(a, front, [last]); }
        BlobPaths(a + front + [last]);
        { BlobPathsOfOneMore(a + front, last); }
        BlobPaths(a + front) + Concat(last.messages);
        { BlobPathsOfTwo(a, front); }
        BlobPaths(a) + BlobPaths(front) + Concat(last.messages);
        { AppendAssociates(BlobPaths(a), BlobPaths(front), Concat(last.messages)); }
        BlobPaths(a) + (BlobPaths(front) + Concat(last.messages));
        { BlobPathsOfOneMore(front, last); }
        BlobPaths(a) + BlobPaths(front + [last]);
      }
    }
  }

  /** One thread of a page: the paths so far, the listing around it, and the listing without it. */
  lemma PageStep(head: seq<TrashedThread>, page: seq<TrashedThread>, j: nat, tail: seq<TrashedThread>)
    requires j < |page|
    ensures BlobPaths(page[..j + 1]) == BlobPaths(page[..j]) + Concat(page[j].messages)
    ensures head + page[j..] + tail == head + [page[j]] + (page[j + 1..] + tail)
    ensures head + (page[j + 1..] + tail) == head + page[j + 1..] + tail
  {
    assert page[..j + 1] == page[..j] + [page[j]];
    BlobPathsOfOneMore(page[..j], page[j]);
    assert page[j..] == [page[j]] + page[j + 1..];
  }

  class TrashFolder {
    /** The trash threads in listing order, newest message first. */
    var listing: seq<TrashedThread>

    constructor (listing: seq<TrashedThread>)
      ensures this.listing == listing
    {
      this.listing := listing;
    }

    method DeletePermanently(thread: TrashedThread) returns (blobPaths: seq<string>)
      modifies this
      ensures listing == Removed(old(listing), thread.id)
      ensures blobPaths == Concat(thread.messages)
    {
      blobPaths := [];
      var j := 0;
      while j < |thread.messages|
        invariant 0 <= j <= |thread.messages|
        invariant listing == old(listing)
        invariant blobPaths == Concat(thread.messages[..j])
      {
        blobPaths := blobPaths + thread.messages[j];
        assert thread.messages[..j + 1][..j] == thread.messages[..j];
        j := j + 1;
      }
      assert thread.messages[..j] == thread.messages;
      listing := Removed(listing, thread.id);
    }

    /** Deletes the threads of a page one by one. */
    method DeletePage(page: seq<TrashedThread>, ghost head: seq<TrashedThread>, ghost tail: seq<TrashedThread>)
      returns (blobPaths: seq<string>)
      requires listing == head + page + tail && HasDistinctIds(listing)
      modifies this
      ensures listing == head + tail
      ensures blobPaths == BlobPaths(page)
    {
      blobPaths := [];
      var j := 0;
      assert page[0..] == page;
      while j < |page|
        invariant 0 <= j <= |page|
        invariant listing == head + page[j..] + tail && HasDistinctIds(listing)
        invariant blobPaths == BlobPaths(page[..j])
      {
        PageStep(head, page, j, tail);
        RemovedFromTheMiddle(head, page[j], page[j + 1..] + tail);
        var paths := DeletePermanently(page[j]);
        blobPaths := blobPaths + paths;
        j := j + 1;
      }
      assert page[..j] == page;
    }

    method DeleteRound(threads: seq<TrashedThread>, sofar: seq<string>, ghost all: seq<TrashedThread>, ghost i: nat)
      returns (blobPaths: seq<string>)
      requires 2 * PAGE_SIZE * i < |all| && threads == PageOf(all, i)
      requires AtRound(all, i, listing, sofar)
      modifies this
      ensures AtRound(all, i + 1, listing, blobPaths)
    {
      NextRound(all, i);
      ghost var behind, rest := Kept(all[..2 * PAGE_SIZE * i], 0), all[2 * PAGE_SIZE * i + |threads|..];
      RestIsDistinct(behind, threads, rest);
      var paths := DeletePage(threads, behind, rest);
      BlobPathsOfTwo(Deleted(all[..2 * PAGE_SIZE * i], 0), threads);
      blobPaths := sofar + paths;
    }

    /**
     Deletes every other page: the threads at the hit positions, whose attachment paths are
     returned in order; the rest of the trash stays.
     */
    method EmptyTrash() returns (blobPaths: seq<string>)
      requires HasDistinctIds(listing)
      modifies this
      ensures listing == Kept(old(listing), 0)
      ensures blobPaths == BlobPaths(Deleted(old(listing), 0))
    {
      ghost var all := listing;
      ghost var i := 0;
      blobPaths := [];
      var offset := 0;
      FirstRound(all);
      while true
        invariant offset == PAGE_SIZE * i
        invariant AtRound(all, i, listing, blobPaths)
        decreases |all| + 1 - offset
      {
        var threads := Page(listing, offset);
        PageOfARound(all, i);
        if |threads| == 0 {
          break;
        }
        blobPaths := DeleteRound(threads, blobPaths, all, i);
        i := i + 1;
        if |threads| < PAGE_SIZE {
          break;
        }
        offset := offset + PAGE_SIZE;
      }
      LastRound(all, i, listing, blobPaths);
    }
  }

  /** Where the loop stands before round `i`. */
  ghost predicate AtRound(all: seq<TrashedThread>, i: nat, listing: seq<TrashedThread>, blobPaths: seq<string>) {
    && listing == Listed(all, i) && HasDistinctIds(listing)
    && blobPaths == BlobPaths(Deleted(all[..Seen(all, i)], 0))
  }

  lemma FirstRound(all: seq<TrashedThread>)
    requires HasDistinctIds(all)
    ensures AtRound(all, 0, all, [])
  {
    assert all[..0] + all[0..] == all;
  }

  lemma LastRound(all: seq<TrashedThread>, i: nat, listing: seq<TrashedThread>, blobPaths: seq<string>)
    requires AtRound(all, i, listing, blobPaths) && 2 * PAGE_SIZE * i >= |all|
    ensures listing == Kept(all, 0) && blobPaths == BlobPaths(Deleted(all, 0))
  {
    assert all[..|all|] == all && all[|all|..] == [];
  }

  /** How much of the original listing is behind the loop after `i` rounds. */
  function Seen(all: seq<TrashedThread>, i: nat): nat {
    Min(2 * PAGE_SIZE * i, |all|)
  }

  /** The listing after `i` rounds: what was passed by, then what has not been reached. */
  function Listed(all: seq<TrashedThread>, i: nat): seq<TrashedThread> {
    Kept(all[..Seen(all, i)], 0) + all[Seen(all, i)..]
  }

  lemma {:induction false} SizeOfRounds(i: nat)
    ensures DeletedSize(2 * PAGE_SIZE * i) == PAGE_SIZE * i
  {
    if i > 0 {
      SizeOfRounds(i - 1);
      AThousandMore(2 * PAGE_SIZE * (i - 1));
    }
  }

  lemma HalfIsKeptAtMost(n: nat, i: nat)
    requires n < 2 * PAGE_SIZE * i
    ensures n - DeletedSize(n) <= PAGE_SIZE * i
  {
  }

  /** The number of threads passed by in `i` rounds is the offset, or less once the listing has run out. */
  lemma PassedBy(all: seq<TrashedThread>, i: nat)
    ensures |Kept(all[..Seen(all, i)], 0)| <= PAGE_SIZE * i
    ensures 2 * PAGE_SIZE * i <= |all| ==> |Kept(all[..Seen(all, i)], 0)| == PAGE_SIZE * i
  {
    DeletedCount(all[..Seen(all, i)], 0);
    if 2 * PAGE_SIZE * i <= |all| {
      SizeOfRounds(i);
    } else {
      HalfIsKeptAtMost(|all|, i);
    }
  }

  /** The threads a round deletes, and those the next offset passes by. */
  function PageOf(all: seq<TrashedThread>, i: nat): seq<TrashedThread>
    requires 2 * PAGE_SIZE * i <= |all|
  {
    all[2 * PAGE_SIZE * i..][..Min(PAGE_SIZE, |all| - 2 * PAGE_SIZE * i)]
  }

  lemma PageBehind(behind: seq<TrashedThread>, rest: seq<TrashedThread>)
    ensures Page(behind + rest, |behind|) == rest[..Min(PAGE_SIZE, |rest|)]
  {
  }

  /** The page read in round `i`, wherever the loop stands. */
  lemma PageOfARound(all: seq<TrashedThread>, i: nat)
    ensures 2 * PAGE_SIZE * i < |all| ==> Page(Listed(all, i), PAGE_SIZE * i) == PageOf(all, i)
    ensures 2 * PAGE_SIZE * i >= |all| ==> Page(Listed(all, i), PAGE_SIZE * i) == [] && Listed(all, i) == Kept(all, 0)
  {
    PassedBy(all, i);
    var behind := Kept(all[..Seen(all, i)], 0);
    if 2 * PAGE_SIZE * i < |all| {
      PageBehind(behind, all[Seen(all, i)..]);
    } else {
      assert all[..|all|] == all && all[|all|..] == [];
    }
  }

  lemma CutInFour<T>(s: seq<T>, m: nat, p: nat, next: nat)
    requires m <= p <= next <= |s|
    ensures s[m..] == s[m..p] + s[p..]
    ensures s[..next] == s[..m] + (s[m..p] + s[p..next])
    ensures s[p..] == s[p..next] + s[next..]
  {
  }

  /** A page deleted behind `i` whole rounds, and what its round passes by. */
  lemma RoundBehind(behind: seq<TrashedThread>, page: seq<TrashedThread>, skipped: seq<TrashedThread>, i: nat)
    requires |behind| == 2 * PAGE_SIZE * i
    requires |page| <= PAGE_SIZE && |skipped| <= PAGE_SIZE && (skipped != [] ==> |page| == PAGE_SIZE)
    ensures Deleted(behind + (page + skipped), 0) == Deleted(behind, 0) + page
    ensures Kept(behind + (page + skipped), 0) == Kept(behind, 0) + skipped
  {
    OneRound(page, skipped, i);
    SplitPositions(behind, page + skipped, 0);
  }

  /** Deleting the page of a round leads to the listing of the next round. */
  lemma NextRound(all: seq<TrashedThread>, i: nat)
    requires 2 * PAGE_SIZE * i < |all|
    ensures var m, page := 2 * PAGE_SIZE * i, PageOf(all, i);
      && Listed(all, i) == Kept(all[..m], 0) + page + all[m + |page|..]
      && Listed(all, i + 1) == Kept(all[..m], 0) + all[m + |page|..]
      && Deleted(all[..Seen(all, i + 1)], 0) == Deleted(all[..m], 0) + page
  {
    var m, page := 2 * PAGE_SIZE * i, PageOf(all, i);
    var p, next := m + |page|, Seen(all, i + 1);
    assert page == all[m..p];
    CutInFour(all, m, p, next);
    RoundBehind(all[..m], page, all[p..next], i);
  }
}
