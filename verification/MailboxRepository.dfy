/**
 The mailbox functions row by row, and the message loop of a synchronization.
 */
module MailboxRepositories {
  import opened Wrappers
  import opened Mailbox
  import opened MailboxAnswers

  class MailboxRepository {
    var threads: map<Id, Thread>
    var messages: map<Id, Message>
    /** The steps taken so far. */
    ghost var done: History

    ghost function Model(): Box
      reads this
    {
      Box(threads, messages)
    }

    ghost predicate Valid()
      reads this
    {
      IsHistory(done) && Model() == After(done)
    }

    constructor ()
      ensures Valid() && done == History.Fresh
    {
      threads, messages, done := map[], map[], History.Fresh;
    }

    method UpsertThread(home: Option<Id>, provider: Option<Id>, folder: Folder, delta: int, newId: Id) returns (t: Id)
      requires home.Some? ==> home.value in threads
      modifies `threads
      ensures Model() == Upserted(old(Model()), home, provider, folder, delta, newId)
      ensures t == if home.Some? then home.value else newId
      ensures if home.Some? then IsBumped(old(Model()), Model(), t, delta)
              else IsOpened(old(Model()), Model(), t, provider, folder, delta)
    {
      UpsertIsExact(Model(), home, provider, folder, delta, newId);
      if home.Some? {
        var existing := threads[home.value];
        var skipUnread := delta > 0 && (existing.folder == Trash || existing.folder == Drafts);
        var unread := if skipUnread then existing.unread else existing.unread + delta;
        threads := threads[home.value := existing.(unread := unread)];
        return home.value;
      }
      threads := threads[newId := Thread(provider, folder, None, delta)];
      return newId;
    }

    /** False when the message or its thread is not there. */
    method Reconcile(hit: Option<Id>, raw: Raw) returns (updated: bool)
      requires IsHit(Model(), raw, hit)
      modifies `threads, `messages
      ensures Model() == if hit.Some? then Reconciled(old(Model()), hit.value, raw) else old(Model())
      ensures updated <==> hit.Some? && old(messages)[hit.value].thread in old(threads)
      ensures if updated then IsRefiled(old(Model()), Model(), hit.value, raw) else Model() == old(Model())
    {
      if hit.None? {
        return false;
      }
      ReconcileIsExact(Model(), hit.value, raw);
      var existing := messages[hit.value];
      if existing.thread !in threads {
        return false;
      }
      if !existing.isDraft {
        messages := messages[hit.value := existing.(isRead := raw.isRead)];
      }
      var unread := set m |
        m in messages && messages[m].thread == existing.thread && !messages[m].isDraft && !messages[m].isRead;
      assert unread == UnreadIn(messages, existing.thread);
      threads := threads[existing.thread := threads[existing.thread].(folder := raw.folder, unread := |unread|)];
      return true;
    }

    method MarkRead(t: Id)
      requires Valid()
      modifies this
      ensures Valid() && done == Then(old(done), Op.MarkRead(t))
      ensures IsMarkedRead(old(Model()), Model(), t)
    {
      MarkingReadIsExact(Model(), t);
      messages := map m | m in messages ::
        if messages[m].thread == t then messages[m].(isRead := true) else messages[m];
      if t in threads {
        threads := threads[t := threads[t].(unread := 0)];
      }
      done := Then(done, Op.MarkRead(t));
    }

    method MarkUnread(t: Id)
      requires Valid()
      modifies this
      ensures Valid() && done == Then(old(done), Op.MarkUnread(t))
      ensures IsMarkedUnread(old(Model()), Model(), t)
    {
      MarkingUnreadIsExact(Model(), t);
      var sent := set m | m in messages && messages[m].thread == t && !messages[m].isDraft;
      assert sent == SentIn(messages, t);
      var unread := if |sent| == 0 then 1 else |sent|;
      messages := map m | m in messages ::
        if messages[m].thread == t && !messages[m].isDraft then messages[m].(isRead := false) else messages[m];
      if t in threads {
        threads := threads[t := threads[t].(unread := unread)];
      }
      done := Then(done, Op.MarkUnread(t));
    }

    /** None when there is no such thread or only an inbox thread could be archived. */
    method ApplyFolderMove(t: Id, target: Folder) returns (moved: Option<Thread>)
      requires Valid()
      modifies this
      ensures Valid() && done == Then(old(done), Op.Move(t, target))
      ensures moved.Some? <==> IsMovable(old(Model()), t, target)
      ensures if moved.Some? then IsThreadMoved(old(Model()), Model(), t, target) else Model() == old(Model())
      ensures moved.Some? ==> t in threads && moved.value == threads[t]
    {
      MovingIsExact(Model(), t, target);
      done := Then(done, Op.Move(t, target));
      if t !in threads {
        return None;
      }
      var resolved := ResolveMove(threads[t], target);
      if resolved.None? {
        return None;
      }
      threads := threads[t := threads[t].(folder := resolved.value.0, previous := resolved.value.1)];
      return Some(threads[t]);
    }

    method FindMessage(raw: Raw) returns (hit: Option<Id>)
      ensures IsHit(Model(), raw, hit) && (hit.Some? <==> IsKnown(Model(), raw.message))
    {
      if m :| m in messages && messages[m].provider == Some(raw.message) {
        return Some(m);
      }
      return None;
    }

    method FindThread(raw: Raw) returns (home: Option<Id>)
      ensures IsHome(Model(), raw, home)
    {
      if raw.thread.Some? {
        if t :| t in threads && threads[t].provider == raw.thread {
          return Some(t);
        }
      }
      return None;
    }

    /** One turn of the synchronization loop. */
    method SyncOne(raw: Raw, threadId: Id, messageId: Id) returns (wasKnown: bool)
      requires Valid() && threadId !in threads && messageId !in messages
      modifies this
      ensures Valid() && done.Then? && done.past == old(done) && done.op.Sync? && done.op.raw == raw
      ensures wasKnown <==> done.op.hit.Some?
      ensures threads.Keys <= old(threads).Keys + {threadId} && messages.Keys <= old(messages).Keys + {messageId}
    {
      EveryMessageHasItsThread(done);
      var hit := FindMessage(raw);
      var home := FindThread(raw);
      ghost var op := Op.Sync(raw, hit, home, threadId, messageId);
      if hit.Some? {
        var updated := Reconcile(hit, raw);
        assert updated;
      } else {
        var t := UpsertThread(home, raw.thread, raw.folder, if raw.isRead then 0 else 1, threadId);
        messages := messages[messageId := Message(t, Some(raw.message), raw.isRead, false)];
      }
      assert Model() == Apply(old(Model()), op);
      SyncForgetsNone(old(Model()), op);
      done := Then(done, op);
      return hit.Some?;
    }

    /**
     The message loop: every message is either inserted or reconciled; afterwards all are known,
     so the same batch again inserts nothing.
     */
    method SyncMessages(raws: seq<Raw>, threadIds: seq<Id>, messageIds: seq<Id>)
      returns (inserted: nat, reconciled: nat)
      requires Valid() && |threadIds| == |messageIds| == |raws|
      requires AreUnused(threadIds, threads.Keys, 0) && AreUnused(messageIds, messages.Keys, 0)
      modifies this
      ensures Valid() && IsSyncOf(old(done), raws, |raws|, done)
      ensures inserted + reconciled == |raws|
      ensures AllKnown(Model(), raws, |raws|)
      ensures AllKnown(old(Model()), raws, |raws|) ==> inserted == 0
      ensures AreSynced(old(messages), messages, raws, |raws|)
    {
      inserted, reconciled := 0, 0;
      var i := 0;
      while i < |raws|
        invariant 0 <= i <= |raws| && inserted + reconciled == i
        invariant Valid() && IsSyncOf(old(done), raws, i, done) && inserted == InsertedBy(done, i)
        invariant AreUnused(threadIds, threads.Keys, i) && AreUnused(messageIds, messages.Keys, i)
      {
        ghost var before := Model();
        var wasKnown := SyncOne(raws[i], threadIds[i], messageIds[i]);
        RestIsUnused(threadIds, before.threads.Keys, threads.Keys, i);
        RestIsUnused(messageIds, before.messages.Keys, messages.Keys, i);
        if wasKnown {
          reconciled := reconciled + 1;
        } else {
          inserted := inserted + 1;
        }
        i := i + 1;
      }
      BatchIsKnown(old(done), raws, |raws|, done);
      BatchIsSynced(old(done), raws, |raws|, done);
    }
  }

  /** The identifiers from position `i` on are distinct and unused. */
  predicate AreUnused(ids: seq<Id>, used: set<Id>, i: nat) {
    && (forall j, k :: i <= j < k < |ids| ==> ids[j] != ids[k])
    && (forall k :: i <= k < |ids| ==> ids[k] !in used)
  }

  lemma RestIsUnused(ids: seq<Id>, used: set<Id>, used': set<Id>, i: nat)
    requires i < |ids| && AreUnused(ids, used, i) && used' <= used + {ids[i]}
    ensures AreUnused(ids, used', i + 1)
  {
  }

  /** The first `n` messages of the batch are known. */
  ghost predicate AllKnown(b: Box, raws: seq<Raw>, n: nat)
    requires n <= |raws|
  {
    forall k :: 0 <= k < n ==> IsKnown(b, raws[k].message)
  }

  /** A message is known, and none was forgotten. */
  ghost predicate NowKnown(b: Box, b': Box, message: Id) {
    forall p :: p == message || IsKnown(b, p) ==> IsKnown(b', p)
  }

  /** The first `i` messages are known; where all were known before, they still are and none was inserted. */
  ghost predicate IsCaughtUp(start: Box, b: Box, raws: seq<Raw>, i: nat, inserted: nat)
    requires i <= |raws|
  {
    && AllKnown(b, raws, i)
    && (AllKnown(start, raws, |raws|) ==> AllKnown(b, raws, |raws|) && inserted == 0)
  }

  lemma CatchUp(start: Box, b: Box, b': Box, raws: seq<Raw>, i: nat, inserted: nat)
    requires i < |raws| && IsCaughtUp(start, b, raws, i, inserted) && NowKnown(b, b', raws[i].message)
    ensures IsCaughtUp(start, b', raws, i + 1, if IsKnown(b, raws[i].message) then inserted else inserted + 1)
  {
  }

  lemma SyncForgetsNone(b: Box, op: Op)
    requires Allowed(b, op) && op.Sync?
    ensures NowKnown(b, Apply(b, op), op.raw.message)
    ensures Apply(b, op).threads.Keys <= b.threads.Keys + {op.threadId}
    ensures Apply(b, op).messages.Keys <= b.messages.Keys + {op.messageId}
  {
    forall p | p == op.raw.message || IsKnown(b, p) ensures IsKnown(Apply(b, op), p) {
      SyncMakesKnown(b, op, p);
    }
  }

  /** `after` continues `before` by one synchronization step for each of the first `n` messages, in order. */
  predicate IsSyncOf(before: History, raws: seq<Raw>, n: nat, after: History)
    requires n <= |raws|
  {
    if n == 0 then after == before
    else
      && after.Then? && after.op.Sync? && after.op.raw == raws[n - 1]
      && IsSyncOf(before, raws, n - 1, after.past)
  }

  /** How many of the last `n` steps found no stored message and inserted one. */
  function InsertedBy(h: History, n: nat): nat {
    if n == 0 || h.Fresh? then 0
    else InsertedBy(h.past, n - 1) + if h.op.Sync? && h.op.hit.None? then 1 else 0
  }

  lemma OneMoreIsKnown(start: Box, raws: seq<Raw>, i: nat, h: History, inserted: nat)
    requires IsHistory(h) && h.Then? && h.op.Sync? && i < |raws| && h.op.raw == raws[i]
    requires IsCaughtUp(start, After(h.past), raws, i, inserted)
    ensures IsCaughtUp(start, After(h), raws, i + 1, if h.op.hit.Some? then inserted else inserted + 1)
  {
    SyncForgetsNone(After(h.past), h.op);
    CatchUp(start, After(h.past), After(h), raws, i, inserted);
  }

  /** Every message of the batch is known afterwards, and none was inserted if all were known before. */
  lemma {:induction false} BatchIsKnown(past: History, raws: seq<Raw>, n: nat, h: History)
    requires IsHistory(h) && n <= |raws| && IsSyncOf(past, raws, n, h)
    ensures IsCaughtUp(After(past), After(h), raws, n, InsertedBy(h, n))
  {
    if n > 0 {
      BatchIsKnown(past, raws, n - 1, h.past);
      OneMoreIsKnown(After(past), raws, n - 1, h, InsertedBy(h.past, n - 1));
    }
  }

  lemma OneMoreIsSynced(start: map<Id, Message>, raws: seq<Raw>, i: nat, h: History)
    requires IsHistory(h) && h.Then? && h.op.Sync? && i < |raws| && h.op.raw == raws[i]
    requires AreSynced(start, After(h.past).messages, raws, i)
    ensures AreSynced(start, After(h).messages, raws, i + 1)
  {
    var b, b', op := After(h.past), After(h), h.op;
    EveryMessageHasItsThread(h.past);
    SyncStepIsExact(b, op);
    SyncingTouchesOneMessage(b, b', op.raw, op.hit.Some?, op.threadId, op.messageId);
    SyncingOneMore(start, b.messages, b'.messages, raws, i);
  }

  /** What a batch has done to the stored messages, from the identifiers and read states it reports. */
  lemma {:induction false} BatchIsSynced(past: History, raws: seq<Raw>, n: nat, h: History)
    requires IsHistory(h) && n <= |raws| && IsSyncOf(past, raws, n, h)
    ensures AreSynced(After(past).messages, After(h).messages, raws, n)
  {
    if n > 0 {
      BatchIsSynced(past, raws, n - 1, h.past);
      OneMoreIsSynced(After(past).messages, raws, n - 1, h);
    }
  }
}
