/**
 What each mailbox operation does to the rows, said column by column. The relations here share no
 definition with the operations themselves.
 */
module MailboxAnswers {
  import opened Wrappers
  import opened Mailbox

  // ---------- threads ----------

  /** No thread but this one is new, gone or different. */
  ghost predicate OtherThreadsStay(b: Box, b': Box, t: Id) {
    && (forall u :: u != t ==> (u in b'.threads <==> u in b.threads))
    && (forall u :: u in b.threads && u != t ==> b'.threads[u] == b.threads[u])
  }

  /** The count goes up by `delta`, but for arrivals in the trash or the drafts; nothing else changes. */
  ghost predicate IsBumped(b: Box, b': Box, t: Id, delta: int) {
    && OtherThreadsStay(b, b', t) && t in b.threads && t in b'.threads
    && b'.threads[t].provider == b.threads[t].provider && b'.threads[t].folder == b.threads[t].folder
    && b'.threads[t].previous == b.threads[t].previous
    && (b.threads[t].folder in {Trash, Drafts} && delta > 0 ==> b'.threads[t].unread == b.threads[t].unread)
    && (b.threads[t].folder !in {Trash, Drafts} || delta <= 0 ==> b'.threads[t].unread == b.threads[t].unread + delta)
  }

  /** A new thread in the folder that was asked for. */
  ghost predicate IsOpened(b: Box, b': Box, t: Id, provider: Option<Id>, folder: Folder, unread: int) {
    && OtherThreadsStay(b, b', t) && t in b'.threads
    && b'.threads[t].provider == provider && b'.threads[t].folder == folder
    && b'.threads[t].previous == None && b'.threads[t].unread == unread
  }

  lemma UpsertIsExact(b: Box, home: Option<Id>, provider: Option<Id>, folder: Folder, delta: int, newId: Id)
    ensures var b' := Upserted(b, home, provider, folder, delta, newId);
      && b'.messages == b.messages
      && if home.Some? && home.value in b.threads then IsBumped(b, b', home.value, delta)
         else IsOpened(b, b', newId, provider, folder, delta)
  {
  }

  /** The archive takes threads from the inbox only. */
  ghost predicate IsMovable(b: Box, t: Id, target: Folder) {
    t in b.threads && (target == Archive ==> b.threads[t].folder == Inbox)
  }

  /**
   Into the trash a thread remembers where it was, out of it to the inbox it goes back there, and an
   archived thread forgets; any other move changes the folder alone, and a move to where it is nothing.
   */
  ghost predicate IsMove(v: Thread, target: Folder, w: Thread) {
    && w.provider == v.provider && w.unread == v.unread
    && (v.folder == target ==> w.folder == target && w.previous == v.previous)
    && (v.folder != target && target == Trash ==> w.folder == Trash && w.previous == Some(v.folder))
    && (v.folder == Trash && target == Inbox ==>
          w.previous == None && w.folder == if v.previous == None then Inbox else v.previous.value)
    && (v.folder == Archive && target == Inbox ==> w.folder == Inbox && w.previous == None)
    && (v.folder != target && target != Trash && !(v.folder in {Trash, Archive} && target == Inbox) ==>
          w.folder == target && w.previous == v.previous)
  }

  ghost predicate IsThreadMoved(b: Box, b': Box, t: Id, target: Folder) {
    && OtherThreadsStay(b, b', t) && t in b.threads && t in b'.threads && b'.messages == b.messages
    && IsMove(b.threads[t], target, b'.threads[t])
  }

  lemma MovingIsExact(b: Box, t: Id, target: Folder)
    ensures if IsMovable(b, t, target) then IsThreadMoved(b, Moved(b, t, target), t, target)
            else Moved(b, t, target) == b
  {
  }

  // ---------- read state ----------

  /** The two rows are the same but for their read state. */
  ghost predicate SameButForRead(m: Message, m': Message) {
    m'.thread == m.thread && m'.provider == m.provider && m'.isDraft == m.isDraft
  }

  /**
   A message that is no draft takes the reported read state, a draft and every other message keeps its
   own; the thread moves to the reported folder and counts its unread messages anew.
   */
  ghost predicate IsRefiled(b: Box, b': Box, m: Id, raw: Raw) {
    && m in b.messages
    && var t := b.messages[m].thread;
    && b'.messages.Keys == b.messages.Keys && SameButForRead(b.messages[m], b'.messages[m])
    && (if b.messages[m].isDraft then b'.messages[m].isRead == b.messages[m].isRead
        else b'.messages[m].isRead == raw.isRead)
    && (forall k :: k in b.messages && k != m ==> b'.messages[k] == b.messages[k])
    && OtherThreadsStay(b, b', t) && t in b'.threads && t in b.threads
    && b'.threads[t].provider == b.threads[t].provider && b'.threads[t].previous == b.threads[t].previous
    && b'.threads[t].folder == raw.folder
    && b'.threads[t].unread ==
       |set k | k in b'.messages && b'.messages[k].thread == t && !b'.messages[k].isDraft && !b'.messages[k].isRead|
  }

  lemma ReconcileIsExact(b: Box, m: Id, raw: Raw)
    requires m in b.messages
    ensures if b.messages[m].thread in b.threads then IsRefiled(b, Reconciled(b, m, raw), m, raw)
            else Reconciled(b, m, raw) == b
  {
    if b.messages[m].thread in b.threads {
      var b', t := Reconciled(b, m, raw), b.messages[m].thread;
      assert UnreadIn(b'.messages, t) ==
        set k | k in b'.messages && b'.messages[k].thread == t && !b'.messages[k].isDraft && !b'.messages[k].isRead;
    }
  }

  /** Every message of the thread is read, and its count is zero. */
  ghost predicate IsMarkedRead(b: Box, b': Box, t: Id) {
    && b'.messages.Keys == b.messages.Keys
    && (forall m :: m in b.messages && b.messages[m].thread == t ==>
          SameButForRead(b.messages[m], b'.messages[m]) && b'.messages[m].isRead)
    && (forall m :: m in b.messages && b.messages[m].thread != t ==> b'.messages[m] == b.messages[m])
    && OtherThreadsStay(b, b', t) && (t in b'.threads <==> t in b.threads)
    && (t in b.threads ==> b'.threads[t] == b.threads[t].(unread := b'.threads[t].unread) && b'.threads[t].unread == 0)
  }

  lemma MarkingReadIsExact(b: Box, t: Id)
    ensures IsMarkedRead(b, MarkedRead(b, t), t)
  {
  }

  /** Every message of the thread but the drafts is unread, and the count is their number, but at least one. */
  ghost predicate IsMarkedUnread(b: Box, b': Box, t: Id) {
    var sent := |set m | m in b.messages && b.messages[m].thread == t && !b.messages[m].isDraft|;
    && b'.messages.Keys == b.messages.Keys
    && (forall m :: m in b.messages && b.messages[m].thread == t && !b.messages[m].isDraft ==>
          SameButForRead(b.messages[m], b'.messages[m]) && !b'.messages[m].isRead)
    && (forall m :: m in b.messages && (b.messages[m].thread != t || b.messages[m].isDraft) ==>
          b'.messages[m] == b.messages[m])
    && OtherThreadsStay(b, b', t) && (t in b'.threads <==> t in b.threads)
    && (t in b.threads ==> b'.threads[t] == b.threads[t].(unread := b'.threads[t].unread))
    && (t in b.threads && sent > 0 ==> b'.threads[t].unread == sent)
    && (t in b.threads && sent == 0 ==> b'.threads[t].unread == 1)
  }

  lemma MarkingUnreadIsExact(b: Box, t: Id)
    ensures IsMarkedUnread(b, MarkedUnread(b, t), t)
  {
    assert SentIn(b.messages, t) == set m | m in b.messages && b.messages[m].thread == t && !b.messages[m].isDraft;
  }

  // ---------- arrivals, new threads and deletion ----------

  /**
   An unknown message is stored as reported, in the thread its provider names or in a new one where
   there is none; unread it adds one to that thread's count.
   */
  ghost predicate IsArrived(b: Box, b': Box, raw: Raw, t: Id, messageId: Id) {
    && messageId in b'.messages && b'.messages == b.messages[messageId := b'.messages[messageId]]
    && b'.messages[messageId].thread == t && b'.messages[messageId].provider == Some(raw.message)
    && b'.messages[messageId].isRead == raw.isRead && !b'.messages[messageId].isDraft
    && (t in b.threads ==>
          && raw.thread.Some? && b.threads[t].provider == raw.thread
          && IsBumped(b, b', t, if raw.isRead then 0 else 1))
    && (t !in b.threads ==>
          && (raw.thread.Some? ==> forall u :: u in b.threads ==> b.threads[u].provider != raw.thread)
          && IsOpened(b, b', t, raw.thread, raw.folder, if raw.isRead then 0 else 1))
  }

  lemma ArrivalIsExact(b: Box, op: Op)
    requires Allowed(b, op) && op.Sync? && op.hit.None?
    ensures var t := if op.home.Some? then op.home.value else op.threadId;
      && IsArrived(b, Apply(b, op), op.raw, t, op.messageId)
      && (op.home.None? ==> t !in b.threads)
  {
  }

  /** A thread and its first message, both new. */
  ghost predicate IsStarted(b: Box, b': Box, t: Id, folder: Folder, m: Id, provider: Option<Id>,
                            isRead: bool, isDraft: bool) {
    && IsOpened(b, b', t, None, folder, if isRead then 0 else 1)
    && b'.messages == b.messages[m := Message(t, provider, isRead, isDraft)]
  }

  /** A delivery waits unread in the inbox; a draft and a composed message count as read where they lie. */
  lemma LocalMessagesAreExact(b: Box, t: Id, m: Id, provider: Option<Id>)
    ensures IsStarted(b, Apply(b, Deliver(t, m)), t, Inbox, m, None, false, false)
    ensures IsStarted(b, Apply(b, CreateDraft(t, m)), t, Drafts, m, None, true, true)
    ensures IsStarted(b, Apply(b, ComposeSend(t, m, provider)), t, Sent, m, provider, true, false)
  {
  }

  /** The thread and exactly its messages are gone. */
  ghost predicate IsThreadGone(b: Box, b': Box, t: Id) {
    && OtherThreadsStay(b, b', t) && t !in b'.threads
    && (forall m :: m in b'.messages <==> m in b.messages && b.messages[m].thread != t)
    && (forall m :: m in b'.messages ==> b'.messages[m] == b.messages[m])
  }

  lemma CascadeIsExact(b: Box, t: Id)
    ensures IsThreadGone(b, WithoutThread(b, t), t)
  {
  }

  // ---------- a batch of reports ----------

  /** A stored message with the reported identifier and, unless it is a draft, the reported read state. */
  ghost predicate IsAsReported(m: Message, raw: Raw) {
    m.provider == Some(raw.message) && (m.isDraft || m.isRead == raw.isRead)
  }

  ghost predicate IsReflected(messages: map<Id, Message>, raw: Raw) {
    exists m :: m in messages && IsAsReported(messages[m], raw)
  }

  ghost predicate HasNoRepeats(raws: seq<Raw>) {
    forall i, j :: 0 <= i < j < |raws| ==> raws[i].message != raws[j].message
  }

  ghost predicate ProvidersAreUnique(messages: map<Id, Message>) {
    forall m, n ::
      m in messages && n in messages && messages[m].provider.Some? && messages[m].provider == messages[n].provider ==>
        m == n
  }

  /** No stored message is lost, and only those of this identifier may differ, in their read state. */
  ghost predicate OnlyTouches(messages: map<Id, Message>, messages': map<Id, Message>, provider: Id) {
    && (forall m :: m in messages ==> m in messages' && SameButForRead(messages[m], messages'[m]))
    && (forall m :: m in messages && messages[m].provider != Some(provider) ==> messages'[m] == messages[m])
  }

  ghost predicate IsUnreported(m: Message, raws: seq<Raw>) {
    forall k :: 0 <= k < |raws| ==> m.provider != Some(raws[k].message)
  }

  /** A known message is refiled, an unknown one arrives. */
  ghost predicate IsSynced(b: Box, b': Box, raw: Raw, isKnown: bool, threadId: Id, messageId: Id) {
    if isKnown then
      exists m :: m in b.messages && b.messages[m].provider == Some(raw.message) && IsRefiled(b, b', m, raw)
    else
      && (forall m :: m in b.messages ==> b.messages[m].provider != Some(raw.message))
      && exists t :: (t in b.threads || t == threadId) && IsArrived(b, b', raw, t, messageId)
  }

  lemma SyncStepIsExact(b: Box, op: Op)
    requires Allowed(b, op) && op.Sync? && MessagesHaveThreads(b)
    ensures IsSynced(b, Apply(b, op), op.raw, op.hit.Some?, op.threadId, op.messageId)
  {
    if op.hit.Some? {
      ReconcileIsExact(b, op.hit.value, op.raw);
    } else {
      ArrivalIsExact(b, op);
    }
  }

  lemma SyncingTouchesOneMessage(b: Box, b': Box, raw: Raw, isKnown: bool, threadId: Id, messageId: Id)
    requires IsSynced(b, b', raw, isKnown, threadId, messageId) && messageId !in b.messages
    ensures OnlyTouches(b.messages, b'.messages, raw.message) && IsReflected(b'.messages, raw)
    ensures ProvidersAreUnique(b.messages) ==> ProvidersAreUnique(b'.messages)
  {
    if isKnown {
      var m :| m in b.messages && b.messages[m].provider == Some(raw.message) && IsRefiled(b, b', m, raw);
      assert IsAsReported(b'.messages[m], raw);
    } else {
      assert IsAsReported(b'.messages[messageId], raw);
    }
  }

  /** What the loop has done to the messages after `i` reports of the batch. */
  ghost predicate AreSynced(messages: map<Id, Message>, messages': map<Id, Message>, raws: seq<Raw>, i: nat)
    requires i <= |raws|
  {
    && (ProvidersAreUnique(messages) ==> ProvidersAreUnique(messages'))
    && (forall m :: m in messages ==> m in messages' && SameButForRead(messages[m], messages'[m]))
    && (forall m :: m in messages && IsUnreported(messages[m], raws) ==> messages'[m] == messages[m])
    && (HasNoRepeats(raws) ==> forall k :: 0 <= k < i ==> IsReflected(messages', raws[k]))
  }

  lemma SyncingOneMore(start: map<Id, Message>, was: map<Id, Message>, now: map<Id, Message>, raws: seq<Raw>, i: nat)
    requires i < |raws| && AreSynced(start, was, raws, i) && OnlyTouches(was, now, raws[i].message)
    requires IsReflected(now, raws[i]) && (ProvidersAreUnique(was) ==> ProvidersAreUnique(now))
    ensures AreSynced(start, now, raws, i + 1)
  {
    forall m | m in start && IsUnreported(start[m], raws) ensures now[m] == start[m] {
      assert was[m] == start[m];
    }
    if HasNoRepeats(raws) {
      forall k | 0 <= k < i ensures IsReflected(now, raws[k]) {
        assert IsReflected(was, raws[k]);
        var m :| m in was && IsAsReported(was[m], raws[k]);
        assert now[m] == was[m];
      }
    }
  }

  /** Where no two messages share an identifier, every reported one that is no draft has the reported read state. */
  lemma ReportedStateWins(messages: map<Id, Message>, messages': map<Id, Message>, raws: seq<Raw>, m: Id, k: nat)
    requires AreSynced(messages, messages', raws, |raws|) && HasNoRepeats(raws) && ProvidersAreUnique(messages)
    requires m in messages' && k < |raws| && messages'[m].provider == Some(raws[k].message) && !messages'[m].isDraft
    ensures messages'[m].isRead == raws[k].isRead
  {
    assert IsReflected(messages', raws[k]);
    var n :| n in messages' && IsAsReported(messages'[n], raws[k]);
  }
}
