/**
 Mailbox threads with their cached unread count and their way to the trash and back, and the
 operations on them: provider synchronization, local deliveries and drafts, read marks and moves.
 */
module Mailbox {
  import opened Wrappers

  type Id = nat

  datatype Folder = Inbox | Sent | Drafts | Trash | Archive

  datatype Thread = Thread(provider: Option<Id>, folder: Folder, previous: Option<Folder>, unread: int)

  datatype Message = Message(thread: Id, provider: Option<Id>, isRead: bool, isDraft: bool)

  datatype Box = Box(threads: map<Id, Thread>, messages: map<Id, Message>)

  /** A message as the provider reports it. */
  datatype Raw = Raw(message: Id, thread: Option<Id>, folder: Folder, isRead: bool)

  function UnreadIn(messages: map<Id, Message>, t: Id): set<Id> {
    set m | m in messages && messages[m].thread == t && !messages[m].isDraft && !messages[m].isRead
  }

  function SentIn(messages: map<Id, Message>, t: Id): set<Id> {
    set m | m in messages && messages[m].thread == t && !messages[m].isDraft
  }

  // ---------- folders ----------

  /** Where a move leads: the new folder and the remembered one, or None when archiving is refused. */
  function ResolveMove(v: Thread, target: Folder): Option<(Folder, Option<Folder>)> {
    if target == Archive && v.folder != Inbox then None
    else if target == v.folder then Some((v.folder, v.previous))
    else if target == Trash then Some((Trash, Some(v.folder)))
    else if target == Inbox && v.folder == Trash then
      Some((match v.previous case Some(f) => f case None => Inbox, None))
    else if target == Inbox && v.folder == Archive then Some((Inbox, None))
    else Some((target, v.previous))
  }

  function Moved(b: Box, t: Id, target: Folder): Box {
    if t !in b.threads then b
    else
      match ResolveMove(b.threads[t], target)
      case None => b
      case Some((folder, previous)) =>
        b.(threads := b.threads[t := b.threads[t].(folder := folder, previous := previous)])
  }

  // ---------- threads and messages ----------

  predicate SkipsUnread(v: Thread, delta: int) {
    delta > 0 && (v.folder == Trash || v.folder == Drafts)
  }

  /** Bumps the existing thread `home`, or inserts a row under `newId`. */
  function Upserted(b: Box, home: Option<Id>, provider: Option<Id>, folder: Folder, delta: int, newId: Id): Box {
    if home.Some? && home.value in b.threads then
      var v := b.threads[home.value];
      b.(threads := b.threads[home.value := v.(unread := if SkipsUnread(v, delta) then v.unread else v.unread + delta)])
    else b.(threads := b.threads[newId := Thread(provider, folder, None, delta)])
  }

  function WithMessage(b: Box, id: Id, m: Message): Box {
    b.(messages := b.messages[id := m])
  }

  /** The provider's read state wins for a message that is not a draft; the thread is recounted and refiled. */
  function Reconciled(b: Box, m: Id, raw: Raw): Box {
    if m !in b.messages || b.messages[m].thread !in b.threads then b
    else
      var t := b.messages[m].thread;
      var message := b.messages[m];
      var messages := if message.isDraft then b.messages else b.messages[m := message.(isRead := raw.isRead)];
      Box(b.threads[t := b.threads[t].(folder := raw.folder, unread := |UnreadIn(messages, t)|)], messages)
  }

  function MarkedRead(b: Box, t: Id): Box {
    var messages := map m | m in b.messages ::
      if b.messages[m].thread == t then b.messages[m].(isRead := true) else b.messages[m];
    Box(if t in b.threads then b.threads[t := b.threads[t].(unread := 0)] else b.threads, messages)
  }

  /** Every message but the drafts becomes unread; a thread without any still counts as one. */
  function MarkedUnread(b: Box, t: Id): Box {
    var n := |SentIn(b.messages, t)|;
    var messages := map m | m in b.messages ::
      if b.messages[m].thread == t && !b.messages[m].isDraft then b.messages[m].(isRead := false) else b.messages[m];
    Box(if t in b.threads then b.threads[t := b.threads[t].(unread := if n == 0 then 1 else n)] else b.threads,
        messages)
  }

  /** Deleting a thread takes its messages along. */
  function WithoutThread(b: Box, t: Id): Box {
    Box(b.threads - {t}, map m | m in b.messages && b.messages[m].thread != t :: b.messages[m])
  }

  // ---------- steps ----------

  /** `hit` and `home` are the rows the lookups by provider id find, if any; the other identifiers are fresh. */
  datatype Op =
    | Sync(raw: Raw, hit: Option<Id>, home: Option<Id>, threadId: Id, messageId: Id)
    | Deliver(threadId: Id, messageId: Id)
    | CreateDraft(threadId: Id, messageId: Id)
    | ComposeSend(threadId: Id, messageId: Id, provider: Option<Id>)
    | MarkRead(t: Id)
    | MarkUnread(t: Id)
    | Move(t: Id, target: Folder)
    | DeleteThread(t: Id)

  ghost predicate IsHit(b: Box, raw: Raw, hit: Option<Id>) {
    if hit.Some? then hit.value in b.messages && b.messages[hit.value].provider == Some(raw.message)
    else forall m :: m in b.messages ==> b.messages[m].provider != Some(raw.message)
  }

  ghost predicate IsHome(b: Box, raw: Raw, home: Option<Id>) {
    if home.Some? then raw.thread.Some? && home.value in b.threads && b.threads[home.value].provider == raw.thread
    else raw.thread.None? || forall t :: t in b.threads ==> b.threads[t].provider != raw.thread
  }

  ghost predicate Allowed(b: Box, op: Op) {
    match op
    case Sync(raw, hit, home, threadId, messageId) =>
      IsHit(b, raw, hit) && IsHome(b, raw, home) && threadId !in b.threads && messageId !in b.messages
    case Deliver(threadId, messageId) => threadId !in b.threads && messageId !in b.messages
    case CreateDraft(threadId, messageId) => threadId !in b.threads && messageId !in b.messages
    case ComposeSend(threadId, messageId, _) => threadId !in b.threads && messageId !in b.messages
    case _ => true
  }

  function Arrived(b: Box, raw: Raw, home: Option<Id>, threadId: Id, messageId: Id): Box {
    var b' := Upserted(b, home, raw.thread, raw.folder, if raw.isRead then 0 else 1, threadId);
    var t := if home.Some? then home.value else threadId;
    WithMessage(b', messageId, Message(t, Some(raw.message), raw.isRead, false))
  }

  function Apply(b: Box, op: Op): Box {
    match op
    case Sync(raw, hit, home, threadId, messageId) =>
      if hit.Some? then Reconciled(b, hit.value, raw) else Arrived(b, raw, home, threadId, messageId)
    case Deliver(threadId, messageId) =>
      WithMessage(Upserted(b, None, None, Inbox, 1, threadId), messageId, Message(threadId, None, false, false))
    case CreateDraft(threadId, messageId) =>
      WithMessage(Upserted(b, None, None, Drafts, 0, threadId), messageId, Message(threadId, None, true, true))
    case ComposeSend(threadId, messageId, provider) =>
      WithMessage(Upserted(b, None, None, Sent, 0, threadId), messageId, Message(threadId, provider, true, false))
    case MarkRead(t) => MarkedRead(b, t)
    case MarkUnread(t) => MarkedUnread(b, t)
    case Move(t, target) => Moved(b, t, target)
    case DeleteThread(t) => WithoutThread(b, t)
  }

  // ---------- how far the cached count is off ----------

  /** Unread arrivals left out of the count, and the one unread message counted that does not exist. */
  datatype Drift = Drift(skipped: nat, phantom: nat)

  const NO_DRIFT := Drift(0, 0)

  ghost function DriftAfter(b: Box, op: Op, t: Id, d: Drift): Drift
    requires Allowed(b, op)
  {
    match op
    case Sync(raw, hit, home, _, _) =>
      if hit.Some? then if b.messages[hit.value].thread == t then NO_DRIFT else d
      else if home == Some(t) && SkipsUnread(b.threads[t], if raw.isRead then 0 else 1) then
        d.(skipped := d.skipped + 1)
      else d
    case MarkRead(u) => if u == t then NO_DRIFT else d
    case MarkUnread(u) =>
      if u == t then Drift(0, if t in b.threads && SentIn(b.messages, t) == {} then 1 else 0) else d
    case DeleteThread(u) => if u == t then NO_DRIFT else d
    case _ => d
  }

  /** The cached count plus what was skipped minus the phantom is the number of unread messages. */
  ghost predicate Agrees(b: Box, t: Id, d: Drift) {
    if t in b.threads then b.threads[t].unread + d.skipped - d.phantom == |UnreadIn(b.messages, t)|
    else d == NO_DRIFT && forall m :: m in b.messages ==> b.messages[m].thread != t
  }

  lemma InsertCounts(messages: map<Id, Message>, id: Id, m: Message, t: Id)
    requires id !in messages
    ensures |UnreadIn(messages[id := m], t)|
         == |UnreadIn(messages, t)| + if m.thread == t && !m.isDraft && !m.isRead then 1 else 0
  {
    var after := UnreadIn(messages[id := m], t);
    assert after ==
      if m.thread == t && !m.isDraft && !m.isRead then UnreadIn(messages, t) + {id} else UnreadIn(messages, t);
  }

  lemma NewThreadAgrees(b: Box, t: Id, d: Drift, threadId: Id, v: Thread, messageId: Id, m: Message)
    requires Agrees(b, t, d) && threadId !in b.threads && messageId !in b.messages
    requires m.thread == threadId && v.unread == if m.isDraft || m.isRead then 0 else 1
    ensures Agrees(Box(b.threads[threadId := v], b.messages[messageId := m]), t, d)
  {
    InsertCounts(b.messages, messageId, m, t);
    if t == threadId {
      assert UnreadIn(b.messages, t) == {};
    }
  }

  lemma ArrivalAgrees(b: Box, t: Id, d: Drift, op: Op)
    requires Agrees(b, t, d) && Allowed(b, op) && op.Sync? && op.hit.None?
    ensures Agrees(Apply(b, op), t, DriftAfter(b, op, t, d))
  {
    var delta := if op.raw.isRead then 0 else 1;
    if op.home.Some? {
      InsertCounts(b.messages, op.messageId, Message(op.home.value, Some(op.raw.message), op.raw.isRead, false), t);
    } else {
      NewThreadAgrees(b, t, d, op.threadId, Thread(op.raw.thread, op.raw.folder, None, delta), op.messageId,
                      Message(op.threadId, Some(op.raw.message), op.raw.isRead, false));
    }
  }

  lemma ReconcileAgrees(b: Box, t: Id, d: Drift, m: Id, raw: Raw)
    requires Agrees(b, t, d) && m in b.messages
    requires b.messages[m].thread == t ==> t in b.threads
    ensures Agrees(Reconciled(b, m, raw), t, if b.messages[m].thread == t then NO_DRIFT else d)
  {
    var b' := Reconciled(b, m, raw);
    if b.messages[m].thread != t {
      assert UnreadIn(b'.messages, t) == UnreadIn(b.messages, t);
    }
  }

  lemma MarksAgree(b: Box, t: Id, d: Drift, op: Op)
    requires Agrees(b, t, d) && (op.MarkRead? || op.MarkUnread? || op.DeleteThread?)
    ensures Agrees(Apply(b, op), t, DriftAfter(b, op, t, d))
  {
    var b' := Apply(b, op);
    if op.t != t {
      assert UnreadIn(b'.messages, t) == UnreadIn(b.messages, t);
    } else if op.MarkRead? {
      assert UnreadIn(b'.messages, t) == {};
    } else if op.MarkUnread? {
      assert UnreadIn(b'.messages, t) == SentIn(b.messages, t);
    }
  }

  lemma StepAgrees(b: Box, op: Op, t: Id, d: Drift)
    requires Agrees(b, t, d) && Allowed(b, op)
    ensures Agrees(Apply(b, op), t, DriftAfter(b, op, t, d))
  {
    match op
    case Sync(raw, hit, _, _, _) =>
      if hit.Some? {
        ReconcileAgrees(b, t, d, hit.value, raw);
      } else {
        ArrivalAgrees(b, t, d, op);
      }
    case Deliver(threadId, messageId) =>
      NewThreadAgrees(b, t, d, threadId, Thread(None, Inbox, None, 1), messageId,
                      Message(threadId, None, false, false));
    case CreateDraft(threadId, messageId) =>
      NewThreadAgrees(b, t, d, threadId, Thread(None, Drafts, None, 0), messageId, Message(threadId, None, true, true));
    case ComposeSend(threadId, messageId, provider) =>
      NewThreadAgrees(b, t, d, threadId, Thread(None, Sent, None, 0), messageId,
                      Message(threadId, provider, true, false));
    case MarkRead(_) => MarksAgree(b, t, d, op);
    case MarkUnread(_) => MarksAgree(b, t, d, op);
    case Move(_, _) =>
    case DeleteThread(_) => MarksAgree(b, t, d, op);
  }

  // ---------- runs ----------

  datatype History = Fresh | Then(past: History, op: Op)

  const EMPTY := Box(map[], map[])

  function After(h: History): Box {
    if h.Fresh? then EMPTY else Apply(After(h.past), h.op)
  }

  ghost predicate IsHistory(h: History) {
    h.Then? ==> IsHistory(h.past) && Allowed(After(h.past), h.op)
  }

  ghost function DriftOf(h: History, t: Id): Drift
    requires IsHistory(h)
  {
    if h.Fresh? then NO_DRIFT else DriftAfter(After(h.past), h.op, t, DriftOf(h.past, t))
  }

  /**
   On every run the true unread count of a thread minus its cached count is the number of unread
   arrivals into the trash or the drafts since the last mark or reconciliation, less one if the
   last mark made an empty thread unread.
   */
  lemma {:induction false} UnreadCountsAgree(h: History, t: Id)
    requires IsHistory(h)
    ensures Agrees(After(h), t, DriftOf(h, t))
  {
    if h.Then? {
      UnreadCountsAgree(h.past, t);
      StepAgrees(After(h.past), h.op, t, DriftOf(h.past, t));
    }
  }

  /** The cached count is right exactly when nothing was skipped that the phantom does not make up for. */
  lemma CachedCountIsRightIff(h: History, t: Id)
    requires IsHistory(h) && t in After(h).threads
    ensures After(h).threads[t].unread == |UnreadIn(After(h).messages, t)| <==>
            DriftOf(h, t).skipped == DriftOf(h, t).phantom
  {
    UnreadCountsAgree(h, t);
  }

  /** Marking a thread unread leaves a right count exactly when it holds a message that is not a draft. */
  lemma MarkUnreadIsRightIff(b: Box, t: Id)
    requires t in b.threads
    ensures var b' := MarkedUnread(b, t);
      b'.threads[t].unread == |UnreadIn(b'.messages, t)| <==> SentIn(b.messages, t) != {}
  {
    var b' := MarkedUnread(b, t);
    assert UnreadIn(b'.messages, t) == SentIn(b.messages, t);
    assert |SentIn(b.messages, t)| == 0 <==> SentIn(b.messages, t) == {};
  }

  // ---------- trash and restore ----------

  ghost predicate NeverRemembersTrash(b: Box) {
    forall t :: t in b.threads ==> b.threads[t].previous != Some(Trash)
  }

  /** The remembered folder is never the trash itself, so a restore always leaves it. */
  lemma {:induction false} TrashIsNeverRemembered(h: History)
    requires IsHistory(h)
    ensures NeverRemembersTrash(After(h))
  {
    if h.Then? {
      TrashIsNeverRemembered(h.past);
      var b := After(h.past);
      match h.op
      case Move(t, target) =>
      case _ =>
        forall u | u in After(h).threads ensures After(h).threads[u].previous != Some(Trash) {
          assert u in b.threads ==> b.threads[u].previous != Some(Trash);
        }
    }
  }

  /** A user moves or deletes the thread. */
  predicate Relocates(op: Op, t: Id) {
    (op.Move? || op.DeleteThread?) && op.t == t
  }

  /** A synchronization reports a message of the thread. */
  predicate Reports(b: Box, op: Op, t: Id) {
    op.Sync? && op.hit.Some? && op.hit.value in b.messages && b.messages[op.hit.value].thread == t
  }

  /** Reports refile a thread, but leave what it remembers; other steps leave both. */
  lemma StepLeavesTheMemory(b: Box, op: Op, t: Id)
    requires Allowed(b, op) && t in b.threads && !Relocates(op, t)
    ensures var b' := Apply(b, op);
      && t in b'.threads && b'.threads[t].previous == b.threads[t].previous
      && b'.threads[t].folder == if Reports(b, op, t) then op.raw.folder else b.threads[t].folder
  {
  }

  datatype Ops = Done | First(op: Op, rest: Ops)

  function ApplyAll(b: Box, ops: Ops): Box
    decreases ops
  {
    if ops.Done? then b else ApplyAll(Apply(b, ops.op), ops.rest)
  }

  /** Steps in which nobody moves or deletes the thread. */
  ghost predicate LeavesAlone(b: Box, ops: Ops, t: Id)
    decreases ops
  {
    ops.First? ==> Allowed(b, ops.op) && !Relocates(ops.op, t) && LeavesAlone(Apply(b, ops.op), ops.rest, t)
  }

  /** The folder of the last report on the thread, or `folder` where there is none. */
  function LastReported(b: Box, ops: Ops, t: Id, folder: Folder): Folder
    decreases ops
  {
    if ops.Done? then folder
    else LastReported(Apply(b, ops.op), ops.rest, t, if Reports(b, ops.op, t) then ops.op.raw.folder else folder)
  }

  lemma {:induction false} FolderFollowsReports(b: Box, ops: Ops, t: Id)
    requires t in b.threads && LeavesAlone(b, ops, t)
    ensures var b' := ApplyAll(b, ops);
      && t in b'.threads && b'.threads[t].previous == b.threads[t].previous
      && b'.threads[t].folder == LastReported(b, ops, t, b.threads[t].folder)
    decreases ops
  {
    if ops.First? {
      StepLeavesTheMemory(b, ops.op, t);
      FolderFollowsReports(Apply(b, ops.op), ops.rest, t);
    }
  }

  /** Moves a thread to the trash, lets other steps happen, and moves it to the inbox. */
  function TrashedAndBack(b: Box, t: Id, ops: Ops): Box {
    Moved(ApplyAll(Moved(b, t, Trash), ops), t, Inbox)
  }

  /**
   The thread is back in the folder it came from if and only if the last report on it, if any, had
   it in the trash, or it came from the inbox: any other report makes the second move an ordinary one.
   */
  lemma TrashThenInboxRestoresIff(b: Box, t: Id, ops: Ops)
    requires t in b.threads && b.threads[t].folder != Trash && LeavesAlone(Moved(b, t, Trash), ops, t)
    ensures var b' := TrashedAndBack(b, t, ops);
      && t in b'.threads
      && (b'.threads[t].folder == b.threads[t].folder <==>
            LastReported(Moved(b, t, Trash), ops, t, Trash) == Trash || b.threads[t].folder == Inbox)
  {
    FolderFollowsReports(Moved(b, t, Trash), ops, t);
  }

  /** Every report on the thread has it in the trash, as the provider does once the move has been pushed to it. */
  ghost predicate StaysTrashed(b: Box, ops: Ops, t: Id)
    decreases ops
  {
    ops.First? ==> (Reports(b, ops.op, t) ==> ops.op.raw.folder == Trash) && StaysTrashed(Apply(b, ops.op), ops.rest, t)
  }

  lemma {:induction false} TrashIsReported(b: Box, ops: Ops, t: Id)
    requires StaysTrashed(b, ops, t)
    ensures LastReported(b, ops, t, Trash) == Trash
    decreases ops
  {
    if ops.First? {
      TrashIsReported(Apply(b, ops.op), ops.rest, t);
    }
  }

  /**
   A thread moved to the trash and later to the inbox is back in the folder it came from, with
   nothing remembered, whatever else happened to the mailbox in between, synchronizations that
   report it in the trash included.
   */
  lemma TrashThenInboxRestores(b: Box, t: Id, ops: Ops)
    requires t in b.threads && b.threads[t].folder != Trash
    requires LeavesAlone(Moved(b, t, Trash), ops, t) && StaysTrashed(Moved(b, t, Trash), ops, t)
    ensures var b' := TrashedAndBack(b, t, ops);
      t in b'.threads && b'.threads[t].folder == b.threads[t].folder && b'.threads[t].previous == None
  {
    TrashIsReported(Moved(b, t, Trash), ops, t);
    FolderFollowsReports(Moved(b, t, Trash), ops, t);
  }

  /** One archived thread with one message, which the next synchronization still reports in the inbox. */
  const ARCHIVED := Box(map[0 := Thread(None, Archive, None, 0)], map[0 := Message(0, Some(7), true, false)])

  const LATE_REPORT := First(Sync(Raw(7, None, Inbox, true), Some(0), None, 1, 1), Done)

  /** Then the thread ends in the inbox instead of the archive, and still remembers the archive. */
  lemma LateReportLosesTheFolder()
    ensures LeavesAlone(Moved(ARCHIVED, 0, Trash), LATE_REPORT, 0)
    ensures TrashedAndBack(ARCHIVED, 0, LATE_REPORT).threads[0] == Thread(None, Inbox, Some(Archive), 0)
  {
    var b := Moved(ARCHIVED, 0, Trash);
    assert b.threads[0] == Thread(None, Trash, Some(Archive), 0);
    var b' := Apply(b, LATE_REPORT.op);
    assert UnreadIn(b'.messages, 0) == {};
    assert ApplyAll(b, LATE_REPORT) == b';
  }

  // ---------- what synchronization relies on ----------

  ghost predicate MessagesHaveThreads(b: Box) {
    forall m :: m in b.messages ==> b.messages[m].thread in b.threads
  }

  lemma {:induction false} EveryMessageHasItsThread(h: History)
    requires IsHistory(h)
    ensures MessagesHaveThreads(After(h))
  {
    if h.Then? {
      EveryMessageHasItsThread(h.past);
      var b, b' := After(h.past), After(h);
      forall m | m in b'.messages ensures b'.messages[m].thread in b'.threads {
        assert m in b.messages ==> b.messages[m].thread in b.threads;
      }
    }
  }

  ghost predicate IsKnown(b: Box, provider: Id) {
    exists m :: m in b.messages && b.messages[m].provider == Some(provider)
  }

  /** After a synchronization step the message is known, and no step before a deletion forgets one. */
  lemma SyncMakesKnown(b: Box, op: Op, provider: Id)
    requires Allowed(b, op) && op.Sync? && (provider == op.raw.message || IsKnown(b, provider))
    ensures IsKnown(Apply(b, op), provider)
  {
    var b' := Apply(b, op);
    if IsKnown(b, provider) {
      var m :| m in b.messages && b.messages[m].provider == Some(provider);
      assert m in b'.messages && b'.messages[m].provider == Some(provider);
    } else if op.hit.None? {
      assert b'.messages[op.messageId].provider == Some(provider);
    }
  }
}
