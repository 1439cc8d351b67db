/**
 Runs of the job queue: any number of worker calls, crashes, late answers, maintenance and
 enqueues in any order. A worker call is known by its job and its ticket, the value of the
 attempts counter in the row it claimed. Reporting a failure is two steps, the read of the
 row and the later write, with anything in between. A completion can take effect and still
 throw; the same call then reports a failure for the job it completed.

 The state keeps, beside the row, the history the claims are about: which tickets were
 answered, crashed or retried, how often the row was released, and how often that happened
 under a call that still held the lock (`stolen`) or a completion was lost on its caller (`lost`).
 */
module JobRuns {
  import opened Wrappers
  import opened BackgroundJobs

  const RETRY_STEP_MS := 30000

  datatype Phase =
    | Dispatching(maxAttempts: int)
    | FailPending(retry: Option<int>, startedAt: int, seen: nat)

  datatype Slot = Slot(
    row: Option<Job>, live: map<nat, Phase>,
    claims: nat, answered: set<nat>, crashed: set<nat>, retried: set<nat>,
    releases: nat, stolen: nat, lost: nat, overtaken: nat, firstClaimAt: Option<int>)

  datatype System = System(slots: map<JobId, Slot>, now: int)

  datatype Step =
    | Enqueue(id: JobId, input: EnqueueInput)
    | Claim(id: JobId, queueName: string, worker: string, locked: set<JobId>)
    | Complete(id: JobId, ticket: nat, result: Option<string>, startedAt: int, purgeBase: int)
    | CompleteLost(id: JobId, ticket: nat, result: Option<string>, startedAt: int, purgeBase: int)
    | FailRead(id: JobId, ticket: nat)
    | FailWrite(id: JobId, ticket: nat, error: string, purgeBase: int)
    | Crash(id: JobId, ticket: nat)
    | Release(maxLockAgeMs: int)
    | Purge(limit: int, doomed: set<JobId>)
    | RemoveFinished(queueName: string, dedupeKey: string)
    | Wait(until: int)

  /** The `background_jobs` table of a state. */
  function Jobs(s: System): Table {
    map k | k in s.slots && s.slots[k].row.Some? :: s.slots[k].row.value
  }

  /** The retry time a worker asks for, from the row it claimed. */
  function RetryAt(ticket: nat, maxAttempts: int, now: int): Option<int> {
    if ticket < maxAttempts then Some(now + RETRY_STEP_MS * Max(1, ticket)) else None
  }

  // ---------- what one step does to one job ----------

  function NewSlot(j: Job): Slot {
    Slot(Some(j), map[], 0, {}, {}, {}, 0, 0, 0, 0, None)
  }

  function ClaimSlot(sl: Slot, worker: string, now: int): Slot
    requires sl.row.Some?
  {
    sl.(row := Some(ClaimRow(sl.row.value, worker, now)),
        live := sl.live[sl.claims + 1 := Dispatching(sl.row.value.maxAttempts)],
        claims := sl.claims + 1,
        firstClaimAt := if sl.claims == 0 then Some(now) else sl.firstClaimAt)
  }

  function Answer(sl: Slot, ticket: nat): Slot {
    sl.(live := sl.live - {ticket}, answered := sl.answered + {ticket})
  }

  function CompleteSlot(sl: Slot, ticket: nat, result: Option<string>, startedAt: int, purgeBase: int): Slot {
    if sl.row.None? then Answer(sl, ticket)
    else Answer(sl, ticket).(row := Some(CompleteRow(sl.row.value, result, None, startedAt, purgeBase)))
  }

  /** The row is completed, but the call believes that it was not. */
  function CompleteLostSlot(sl: Slot, result: Option<string>, startedAt: int, purgeBase: int): Slot {
    if sl.row.None? then sl.(lost := sl.lost + 1)
    else sl.(row := Some(CompleteRow(sl.row.value, result, None, startedAt, purgeBase)), lost := sl.lost + 1)
  }

  function FailReadSlot(sl: Slot, ticket: nat, now: int): Slot
    requires ticket in sl.live && sl.live[ticket].Dispatching?
  {
    if sl.row.None? then Answer(sl, ticket)
    else
      var j := sl.row.value;
      var retryAt := RetryAt(ticket, sl.live[ticket].maxAttempts, now);
      var retry := if WillRetry(j.attempts, j.maxAttempts, retryAt) then retryAt else None;
      sl.(live := sl.live[ticket := FailPending(retry, now, j.attempts)])
  }

  function FailWriteSlot(sl: Slot, ticket: nat, error: string, purgeBase: int): Slot
    requires ticket in sl.live && sl.live[ticket].FailPending?
  {
    var p := sl.live[ticket];
    if sl.row.None? then Answer(sl, ticket)
    else
      Answer(sl, ticket).(
      row := Some(FailRow(sl.row.value, error, p.retry.Some?, p.retry, None, p.startedAt, purgeBase)),
      retried := if p.retry.Some? then sl.retried + {ticket} else sl.retried,
      overtaken := if p.retry.Some? && p.seen != sl.row.value.attempts then sl.overtaken + 1 else sl.overtaken)
  }

  function CrashSlot(sl: Slot, ticket: nat): Slot {
    sl.(live := sl.live - {ticket}, crashed := sl.crashed + {ticket})
  }

  function ReleaseSlot(sl: Slot, cutoff: int): Slot {
    if sl.row.Some? && IsStale(sl.row.value, cutoff) then
      sl.(row := Some(ReleaseRow(sl.row.value, cutoff)), releases := sl.releases + 1,
          stolen := if sl.claims in sl.live then sl.stolen + 1 else sl.stolen)
    else sl
  }

  // ---------- what one step does to the whole state ----------

  ghost predicate HasLive(s: System, id: JobId, ticket: nat) {
    id in s.slots && ticket in s.slots[id].live
  }

  ghost predicate Enabled(s: System, st: Step) {
    match st
    case Enqueue(id, input) => id !in s.slots && !DedupeTaken(Jobs(s), input.queueName, input.dedupeKey)
    case Claim(id, q, _, locked) => IsNext(Jobs(s), q, s.now, locked, id)
    case Complete(id, t, _, startedAt, purgeBase) =>
      HasLive(s, id, t) && s.slots[id].live[t].Dispatching? && startedAt <= purgeBase <= s.now
    case CompleteLost(id, t, _, startedAt, purgeBase) =>
      HasLive(s, id, t) && s.slots[id].live[t].Dispatching? && startedAt <= purgeBase <= s.now
    case FailRead(id, t) => HasLive(s, id, t) && s.slots[id].live[t].Dispatching?
    case FailWrite(id, t, _, purgeBase) =>
      && HasLive(s, id, t) && s.slots[id].live[t].FailPending?
      && s.slots[id].live[t].startedAt <= purgeBase <= s.now
    case Crash(id, t) => HasLive(s, id, t)
    case Release(_) => true
    case Purge(limit, doomed) => IsPurge(Jobs(s), s.now, limit, doomed)
    case RemoveFinished(_, _) => true
    case Wait(until) => s.now <= until
  }

  ghost function Next(s: System, st: Step): System
    requires Enabled(s, st)
  {
    match st
    case Enqueue(id, input) => s.(slots := s.slots[id := NewSlot(EnqueuedRow(input, s.now))])
    case Claim(id, _, worker, _) => s.(slots := s.slots[id := ClaimSlot(s.slots[id], worker, s.now)])
    case Complete(id, t, result, startedAt, purgeBase) =>
      s.(slots := s.slots[id := CompleteSlot(s.slots[id], t, result, startedAt, purgeBase)])
    case CompleteLost(id, _, result, startedAt, purgeBase) =>
      s.(slots := s.slots[id := CompleteLostSlot(s.slots[id], result, startedAt, purgeBase)])
    case FailRead(id, t) => s.(slots := s.slots[id := FailReadSlot(s.slots[id], t, s.now)])
    case FailWrite(id, t, error, purgeBase) =>
      s.(slots := s.slots[id := FailWriteSlot(s.slots[id], t, error, purgeBase)])
    case Crash(id, t) => s.(slots := s.slots[id := CrashSlot(s.slots[id], t)])
    case Release(age) => s.(slots := map k | k in s.slots :: ReleaseSlot(s.slots[k], s.now - age))
    case Purge(_, doomed) =>
      s.(slots := map k | k in s.slots :: if k in doomed then s.slots[k].(row := None) else s.slots[k])
    case RemoveFinished(q, key) =>
      s.(slots := map k | k in s.slots ::
                    if s.slots[k].row.Some? && IsFinishedDuplicate(s.slots[k].row.value, q, key)
                    then s.slots[k].(row := None) else s.slots[k])
    case Wait(until) => s.(now := until)
  }

  /** A run, last step outermost. */
  datatype Run = Begin | After(past: Run, step: Step)

  ghost predicate ValidRun(s: System, run: Run)
    decreases run, 0
  {
    match run
    case Begin => true
    case After(past, st) => ValidRun(s, past) && Enabled(Exec(s, past), st)
  }

  ghost function Exec(s: System, run: Run): System
    requires ValidRun(s, run)
    decreases run, 1
  {
    match run
    case Begin => s
    case After(past, st) => Next(Exec(s, past), st)
  }

  ghost function Empty(now: int): System {
    System(map[], now)
  }

  /** What the repository function a step stands for makes of the table. */
  ghost function RepositoryCall(s: System, st: Step): Table
    requires Enabled(s, st)
  {
    var t := Jobs(s);
    match st
    case Enqueue(id, input) => t[id := EnqueuedRow(input, s.now)]
    case Claim(id, _, worker, _) => t[id := ClaimRow(t[id], worker, s.now)]
    case Complete(id, _, result, startedAt, purgeBase) =>
      if id in t then t[id := CompleteRow(t[id], result, None, startedAt, purgeBase)] else t
    case CompleteLost(id, _, result, startedAt, purgeBase) =>
      if id in t then t[id := CompleteRow(t[id], result, None, startedAt, purgeBase)] else t
    case FailWrite(id, ticket, error, purgeBase) =>
      var p := s.slots[id].live[ticket];
      if id in t then t[id := FailRow(t[id], error, p.retry.Some?, p.retry, None, p.startedAt, purgeBase)] else t
    case Release(age) => Released(t, s.now - age)
    case Purge(_, doomed) => t - doomed
    case RemoveFinished(q, key) => WithoutFinished(t, q, key)
    case FailRead(_, _) => t
    case Crash(_, _) => t
    case Wait(_) => t
  }

  lemma JobsAfterUpdate(s: System, id: JobId, sl: Slot)
    ensures Jobs(s.(slots := s.slots[id := sl])) == if sl.row.Some? then Jobs(s)[id := sl.row.value] else Jobs(s) - {id}
  {
  }

  lemma SweepIsRepositoryCall(s: System, st: Step)
    requires Enabled(s, st) && (st.Release? || st.Purge? || st.RemoveFinished?)
    ensures Jobs(Next(s, st)) == RepositoryCall(s, st)
  {
  }

  /**
   Every step changes the table exactly as the repository function it stands for: the
   methods of `JobRepository` ensure the same right-hand sides.
   */
  lemma StepIsRepositoryCall(s: System, st: Step)
    requires Enabled(s, st)
    ensures Jobs(Next(s, st)) == RepositoryCall(s, st)
  {
    match st
    case Enqueue(id, input) => JobsAfterUpdate(s, id, NewSlot(EnqueuedRow(input, s.now)));
    case Claim(id, _, worker, _) => JobsAfterUpdate(s, id, ClaimSlot(s.slots[id], worker, s.now));
    case Complete(id, t, result, startedAt, purgeBase) =>
      JobsAfterUpdate(s, id, CompleteSlot(s.slots[id], t, result, startedAt, purgeBase));
    case CompleteLost(id, _, result, startedAt, purgeBase) =>
      JobsAfterUpdate(s, id, CompleteLostSlot(s.slots[id], result, startedAt, purgeBase));
    case FailWrite(id, t, error, purgeBase) =>
      JobsAfterUpdate(s, id, FailWriteSlot(s.slots[id], t, error, purgeBase));
    case FailRead(id, t) => JobsAfterUpdate(s, id, FailReadSlot(s.slots[id], t, s.now));
    case Crash(id, t) => JobsAfterUpdate(s, id, CrashSlot(s.slots[id], t));
    case Release(_) => SweepIsRepositoryCall(s, st);
    case Purge(_, _) => SweepIsRepositoryCall(s, st);
    case RemoveFinished(_, _) => SweepIsRepositoryCall(s, st);
    case Wait(_) =>
  }

  // ---------- the invariant, job by job ----------

  /** Lock and finish columns agree with the status, and nothing is kept for less than its retention. */
  ghost predicate RowOk(j: Job) {
    && (j.status == Active <==> j.lockedAt.Some?)
    && (j.lockedAt.Some? <==> j.lockedBy.Some?)
    && (IsTerminal(j.status) <==> j.finishedAt.Some?)
    && (j.finishedAt.Some? <==> j.purgeAfter.Some?)
    && j.status != Paused
    && (j.status == Completed ==> j.purgeAfter.value >= j.finishedAt.value + CompletedRetentionMs(j))
    && (j.status == Failed ==> j.purgeAfter.value >= j.finishedAt.value + FailedRetentionMs(j))
  }

  function Tickets(sl: Slot): set<nat> {
    sl.live.Keys + sl.answered + sl.crashed
  }

  /** Every ticket handed out is answered once, or crashed, or still being worked on. */
  ghost predicate TicketsOk(sl: Slot) {
    && (forall t :: t in Tickets(sl) <==> 1 <= t <= sl.claims)
    && sl.live.Keys !! sl.answered && sl.live.Keys !! sl.crashed && sl.answered !! sl.crashed
    && sl.retried <= sl.answered
  }

  function Availability(j: Job): nat {
    if IsClaimable(j.status) then 1 else 0
  }

  ghost predicate CountsOk(sl: Slot) {
    && sl.stolen <= sl.releases
    && (sl.row.Some? ==>
          var j := sl.row.value;
          && j.attempts == sl.claims
          && (forall t :: t in sl.retried ==> t < j.maxAttempts)
          && sl.claims + Availability(j) <= 1 + |sl.retried| + sl.releases
          && (sl.overtaken == 0 && j.status == Delayed ==> j.attempts < j.maxAttempts)
          && (forall t :: t in sl.live && sl.live[t].FailPending? && sl.live[t].retry.Some? ==>
                t < j.maxAttempts && sl.live[t].seen < j.maxAttempts))
  }

  /**
   While no held lock was released, only the call of the last claim can be live and nobody else can
   claim the job; unless a completion was lost on its caller, the row is then active.
   */
  ghost predicate ExclusionOk(sl: Slot) {
    sl.stolen == 0 ==>
      && sl.overtaken == 0
      && (forall t :: t in sl.live ==> t == sl.claims && (sl.row.Some? ==> !IsClaimable(sl.row.value.status)))
      && (sl.lost == 0 ==> forall t :: t in sl.live ==> sl.row.Some? && sl.row.value.status == Active)
      && (forall t :: t in sl.live && sl.live[t].FailPending? ==> sl.live[t].seen == t)
      && (sl.row.Some? && sl.row.value.status == Active ==> sl.claims !in sl.answered)
  }

  /** Sum of the waits 1, 2, ..., k-1 in steps of 30 s. */
  function Backoff(k: nat): int {
    15000 * k * (k - 1)
  }

  /** Without releases, nothing becomes available before its back-off is over. */
  ghost predicate BackoffOk(sl: Slot, now: int) {
    && (sl.claims == 0 <==> sl.firstClaimAt.None?)
    && (sl.releases == 0 && sl.row.Some? ==>
          var j := sl.row.value;
          && (sl.claims >= 1 ==> sl.firstClaimAt.Some? && sl.firstClaimAt.value + Backoff(sl.claims) <= now)
          && (j.status == Waiting ==> sl.claims == 0)
          && (j.status == Active ==>
                && sl.claims >= 1 && j.lockedAt.Some?
                && sl.firstClaimAt.value + Backoff(sl.claims) <= j.lockedAt.value <= now)
          && (j.status == Delayed ==> sl.claims >= 1 && sl.firstClaimAt.value + Backoff(sl.claims + 1) <= j.runAt)
          && (sl.claims in sl.live && sl.live[sl.claims].FailPending? && sl.live[sl.claims].retry.Some? ==>
                sl.claims >= 1 && sl.firstClaimAt.value + Backoff(sl.claims + 1) <= sl.live[sl.claims].retry.value))
  }

  /** An active row was due when it was claimed, and a failure report was started in the past. */
  ghost predicate TimesOk(sl: Slot, now: int) {
    && (sl.row.Some? && sl.row.value.status == Active ==> sl.row.value.runAt <= now)
    && (forall t :: t in sl.live && sl.live[t].FailPending? ==> sl.live[t].startedAt <= now)
  }

  ghost predicate SlotInv(sl: Slot, now: int) {
    && (sl.row.Some? ==> RowOk(sl.row.value))
    && TicketsOk(sl) && CountsOk(sl) && ExclusionOk(sl) && BackoffOk(sl, now) && TimesOk(sl, now)
  }

  ghost predicate Inv(s: System) {
    forall k :: k in s.slots ==> SlotInv(s.slots[k], s.now)
  }

  lemma BackoffStep(k: nat)
    ensures Backoff(k + 1) == Backoff(k) + RETRY_STEP_MS * k
  {
  }

  lemma ClaimKeepsInv(sl: Slot, worker: string, now: int)
    requires SlotInv(sl, now) && sl.row.Some? && IsClaimable(sl.row.value.status) && sl.row.value.runAt <= now
    ensures SlotInv(ClaimSlot(sl, worker, now), now)
  {
    var sl' := ClaimSlot(sl, worker, now);
    assert Tickets(sl') == Tickets(sl) + {sl.claims + 1};
    assert sl.claims + 1 !in Tickets(sl);
    assert sl.releases == 0 ==> sl'.firstClaimAt.value + Backoff(sl'.claims) <= now;
  }

  lemma AnswerKeepsTickets(sl: Slot, ticket: nat)
    requires TicketsOk(sl) && ticket in sl.live
    ensures TicketsOk(Answer(sl, ticket))
  {
    var sl' := Answer(sl, ticket);
    assert Tickets(sl') == Tickets(sl);
  }

  lemma CompleteKeepsInv(sl: Slot, ticket: nat, result: Option<string>, startedAt: int, purgeBase: int, now: int)
    requires SlotInv(sl, now) && ticket in sl.live && startedAt <= purgeBase
    ensures SlotInv(CompleteSlot(sl, ticket, result, startedAt, purgeBase), now)
  {
    AnswerKeepsTickets(sl, ticket);
    assert Tickets(CompleteSlot(sl, ticket, result, startedAt, purgeBase)) == Tickets(sl);
  }

  lemma CompleteLostKeepsInv(sl: Slot, ticket: nat, result: Option<string>, startedAt: int, purgeBase: int, now: int)
    requires SlotInv(sl, now) && ticket in sl.live && startedAt <= purgeBase
    ensures SlotInv(CompleteLostSlot(sl, result, startedAt, purgeBase), now)
  {
    assert Tickets(CompleteLostSlot(sl, result, startedAt, purgeBase)) == Tickets(sl);
  }

  lemma FailReadKeepsInv(sl: Slot, ticket: nat, now: int)
    requires SlotInv(sl, now) && ticket in sl.live && sl.live[ticket].Dispatching?
    ensures SlotInv(FailReadSlot(sl, ticket, now), now)
  {
    if sl.row.None? {
      AnswerKeepsTickets(sl, ticket);
    } else {
      var sl' := FailReadSlot(sl, ticket, now);
      assert sl'.live.Keys == sl.live.Keys;
      assert Tickets(sl') == Tickets(sl);
      assert 1 <= ticket <= sl.claims by {
        assert ticket in Tickets(sl);
      }
      BackoffStep(ticket);
    }
  }

  lemma FailWriteKeepsCounts(sl: Slot, ticket: nat, error: string, purgeBase: int)
    requires TicketsOk(sl) && CountsOk(sl) && ExclusionOk(sl)
    requires ticket in sl.live && sl.live[ticket].FailPending?
    ensures CountsOk(FailWriteSlot(sl, ticket, error, purgeBase))
  {
  }

  lemma FailWriteKeepsExclusion(sl: Slot, ticket: nat, error: string, purgeBase: int)
    requires CountsOk(sl) && ExclusionOk(sl)
    requires ticket in sl.live && sl.live[ticket].FailPending?
    ensures ExclusionOk(FailWriteSlot(sl, ticket, error, purgeBase))
  {
  }

  lemma FailWriteKeepsTickets(sl: Slot, ticket: nat, error: string, purgeBase: int)
    requires TicketsOk(sl) && ticket in sl.live && sl.live[ticket].FailPending?
    ensures TicketsOk(FailWriteSlot(sl, ticket, error, purgeBase))
  {
    AnswerKeepsTickets(sl, ticket);
    assert Tickets(FailWriteSlot(sl, ticket, error, purgeBase)) == Tickets(Answer(sl, ticket));
  }

  lemma FailWriteKeepsBackoff(sl: Slot, ticket: nat, error: string, purgeBase: int, now: int)
    requires CountsOk(sl) && ExclusionOk(sl) && BackoffOk(sl, now)
    requires ticket in sl.live && sl.live[ticket].FailPending?
    ensures BackoffOk(FailWriteSlot(sl, ticket, error, purgeBase), now)
  {
  }

  lemma FailRowOk(j: Job, error: string, retry: Option<int>, startedAt: int, purgeBase: int)
    requires startedAt <= purgeBase
    ensures RowOk(FailRow(j, error, retry.Some?, retry, None, startedAt, purgeBase))
  {
  }

  lemma FailWriteKeepsInv(sl: Slot, ticket: nat, error: string, purgeBase: int, now: int)
    requires SlotInv(sl, now) && ticket in sl.live && sl.live[ticket].FailPending?
    requires sl.live[ticket].startedAt <= purgeBase
    ensures SlotInv(FailWriteSlot(sl, ticket, error, purgeBase), now)
  {
    FailWriteKeepsTickets(sl, ticket, error, purgeBase);
    FailWriteKeepsCounts(sl, ticket, error, purgeBase);
    FailWriteKeepsExclusion(sl, ticket, error, purgeBase);
    FailWriteKeepsBackoff(sl, ticket, error, purgeBase, now);
    if sl.row.Some? {
      FailRowOk(sl.row.value, error, sl.live[ticket].retry, sl.live[ticket].startedAt, purgeBase);
    }
  }

  lemma CrashKeepsInv(sl: Slot, ticket: nat, now: int)
    requires SlotInv(sl, now) && ticket in sl.live
    ensures SlotInv(CrashSlot(sl, ticket), now)
  {
    var sl' := CrashSlot(sl, ticket);
    assert Tickets(sl') == Tickets(sl);
  }

  lemma ReleaseKeepsInv(sl: Slot, cutoff: int, now: int)
    requires SlotInv(sl, now)
    ensures SlotInv(ReleaseSlot(sl, cutoff), now)
  {
    assert Tickets(ReleaseSlot(sl, cutoff)) == Tickets(sl);
  }

  lemma DeleteKeepsInv(sl: Slot, now: int)
    requires SlotInv(sl, now) && sl.row.Some? && IsTerminal(sl.row.value.status)
    ensures SlotInv(sl.(row := None), now)
  {
    assert Tickets(sl.(row := None)) == Tickets(sl);
  }

  lemma NewSlotInv(input: EnqueueInput, now: int)
    ensures SlotInv(NewSlot(EnqueuedRow(input, now)), now)
  {
  }

  lemma WaitKeepsInv(sl: Slot, now: int, until: int)
    requires SlotInv(sl, now) && now <= until
    ensures SlotInv(sl, until)
  {
  }

  /** A step that replaces one slot keeps the invariant if the new slot has it. */
  lemma ReplacedSlotKeepsInv(s: System, id: JobId, sl: Slot)
    requires Inv(s) && SlotInv(sl, s.now)
    ensures Inv(s.(slots := s.slots[id := sl]))
  {
  }

  lemma CallKeepsInv(s: System, st: Step)
    requires Inv(s) && Enabled(s, st)
    requires st.Complete? || st.CompleteLost? || st.FailRead? || st.FailWrite? || st.Crash?
    ensures Inv(Next(s, st))
  {
    var sl := s.slots[st.id];
    match st
    case Complete(id, t, result, startedAt, purgeBase) =>
      CompleteKeepsInv(sl, t, result, startedAt, purgeBase, s.now);
      ReplacedSlotKeepsInv(s, id, CompleteSlot(sl, t, result, startedAt, purgeBase));
    case CompleteLost(id, t, result, startedAt, purgeBase) =>
      CompleteLostKeepsInv(sl, t, result, startedAt, purgeBase, s.now);
      ReplacedSlotKeepsInv(s, id, CompleteLostSlot(sl, result, startedAt, purgeBase));
    case FailRead(id, t) =>
      FailReadKeepsInv(sl, t, s.now);
      ReplacedSlotKeepsInv(s, id, FailReadSlot(sl, t, s.now));
    case FailWrite(id, t, error, purgeBase) =>
      FailWriteKeepsInv(sl, t, error, purgeBase, s.now);
      ReplacedSlotKeepsInv(s, id, FailWriteSlot(sl, t, error, purgeBase));
    case Crash(id, t) =>
      CrashKeepsInv(sl, t, s.now);
      ReplacedSlotKeepsInv(s, id, CrashSlot(sl, t));
  }

  lemma QueueingKeepsInv(s: System, st: Step)
    requires Inv(s) && Enabled(s, st) && (st.Enqueue? || st.Claim?)
    ensures Inv(Next(s, st))
  {
    match st
    case Enqueue(id, input) =>
      NewSlotInv(input, s.now);
      ReplacedSlotKeepsInv(s, id, NewSlot(EnqueuedRow(input, s.now)));
    case Claim(id, _, worker, _) =>
      ClaimKeepsInv(s.slots[id], worker, s.now);
      ReplacedSlotKeepsInv(s, id, ClaimSlot(s.slots[id], worker, s.now));
  }

  lemma SweepKeepsInv(s: System, st: Step)
    requires Inv(s) && Enabled(s, st) && (st.Release? || st.Purge? || st.RemoveFinished? || st.Wait?)
    ensures Inv(Next(s, st))
  {
    var s' := Next(s, st);
    forall k | k in s'.slots
      ensures SlotInv(s'.slots[k], s'.now)
    {
      assert SlotInv(s.slots[k], s.now);
      match st
      case Release(age) => ReleaseKeepsInv(s.slots[k], s.now - age, s.now);
      case Purge(_, doomed) =>
        if k in doomed {
          assert k in Jobs(s) && IsDue(Jobs(s)[k], s.now);
          DeleteKeepsInv(s.slots[k], s.now);
        }
      case RemoveFinished(q, key) =>
        if s.slots[k].row.Some? && IsFinishedDuplicate(s.slots[k].row.value, q, key) {
          DeleteKeepsInv(s.slots[k], s.now);
        }
      case Wait(until) => WaitKeepsInv(s.slots[k], s.now, until);
    }
  }

  /** Every step of every worker and of maintenance keeps the invariant. */
  lemma StepKeepsInv(s: System, st: Step)
    requires Inv(s) && Enabled(s, st)
    ensures Inv(Next(s, st))
  {
    if st.Enqueue? || st.Claim? {
      QueueingKeepsInv(s, st);
    } else if st.Complete? || st.CompleteLost? || st.FailRead? || st.FailWrite? || st.Crash? {
      CallKeepsInv(s, st);
    } else {
      SweepKeepsInv(s, st);
    }
  }

  lemma {:induction false} RunKeepsInv(s: System, run: Run)
    requires Inv(s) && ValidRun(s, run)
    ensures Inv(Exec(s, run))
  {
    if run.After? {
      RunKeepsInv(s, run.past);
      StepKeepsInv(Exec(s, run.past), run.step);
    }
  }
}
