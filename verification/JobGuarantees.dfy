/**
 What the queue promises on every run: safe purging, exclusion, absorbing end states, the
 attempts bound, back-off and draining, and concrete runs that show where exclusion ends.
 */
module JobGuarantees {
  import opened FiniteSets
  import opened Wrappers
  import opened BackgroundJobs
  import opened JobRuns

  // ---------- the state invariant and the purge ----------

  /** Late answers by workers that lost their lock included, every reachable row is consistent. */
  lemma ReachableRowsAreConsistent(start: int, run: Run)
    requires ValidRun(Empty(start), run)
    ensures forall k :: k in Jobs(Exec(Empty(start), run)) ==> RowOk(Jobs(Exec(Empty(start), run))[k])
  {
    var s := Exec(Empty(start), run);
    RunKeepsInv(Empty(start), run);
    forall k | k in Jobs(s)
      ensures RowOk(Jobs(s)[k])
    {
      assert SlotInv(s.slots[k], s.now);
    }
  }

  /** The purge looks at no status, yet deletes finished rows only, and none before its retention is over. */
  lemma PurgeTakesOnlyExpiredFinishedJobs(start: int, run: Run, limit: int, doomed: set<JobId>, k: JobId)
    requires ValidRun(Empty(start), run)
    requires Enabled(Exec(Empty(start), run), Purge(limit, doomed)) && k in doomed
    ensures var s := Exec(Empty(start), run);
            && k in Jobs(s) && IsTerminal(Jobs(s)[k].status) && Jobs(s)[k].finishedAt.Some?
            && (Jobs(s)[k].status == Completed ==>
                  Jobs(s)[k].finishedAt.value + CompletedRetentionMs(Jobs(s)[k]) <= s.now)
            && (Jobs(s)[k].status == Failed ==>
                  Jobs(s)[k].finishedAt.value + FailedRetentionMs(Jobs(s)[k]) <= s.now)
  {
    ReachableRowsAreConsistent(start, run);
    var s := Exec(Empty(start), run);
    assert k in DueRows(Jobs(s), s.now);
    assert RowOk(Jobs(s)[k]);
  }

  // ---------- tickets and the attempts bound ----------

  /** {1, ..., n}. */
  ghost function UpTo(n: nat): (r: set<nat>)
    ensures |r| == n
    ensures forall t :: t in r <==> 1 <= t <= n
  {
    if n == 0 then {} else UpTo(n - 1) + {n}
  }

  /** Each claim is answered by exactly one complete or fail, or its worker crashed, or it is still working. */
  lemma EachClaimIsAnsweredOnce(s: System, id: JobId)
    requires Inv(s) && id in s.slots
    ensures var sl := s.slots[id];
            && sl.live.Keys !! sl.answered !! sl.crashed
            && |sl.live| + |sl.answered| + |sl.crashed| == sl.claims
            && (sl.row.Some? ==> sl.row.value.attempts == sl.claims)
  {
    var sl := s.slots[id];
    assert SlotInv(sl, s.now);
    assert Tickets(sl) == UpTo(sl.claims);
    assert |Tickets(sl)| == |sl.live.Keys| + |sl.answered| + |sl.crashed|;
  }

  lemma SlotAttemptsBound(sl: Slot, now: int)
    requires SlotInv(sl, now) && sl.row.Some?
    ensures sl.claims + Availability(sl.row.value) <= Max(1, sl.row.value.maxAttempts) + sl.releases
  {
    var m := sl.row.value.maxAttempts;
    if sl.retried != {} {
      var t :| t in sl.retried;
      assert t in Tickets(sl);
      forall u | u in sl.retried
        ensures u in UpTo(m - 1)
      {
        assert u in Tickets(sl);
      }
      SubsetSize(sl.retried, UpTo(m - 1));
    }
  }

  lemma SlotDelayedHasAttemptsLeft(sl: Slot, now: int)
    requires SlotInv(sl, now) && sl.row.Some?
    ensures sl.row.value.status == Delayed && sl.overtaken == 0 ==> sl.row.value.attempts < sl.row.value.maxAttempts
    ensures sl.row.value.attempts == sl.claims && sl.stolen <= sl.releases && (sl.overtaken > 0 ==> sl.stolen > 0)
  {
  }

  /**
   Even with failure reports split into a read and a later write, a job is claimed at most
   max(1, maxAttempts) times plus once for each release of its lock.
   */
  lemma AttemptsBound(start: int, run: Run, id: JobId)
    requires ValidRun(Empty(start), run)
    requires id in Jobs(Exec(Empty(start), run))
    ensures var s := Exec(Empty(start), run);
            var j := Jobs(s)[id];
            && j.attempts == s.slots[id].claims
            && j.attempts <= Max(1, j.maxAttempts) + s.slots[id].releases
            && (j.status == Delayed && s.slots[id].overtaken == 0 ==> j.attempts < j.maxAttempts)
            && (s.slots[id].overtaken > 0 ==> s.slots[id].stolen > 0)
            && s.slots[id].stolen <= s.slots[id].releases
  {
    RunKeepsInv(Empty(start), run);
    var s := Exec(Empty(start), run);
    var sl := s.slots[id];
    assert sl.row == Some(Jobs(s)[id]);
    SlotAttemptsBound(sl, s.now);
    SlotDelayedHasAttemptsLeft(sl, s.now);
  }

  /** When the row is read and written without another claim in between, a retry always has attempts left. */
  lemma AtomicRetryHasAttemptsLeft(sl: Slot, ticket: nat, error: string, purgeBase: int, now: int)
    requires sl.row.Some? && ticket in sl.live && sl.live[ticket].Dispatching?
    requires FailReadSlot(sl, ticket, now).live[ticket].FailPending?
    ensures var sl' := FailWriteSlot(FailReadSlot(sl, ticket, now), ticket, error, purgeBase);
            && sl'.overtaken == sl.overtaken
            && (sl'.row.value.status == Delayed <==>
                  ticket < sl.live[ticket].maxAttempts && sl.row.value.attempts < sl.row.value.maxAttempts)
            && (sl'.row.value.status == Delayed ==>
                  sl'.row.value.attempts < sl'.row.value.maxAttempts
                  && sl'.row.value.runAt == now + RETRY_STEP_MS * Max(1, ticket))
  {
  }

  /** A call has read its row for a failure report and not yet written it. */
  ghost predicate IsPending(s: System, id: JobId, t: nat) {
    HasLive(s, id, t) && s.slots[id].live[t].FailPending?
  }

  predicate Settles(st: Step, id: JobId, t: nat) {
    (st.FailWrite? || st.Crash?) && st.id == id && st.ticket == t
  }

  /** Between the read and the write of a failure report nothing else happens. */
  ghost predicate ReportsInOneGo(s: System, run: Run)
    requires ValidRun(s, run)
  {
    run.After? ==>
      && ReportsInOneGo(s, run.past)
      && forall id, t :: IsPending(Exec(s, run.past), id, t) ==> Settles(run.step, id, t)
  }

  /** Nothing was overtaken, and at most one report is pending, for a row that is still as it was read. */
  ghost predicate IsInStep(s: System) {
    && (forall id :: id in s.slots ==> s.slots[id].overtaken == 0)
    && (forall id, t :: IsPending(s, id, t) ==>
          s.slots[id].row.Some? && s.slots[id].live[t].seen == s.slots[id].row.value.attempts)
    && (forall id, t, id', t' :: IsPending(s, id, t) && IsPending(s, id', t') ==> id == id' && t == t')
  }

  ghost predicate NothingPending(s: System) {
    forall id, t :: !IsPending(s, id, t)
  }

  lemma SettlingStaysInStep(s: System, st: Step, id: JobId, t: nat)
    requires Enabled(s, st) && IsInStep(s) && IsPending(s, id, t) && Settles(st, id, t)
    ensures IsInStep(Next(s, st))
  {
    forall k, u | IsPending(Next(s, st), k, u) ensures IsPending(s, k, u) && !(k == id && u == t) {
    }
  }

  lemma OtherStepsStayInStep(s: System, st: Step)
    requires Enabled(s, st) && IsInStep(s) && NothingPending(s)
    ensures IsInStep(Next(s, st))
  {
    forall k, u | IsPending(Next(s, st), k, u) ensures st.FailRead? && k == st.id && u == st.ticket {
      assert k in s.slots && u in s.slots[k].live ==> !IsPending(s, k, u);
    }
  }

  lemma {:induction false} RunStaysInStep(start: int, run: Run)
    requires ValidRun(Empty(start), run) && ReportsInOneGo(Empty(start), run)
    ensures IsInStep(Exec(Empty(start), run))
  {
    if run.After? {
      var s := Exec(Empty(start), run.past);
      RunStaysInStep(start, run.past);
      if id, t :| IsPending(s, id, t) {
        SettlingStaysInStep(s, run.step, id, t);
      } else {
        OtherStepsStayInStep(s, run.step);
      }
    }
  }

  /**
   On every run in which failure reports are read and written in one go, whatever the releases, a
   delayed job always has attempts left.
   */
  lemma DelayedHasAttemptsLeft(start: int, run: Run, id: JobId)
    requires ValidRun(Empty(start), run) && ReportsInOneGo(Empty(start), run)
    requires id in Jobs(Exec(Empty(start), run))
    ensures var s := Exec(Empty(start), run);
      s.slots[id].overtaken == 0 && (Jobs(s)[id].status == Delayed ==> Jobs(s)[id].attempts < Jobs(s)[id].maxAttempts)
  {
    RunStaysInStep(start, run);
    AttemptsBound(start, run, id);
  }

  // ---------- exclusion ----------

  /** The lock is stale, but the call that took it is still working on the job. */
  predicate IsHeldAndStale(sl: Slot, cutoff: int) {
    sl.row.Some? && IsStale(sl.row.value, cutoff) && sl.claims in sl.live
  }

  ghost predicate TakesHeldLock(s: System, st: Step) {
    && st.Release?
    && exists k :: k in s.slots && IsHeldAndStale(s.slots[k], s.now - st.maxLockAgeMs)
  }

  ghost predicate NoHeldLockTaken(s: System, run: Run)
    requires ValidRun(s, run)
  {
    run.Begin? || (NoHeldLockTaken(s, run.past) && !TakesHeldLock(Exec(s, run.past), run.step))
  }

  ghost predicate NothingStolen(s: System) {
    forall k :: k in s.slots ==> s.slots[k].stolen == 0
  }

  lemma StepStealsNothing(s: System, st: Step)
    requires Inv(s) && Enabled(s, st) && NothingStolen(s)
    ensures NothingStolen(Next(s, st)) <==> !TakesHeldLock(s, st)
  {
    if TakesHeldLock(s, st) {
      var k :| k in s.slots && IsHeldAndStale(s.slots[k], s.now - st.maxLockAgeMs);
      assert Next(s, st).slots[k].stolen == 1;
    }
  }

  lemma {:induction false} RunStealsNothing(s: System, run: Run)
    requires Inv(s) && NothingStolen(s) && ValidRun(s, run) && NoHeldLockTaken(s, run)
    ensures NothingStolen(Exec(s, run))
  {
    if run.After? {
      RunStealsNothing(s, run.past);
      RunKeepsInv(s, run.past);
      StepStealsNothing(Exec(s, run.past), run.step);
    }
  }

  /** Each job has at most one call working on it. */
  ghost predicate IsExclusive(s: System) {
    forall id, t, u :: HasLive(s, id, t) && HasLive(s, id, u) ==> t == u
  }

  /** Exclusive now and after whatever claim comes next. */
  ghost predicate StaysExclusive(s: System) {
    IsExclusive(s) && forall c: Step :: c.Claim? && Enabled(s, c) ==> IsExclusive(Next(s, c))
  }

  ghost predicate AlwaysExclusive(s: System, run: Run)
    requires ValidRun(s, run)
  {
    StaysExclusive(Exec(s, run)) && (run.After? ==> AlwaysExclusive(s, run.past))
  }

  lemma NothingStolenIsExclusive(s: System)
    requires Inv(s) && NothingStolen(s)
    ensures IsExclusive(s)
  {
    forall id, t, u | HasLive(s, id, t) && HasLive(s, id, u) ensures t == u {
      assert SlotInv(s.slots[id], s.now);
    }
  }

  lemma NothingStolenStaysExclusive(s: System)
    requires Inv(s) && NothingStolen(s)
    ensures StaysExclusive(s)
  {
    NothingStolenIsExclusive(s);
    forall c: Step | c.Claim? && Enabled(s, c) ensures IsExclusive(Next(s, c)) {
      StepKeepsInv(s, c);
      StepStealsNothing(s, c);
      NothingStolenIsExclusive(Next(s, c));
    }
  }

  lemma HeldReleaseFreesTheRow(s: System, age: int, k: JobId)
    requires Inv(s) && k in s.slots && IsHeldAndStale(s.slots[k], s.now - age)
    ensures var s' := Next(s, Release(age));
      && k in Jobs(s') && IsEligible(Jobs(s')[k], Jobs(s')[k].queueName, s'.now)
      && HasLive(s', k, s.slots[k].claims) && s'.slots[k].claims == s.slots[k].claims
  {
    assert SlotInv(s.slots[k], s.now);
  }

  lemma FreeRowCanBeClaimed(s: System, k: JobId) returns (claim: Step)
    requires k in Jobs(s) && IsEligible(Jobs(s)[k], Jobs(s)[k].queueName, s.now)
    ensures claim.Claim? && claim.id == k && Enabled(s, claim)
  {
    claim := Claim(k, Jobs(s)[k].queueName, "worker", Jobs(s).Keys - {k});
  }

  /** From any reachable state, a release that hits a held lock lets a second call claim the job. */
  lemma HeldReleaseAllowsASecondCall(s: System, st: Step)
    requires Inv(s) && Enabled(s, st) && TakesHeldLock(s, st)
    ensures !StaysExclusive(Next(s, st))
  {
    var k :| k in s.slots && IsHeldAndStale(s.slots[k], s.now - st.maxLockAgeMs);
    HeldReleaseFreesTheRow(s, st.maxLockAgeMs, k);
    var s1 := Next(s, st);
    var claim := FreeRowCanBeClaimed(s1, k);
    var s2 := Next(s1, claim);
    var t := s1.slots[k].claims;
    assert HasLive(s2, k, t) && HasLive(s2, k, t + 1);
  }

  /**
   Exclusion, exactly: along a run each job has at most one call working on it, now and after
   every claim that could come next, if and only if the run releases no lock under a call that
   is still working.
   */
  lemma {:induction false} ExclusionIff(start: int, run: Run)
    requires ValidRun(Empty(start), run)
    ensures AlwaysExclusive(Empty(start), run) <==> NoHeldLockTaken(Empty(start), run)
  {
    RunKeepsInv(Empty(start), run);
    if run.Begin? {
      NothingStolenStaysExclusive(Empty(start));
    } else {
      ExclusionIff(start, run.past);
      RunKeepsInv(Empty(start), run.past);
      if TakesHeldLock(Exec(Empty(start), run.past), run.step) {
        HeldReleaseAllowsASecondCall(Exec(Empty(start), run.past), run.step);
      } else if NoHeldLockTaken(Empty(start), run.past) {
        RunStealsNothing(Empty(start), run);
        NothingStolenStaysExclusive(Exec(Empty(start), run));
      }
    }
  }

  /**
   In a run where no held lock is released as stale, a job has at most one call working on it, and
   it counts exactly that call; the row is active unless a completion was lost on its caller.
   */
  lemma Exclusion(start: int, run: Run, id: JobId, t: nat, u: nat)
    requires ValidRun(Empty(start), run) && NoHeldLockTaken(Empty(start), run)
    requires HasLive(Exec(Empty(start), run), id, t) && HasLive(Exec(Empty(start), run), id, u)
    ensures var s := Exec(Empty(start), run);
            && t == u == s.slots[id].claims
            && (id in Jobs(s) ==> Jobs(s)[id].attempts == t && !IsClaimable(Jobs(s)[id].status))
            && (s.slots[id].lost == 0 ==> id in Jobs(s) && Jobs(s)[id].status == Active)
  {
    RunKeepsInv(Empty(start), run);
    RunStealsNothing(Empty(start), run);
    var s := Exec(Empty(start), run);
    assert SlotInv(s.slots[id], s.now);
  }

  lemma StepKeepsFinished(s: System, st: Step, id: JobId)
    requires Inv(s) && Enabled(s, st) && id in Jobs(s)
    requires IsTerminal(Jobs(s)[id].status) && s.slots[id].live == map[]
    ensures id in Next(s, st).slots && Next(s, st).slots[id].live == map[]
    ensures id in Jobs(Next(s, st)) ==> Jobs(Next(s, st))[id] == Jobs(s)[id]
  {
  }

  /** A deleted job stays deleted: ids are never reused. */
  lemma StepKeepsDeleted(s: System, st: Step, id: JobId)
    requires Enabled(s, st) && id in s.slots && id !in Jobs(s) && s.slots[id].live == map[]
    ensures id in Next(s, st).slots && id !in Jobs(Next(s, st)) && Next(s, st).slots[id].live == map[]
  {
  }

  /**
   A finished job on which no call is still working never changes, whatever happens later, until it
   is deleted for good.
   */
  lemma {:induction false} FinishedIsAbsorbing(s: System, run: Run, id: JobId)
    requires Inv(s) && ValidRun(s, run) && id in Jobs(s)
    requires IsTerminal(Jobs(s)[id].status) && s.slots[id].live == map[]
    ensures var s' := Exec(s, run);
            && id in s'.slots && s'.slots[id].live == map[]
            && (id in Jobs(s') ==> Jobs(s')[id] == Jobs(s)[id])
  {
    if run.After? {
      FinishedIsAbsorbing(s, run.past, id);
      RunKeepsInv(s, run.past);
      if id in Jobs(Exec(s, run.past)) {
        StepKeepsFinished(Exec(s, run.past), run.step, id);
      } else {
        StepKeepsDeleted(Exec(s, run.past), run.step, id);
      }
    }
  }

  /** A call that is still working can change the row of its job, finished or not. */
  lemma WorkingCallChangesTheRow(s: System, id: JobId, t: nat) returns (st: Step)
    requires Inv(s) && id in Jobs(s) && HasLive(s, id, t)
    ensures Enabled(s, st) && id in Jobs(Next(s, st)) && Jobs(Next(s, st))[id] != Jobs(s)[id]
  {
    assert SlotInv(s.slots[id], s.now);
    if s.slots[id].live[t].Dispatching? {
      st := Complete(id, t, if Jobs(s)[id].result == None then Some("done") else None, s.now, s.now);
    } else {
      st := FailWrite(id, t, if Jobs(s)[id].error == Some("late") then "later" else "late", s.now);
    }
  }

  ghost predicate IsFinal(s: System, id: JobId)
    requires id in Jobs(s)
  {
    forall run :: ValidRun(s, run) && id in Jobs(Exec(s, run)) ==> Jobs(Exec(s, run))[id] == Jobs(s)[id]
  }

  /** A finished job is final, on every run that can follow, if and only if no call is still working on it. */
  lemma FinishedIsFinalIff(s: System, id: JobId)
    requires Inv(s) && id in Jobs(s) && IsTerminal(Jobs(s)[id].status)
    ensures IsFinal(s, id) <==> s.slots[id].live == map[]
  {
    if s.slots[id].live == map[] {
      forall run | ValidRun(s, run) && id in Jobs(Exec(s, run)) ensures Jobs(Exec(s, run))[id] == Jobs(s)[id] {
        FinishedIsAbsorbing(s, run, id);
      }
    } else {
      var t :| t in s.slots[id].live;
      var st := WorkingCallChangesTheRow(s, id, t);
      Append(s, Begin, st);
      assert ValidRun(s, After(Begin, st));
    }
  }

  /**
   A completion that takes effect but throws is undone by the call's own failure report: the
   completed job is delayed for another attempt if attempts remain, and failed otherwise.
   */
  lemma LostCompletionIsUndone(
      sl: Slot, ticket: nat, result: Option<string>, startedAt: int, error: string, purgeBase: int, now: int)
    requires sl.row.Some? && ticket in sl.live && sl.live[ticket].Dispatching?
    ensures var lost := CompleteLostSlot(sl, result, startedAt, purgeBase);
      && lost.row.value.status == Completed
      && FailReadSlot(lost, ticket, now).live[ticket].FailPending?
      && var after := FailWriteSlot(FailReadSlot(lost, ticket, now), ticket, error, purgeBase).row.value;
      && (after.status == Delayed <==> ticket < sl.live[ticket].maxAttempts && after.attempts < after.maxAttempts)
      && (after.status == Delayed || after.status == Failed)
  {
  }

  // ---------- back-off ----------

  /** The k-th claim of a job that was never released comes 15 s * k * (k-1) after the first, or later. */
  lemma BackoffIsKept(start: int, run: Run, id: JobId, queueName: string, worker: string, locked: set<JobId>)
    requires ValidRun(Empty(start), run)
    requires Enabled(Exec(Empty(start), run), Claim(id, queueName, worker, locked))
    requires Exec(Empty(start), run).slots[id].releases == 0
    ensures var s := Exec(Empty(start), run);
            var sl := Next(s, Claim(id, queueName, worker, locked)).slots[id];
            sl.firstClaimAt.Some? && s.now >= sl.firstClaimAt.value + 15000 * sl.claims * (sl.claims - 1)
  {
    RunKeepsInv(Empty(start), run);
    var s := Exec(Empty(start), run);
    assert SlotInv(s.slots[id], s.now);
    ClaimKeepsInv(s.slots[id], worker, s.now);
  }

  // ---------- the unique dedupe key ----------

  predicate SameKey(a: Job, b: Job) {
    a.dedupeKey.Some? && a.dedupeKey == b.dedupeKey && a.queueName == b.queueName
  }

  ghost predicate DedupeUnique(t: Table) {
    forall a, b :: a in t && b in t && SameKey(t[a], t[b]) ==> a == b
  }

  lemma StepKeepsKeys(s: System, st: Step, k: JobId)
    requires Enabled(s, st) && k in Jobs(Next(s, st)) && !(st.Enqueue? && st.id == k)
    ensures k in Jobs(s)
    ensures Jobs(Next(s, st))[k].queueName == Jobs(s)[k].queueName
    ensures Jobs(Next(s, st))[k].dedupeKey == Jobs(s)[k].dedupeKey
  {
  }

  lemma StepKeepsDedupe(s: System, st: Step)
    requires Enabled(s, st) && DedupeUnique(Jobs(s))
    ensures DedupeUnique(Jobs(Next(s, st)))
  {
    var t' := Jobs(Next(s, st));
    forall a, b | a in t' && b in t' && SameKey(t'[a], t'[b])
      ensures a == b
    {
      if !(st.Enqueue? && st.id == a) { StepKeepsKeys(s, st, a); }
      if !(st.Enqueue? && st.id == b) { StepKeepsKeys(s, st, b); }
    }
  }

  /** At most one row per queue and dedupe key, finished rows included. */
  lemma {:induction false} DedupeKeysStayUnique(s: System, run: Run)
    requires DedupeUnique(Jobs(s)) && ValidRun(s, run)
    ensures DedupeUnique(Jobs(Exec(s, run)))
  {
    if run.After? {
      DedupeKeysStayUnique(s, run.past);
      StepKeepsDedupe(Exec(s, run.past), run.step);
    }
  }

  // ---------- draining ----------

  /** Claims an unfinished job can still use. */
  ghost function Work(sl: Slot): nat {
    if sl.row.Some? && !IsTerminal(sl.row.value.status)
    then Max(0, Max(1, sl.row.value.maxAttempts) - sl.claims)
    else 0
  }

  /** Work left in the jobs with ids below `n`. */
  ghost function Potential(s: System, n: nat): nat {
    if n == 0 then 0
    else Potential(s, n - 1) + if n - 1 in s.slots then Work(s.slots[n - 1]) else 0
  }

  ghost predicate IdsBelow(s: System, n: nat) {
    forall k :: k in s.slots ==> k < n
  }

  ghost predicate NothingDisturbed(s: System) {
    forall k :: k in s.slots ==> s.slots[k].releases == 0 && s.slots[k].lost == 0
  }

  /** Adding `delta` at one id and nowhere increasing the others moves the sum by at most `delta`. */
  lemma {:induction false} PotentialMoves(s: System, s': System, id: JobId, delta: int, n: nat)
    requires forall k :: k in s'.slots && k != id ==> k in s.slots && Work(s'.slots[k]) <= Work(s.slots[k])
    requires id in s'.slots ==>
               Work(s'.slots[id]) <= (if id in s.slots then Work(s.slots[id]) else 0) + delta
    requires id in s'.slots && id < n
    ensures Potential(s', n) <= Potential(s, n) + delta
  {
    if id < n - 1 {
      PotentialMoves(s, s', id, delta, n - 1);
    } else {
      PotentialShrinks(s, s', n - 1);
    }
  }

  lemma {:induction false} PotentialShrinks(s: System, s': System, n: nat)
    requires forall k :: k in s'.slots && k < n ==> k in s.slots && Work(s'.slots[k]) <= Work(s.slots[k])
    ensures Potential(s', n) <= Potential(s, n)
  {
    if n > 0 {
      PotentialShrinks(s, s', n - 1);
    }
  }

  ghost function ClaimCount(st: Step): nat {
    if st.Claim? then 1 else 0
  }

  ghost function ClaimsIn(run: Run): nat {
    if run.Begin? then 0 else ClaimsIn(run.past) + ClaimCount(run.step)
  }

  /** The attempts an enqueued job brings in. */
  ghost function Budget(st: Step): nat {
    if st.Enqueue? then Max(1, EnqueuedRow(st.input, 0).maxAttempts) else 0
  }

  ghost function BudgetIn(run: Run): nat {
    if run.Begin? then 0 else BudgetIn(run.past) + Budget(run.step)
  }

  /** The two events outside a worker's control that bring a job back. */
  predicate Disturbs(st: Step) {
    st.Release? || st.CompleteLost?
  }

  ghost predicate IsUndisturbed(run: Run) {
    run.Begin? || (!Disturbs(run.step) && IsUndisturbed(run.past))
  }

  lemma WorkOfOtherSteps(s: System, st: Step, k: JobId)
    requires Inv(s) && Enabled(s, st) && NothingDisturbed(s) && !Disturbs(st) && k in s.slots
    requires !(st.Claim? && st.id == k)
    ensures Work(Next(s, st).slots[k]) <= Work(s.slots[k])
    ensures Next(s, st).slots[k].releases == 0 && Next(s, st).slots[k].lost == 0
  {
    assert SlotInv(s.slots[k], s.now);
  }

  lemma ClaimUsesWork(sl: Slot, worker: string, now: int)
    requires SlotInv(sl, now) && sl.releases == 0 && sl.row.Some? && IsClaimable(sl.row.value.status)
    ensures Work(ClaimSlot(sl, worker, now)) == Work(sl) - 1
  {
  }

  /** Each processed job uses up one unit of work; only an enqueue brings work in. */
  lemma StepUsesWork(s: System, st: Step, n: nat)
    requires Inv(s) && Enabled(s, st) && NothingDisturbed(s) && !Disturbs(st)
    requires IdsBelow(Next(s, st), n)
    ensures Potential(Next(s, st), n) + ClaimCount(st) <= Potential(s, n) + Budget(st)
    ensures NothingDisturbed(Next(s, st))
  {
    var s' := Next(s, st);
    forall k | k in s.slots && !(st.Claim? && st.id == k)
      ensures Work(s'.slots[k]) <= Work(s.slots[k]) && s'.slots[k].releases == 0 && s'.slots[k].lost == 0
    {
      WorkOfOtherSteps(s, st, k);
    }
    if st.Claim? {
      ClaimUsesWork(s.slots[st.id], st.worker, s.now);
      PotentialMoves(s, s', st.id, -1, n);
    } else if st.Enqueue? {
      PotentialMoves(s, s', st.id, Max(1, EnqueuedRow(st.input, s.now).maxAttempts), n);
    } else {
      PotentialShrinks(s, s', n);
    }
  }

  /**
   Without releases and lost completions the number of claims in a run, plus the work left at its end, is bounded
   by the work at its start and the attempts of the jobs enqueued on the way. So finitely
   many jobs are claimed finitely often, whatever the handlers do.
   */
  lemma {:induction false} ClaimsAreBounded(s: System, run: Run, n: nat)
    requires Inv(s) && NothingDisturbed(s) && ValidRun(s, run) && IsUndisturbed(run)
    requires IdsBelow(Exec(s, run), n)
    ensures Potential(Exec(s, run), n) + ClaimsIn(run) <= Potential(s, n) + BudgetIn(run)
    ensures NothingDisturbed(Exec(s, run))
  {
    if run.After? {
      var s1 := Exec(s, run.past);
      StepKeepsIds(s1, run.step, n);
      ClaimsAreBounded(s, run.past, n);
      RunKeepsInv(s, run.past);
      StepUsesWork(s1, run.step, n);
    }
  }

  lemma StepKeepsIds(s: System, st: Step, n: nat)
    requires Enabled(s, st) && IdsBelow(Next(s, st), n)
    ensures IdsBelow(s, n)
  {
    forall k | k in s.slots
      ensures k < n
    {
      assert k in Next(s, st).slots;
    }
  }

  ghost predicate Idle(s: System) {
    forall k :: k in s.slots ==> s.slots[k].live == map[] && s.slots[k].crashed == {}
  }

  ghost predicate AllFinished(s: System) {
    forall k :: k in Jobs(s) ==> IsTerminal(Jobs(s)[k].status)
  }

  /** No job is ever stuck: when no call is working and none crashed, an unfinished row can be claimed. */
  lemma UnfinishedIsClaimable(s: System, id: JobId)
    requires Inv(s) && Idle(s) && NothingDisturbed(s)
    requires id in Jobs(s) && !IsTerminal(Jobs(s)[id].status)
    ensures IsClaimable(Jobs(s)[id].status)
  {
    var sl := s.slots[id];
    assert SlotInv(sl, s.now);
    assert sl.claims in Tickets(sl) <==> 1 <= sl.claims;
  }

  lemma {:induction false} NextExists(t: Table, queueName: string, now: int, pool: set<JobId>, id: JobId)
    returns (best: JobId)
    requires pool <= t.Keys && id in pool && IsEligible(t[id], queueName, now)
    ensures best in pool && IsEligible(t[best], queueName, now)
    ensures forall k :: k in pool && IsEligible(t[k], queueName, now) ==> !OrderedBefore(t[k], t[best])
    decreases pool
  {
    if k :| k in pool && IsEligible(t[k], queueName, now) && OrderedBefore(t[k], t[id]) {
      best := NextExists(t, queueName, now, pool - {id}, k);
    } else {
      best := id;
    }
  }

  /** One poll of a worker: claim a job, run the handler, report its outcome. */
  ghost function Poll(run: Run, s: System, id: JobId, fails: bool): Run
    requires id in Jobs(s)
  {
    var ticket := s.slots[id].claims + 1;
    var claimed := After(run, Claim(id, Jobs(s)[id].queueName, "worker", {}));
    if fails then After(After(claimed, FailRead(id, ticket)), FailWrite(id, ticket, "error", s.now))
    else After(claimed, Complete(id, ticket, None, s.now, s.now))
  }

  ghost predicate IdleExcept(s: System, id: JobId) {
    forall k :: k in s.slots && k != id ==> s.slots[k].live == map[] && s.slots[k].crashed == {}
  }

  /** One call has just claimed the job and nobody else is working. */
  ghost predicate IsClaimed(s: System, id: JobId) {
    && IdleExcept(s, id) && id in s.slots && s.slots[id].crashed == {} && s.slots[id].row.Some?
    && s.slots[id].live.Keys == {s.slots[id].claims} && s.slots[id].live[s.slots[id].claims].Dispatching?
  }

  ghost predicate CanPoll(s: System, id: JobId) {
    Idle(s) && id in Jobs(s) && IsNext(Jobs(s), Jobs(s)[id].queueName, s.now, {}, id)
  }

  ghost function PollClaim(s: System, id: JobId): Step
    requires id in Jobs(s)
  {
    Claim(id, Jobs(s)[id].queueName, "worker", {})
  }

  lemma FailedPollSteps(s: System, id: JobId)
    requires IsClaimed(s, id)
    ensures var t := s.slots[id].claims;
            && Enabled(s, FailRead(id, t))
            && var s' := Next(s, FailRead(id, t));
            && Enabled(s', FailWrite(id, t, "error", s.now))
            && Idle(Next(s', FailWrite(id, t, "error", s.now)))
            && Next(s', FailWrite(id, t, "error", s.now)).slots.Keys == s.slots.Keys
  {
  }

  lemma Append(s: System, run: Run, st: Step)
    requires ValidRun(s, run) && Enabled(Exec(s, run), st)
    ensures ValidRun(s, After(run, st)) && Exec(s, After(run, st)) == Next(Exec(s, run), st)
  {
  }

  lemma FailedPollRuns(s0: System, claimed: Run, id: JobId)
    requires ValidRun(s0, claimed) && IsClaimed(Exec(s0, claimed), id)
    ensures var s := Exec(s0, claimed);
            var t := s.slots[id].claims;
            var run := After(After(claimed, FailRead(id, t)), FailWrite(id, t, "error", s.now));
            ValidRun(s0, run) && Idle(Exec(s0, run)) && Exec(s0, run).slots.Keys == s.slots.Keys
  {
    var s := Exec(s0, claimed);
    FailedPollSteps(s, id);
    Append(s0, claimed, FailRead(id, s.slots[id].claims));
    Append(s0, After(claimed, FailRead(id, s.slots[id].claims)), FailWrite(id, s.slots[id].claims, "error", s.now));
  }

  lemma GoodPollRuns(s0: System, claimed: Run, id: JobId)
    requires ValidRun(s0, claimed) && IsClaimed(Exec(s0, claimed), id)
    ensures var s := Exec(s0, claimed);
            var run := After(claimed, Complete(id, s.slots[id].claims, None, s.now, s.now));
            ValidRun(s0, run) && Idle(Exec(s0, run)) && Exec(s0, run).slots.Keys == s.slots.Keys
  {
  }

  lemma ClaimedRuns(s0: System, run: Run, id: JobId)
    requires ValidRun(s0, run) && CanPoll(Exec(s0, run), id)
    ensures var s := Exec(s0, run);
            var claimed := After(run, PollClaim(s, id));
            && ValidRun(s0, claimed)
            && var s1 := Exec(s0, claimed);
            && IsClaimed(s1, id) && s1.slots[id].claims == s.slots[id].claims + 1
            && s1.slots.Keys == s.slots.Keys && s1.now == s.now
  {
  }

  lemma PollRuns(s0: System, run: Run, id: JobId, fails: bool)
    requires ValidRun(s0, run) && CanPoll(Exec(s0, run), id)
    ensures var s := Exec(s0, run);
            && ValidRun(s0, Poll(run, s, id, fails)) && Idle(Exec(s0, Poll(run, s, id, fails)))
            && Exec(s0, Poll(run, s, id, fails)).slots.Keys == s.slots.Keys
  {
    var claimed := After(run, PollClaim(Exec(s0, run), id));
    ClaimedRuns(s0, run, id);
    if fails {
      FailedPollRuns(s0, claimed, id);
    } else {
      GoodPollRuns(s0, claimed, id);
    }
  }

  /** Waiting until an unfinished job is due makes some job the next to poll. */
  lemma WaitingEnablesAPoll(s: System) returns (wait: Step, best: JobId)
    requires Inv(s) && NothingDisturbed(s) && Idle(s) && !AllFinished(s)
    ensures wait.Wait? && Enabled(s, wait) && CanPoll(Next(s, wait), best)
  {
    var id :| id in Jobs(s) && !IsTerminal(Jobs(s)[id].status);
    UnfinishedIsClaimable(s, id);
    wait := Wait(Max(s.now, Jobs(s)[id].runAt));
    var s' := Next(s, wait);
    assert Jobs(s') == Jobs(s);
    best := NextExists(Jobs(s'), Jobs(s)[id].queueName, s'.now, Jobs(s').Keys, id);
  }

  /** After waiting for however long, no job can be claimed. */
  ghost predicate NothingToClaim(s: System) {
    forall wait: Step, claim: Step :: wait.Wait? && claim.Claim? && Enabled(s, wait) ==> !Enabled(Next(s, wait), claim)
  }

  lemma FinishedLeavesNothingToClaim(s: System)
    requires AllFinished(s)
    ensures NothingToClaim(s)
  {
    forall wait: Step, claim: Step | wait.Wait? && claim.Claim? && Enabled(s, wait)
      ensures !Enabled(Next(s, wait), claim)
    {
      assert Jobs(Next(s, wait)) == Jobs(s);
    }
  }

  /** A quiet state leaves nothing to claim, now or later, if and only if every job is finished. */
  lemma QuietIsFinishedIff(s: System)
    requires Inv(s) && NothingDisturbed(s) && Idle(s)
    ensures NothingToClaim(s) <==> AllFinished(s)
  {
    if AllFinished(s) {
      FinishedLeavesNothingToClaim(s);
    } else {
      var wait, best := WaitingEnablesAPoll(s);
      assert Enabled(Next(s, wait), PollClaim(Next(s, wait), best));
    }
  }

  /**
   Every undisturbed run that ends quiet with nothing left to claim has finished every job, within
   the attempts there were at its start and those enqueued on the way.
   */
  lemma MaximalRunsFinishEveryJob(s: System, run: Run, n: nat)
    requires Inv(s) && NothingDisturbed(s) && ValidRun(s, run) && IsUndisturbed(run)
    requires Idle(Exec(s, run)) && NothingToClaim(Exec(s, run)) && IdsBelow(Exec(s, run), n)
    ensures AllFinished(Exec(s, run)) && ClaimsIn(run) <= Potential(s, n) + BudgetIn(run)
  {
    ClaimsAreBounded(s, run, n);
    RunKeepsInv(s, run);
    QuietIsFinishedIff(Exec(s, run));
  }

  /**
   What the stale-lock release is for: once its lock is old enough, a job whose worker is gone can be
   claimed again.
   */
  lemma ReleaseRecoversAJob(s: System, id: JobId, age: int)
    requires Inv(s) && id in Jobs(s) && Jobs(s)[id].status == Active
    requires s.now - age >= Jobs(s)[id].lockedAt.value
    ensures var s' := Next(s, Release(age));
      && Jobs(s')[id].status == Waiting && Jobs(s')[id].attempts == Jobs(s)[id].attempts
      && exists claim: Step :: claim.Claim? && claim.id == id && Enabled(s', claim)
  {
    assert SlotInv(s.slots[id], s.now);
    var claim := FreeRowCanBeClaimed(Next(s, Release(age)), id);
  }

  /** One poll from a quiet state with an unfinished job leads to a quiet state with less work. */
  lemma OneMorePoll(s: System, sofar: Run, n: nat, fails: (JobId, nat) -> bool) returns (polled: Run)
    requires Inv(s) && ValidRun(s, sofar) && IsUndisturbed(sofar) && NothingDisturbed(s)
    requires Idle(Exec(s, sofar)) && IdsBelow(Exec(s, sofar), n) && !AllFinished(Exec(s, sofar))
    ensures ValidRun(s, polled) && IsUndisturbed(polled)
    ensures Idle(Exec(s, polled)) && IdsBelow(Exec(s, polled), n)
    ensures Potential(Exec(s, polled), n) < Potential(Exec(s, sofar), n)
    ensures ClaimsIn(polled) + Potential(Exec(s, polled), n) <= ClaimsIn(sofar) + Potential(Exec(s, sofar), n)
  {
    var s1 := Exec(s, sofar);
    ClaimsAreBounded(s, sofar, n);
    RunKeepsInv(s, sofar);
    var wait, best := WaitingEnablesAPoll(s1);
    Append(s, sofar, wait);
    var waited := After(sofar, wait);
    StepUsesWork(s1, wait, n);
    var fail := fails(best, Next(s1, wait).slots[best].claims + 1);
    polled := Poll(waited, Next(s1, wait), best, fail);
    PollRuns(s, waited, best, fail);
    PollCounts(waited, Next(s1, wait), best, fail);
    PollUsesWork(s, waited, best, fail, n);
  }

  /**
   From every quiet state all jobs can be driven to an end state by plain polling, whatever
   the handlers do: `fails` decides the outcome of each attempt.
   */
  lemma {:induction false} EveryJobReachesAnEnd(s: System, sofar: Run, n: nat, fails: (JobId, nat) -> bool)
    returns (run: Run)
    requires Inv(s) && ValidRun(s, sofar) && IsUndisturbed(sofar) && NothingDisturbed(s)
    requires Idle(Exec(s, sofar)) && IdsBelow(Exec(s, sofar), n)
    ensures ValidRun(s, run) && IsUndisturbed(run) && AllFinished(Exec(s, run))
    ensures ClaimsIn(run) <= ClaimsIn(sofar) + Potential(Exec(s, sofar), n)
    decreases Potential(Exec(s, sofar), n)
  {
    if AllFinished(Exec(s, sofar)) {
      return sofar;
    }
    var polled := OneMorePoll(s, sofar, n, fails);
    run := EveryJobReachesAnEnd(s, polled, n, fails);
  }

  lemma PastIsValid(s: System, run: Run)
    requires ValidRun(s, run) && run.After?
    ensures ValidRun(s, run.past) && Enabled(Exec(s, run.past), run.step)
    ensures Exec(s, run) == Next(Exec(s, run.past), run.step)
  {
  }

  /** The last step of a run and the work it uses. */
  lemma LastStepUsesWork(s: System, run: Run, n: nat)
    requires Inv(s) && ValidRun(s, run) && run.After? && !Disturbs(run.step)
    requires NothingDisturbed(Exec(s, run.past)) && IdsBelow(Exec(s, run), n)
    ensures Potential(Exec(s, run), n) + ClaimCount(run.step) <= Potential(Exec(s, run.past), n) + Budget(run.step)
    ensures NothingDisturbed(Exec(s, run)) && IdsBelow(Exec(s, run.past), n)
  {
    PastIsValid(s, run);
    RunKeepsInv(s, run.past);
    StepKeepsIds(Exec(s, run.past), run.step, n);
    StepUsesWork(Exec(s, run.past), run.step, n);
  }

  lemma ClaimAndAnswerUseWork(s: System, run: Run, n: nat)
    requires Inv(s) && run.After? && run.past.After? && ValidRun(s, run) && ValidRun(s, run.past)
    requires run.past.step.Claim? && (run.step.Complete? || run.step.FailRead?)
    requires NothingDisturbed(Exec(s, run.past.past)) && IdsBelow(Exec(s, run), n)
    ensures Potential(Exec(s, run), n) + 1 <= Potential(Exec(s, run.past.past), n)
    ensures NothingDisturbed(Exec(s, run))
  {
    PastIsValid(s, run);
    StepKeepsIds(Exec(s, run.past), run.step, n);
    LastStepUsesWork(s, run.past, n);
    LastStepUsesWork(s, run, n);
  }

  lemma PollUsesWork(s: System, run: Run, id: JobId, fails: bool, n: nat)
    requires Inv(s) && ValidRun(s, run) && NothingDisturbed(Exec(s, run))
    requires id in Jobs(Exec(s, run)) && ValidRun(s, Poll(run, Exec(s, run), id, fails))
    requires IdsBelow(Exec(s, Poll(run, Exec(s, run), id, fails)), n)
    ensures Potential(Exec(s, Poll(run, Exec(s, run), id, fails)), n) + 1 <= Potential(Exec(s, run), n)
  {
    var polled := Poll(run, Exec(s, run), id, fails);
    PastIsValid(s, polled);
    if fails {
      PastIsValid(s, polled.past);
      StepKeepsIds(Exec(s, polled.past), polled.step, n);
      ClaimAndAnswerUseWork(s, polled.past, n);
      LastStepUsesWork(s, polled, n);
    } else {
      ClaimAndAnswerUseWork(s, polled, n);
    }
  }

  lemma PollCounts(run: Run, s: System, id: JobId, fails: bool)
    requires id in Jobs(s)
    ensures ClaimsIn(Poll(run, s, id, fails)) == ClaimsIn(run) + 1
    ensures IsUndisturbed(run) ==> IsUndisturbed(Poll(run, s, id, fails))
  {
    var claimed := After(run, PollClaim(s, id));
    assert ClaimsIn(claimed) == ClaimsIn(run) + 1;
    assert IsUndisturbed(run) ==> IsUndisturbed(claimed);
    var read := After(claimed, FailRead(id, s.slots[id].claims + 1));
    assert ClaimsIn(read) == ClaimsIn(claimed) && (IsUndisturbed(claimed) ==> IsUndisturbed(read));
  }

  // ---------- where exclusion ends ----------

  const TWO_ATTEMPTS := EnqueueInput("q", "job", "null", None, None, Some(2), None, None, None)

  /** Two calls work on one job: the first has read the row for its failure report when its lock is released. */
  ghost function BothWorking(): Run {
    After(After(After(FirstFailure(), Wait(600000)), Release(600000)), Claim(0, "q", "b", {}))
  }

  ghost function FirstFailure(): Run {
    After(After(After(Begin, Enqueue(0, TWO_ATTEMPTS)), Claim(0, "q", "a", {})), FailRead(0, 1))
  }

  lemma FirstFailureRead()
    ensures ValidRun(Empty(0), FirstFailure())
    ensures Exec(Empty(0), FirstFailure()) == System(map[0 :=
                Slot(Some(ClaimRow(EnqueuedRow(TWO_ATTEMPTS, 0), "a", 0)), map[1 := FailPending(Some(30000), 0, 1)],
                     1, {}, {}, {}, 0, 0, 0, 0, Some(0))], 0)
  {
    var r1 := After(Begin, Enqueue(0, TWO_ATTEMPTS));
    var s1 := Exec(Empty(0), r1);
    assert s1.slots == map[0 := NewSlot(EnqueuedRow(TWO_ATTEMPTS, 0))];
    assert Jobs(s1).Keys == {0};
    var s2 := Exec(Empty(0), After(r1, Claim(0, "q", "a", {})));
    assert s2.slots == map[0 := ClaimSlot(s1.slots[0], "a", 0)];
    assert s2.slots[0].live == map[1 := Dispatching(2)];
    var s3 := Exec(Empty(0), FirstFailure());
    assert s3.slots == map[0 := FailReadSlot(s2.slots[0], 1, 0)];
    assert s3.slots[0].live == map[1 := FailPending(Some(30000), 0, 1)];
  }

  ghost function BothSlot(): Slot {
    Slot(Some(ClaimRow(ReleaseRow(ClaimRow(EnqueuedRow(TWO_ATTEMPTS, 0), "a", 0), 0), "b", 600000)),
         map[1 := FailPending(Some(30000), 0, 1), 2 := Dispatching(2)], 2, {}, {}, {}, 1, 1, 0, 0, Some(0))
  }

  ghost function LockReleased(): Run {
    After(After(FirstFailure(), Wait(600000)), Release(600000))
  }

  ghost function ReleasedSlot(): Slot {
    Slot(Some(ReleaseRow(ClaimRow(EnqueuedRow(TWO_ATTEMPTS, 0), "a", 0), 0)), map[1 := FailPending(Some(30000), 0, 1)],
         1, {}, {}, {}, 1, 1, 0, 0, Some(0))
  }

  lemma LockReleasedRuns()
    ensures ValidRun(Empty(0), LockReleased())
    ensures Exec(Empty(0), LockReleased()) == System(map[0 := ReleasedSlot()], 600000)
  {
    FirstFailureRead();
    var s3 := Exec(Empty(0), FirstFailure());
    assert Exec(Empty(0), LockReleased()).slots == map[0 := ReleaseSlot(s3.slots[0], 0)];
  }

  lemma BothWorkingRuns()
    ensures ValidRun(Empty(0), BothWorking())
    ensures Exec(Empty(0), BothWorking()) == System(map[0 := BothSlot()], 600000)
  {
    LockReleasedRuns();
    var claim := Claim(0, "q", "b", {});
    assert BothWorking() == After(LockReleased(), claim);
    assert Jobs(System(map[0 := ReleasedSlot()], 600000)).Keys == {0};
    Append(Empty(0), LockReleased(), claim);
    assert ClaimSlot(ReleasedSlot(), "b", 600000) == BothSlot();
  }

  ghost function CompletedBySecond(): Run {
    After(BothWorking(), Complete(0, 2, None, 600000, 600000))
  }

  ghost function ReopenedByFirst(): Run {
    After(CompletedBySecond(), FailWrite(0, 1, "late", 600000))
  }

  lemma CompletedBySecondRuns()
    ensures ValidRun(Empty(0), CompletedBySecond())
    ensures Exec(Empty(0), CompletedBySecond())
         == System(map[0 := CompleteSlot(BothSlot(), 2, None, 600000, 600000)], 600000)
  {
    BothWorkingRuns();
  }

  lemma ReopenedByFirstRuns()
    ensures ValidRun(Empty(0), ReopenedByFirst())
    ensures Exec(Empty(0), ReopenedByFirst()) ==
            System(map[0 := ReopenedSlot()], 600000)
  {
    CompletedBySecondRuns();
  }

  /**
   A release under a working call breaks all of it: two calls work on one job, a completed
   job is reopened by the late failure report, and it is then delayed although no attempts
   are left.
   */
  lemma HeldReleaseBreaksExclusion()
    ensures ValidRun(Empty(0), ReopenedByFirst())
    ensures HasLive(Exec(Empty(0), BothWorking()), 0, 1) && HasLive(Exec(Empty(0), BothWorking()), 0, 2)
    ensures var j := Jobs(Exec(Empty(0), CompletedBySecond()));
            0 in j && j[0].status == Completed
    ensures var j := Jobs(Exec(Empty(0), ReopenedByFirst()));
            0 in j && j[0].status == Delayed && j[0].attempts == j[0].maxAttempts
  {
    BothWorkingRuns();
    CompletedBySecondRuns();
    ReopenedByFirstRuns();
  }

  ghost function ReopenedSlot(): Slot {
    FailWriteSlot(CompleteSlot(BothSlot(), 2, None, 600000, 600000), 1, "late", 600000)
  }

  lemma ReopenedSlotFacts()
    ensures ReopenedSlot().releases == 1 && ReopenedSlot().row.Some?
    ensures var j := ReopenedSlot().row.value;
            j.status == Delayed && j.attempts == 2 && j.maxAttempts == 2 && j.runAt == 30000 && j.queueName == "q"
  {
  }

  lemma OnlySlotCanBeClaimed(sl: Slot, now: int)
    requires sl.row.Some? && IsEligible(sl.row.value, "q", now)
    ensures Enabled(System(map[0 := sl], now), Claim(0, "q", "c", {}))
  {
  }

  /** The attempts bound is met: that job is claimed a third time, with two attempts allowed and one release. */
  lemma AttemptsBoundIsTight()
    ensures var again := After(ReopenedByFirst(), Claim(0, "q", "c", {}));
            && ValidRun(Empty(0), again)
            && var s := Exec(Empty(0), again);
            0 in Jobs(s) && Jobs(s)[0].attempts == Max(1, Jobs(s)[0].maxAttempts) + s.slots[0].releases
  {
    ReopenedByFirstRuns();
    ReopenedSlotFacts();
    OnlySlotCanBeClaimed(ReopenedSlot(), 600000);
    StepIsRepositoryCall(Exec(Empty(0), ReopenedByFirst()), Claim(0, "q", "c", {}));
  }
}
