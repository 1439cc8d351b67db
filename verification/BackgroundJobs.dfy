/**
 The SQL-backed job queue, packages/db/src/background-jobs-repos.ts: the row, what each
 repository function does to one row and to the table, and the repository itself. Times are
 milliseconds. The two SQL dialects are modelled once; where their text differs (the run-at
 time of a failed row) `DialectsAgreeOnRunAt` shows the difference has no effect.
 */
module BackgroundJobs {
  import opened Wrappers

  datatype Status = Waiting | Active | Delayed | Completed | Failed | Paused

  type JobId = nat

  datatype Job = Job(
    queueName: string, jobName: string, payload: string, dedupeKey: Option<string>,
    status: Status, priority: int, attempts: nat, maxAttempts: int, runAt: int,
    lockedAt: Option<int>, lockedBy: Option<string>,
    result: Option<string>, error: Option<string>,
    processedAt: Option<int>, finishedAt: Option<int>, purgeAfter: Option<int>,
    completedRetentionSec: Option<int>, failedRetentionSec: Option<int>, createdAt: int)

  type Table = map<JobId, Job>

  datatype EnqueueInput = EnqueueInput(
    queueName: string, jobName: string, payload: string, dedupeKey: Option<string>,
    priority: Option<int>, maxAttempts: Option<int>, runAt: Option<int>,
    completedRetentionSec: Option<int>, failedRetentionSec: Option<int>)

  const DEFAULT_COMPLETED_RETENTION_SEC := 3600
  const DEFAULT_FAILED_RETENTION_SEC := 86400

  predicate IsTerminal(s: Status) {
    s == Completed || s == Failed
  }

  predicate IsClaimable(s: Status) {
    s == Waiting || s == Delayed
  }

  // ---------- one row ----------

  function EnqueuedRow(input: EnqueueInput, now: int): Job {
    Job(input.queueName, input.jobName, input.payload, input.dedupeKey, Waiting,
        if input.priority.Some? then input.priority.value else 0, 0,
        if input.maxAttempts.Some? then input.maxAttempts.value else 3,
        if input.runAt.Some? then input.runAt.value else now,
        None, None, None, None, None, None, None,
        input.completedRetentionSec, input.failedRetentionSec, now)
  }

  function ClaimRow(j: Job, worker: string, now: int): Job {
    j.(status := Active, lockedAt := Some(now), lockedBy := Some(worker),
       processedAt := Some(now), attempts := j.attempts + 1)
  }

  function CompletedRetentionMs(j: Job): int {
    1000 * (if j.completedRetentionSec.Some? then j.completedRetentionSec.value
            else DEFAULT_COMPLETED_RETENTION_SEC)
  }

  function FailedRetentionMs(j: Job): int {
    1000 * (if j.failedRetentionSec.Some? then j.failedRetentionSec.value
            else DEFAULT_FAILED_RETENTION_SEC)
  }

  /** `startedAt` is read on entry, `purgeBase` when the purge time is computed. */
  function CompleteRow(j: Job, result: Option<string>, purgeAfter: Option<int>, startedAt: int, purgeBase: int): Job {
    j.(status := Completed, result := result, error := None, finishedAt := Some(startedAt),
       lockedAt := None, lockedBy := None,
       purgeAfter := Some(if purgeAfter.Some? then purgeAfter.value else purgeBase + CompletedRetentionMs(j)))
  }

  /** The retry decision, taken from the attempts counter read before the update is written. */
  predicate WillRetry(attempts: nat, maxAttempts: int, retryAt: Option<int>) {
    attempts < maxAttempts && retryAt.Some?
  }

  function FailRow(j: Job, error: string, willRetry: bool, retryAt: Option<int>, purgeAfter: Option<int>,
                   startedAt: int, purgeBase: int): Job
    requires willRetry ==> retryAt.Some?
  {
    j.(status := if willRetry then Delayed else Failed, error := Some(error),
       runAt := if willRetry then retryAt.value else startedAt,
       finishedAt := if willRetry then None else Some(startedAt),
       lockedAt := None, lockedBy := None,
       purgeAfter := if willRetry then None
       else Some(if purgeAfter.Some? then purgeAfter.value else purgeBase + FailedRetentionMs(j)))
  }

  /** The MySQL branch writes a different expression for `runAt`. */
  function MysqlRunAt(attempts: nat, maxAttempts: int, retryAt: Option<int>, startedAt: int): int {
    if WillRetry(attempts, maxAttempts, retryAt) then retryAt.value
    else if attempts >= maxAttempts then startedAt
    else if retryAt.Some? then retryAt.value else startedAt
  }

  lemma DialectsAgreeOnRunAt(j: Job, error: string, retryAt: Option<int>, purgeAfter: Option<int>,
                             startedAt: int, purgeBase: int)
    ensures MysqlRunAt(j.attempts, j.maxAttempts, retryAt, startedAt)
         == FailRow(j, error, WillRetry(j.attempts, j.maxAttempts, retryAt), retryAt, purgeAfter, startedAt,
                    purgeBase).runAt
  {
  }

  predicate IsStale(j: Job, cutoff: int) {
    j.status == Active && j.lockedAt.Some? && j.lockedAt.value <= cutoff
  }

  function ReleaseRow(j: Job, cutoff: int): Job {
    if IsStale(j, cutoff) then j.(status := Waiting, lockedAt := None, lockedBy := None) else j
  }

  predicate IsDue(j: Job, now: int) {
    j.purgeAfter.Some? && j.purgeAfter.value <= now
  }

  predicate IsFinishedDuplicate(j: Job, queueName: string, dedupeKey: string) {
    j.queueName == queueName && j.dedupeKey == Some(dedupeKey) && IsTerminal(j.status)
  }

  // ---------- the table ----------

  predicate IsEligible(j: Job, queueName: string, now: int) {
    j.queueName == queueName && IsClaimable(j.status) && j.runAt <= now
  }

  /** ORDER BY priority, run_at, created_at. */
  predicate OrderedBefore(a: Job, b: Job) {
    || a.priority < b.priority
    || (a.priority == b.priority && a.runAt < b.runAt)
    || (a.priority == b.priority && a.runAt == b.runAt && a.createdAt < b.createdAt)
  }

  /** A row the claiming SELECT may pick while the rows in `locked` are skipped. */
  ghost predicate IsNext(t: Table, queueName: string, now: int, locked: set<JobId>, id: JobId) {
    && id in t && id !in locked && IsEligible(t[id], queueName, now)
    && forall k :: k in t && k !in locked && IsEligible(t[k], queueName, now) ==> !OrderedBefore(t[k], t[id])
  }

  /** The unique index on (queue_name, dedupe_key); rows without a key never clash. */
  predicate DedupeTaken(t: Table, queueName: string, key: Option<string>) {
    key.Some? && exists k :: k in t && t[k].queueName == queueName && t[k].dedupeKey == key
  }

  /** A job of the key that is still to be done. */
  predicate HasUnfinished(t: Table, queueName: string, dedupeKey: string) {
    exists k :: k in t && t[k].queueName == queueName && t[k].dedupeKey == Some(dedupeKey) && !IsTerminal(t[k].status)
  }

  function Released(t: Table, cutoff: int): Table {
    map k | k in t :: ReleaseRow(t[k], cutoff)
  }

  ghost function StaleRows(t: Table, cutoff: int): set<JobId> {
    set k | k in t && IsStale(t[k], cutoff)
  }

  function WithoutFinished(t: Table, queueName: string, dedupeKey: string): Table {
    map k | k in t && !IsFinishedDuplicate(t[k], queueName, dedupeKey) :: t[k]
  }

  ghost function DueRows(t: Table, now: int): set<JobId> {
    set k | k in t && IsDue(t[k], now)
  }

  function PurgeBatch(limit: int): int {
    Max(1, Min(limit, 5000))
  }

  /** One maintenance purge: the batch-limited DELETE picks any due rows. */
  ghost predicate IsPurge(t: Table, now: int, limit: int, doomed: set<JobId>) {
    doomed <= DueRows(t, now) && |doomed| == Min(PurgeBatch(limit), |DueRows(t, now)|)
  }

  // ---------- the repository ----------

  class JobRepository {
    var jobs: Table

    constructor ()
      ensures jobs == map[]
    {
      jobs := map[];
    }

    /** `id` is the random UUID; a clash with the unique index makes the INSERT throw. */
    method Enqueue(id: JobId, input: EnqueueInput, now: int) returns (r: Result<JobId, string>)
      requires id !in jobs
      modifies this
      ensures DedupeTaken(old(jobs), input.queueName, input.dedupeKey) ==> r.Err? && jobs == old(jobs)
      ensures !DedupeTaken(old(jobs), input.queueName, input.dedupeKey) ==>
                r == Ok(id) && jobs == old(jobs)[id := EnqueuedRow(input, now)]
      ensures r.Ok? <==> input.dedupeKey.None? || forall k :: k in old(jobs) ==>
                old(jobs)[k].queueName != input.queueName || old(jobs)[k].dedupeKey != input.dedupeKey
      ensures r.Ok? ==>
                && id in jobs && jobs == old(jobs)[id := jobs[id]]
                && jobs[id].queueName == input.queueName && jobs[id].jobName == input.jobName
                && jobs[id].payload == input.payload && jobs[id].dedupeKey == input.dedupeKey
                && jobs[id].status == Waiting && jobs[id].attempts == 0 && jobs[id].createdAt == now
                && jobs[id].priority == (match input.priority case Some(n) => n case None => 0)
                && jobs[id].maxAttempts == (match input.maxAttempts case Some(n) => n case None => 3)
                && jobs[id].runAt == (match input.runAt case Some(t) => t case None => now)
                && jobs[id].lockedAt.None? && jobs[id].lockedBy.None? && jobs[id].processedAt.None?
                && jobs[id].result.None? && jobs[id].error.None?
                && jobs[id].finishedAt.None? && jobs[id].purgeAfter.None?
                && jobs[id].completedRetentionSec == input.completedRetentionSec
                && jobs[id].failedRetentionSec == input.failedRetentionSec
    {
      if DedupeTaken(jobs, input.queueName, input.dedupeKey) {
        return Err("duplicate key");
      }
      jobs := jobs[id := EnqueuedRow(input, now)];
      return Ok(id);
    }

    /** Finds the row the SELECT ... ORDER BY ... LIMIT 1 picks. */
    method SelectNext(queueName: string, now: int, locked: set<JobId>) returns (hit: Option<JobId>)
      ensures hit.None? ==> forall k :: k in jobs && k !in locked ==> !IsEligible(jobs[k], queueName, now)
      ensures hit.Some? ==> IsNext(jobs, queueName, now, locked, hit.value)
      ensures hit.None? ==> forall k :: k in jobs && k !in locked ==>
                !(jobs[k].queueName == queueName && jobs[k].status in {Waiting, Delayed} && jobs[k].runAt <= now)
      ensures var rows := set k | k in jobs && k !in locked && jobs[k].queueName == queueName
                                  && jobs[k].status in {Waiting, Delayed} && jobs[k].runAt <= now;
              && (hit.Some? ==> hit.value in rows)
              && (hit.Some? ==> forall k :: k in rows ==>
                    var (first, other) := (jobs[hit.value], jobs[k]);
                    && first.priority <= other.priority
                    && (first.priority == other.priority ==> first.runAt <= other.runAt)
                    && (first.priority == other.priority && first.runAt == other.runAt ==>
                          first.createdAt <= other.createdAt))
    {
      hit := None;
      var rest := jobs.Keys - locked;
      while rest != {}
        invariant rest <= jobs.Keys - locked
        invariant hit.Some? ==> hit.value in jobs && hit.value !in locked && IsEligible(jobs[hit.value], queueName, now)
        invariant forall k :: k in jobs && k !in locked && k !in rest && IsEligible(jobs[k], queueName, now) ==>
                    hit.Some? && !OrderedBefore(jobs[k], jobs[hit.value])
        decreases rest
      {
        var k :| k in rest;
        if IsEligible(jobs[k], queueName, now) && (hit.None? || OrderedBefore(jobs[k], jobs[hit.value])) {
          hit := Some(k);
        }
        rest := rest - {k};
      }
    }

    method ClaimNext(queueName: string, worker: string, now: int, locked: set<JobId>)
      returns (claimed: Option<(JobId, Job)>)
      modifies this
      ensures claimed.None? ==> jobs == old(jobs)
      ensures claimed.None? <==>
        forall k :: k in old(jobs) && k !in locked ==> !IsEligible(old(jobs)[k], queueName, now)
      ensures claimed.Some? ==>
                var (id, row) := claimed.value;
                && IsNext(old(jobs), queueName, now, locked, id)
                && row == ClaimRow(old(jobs)[id], worker, now)
                && jobs == old(jobs)[id := row]
      ensures claimed.None? ==> forall k :: k in old(jobs) && k !in locked ==>
                !(old(jobs)[k].queueName == queueName && old(jobs)[k].status in {Waiting, Delayed}
                  && old(jobs)[k].runAt <= now)
      ensures var rows := set k | k in old(jobs) && k !in locked && old(jobs)[k].queueName == queueName
                                  && old(jobs)[k].status in {Waiting, Delayed} && old(jobs)[k].runAt <= now;
              && (claimed.Some? ==> claimed.value.0 in rows)
              && (claimed.Some? ==> forall k :: k in rows ==>
                    var (first, other) := (old(jobs)[claimed.value.0], old(jobs)[k]);
                    && first.priority <= other.priority
                    && (first.priority == other.priority ==> first.runAt <= other.runAt)
                    && (first.priority == other.priority && first.runAt == other.runAt ==>
                          first.createdAt <= other.createdAt))
      ensures claimed.Some? ==>
                var j := old(jobs)[claimed.value.0];
                claimed.value.1 == j.(status := Active, lockedAt := Some(now), lockedBy := Some(worker),
                                      processedAt := Some(now), attempts := j.attempts + 1)
    {
      var hit := SelectNext(queueName, now, locked);
      if hit.None? {
        return None;
      }
      var row := ClaimRow(jobs[hit.value], worker, now);
      jobs := jobs[hit.value := row];
      return Some((hit.value, row));
    }

    /** The lock holder is not looked at: afterwards the job is finished for whoever claimed it. */
    method Complete(id: JobId, result: Option<string>, purgeAfter: Option<int>, startedAt: int, purgeBase: int)
      modifies this
      ensures jobs == if id in old(jobs)
                      then old(jobs)[id := CompleteRow(old(jobs)[id], result, purgeAfter, startedAt, purgeBase)]
                      else old(jobs)
      ensures id in jobs ==> jobs[id].finishedAt == Some(startedAt) && jobs[id].lockedBy.None?
      ensures id in jobs ==> forall q, now :: !IsEligible(jobs[id], q, now)
      ensures id in old(jobs) ==>
                var j := old(jobs)[id];
                var seconds := match j.completedRetentionSec case Some(n) => n case None => 3600;
                var purge := match purgeAfter case Some(t) => t case None => purgeBase + 1000 * seconds;
                jobs == old(jobs)[id := j.(status := Completed, result := result, error := None,
                                           finishedAt := Some(startedAt), lockedAt := None, lockedBy := None,
                                           purgeAfter := Some(purge))]
    {
      if id in jobs {
        jobs := jobs[id := CompleteRow(jobs[id], result, purgeAfter, startedAt, purgeBase)];
      }
    }

    /** The SELECT that opens a failure report. */
    method ReadForFail(id: JobId, retryAt: Option<int>) returns (seen: Option<(nat, bool)>)
      ensures seen == if id in jobs
                      then Some((jobs[id].attempts, WillRetry(jobs[id].attempts, jobs[id].maxAttempts, retryAt)))
                      else None
    {
      if id !in jobs {
        return None;
      }
      return Some((jobs[id].attempts, WillRetry(jobs[id].attempts, jobs[id].maxAttempts, retryAt)));
    }

    /** The UPDATE that closes a failure report, with the decision taken earlier. */
    method WriteFail(id: JobId, error: string, willRetry: bool, retryAt: Option<int>, purgeAfter: Option<int>,
                     startedAt: int, purgeBase: int)
      requires willRetry ==> retryAt.Some?
      modifies this
      ensures id !in old(jobs) ==> jobs == old(jobs)
      ensures id in old(jobs) ==>
        var row := FailRow(old(jobs)[id], error, willRetry, retryAt, purgeAfter, startedAt, purgeBase);
        jobs == old(jobs)[id := row]
    {
      if id in jobs {
        jobs := jobs[id := FailRow(jobs[id], error, willRetry, retryAt, purgeAfter, startedAt, purgeBase)];
      }
    }

    method Fail(id: JobId, error: string, retryAt: Option<int>, purgeAfter: Option<int>, startedAt: int, purgeBase: int)
      modifies this
      ensures id !in old(jobs) ==> jobs == old(jobs)
      ensures id in old(jobs) ==>
                var j := old(jobs)[id];
                jobs == old(jobs)[id := FailRow(j, error, WillRetry(j.attempts, j.maxAttempts, retryAt), retryAt,
                                                purgeAfter, startedAt, purgeBase)]
      ensures id in old(jobs) && old(jobs)[id].attempts < old(jobs)[id].maxAttempts && retryAt.Some? ==>
                jobs == old(jobs)[id := old(jobs)[id].(status := Delayed, error := Some(error), runAt := retryAt.value,
                                                       finishedAt := None, lockedAt := None, lockedBy := None,
                                                       purgeAfter := None)]
      ensures id in old(jobs) && (old(jobs)[id].attempts >= old(jobs)[id].maxAttempts || retryAt.None?) ==>
                var j := old(jobs)[id];
                var seconds := match j.failedRetentionSec case Some(n) => n case None => 86400;
                var purge := match purgeAfter case Some(t) => t case None => purgeBase + 1000 * seconds;
                jobs == old(jobs)[id := j.(status := Failed, error := Some(error), runAt := startedAt,
                                           finishedAt := Some(startedAt), lockedAt := None, lockedBy := None,
                                           purgeAfter := Some(purge))]
    {
      var seen := ReadForFail(id, retryAt);
      if seen.Some? {
        WriteFail(id, error, seen.value.1, retryAt, purgeAfter, startedAt, purgeBase);
      }
    }

    /** The inner SELECT ... LIMIT of the purge. */
    method SelectDue(limit: int, now: int) returns (doomed: set<JobId>)
      ensures IsPurge(jobs, now, limit, doomed)
    {
      var rest := set k | k in jobs && IsDue(jobs[k], now);
      ghost var due := rest;
      doomed := {};
      while rest != {} && |doomed| < PurgeBatch(limit)
        invariant doomed !! rest && doomed + rest == due
        invariant |doomed| <= PurgeBatch(limit)
        decreases rest
      {
        var k :| k in rest;
        rest := rest - {k};
        doomed := doomed + {k};
      }
      assert |due| == |doomed| + |rest|;
    }

    method PurgeDue(limit: int, now: int) returns (count: nat)
      modifies this
      ensures exists doomed :: IsPurge(old(jobs), now, limit, doomed) && jobs == old(jobs) - doomed && count == |doomed|
      ensures jobs.Keys <= old(jobs).Keys && forall k :: k in jobs ==> jobs[k] == old(jobs)[k]
      ensures forall k :: k in old(jobs) && k !in jobs ==>
        old(jobs)[k].purgeAfter.Some? && old(jobs)[k].purgeAfter.value <= now
      ensures var due := set k | k in old(jobs) && old(jobs)[k].purgeAfter.Some?
                                 && old(jobs)[k].purgeAfter.value <= now;
              var batch := if limit < 1 then 1 else if limit > 5000 then 5000 else limit;
              count == if |due| < batch then |due| else batch
    {
      var doomed := SelectDue(limit, now);
      jobs := jobs - doomed;
      assert DueRows(old(jobs), now)
          == set k | k in old(jobs) && old(jobs)[k].purgeAfter.Some? && old(jobs)[k].purgeAfter.value <= now;
      count := |doomed|;
    }

    method ReleaseStale(maxLockAgeMs: int, now: int) returns (count: nat)
      modifies this
      ensures jobs == Released(old(jobs), now - maxLockAgeMs)
      ensures count == |StaleRows(old(jobs), now - maxLockAgeMs)|
      ensures jobs.Keys == old(jobs).Keys
      ensures forall k :: k in jobs ==>
                var j := old(jobs)[k];
                jobs[k] == if j.status == Active && j.lockedAt.Some? && j.lockedAt.value <= now - maxLockAgeMs
                           then j.(status := Waiting, lockedAt := None, lockedBy := None) else j
    {
      var cutoff := now - maxLockAgeMs;
      var stale := set k | k in jobs && IsStale(jobs[k], cutoff);
      assert stale == StaleRows(jobs, cutoff);
      jobs := map k | k in jobs :: if k in stale then ReleaseRow(jobs[k], cutoff) else jobs[k];
      return |stale|;
    }

    /**
     Frees a key for the next enqueue: what goes are the completed and failed rows of the key, and
     afterwards an enqueue under it is refused exactly while one of its jobs is unfinished.
     */
    method RemoveFinishedByDedupeKey(queueName: string, dedupeKey: string)
      modifies this
      ensures jobs == WithoutFinished(old(jobs), queueName, dedupeKey)
      ensures forall k :: k in jobs ==> k in old(jobs) && jobs[k] == old(jobs)[k]
      ensures forall k :: k in old(jobs) ==>
                var j := old(jobs)[k];
                (k !in jobs <==> j.queueName == queueName && j.dedupeKey == Some(dedupeKey)
                                 && (j.status == Completed || j.status == Failed))
      ensures DedupeTaken(jobs, queueName, Some(dedupeKey)) <==> HasUnfinished(old(jobs), queueName, dedupeKey)
    {
      jobs := map k | k in jobs && !IsFinishedDuplicate(jobs[k], queueName, dedupeKey) :: jobs[k];
    }
  }
}
