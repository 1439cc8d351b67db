/**
 The poller of apps/worker/src/database-worker.ts as code over the job repository. A handler
 is a parameter; clock readings are passed in the order the code takes them.
 */
module DatabaseWorker {
  import opened Wrappers
  import opened BackgroundJobs
  import JobRuns

  const JOB_GC_BATCH_SIZE := 200
  const STALE_LOCK_MS := 600000

  datatype Outcome = Returned(result: Option<string>) | Threw(message: string)

  /** The row after one undisturbed poll, stated on the attempts it has used up. */
  ghost predicate IsProcessed(before: Job, after: Job, outcome: Outcome, answerAt: int) {
    && after.attempts == before.attempts + 1
    && after.lockedAt.None? && after.lockedBy.None?
    && after.queueName == before.queueName && after.jobName == before.jobName && after.payload == before.payload
    && after.priority == before.priority && after.createdAt == before.createdAt
    && after.maxAttempts == before.maxAttempts && after.dedupeKey == before.dedupeKey
    && (outcome.Returned? ==>
          after.status == Completed && after.finishedAt == Some(answerAt) && after.result == outcome.result)
    && (outcome.Threw? && after.attempts < after.maxAttempts ==>
          && after.status == Delayed && after.finishedAt.None?
          && after.runAt == answerAt + 30000 * after.attempts)
    && (outcome.Threw? && after.attempts >= after.maxAttempts ==>
          after.status == Failed && after.finishedAt == Some(answerAt) && after.error == Some(outcome.message))
  }

  method RunOneDatabaseQueueJob(repo: JobRepository, queueName: string, workerId: string,
                                handler: Job -> Outcome, claimAt: int, answerAt: int)
    returns (ran: bool, ghost id: JobId)
    modifies repo
    ensures !ran ==> repo.jobs == old(repo.jobs)
    ensures ran <==> exists k :: k in old(repo.jobs) && IsEligible(old(repo.jobs)[k], queueName, claimAt)
    ensures ran ==>
              && IsNext(old(repo.jobs), queueName, claimAt, {}, id)
              && id in repo.jobs
              && repo.jobs == old(repo.jobs)[id := repo.jobs[id]]
              && IsProcessed(old(repo.jobs)[id], repo.jobs[id],
                             handler(ClaimRow(old(repo.jobs)[id], workerId, claimAt)), answerAt)
    ensures !ran ==> forall k :: k in old(repo.jobs) ==>
              !(old(repo.jobs)[k].queueName == queueName && old(repo.jobs)[k].status in {Waiting, Delayed}
                && old(repo.jobs)[k].runAt <= claimAt)
    ensures var rows := set k | k in old(repo.jobs) && old(repo.jobs)[k].queueName == queueName
                                && old(repo.jobs)[k].status in {Waiting, Delayed} && old(repo.jobs)[k].runAt <= claimAt;
            && (ran ==> id in rows)
            && (ran ==> forall k :: k in rows ==>
                  var (first, other) := (old(repo.jobs)[id], old(repo.jobs)[k]);
                  && first.priority <= other.priority
                  && (first.priority == other.priority ==> first.runAt <= other.runAt)
                  && (first.priority == other.priority && first.runAt == other.runAt ==>
                        first.createdAt <= other.createdAt))
  {
    var claimed := repo.ClaimNext(queueName, workerId, claimAt, {});
    id := 0;
    if claimed.None? {
      return false, id;
    }
    var (hit, row) := claimed.value;
    id := hit;
    match handler(row) {
      case Returned(result) =>
        repo.Complete(hit, result, None, answerAt, answerAt);
      case Threw(message) =>
        var retryDelayMs := JobRuns.RETRY_STEP_MS * Max(1, row.attempts);
        var willRetry := row.attempts < row.maxAttempts;
        repo.Fail(hit, message, if willRetry then Some(answerAt + retryDelayMs) else None, None, answerAt, answerAt);
    }
    return true, id;
  }

  /** Only rows past their purge time go, and of the others exactly those locked for ten minutes are released. */
  ghost predicate AreMaintained(before: Table, after: Table, now: int) {
    && after.Keys <= before.Keys
    && (forall k :: k in before && k !in after ==> before[k].purgeAfter.Some? && before[k].purgeAfter.value <= now)
    && (forall k :: k in after ==>
          var j := before[k];
          after[k] == if j.status == Active && j.lockedAt.Some? && j.lockedAt.value <= now - 600000
                      then j.(status := Waiting, lockedAt := None, lockedBy := None) else j)
  }

  lemma PurgedAndReleased(before: Table, doomed: set<JobId>, now: int)
    requires IsPurge(before, now, JOB_GC_BATCH_SIZE, doomed)
    ensures AreMaintained(before, Released(before - doomed, now - STALE_LOCK_MS), now) && |doomed| <= 200
  {
    forall k | k in doomed ensures k in before && before[k].purgeAfter.Some? && before[k].purgeAfter.value <= now {
      assert k in DueRows(before, now);
    }
  }

  /** Purges one batch of due rows, then releases stale locks. */
  method RunMaintenance(repo: JobRepository, now: int) returns (purged: nat, released: nat, ghost doomed: set<JobId>)
    modifies repo
    ensures IsPurge(old(repo.jobs), now, JOB_GC_BATCH_SIZE, doomed) && purged == |doomed| <= 200
    ensures repo.jobs == Released(old(repo.jobs) - doomed, now - STALE_LOCK_MS)
    ensures released == |StaleRows(old(repo.jobs) - doomed, now - STALE_LOCK_MS)|
    ensures AreMaintained(old(repo.jobs), repo.jobs, now)
  {
    purged := repo.PurgeDue(JOB_GC_BATCH_SIZE, now);
    doomed :| IsPurge(old(repo.jobs), now, JOB_GC_BATCH_SIZE, doomed)
      && repo.jobs == old(repo.jobs) - doomed && purged == |doomed|;
    PurgedAndReleased(old(repo.jobs), doomed, now);
    released := repo.ReleaseStale(STALE_LOCK_MS, now);
  }
}
