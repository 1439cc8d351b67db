# Verified models of the data layer

Dafny models of the parts of the repository that keep state consistent on their own: the
SQL-backed job queue, the key cache, the CRM tables, the blind search index, field encryption,
invoice payments and document numbers, mailbox threads, and recurring subscription costs.

A SQL table is a map (or an ordered sequence where the order matters), an exported repository
function is one step, and the clock, random identifiers, hashes, ciphers and price helpers are
parameters. Each component comes in two layers. Functions on values say what one call does to the
rows; classes and methods, with the loops and in-place updates of the code, are proved against
those functions. What an operation does is also said a second time, on the columns and the
parameters: in the contracts of the methods and in the modules called `...Answers`, whose relations
share no definition with the operations. Properties of whole runs are lemmas over histories: a
`History`, `Run` or `Trace` is built step by step from the empty state, in any order and of any
length.

| files | component |
|---|---|
| `BackgroundJobs`, `JobRuns`, `JobGuarantees`, `DatabaseWorker` | job rows and repository; all interleavings of workers, crashes and maintenance; what follows on every run; the poller |
| `LruSpec`, `DekCache`, `DekLifetime` | the cache as ordered values; the class with heap buffers that are zeroed; how long a buffer handed out stays intact |
| `CrmGraph`, `CrmIntegrity`, `CrmRuns`, `CrmBuiltIns`, `CrmAnswers`, `CrmStore` | rows and operations; what each operation keeps; runs; the built-in types on every run; what each operation does, column by column; the row-by-row code |
| `BlindIndex`, `SearchIndex`, `SearchTokens`, `FuzzyScore` | search tokens and their hashes; what a lookup over all stored tokens finds; the token table; the match score |
| `FieldCipher`, `NulJoined` | field envelopes; the NUL-joined context, shared with the search tokens |
| `Invoices`, `InvoiceAnswers`, `InvoiceRepository`, `DocumentNumbers` | books and revision chains; payments and credits column by column; payment registration; number sequences |
| `Mailbox`, `MailboxAnswers`, `MailboxRepository`, `MailboxTrash` | threads and cached unread counts; each operation column by column; synchronization; the paging delete loop |
| `SubscriptionCosts`, `CostAnswers` | the two cost computations; what they add up, row by row |
| `Wrappers`, `FiniteSets` | options and results; sizes of finite sets |

`dafny verify dfyconfig.toml` checks everything.

## Properties that do not hold as one would expect

The code is modelled as it is; where an expected property fails, the model proves exactly when it
holds and shows an input for which it fails.

* Queue: along a run each job has at most one call working on it, now and after whatever claim comes
  next, if and only if no lock is released under a call that is still working (`ExclusionIff`). A
  finished job is final if and only if no call is still working on it (`FinishedIsFinalIff`);
  `HeldReleaseBreaksExclusion` shows a release that ends in a reopened job, `LostCompletionIsUndone` a
  completion that takes effect, throws, and is undone by its own caller. `AttemptsBoundIsTight` shows
  that a release can cost one attempt more than `maxAttempts`.
* Key cache: `get` hands out the cache's own buffer, which later calls zero in the hands of its holder
  exactly when its entry does not survive them (`BufferOutlivesIff`); a `set` of another key spares it
  if and only if it has not expired and the capacity is above one (`HoldAcrossSet`). A capacity below
  one acts as one.
* CRM: the repository refuses to delete a used type for want of "Other" exactly when a custom type
  holds that name (`MissingFallbackIffNameIsSquatted`, `WithoutTheGuardDeletionCanFail`). The API turns
  reserved names down, so on every run it never does (`DeletionNeverLacksOther`).
* Search: n-grams, prefixes and the equality token of a value lie in one table and every lookup
  compares with all of them. Contains lookup finds exactly the values a query occurs in if and only if
  the query has n characters and, for n above one, neither starts with "=" nor ends in a space
  (`ContainsSearchIsExactIff`): shorter ones miss, longer ones overmatch. Prefix lookup asks for any
  one token and is exact only for one character (`PrefixSearchIsExactIff`); equality lookup errs
  exactly when "=query" has n characters (`EqualitySearchIsExactIff`). Fuzzy lookup of a value, at the
  default score, finds that value if and only if three times its n-grams are at least twice its other
  tokens (`FuzzyFindsItselfIff`), without spaces if and only if three times its different n-grams are
  at least twice its length or n, whichever is less (`UnspacedFindsItselfIff`): no value of two to n
  characters does, and at any length above one a repeated character does not, for n above one.
* Field encryption: a blank value that is not empty does not come back; more than eight nested
  envelopes do not unwrap. A stored value opens in no context but its own if and only if scope, table
  and field of that context hold no NUL (`OpensNowhereElseIff`); tenant ids and the names of the
  registry hold none.
* Document numbers: two numbers of one kind are equal if and only if their padded serials are and the
  prefix of the one without a year is the other's prefix, a dash and its year
  (`RunNumbersAreEqualIff`); `ChangedPrefixCanCollide` gives such runs.
* Mailbox: unread mail arriving in a trashed or draft thread is never counted, and marking a thread
  of drafts unread counts a message that is not there; `CachedCountIsRightIff` is exact. A thread moved
  to the trash and then to the inbox is back in its old folder if and only if the last synchronization
  report on it, if any, had it in the trash, or it came from the inbox (`TrashThenInboxRestoresIff`).
* Trash: emptying deletes only the first 500 of every 1000 threads; it empties the trash if and only
  if there are at most 500.

## Model

| member | source | states |
|---|---|---|
| BackgroundJobs.DialectsAgreeOnRunAt | packages/db/src/background-jobs-repos.ts:412-489 | the MySQL and Postgres expressions for the run-at time of a failed row always give the same value |
| BackgroundJobs.JobRepository.Enqueue | packages/db/src/background-jobs-repos.ts:133-169 | stores a waiting row with the given columns and the defaults, priority 0, three attempts, due now, or throws and stores nothing exactly when another row has its queue and dedupe key |
| BackgroundJobs.JobRepository.SelectNext | packages/db/src/background-jobs-repos.ts:277-346 | the scan finds, of the unlocked waiting or delayed rows of the queue that are due, one of least priority, of those one of least run-at, and of those one of least creation time, and None only when there is none |
| BackgroundJobs.JobRepository.ClaimNext | packages/db/src/background-jobs-repos.ts:277-346 | claims that row, the least in priority, run-at and creation time column by column: active, locked by the worker now, attempts one higher; nothing else changes |
| BackgroundJobs.JobRepository.Complete | packages/db/src/background-jobs-repos.ts:348-410 | completes the row whoever holds its lock, with its retention; afterwards it is unlocked and can never be claimed; a missing row changes nothing |
| BackgroundJobs.JobRepository.Fail | packages/db/src/background-jobs-repos.ts:412-489 | delays the row while attempts remain and a retry time is given, else fails it with its retention |
| BackgroundJobs.JobRepository.PurgeDue | packages/db/src/background-jobs-repos.ts:491-508 | deletes some due rows, as many as there are up to the clamped batch, and reports their number |
| BackgroundJobs.JobRepository.ReleaseStale | packages/db/src/background-jobs-repos.ts:510-535 | exactly the active rows locked no later than the cutoff become waiting and unlocked |
| BackgroundJobs.JobRepository.RemoveFinishedByDedupeKey | packages/db/src/background-jobs-repos.ts:247-275 | only finished rows go and no other row changes; afterwards the key is taken, so that an enqueue under it fails, iff one of its jobs is unfinished |
| DatabaseWorker.RunOneDatabaseQueueJob | apps/worker/src/database-worker.ts:115-135 | a poll runs exactly when a waiting or delayed row of the queue is due, takes the one least in priority, run-at and creation time, and leaves it completed, delayed by 30 s per attempt used, or failed, unlocked and with one more attempt; no other row changes |
| DatabaseWorker.RunMaintenance | apps/worker/src/database-worker.ts:143-150 | purges up to 200 rows past their purge time, then releases exactly the active rows of what is left that have been locked for ten minutes, and counts both |
| JobRuns.StepIsRepositoryCall | packages/db/src/background-jobs-repos.ts:133-535 | every step of the run model changes the table exactly as the repository function it stands for |
| JobRuns.StepKeepsInv | packages/db/src/background-jobs-repos.ts:277-535 | the row, ticket, count, exclusion, back-off and time invariants survive every step of every worker, crash, lost completion and maintenance |
| JobRuns.RunKeepsInv | packages/db/src/background-jobs-repos.ts:277-535 | they hold after every run |
| JobGuarantees.ReachableRowsAreConsistent | packages/db/src/background-jobs-repos.ts:348-535 | on every run a row is active iff locked, finished iff it has a finish time iff it has a purge time, and kept for its retention, late answers included |
| JobGuarantees.PurgeTakesOnlyExpiredFinishedJobs | packages/db/src/background-jobs-repos.ts:491-508 | the status-blind purge deletes only finished jobs whose retention is over |
| JobGuarantees.EachClaimIsAnsweredOnce | apps/worker/src/database-worker.ts:115-135 | claims split into working, answered and crashed calls without overlap, a call whose completion threw and that then reports a failure included, and the attempts counter is their number |
| JobGuarantees.AttemptsBound | packages/db/src/background-jobs-repos.ts:277-346 | on every run a job is claimed at most max(1, maxAttempts) times plus once per release of its lock, even with failure reports split into read and write |
| JobGuarantees.AttemptsBoundIsTight | packages/db/src/background-jobs-repos.ts:510-535 | a run that meets the bound with one release |
| JobGuarantees.AtomicRetryHasAttemptsLeft | packages/db/src/background-jobs-repos.ts:412-489 | a failure report whose read and write see the same row delays it iff attempts remain, until now plus 30 s per attempt |
| JobGuarantees.DelayedHasAttemptsLeft | packages/db/src/background-jobs-repos.ts:412-489 | on every run in which nothing comes between the read and the write of a failure report, releases included, a delayed job has attempts left |
| JobGuarantees.StepStealsNothing | packages/db/src/background-jobs-repos.ts:510-535 | a step leaves every working call its lock iff it is not a release that hits a held lock |
| JobGuarantees.ExclusionIff | packages/db/src/background-jobs-repos.ts:277-535 | along a run every job has at most one working call, now and after any claim that could come next, iff the run releases no lock under a working call |
| JobGuarantees.HeldReleaseAllowsASecondCall | packages/db/src/background-jobs-repos.ts:510-535 | from every reachable state such a release lets a claim give the job a second working call |
| JobGuarantees.Exclusion | apps/worker/src/database-worker.ts:115-135 | without such releases two calls working on a job are the same call, the row counts it and cannot be claimed, and it is active unless a completion was lost |
| JobGuarantees.FinishedIsAbsorbing | packages/db/src/background-jobs-repos.ts:348-489 | a finished row on which no call is still working never changes on any run until it is deleted, for good |
| JobGuarantees.WorkingCallChangesTheRow | packages/db/src/background-jobs-repos.ts:348-489 | a call still working can change the row of its job in one step, finished or not |
| JobGuarantees.FinishedIsFinalIff | packages/db/src/background-jobs-repos.ts:348-489 | a finished row stays as it is on every run that can follow iff no call is still working on it |
| JobGuarantees.LostCompletionIsUndone | apps/worker/src/database-worker.ts:119-134 | a completion that takes effect and throws is overwritten by the failure report of the same call: delayed iff attempts remain, else failed |
| JobGuarantees.HeldReleaseBreaksExclusion | packages/db/src/background-jobs-repos.ts:412-535 | a run with one release of a held lock has two calls on a job, reopens it after completion, and delays it with no attempts left |
| JobGuarantees.BackoffIsKept | apps/worker/src/database-worker.ts:115-135 | without releases the k-th claim comes at least 15000 k (k-1) ms after the first |
| JobGuarantees.DedupeKeysStayUnique | packages/db/src/pg-schema.ts:1829 | on every run there is at most one row per queue and dedupe key |
| JobGuarantees.ClaimUsesWork | packages/db/src/background-jobs-repos.ts:277-346 | each claim uses up one of the job's remaining attempts |
| JobGuarantees.ClaimsAreBounded | apps/worker/src/database-worker.ts:115-141 | without releases and lost completions the claims of a run plus the attempts left at its end are at most the attempts at its start plus those enqueued |
| JobGuarantees.UnfinishedIsClaimable | packages/db/src/background-jobs-repos.ts:277-489 | when no call is working and none crashed, no unfinished job is stuck |
| JobGuarantees.QuietIsFinishedIff | apps/worker/src/database-worker.ts:115-141 | a quiet state offers nothing to claim, however long one waits, iff every job is finished |
| JobGuarantees.MaximalRunsFinishEveryJob | apps/worker/src/database-worker.ts:115-141 | every undisturbed run that ends quiet with nothing left to claim has finished every job, within the attempts at its start and those enqueued |
| JobGuarantees.EveryJobReachesAnEnd | apps/worker/src/database-worker.ts:115-141 | and such runs exist: from any quiet state polling alone brings every job to an end state within its attempts, whatever the handlers do |
| JobGuarantees.ReleaseRecoversAJob | packages/db/src/background-jobs-repos.ts:510-535 | once its lock is as old as the release asks, a job whose worker is gone is waiting again and can be claimed |
| LruSpec.StateIsDistinct | packages/crypto/src/dek-cache.ts:45-106 | after any trace of calls each key has one entry |
| LruSpec.LruInclusion | packages/crypto/src/dek-cache.ts:45-106 | after the same calls the cache with less capacity is an ordered sub-cache of the larger or unbounded one and lags by at most the difference of the capacities |
| LruSpec.HitsAgree | packages/crypto/src/dek-cache.ts:45-57 | whatever the smaller cache finds the larger finds with the same bytes, version and expiry, and it never reports a larger size |
| LruSpec.SizeIsBounded | packages/crypto/src/dek-cache.ts:59-74 | the size never exceeds max(1, maxEntries) |
| LruSpec.UnboundedMatchesPlain | packages/crypto/src/dek-cache.ts:45-106 | without a capacity the cache is a plain map from which expired entries are missing |
| LruSpec.CacheRefinesPlainMap | packages/crypto/src/dek-cache.ts:45-74 | a lookup without capacity answers like a plain map with expiry, and a bounded cache answers the same or misses |
| DekCaches.DekCache.ZeroAndDelete | packages/crypto/src/dek-cache.ts:100-106 | removes one key; its buffer is zeroed and every other cached buffer unchanged |
| DekCaches.DekCache.EvictExpired | packages/crypto/src/dek-cache.ts:91-98 | removes exactly the expired entries while iterating the live map, zeroing their buffers |
| DekCaches.DekCache.Get | packages/crypto/src/dek-cache.ts:45-57 | hands out the cached bytes and the cache's own buffer iff the entry is unexpired at both clock readings, and makes it the youngest |
| DekCaches.DekCache.Set | packages/crypto/src/dek-cache.ts:59-74 | the new entry holds a fresh copy of the bytes of the argument after the clean-up; replaced, expired and evicted buffers are zeroed |
| DekCaches.DekCache.Delete | packages/crypto/src/dek-cache.ts:76-78 | removes one key and zeroes its buffer |
| DekCaches.DekCache.Clear | packages/crypto/src/dek-cache.ts:80-84 | leaves the cache empty and every buffer it held zeroed |
| DekCaches.DekCache.Size | packages/crypto/src/dek-cache.ts:86-89 | counts the unexpired entries after dropping and zeroing the others |
| DekCaches.PutDropsOldBuffer | packages/crypto/src/dek-cache.ts:59-74 | the buffer cached for a key never survives a set of that key |
| DekCaches.SetFromOwnEntry | packages/crypto/src/dek-cache.ts:45-74 | setting a key from the buffer its own get returned stores zeros |
| DekCaches.SmallerCacheIsIncluded | packages/crypto/src/dek-cache.ts:45-106 | of two caches on the heap after the same calls the one with less capacity holds, byte for byte, an ordered part of the other |
| DekLifetimes.BufferSurvivesIff | packages/crypto/src/dek-cache.ts:45-106 | a call leaves a cached buffer in the cache iff its entry is unexpired, is not replaced or deleted, and, for a set, leaves a place free with the younger entries that stay |
| DekLifetimes.BufferOutlivesIff | packages/crypto/src/dek-cache.ts:45-106 | after any number of calls it is still there iff it survived each of them; once gone it never comes back |
| DekLifetimes.HoldAcrossSet | packages/db/src/field-encryption/middleware.ts:83-104 | a caller that holds the buffer of its lookup while another call sets a key holds the right bytes iff the entry is unexpired, the keys differ and the capacity is above one, and zeros otherwise |
| DekLifetimes.HoldAcrossCalls | packages/db/src/field-encryption/middleware.ts:83-104 | a caller that holds a cached buffer through any calls in any order holds the same bytes iff its entry survived each of the recorded calls, and zeros otherwise |
| CrmIntegrity.ClampNeverBinds | packages/db/src/crm-repos-relationship-type-usage.ts:11-36 | in a consistent store GREATEST(0, ...) never changes a value: no set of relationships can take a counter below zero |
| CrmIntegrity.SeedingCompletes | packages/db/src/crm-repos.ts:540-600 | after seeding every built-in name and pair of kinds exists |
| CrmIntegrity.SeedingOnlyAdds | packages/db/src/crm-repos.ts:540-600 | seeding leaves every existing type as it is |
| CrmIntegrity.SeedingTwiceChangesNothing | packages/db/src/crm-repos.ts:540-600 | seeding is idempotent |
| CrmIntegrity.WithoutTypeKeeps | packages/db/src/crm-repos.ts:897-957 | deleting a type, with its relationships moved to "Other", keeps counters, references and names consistent |
| CrmIntegrity.WithRelKeeps | packages/db/src/crm-repos.ts:1034-1102 | inserting a relationship in either direction keeps them consistent |
| CrmIntegrity.WithoutRelKeeps | packages/db/src/crm-repos.ts:1104-1130 | so does deleting one |
| CrmIntegrity.RelinkKeeps | packages/db/src/crm-repos.ts:268-316 | so does replacing an employer or a holding |
| CrmIntegrity.WithoutEntityKeeps | packages/db/src/crm-repos-organizations.ts:558-625 | deleting an entity with its activities, relationships and grouped decrements leaves no counter and no reference wrong |
| CrmIntegrity.WithSegmentKeeps | packages/db/src/crm-repos-organization-segments.ts:178-248 | inserting a segment keeps the three-layer forest |
| CrmIntegrity.WithoutSegmentKeeps | packages/db/src/crm-repos-organization-segments.ts:250-272 | deleting a segment never leaves a child or an organization pointing at it |
| CrmIntegrity.EverySegmentHangsOnARoot | packages/db/src/crm-repos-organization-segments.ts:178-248 | the parents of a segment of layer n lead to a root through exactly n rows, n at most 3 |
| CrmIntegrity.ValidAssignmentsAreRootPaths | packages/db/src/crm-repos-organization-segments.ts:274-310 | the checks accept a normalized assignment iff it is empty or a path of existing segments down from a root |
| CrmRuns.StepKeepsIntegrity | packages/db/src/crm-repos.ts:268-1130 | every operation keeps the integrity of the whole store |
| CrmRuns.EveryRunKeepsIntegrity | packages/db/src/crm-repos.ts:268-1130 | on every run counters, relationship kinds and endpoints, activities, type names, segments and organizations are consistent |
| CrmRuns.CountersAgreeOnEveryRun | packages/db/src/crm-repos-relationship-type-usage.ts:11-36 | on every run the cached counter of a type is the number of its relationships |
| CrmRuns.OrganizationsSitOnRootPaths | packages/db/src/crm-repos-organizations.ts:430-556 | on every run an organization's segments are none or a path of existing rows up to a root |
| CrmRuns.SegmentsAreAForestOnEveryRun | packages/db/src/crm-repos-organization-segments.ts:178-272 | on every run each segment climbs to a root, one layer a step |
| CrmRuns.MissingFallbackIffNameIsSquatted | packages/db/src/crm-repos.ts:897-918 | in the repository alone, deleting a used custom type answers missing_other_fallback iff a custom type named "Other" has the same kinds |
| CrmBuiltIns.WithoutTheGuardDeletionCanFail | packages/db/src/crm-repos.ts:897-918 | a consistent store with such a type, in which a type cannot be deleted, and which the check of the API keeps away |
| CrmBuiltIns.CustomTypesAreNotReserved | apps/api/src/routes/tenant-crm.ts:618-625 | on every run no custom type bears a built-in name or reverse name, in any case |
| CrmBuiltIns.ReservedIff | packages/shared/src/crm.ts:87-93 | reserved are exactly the built-in names and the reverse names, letter by letter in either case |
| CrmBuiltIns.DeletionNeverLacksOther | packages/db/src/crm-repos.ts:897-918 | on every run deleting a type is never answered with missing_other_fallback |
| CrmBuiltIns.LookupsFindSystemRows | packages/db/src/crm-repos.ts:540-600 | on every run the lookup of a built-in name after seeding finds a system row |
| CrmBuiltIns.LinkTypesAreSystemRows | packages/db/src/crm-repos.ts:268-316 | so do those for the employee and subsidiary links |
| CrmRuns.DeletingATypeKeepsTheGraph | packages/db/src/crm-repos.ts:897-957 | deleting a type keeps every relationship and its endpoints; exactly those of the type become "Other" of the same kinds |
| CrmRuns.EitherDirectionStoresTheSameLink | packages/db/src/crm-repos.ts:1044-1063 | the stored row runs in its type's direction between the two given ends, and both directions of input store the same row when the kinds differ |
| CrmRuns.EmployerIsReplaced | packages/db/src/crm-repos.ts:268-316 | afterwards the contact has exactly the one new employer link if both rows exist, none otherwise, and nobody else's relationships changed |
| CrmRuns.HoldingIsReplaced | packages/db/src/crm-repos.ts:399-448 | the same for the holding of an organization, where naming itself or a missing organization leaves it without one |
| CrmStores.CrmStore.AdjustUsage | packages/db/src/crm-repos-relationship-type-usage.ts:11-36 | changes the counter of that one type only, to the sum or to zero when the sum is negative; a delta of zero changes nothing |
| CrmStores.CrmStore.EnsureSystemTypes | packages/db/src/crm-repos.ts:540-600 | the seeding loop adds unused system rows of built-in names only, changes no other row, and leaves no built-in name free |
| CrmAnswers.BuiltInsAreExact | packages/shared/src/crm.ts:24-85 | the seeded definitions are exactly the ten names with their kinds, literally |
| CrmAnswers.SeedingIsExact | packages/db/src/crm-repos.ts:540-600 | old rows stay, new rows are unused system rows of built-in names, and no built-in name stays free |
| CrmStores.CrmStore.InsertType | packages/db/src/crm-repos.ts:602-655 | adds a custom type with counter zero unless a row has the same name and kinds, and then changes nothing |
| CrmStores.CrmStore.DeleteType | packages/db/src/crm-repos.ts:897-957 | seeds, then answers not found, system type, missing fallback or deletes, each in exactly its case; deleting removes that type alone and gives its relationships a fallback type of its kinds |
| CrmAnswers.TypeDeletionIsExact | packages/db/src/crm-repos.ts:897-957 | the four answers by columns, and that exactly the type goes and exactly its relationships are retyped to a system row "Other" of its kinds |
| CrmStores.CrmStore.InsertRelationship | packages/db/src/crm-repos.ts:1034-1102 | stores the relationship iff the type exists, the kinds fit it in one direction and both ends exist: between the given ends in the direction of the type, with one more on its counter and no other row changed |
| CrmAnswers.InsertionIsExact | packages/db/src/crm-repos.ts:1034-1102 | two existing entities of any two kinds can be linked whenever the kinds fit the type; what is stored is said end by end |
| CrmStores.CrmStore.DeleteRelationship | packages/db/src/crm-repos.ts:1104-1130 | deletes that row alone and lowers its type's counter, or finds no such row and changes nothing |
| CrmStores.CrmStore.SetEmployer | packages/db/src/crm-repos.ts:268-316 | of the contact's links of the type "Employee" none is left but the new one, which is there iff both ends exist; every other relationship stays as it was |
| CrmStores.CrmStore.SetHolding | packages/db/src/crm-repos.ts:399-448 | the same for the links of an organization of the type "Subsidiary", where an organization is never linked to itself |
| CrmAnswers.LinkingIsExact | packages/db/src/crm-repos.ts:268-448 | after seeding, setting a link replaces the links of the row that bears the built-in name |
| CrmStores.CrmStore.CountByType | packages/db/src/crm-repos-organizations.ts:586-587 | the decrement map holds for each type the number of its doomed relationships, in whatever order the rows come |
| CrmStores.CrmStore.DecrementAll | packages/db/src/crm-repos-organizations.ts:588-589 | one clamped update per entry, no other counter changes |
| CrmStores.CrmStore.DeleteEntity | packages/db/src/crm-repos-contacts.ts:484-549 | a relationship stays, unchanged, iff neither end is (kind, id); an activity stays iff it is not on (kind, id); the row is gone, every other organization, contact and segment is as before, and each counter falls by the relationships its type lost |
| CrmAnswers.DeletionIsExact | packages/db/src/crm-repos-organizations.ts:558-625 | for organizations and contacts alike: what a deletion takes and what it leaves, compared column by column by kind and id of each end |
| CrmAnswers.LoweringIsExact | packages/db/src/crm-repos-contacts.ts:505-535 | each counter falls by the number of relationships its type lost, not below zero, and types that lost none keep theirs |
| CrmStores.CrmStore.InsertActivity | packages/db/src/crm-repos-activities.ts:223-305 | stores an activity iff its subject exists, and changes nothing else |
| CrmStores.CrmStore.InsertSegment | packages/db/src/crm-repos-organization-segments.ts:178-248 | stores a segment one layer below its parent, or stores nothing and fails for a missing parent, a parent of layer three, or with segment_exists when the insert itself throws |
| CrmAnswers.SegmentInsertionIsExact | packages/db/src/crm-repos-organization-segments.ts:178-248 | a root is on layer 1, a child one below its parent, and a missing parent or one on layer 3 is refused |
| CrmStores.CrmStore.DeleteSegment | packages/db/src/crm-repos-organization-segments.ts:250-272 | deletes that row alone, or refuses while a segment has it as parent or an organization names it in one of its layers |
| CrmStores.CrmStore.InsertOrganization | packages/db/src/crm-repos-organizations.ts:281-428 | stores the given layers, without those below a missing one, iff they are existing segments of layers 1, 2, 3, each the parent of the next |
| CrmStores.CrmStore.UpdateOrganization | packages/db/src/crm-repos-organizations.ts:430-556 | takes from the patch the layers it names and from the row the others, trims and checks them as an insert does; a patch without layers changes nothing |
| CrmAnswers.RepointingIsExact | packages/db/src/crm-repos-organizations.ts:430-556 | a patch that names no layer changes nothing and succeeds; any other assigns the merged, trimmed layers iff they are a path down |
| CrmAnswers.AssignmentIsExact | packages/db/src/crm-repos-organizations.ts:281-428 | which layers an insert stores and when it stores nothing, layer by layer |
| BlindIndex.GenerateNgrams | packages/crypto/src/blind-index.ts:20-30 | the loop yields exactly the n-grams of the padded value, each once |
| BlindIndex.PrefixTokens | packages/crypto/src/blind-index.ts:63-77 | the loop yields exactly the cut or padded prefixes up to three n-gram lengths, each once |
| BlindIndex.MaterialIsInjective | packages/crypto/src/blind-index.ts:46-47 | the NUL-joined material determines tenant, table, field and token when the first three hold no NUL |
| BlindIndex.ContextsAreSeparate | packages/crypto/src/blind-index.ts:46-57 | under an injective hash no token hash of one context equals one of another |
| SearchTokens.TokenTable.SyncField | packages/db/src/field-encryption/search-repos.ts:84-126 | afterwards the table holds exactly the hashes of n-grams, prefixes and equality token of the values the fields were last synchronized with |
| SearchTokens.TokenTable.DeleteEntity | packages/db/src/field-encryption/search-repos.ts:401-429 | removes exactly the rows of one tenant, table and entity, and forgets its values |
| SearchTokens.FieldsHaveTheirOwnContext | packages/db/src/field-encryption/scope.ts:9-40 | two fields hash under one context iff they have the same table, field and tenant, rows without a tenant counting as tenant "platform" |
| SearchTokens.TokenTable.FindByContains | packages/db/src/field-encryption/search-repos.ts:128-190 | finds exactly the entities whose stored hashes hold as many distinct hashes of the query as it has n-grams |
| SearchTokens.TokenTable.FindByExactValue | packages/db/src/field-encryption/search-repos.ts:193-205 | finds exactly those whose stored hashes hold that of the equality token |
| SearchTokens.TokenTable.FindByPrefix | packages/db/src/field-encryption/search-repos.ts:283-324 | finds exactly those whose stored hashes hold any hash of the prefix tokens of the query |
| SearchTokens.TokenTable.FindByAnyField | packages/db/src/field-encryption/search-repos.ts:208-233 | finds exactly those that contains lookup finds in some searchable field |
| SearchTokens.TokenTable.FindByFuzzy | packages/db/src/field-encryption/search-repos.ts:331-399 | lists exactly the entities whose stored hashes score at least the minimum against those of the query, each once, by falling score |
| SearchIndex.StoredIff | packages/db/src/field-encryption/search-repos.ts:84-126 | a query of at most n characters, padded, is stored for a value iff it occurs in the padded value, the value starts like it, or it is the equality token |
| SearchIndex.EqualityTokenIsNew | packages/db/src/pg-schema.ts:58-81 | the equality token is never an n-gram or a prefix of the same value, so storing all three violates no unique index |
| SearchIndex.ContainsSearchIsComplete | packages/db/src/field-encryption/search-repos.ts:128-175 | under any hash a query of at least n characters has all its hashes stored with every value it occurs in |
| SearchIndex.ShortQueryFinds | packages/db/src/field-encryption/search-repos.ts:128-175 | a query of at most n characters finds a value iff, padded, it occurs in the padded value or is its equality token, or the value starts like it |
| SearchIndex.LongQueryFinds | packages/db/src/field-encryption/search-repos.ts:128-175 | a longer one finds a value iff that holds for each of its windows |
| SearchIndex.FullQueryIsExact | packages/db/src/field-encryption/search-repos.ts:128-175 | a query of n characters that neither starts with an equals sign nor ends in a space finds exactly the values it occurs in |
| SearchIndex.ShortQueryMisses | packages/db/src/field-encryption/search-repos.ts:128-175 | every shorter query misses the value that encloses it in another character |
| SearchIndex.LongQueryOvermatches | packages/db/src/field-encryption/search-repos.ts:128-175 | every longer query finds a value that holds its windows apart and not the query |
| SearchIndex.TrailingSpaceOvermatches | packages/db/src/field-encryption/search-repos.ts:128-175 | every query of two to n characters that ends in a space finds a value it does not occur in |
| SearchIndex.EqualsSignOvermatches | packages/db/src/field-encryption/search-repos.ts:128-175 | every query of n characters that starts with an equals sign finds the value behind the sign, which does not hold it |
| SearchIndex.ContainsSearchIsExactIff | packages/db/src/field-encryption/search-repos.ts:128-175 | contains lookup of a query is exact over all values iff it has n characters and, for n above one, neither starts with an equals sign nor ends in a space |
| SearchIndex.PrefixSearchIsComplete | packages/db/src/field-encryption/search-repos.ts:283-324 | under any hash a non-empty query finds every value it is a prefix of |
| SearchIndex.PrefixSearchFinds | packages/db/src/field-encryption/search-repos.ts:283-324 | prefix lookup finds a value iff the first characters agree or some padded beginning of the query occurs in the padded value or is its equality token |
| SearchIndex.PrefixSearchOvermatches | packages/db/src/field-encryption/search-repos.ts:283-324 | for every query there is a value it finds and is no prefix of |
| SearchIndex.PrefixSearchIsExactIff | packages/db/src/field-encryption/search-repos.ts:283-324 | over values without stray spaces prefix lookup is exact iff the query has one character and n is at least three |
| SearchIndex.AllPrefixTokensAgree | packages/crypto/src/blind-index.ts:63-77 | all prefix tokens of a query are prefix tokens of a value iff the value starts like its first n characters |
| SearchIndex.EqualitySearchFinds | packages/db/src/field-encryption/search-repos.ts:193-205 | equality lookup finds the equal value and, when "=query" has n characters, also the values that store it as an n-gram or a prefix |
| SearchIndex.EqualitySearchIsExactIff | packages/db/src/field-encryption/search-repos.ts:193-205 | it is exact over all values iff the query is empty or "=query" has not n characters |
| SearchIndex.OwnScore | packages/db/src/field-encryption/search-repos.ts:380-399 | the fuzzy score of a value against what is stored for it is the number of its n-grams by the number of its tokens, always below one |
| SearchIndex.FuzzyFindsItselfIff | packages/db/src/field-encryption/search-repos.ts:331-399 | fuzzy lookup of a value finds that value at the default score iff three times its n-grams are at least twice its other tokens |
| SearchIndex.UnspacedFindsItselfIff | packages/db/src/field-encryption/search-repos.ts:331-399 | for a value without spaces, iff three times its different n-grams are at least twice the lesser of its length and n |
| SearchIndex.TooShortToFindItself | packages/db/src/field-encryption/search-repos.ts:331-399 | by its length alone: such a value with too few windows never finds itself |
| SearchIndex.RepetitionMissesItself | packages/db/src/field-encryption/search-repos.ts:331-399 | by its characters: one repeated character never finds itself, at any length above one and for n above one |
| SearchIndex.ShortValueMissesItself | packages/db/src/field-encryption/search-repos.ts:331-399 | with or without inner spaces, a value of two to n characters never finds itself |
| FuzzyScore.FuzzyMatchScore | packages/crypto/src/blind-index.ts:147-157 | the counting loop computes the Jaccard index, shared elements by elements of either, of the two sets, whatever order and repetitions, and 0 for an empty list |
| FuzzyScore.ScoreIsSymmetric | packages/crypto/src/blind-index.ts:147-157 | the score is symmetric |
| FuzzyScore.ScoreIsAFraction | packages/crypto/src/blind-index.ts:147-157 | it lies between 0 and 1 |
| FuzzyScore.PerfectScoreMeansEqual | packages/crypto/src/blind-index.ts:147-157 | it is 1 iff the sets are equal and not empty |
| FuzzyScore.ZeroScoreMeansDisjoint | packages/crypto/src/blind-index.ts:147-157 | it is 0 iff they have nothing in common |
| FuzzyScore.DistanceObeysTriangle | packages/crypto/src/blind-index.ts:147-157 | one minus the score satisfies the triangle inequality |
| FieldCipher.AadIsInjective | packages/crypto/src/field-cipher.ts:28-29 | the additional data determines the context when scope and table hold no NUL |
| FieldCipher.AadIsExact | packages/crypto/src/field-cipher.ts:28-29 | the additional data is scope, table and field in this order with one NUL between each two |
| FieldCipher.AadIsUniqueIff | packages/crypto/src/field-cipher.ts:28-29 | no other context shares the additional data iff scope, table and field hold no NUL |
| FieldCipher.EncryptedIsAnEnvelope | packages/crypto/src/field-cipher.ts:62-83 | encrypting a non-blank value under a 32-byte key gives an envelope that parses back to its version and ciphertext |
| FieldCipher.BlanksAreExact | packages/crypto/src/field-cipher.ts:31-31 | blank is what has only the code points that trim removes, listed literally, so one visible character is enough to be encrypted |
| FieldCipher.EncryptionAnswers | packages/crypto/src/field-cipher.ts:62-83 | a blank becomes the empty string, else a key of another length than 32 is refused, else the result starts with "SFENC1:" |
| FieldCipher.DecryptionAnswers | packages/crypto/src/field-cipher.ts:88-101 | a blank, a value without the prefix, broken JSON and a failed tag each have their own answer, in this order |
| FieldCipher.OpensOnlyInItsOwnContext | packages/crypto/src/field-cipher.ts:88-101 | a stored value opens iff key and context are those it was written with, and fails closed otherwise |
| FieldCipher.OpensNowhereElseIff | packages/crypto/src/field-cipher.ts:88-101 | it fails closed in every other context, whatever characters that holds, iff its own holds no NUL |
| FieldCipher.RoundTrip | packages/crypto/src/field-cipher.ts:62-101 | decrypting what was encrypted gives the value back iff it is empty or not blank |
| FieldCipher.UnwrapEnvelope | packages/crypto/src/field-cipher.ts:119-136 | the loop peels envelopes until none is left or the depth, eight by default, is exceeded, and never returns an envelope |
| FieldCipher.NestedEnvelopesUnwrap | packages/crypto/src/field-cipher.ts:119-136 | n nested envelopes give the plaintext back iff n is at most the allowed depth, and an error otherwise |
| FieldCipher.AnIdealSuiteExists | packages/crypto/src/field-cipher.ts:62-101 | the assumptions made of cipher and JSON are consistent |
| Invoices.TotalIsSumOfLines | packages/shared/src/invoicing-totals.ts:116-151 | the stored total, subtotals plus taxes, is the sum of the line totals |
| Invoices.SettledStaysSettled | packages/db/src/invoicing-repos.ts:2509-3115 | no status change leads out of paid, partially paid and archived to a payable state, and none leads to paid |
| Invoices.StepKeepsBooks | packages/db/src/invoicing-repos.ts:3409-3556 | every step keeps totals equal to their lines, payments matched by their revisions, and one payment per invoice |
| Invoices.EveryRunKeepsBooks | packages/db/src/invoicing-repos.ts:3409-3556 | these hold on every run |
| Invoices.CreditSortsLast | packages/db/src/invoicing-repos.ts:3379-3407 | the credit line sorts behind all lines of the invoice |
| Invoices.MoneyIsConserved | packages/db/src/invoicing-repos.ts:3379-3556 | an invoice's total is the payments along its revision chain plus the last revision's total, which stays positive, and the chain is no longer than the units paid off |
| Invoices.MoneyIsConservedOnEveryRun | packages/db/src/invoicing-repos.ts:3379-3556 | on every run |
| Invoices.PaidChainsArePaidExactly | packages/db/src/invoicing-repos.ts:3409-3465 | when the last revision is paid the payments add up to the original total exactly |
| Invoices.ChainsDoNotFork | packages/db/src/invoicing-repos.ts:3409-3510 | of two payment chains from one invoice one continues the other |
| Invoices.RevisionsKeepTheOriginalLines | packages/db/src/invoicing-repos.ts:2727-2828 | the last revision lists the original lines unchanged and then one credit line per payment, in order |
| Invoices.RevisionsCountUp | packages/shared/src/invoicing.ts:642-651 | the revisions of a payment chain count up by one from the original's |
| Invoices.AtMostOnePaymentPerInvoice | packages/db/src/invoicing-repos.ts:3409-3430 | on every run an invoice has at most one payment |
| Invoices.PaidInvoicesRefusePayments | packages/shared/src/invoicing.ts:997-998 | an invoice with a payment refuses every further amount |
| InvoiceRepositories.SumStoredLines | packages/shared/src/invoicing-totals.ts:116-151 | the loop sums subtotals and taxes; their sum is that of both columns over all lines |
| InvoiceRepositories.MaxSortOrder | packages/db/src/invoicing-repos.ts:3385-3386 | the fold finds the largest sort order, -1 for no lines |
| InvoiceRepositories.InvoiceRepository.CreateRevision | packages/db/src/invoicing-repos.ts:2727-2828 | copies all lines and the extra ones in order, totals them, and numbers the revision one higher in its last part |
| InvoiceRepositories.InvoiceRepository.RegisterPayment | packages/db/src/invoicing-repos.ts:3409-3556 | accepts exactly a sent, finalized or overdue invoice with a positive total not below the amount; records exactly this amount for it and no other payment changes; the full amount makes it paid, a smaller one partially paid with the payment naming a draft revision whose last line is the credit and whose total is the old lines' sum, where the books are right the old total, less the amount; a refusal changes nothing |
| InvoiceAnswers.PaymentIsExact | packages/db/src/invoicing-repos.ts:3409-3510 | which payments are accepted and what an accepted one does to every table, from the request alone |
| InvoiceAnswers.PartialPaymentOnEveryRun | packages/db/src/invoicing-repos.ts:3467-3475 | on every run the revision a partial payment opens asks for the total of the invoice less the payment |
| InvoiceAnswers.RevisionIsExact | packages/db/src/invoicing-repos.ts:2727-2828 | a revision is a draft of its source with the next number, all its lines and one tax-free line of minus the amount behind them, and asks for what its source's lines add up to less the amount |
| InvoiceAnswers.CreditIsExact | packages/db/src/invoicing-repos.ts:2878-2927 | crediting needs an acknowledged dispute and at most the total, opens such a revision and leaves the credited invoice and all payments as they are |
| InvoiceAnswers.StatusChangesAreExact | packages/db/src/invoicing-repos.ts:2509-3115 | the status changes besides payments and credits are exactly fourteen, listed literally, and only an invoice with something to pay goes overdue |
| InvoiceAnswers.TotalIsExact | packages/shared/src/invoicing-totals.ts:116-151 | the stored total is the sum of subtotal and tax line by line |
| InvoiceAnswers.NextRevisionIsExact | packages/shared/src/invoicing.ts:642-651 | the last part goes up by one, the parts before it stay, and an empty revision becomes 1 |
| DocumentNumbers.PaddedHasItsValue | packages/db/src/invoicing-repos.ts:675-675 | padding never hides a number, whatever the width |
| DocumentNumbers.PaddingIsZeros | packages/db/src/invoicing-repos.ts:675-675 | padding puts zeros in front and keeps the string; the length is the larger of width and length |
| DocumentNumbers.ValueIsDecimal | packages/db/src/invoicing-repos.ts:675-675 | the value of a string of digits is read in base ten |
| DocumentNumbers.FormatIsExact | packages/db/src/invoicing-repos.ts:675-677 | what stands in front of the digits, how many digits there are, and their value |
| DocumentNumbers.SerialIsExact | packages/db/src/invoicing-repos.ts:629-674 | the serial is one more than the numbers given out before for the same kind and sequence year, 0 without a yearly reset |
| DocumentNumbers.FormatIsInjective | packages/db/src/invoicing-repos.ts:675-677 | equal strings with one prefix come from the same yearly mode, year and number |
| DocumentNumbers.NumbersAreEqualIff | packages/db/src/invoicing-repos.ts:675-677 | two numbers are equal iff their padded serials are and they have the same prefix, mode and year, or the prefix of one without a year is the other's prefix, a dash and its year |
| DocumentNumbers.RunNumbersAreEqualIff | packages/db/src/invoicing-repos.ts:629-678 | two numbers of one kind on a run are equal iff their padded serials are and the latter holds of their prefixes |
| DocumentNumbers.NumbersAreDistinct | packages/db/src/invoicing-repos.ts:629-678 | all numbers of one kind differ as long as no prefix is another one with a dash and its year |
| DocumentNumbers.OnePrefixNeverCollides | packages/db/src/invoicing-repos.ts:629-678 | with one prefix all differ, though padding and yearly reset change and the year rolls over |
| DocumentNumbers.ChangedPrefixCanCollide | packages/db/src/invoicing-repos.ts:629-678 | for every prefix and year a run that moves the year into the prefix and gives one number out twice |
| DocumentNumbers.DialectsCountTheSame | packages/db/src/invoicing-repos.ts:629-678 | the Postgres row (starts at 2, stores the next) and the MySQL row (starts at 1, stores the last) both count 1, 2, 3, ... |
| DocumentNumbers.NumberSequences.Allocate | packages/db/src/invoicing-repos.ts:629-678 | either dialect returns the prefix and a dash, for a yearly sequence the year and a dash, and then the serial in decimal, zero-padded to the configured width and no further; the serial is one more than the numbers given out before for the kind and sequence year |
| Mailbox.StepAgrees | packages/db/src/mailbox-repos.ts:1918-2109 | every step changes the cached count and the true count in step, up to the tracked drift |
| Mailbox.UnreadCountsAgree | packages/db/src/mailbox-repos.ts:1918-3768 | on every run the true unread count minus the cached one is the unread arrivals into trash or drafts since the last mark or reconciliation, less one after marking a thread without messages unread |
| Mailbox.CachedCountIsRightIff | packages/db/src/mailbox-repos.ts:1976-1981 | the cached count is right iff skipped arrivals and phantom balance |
| Mailbox.MarkUnreadIsRightIff | packages/db/src/mailbox-repos.ts:3733-3768 | marking unread leaves a right count iff the thread holds a message that is not a draft |
| Mailbox.TrashIsNeverRemembered | packages/db/src/mailbox-repos.ts:3681-3702 | on every run the remembered folder is never the trash |
| Mailbox.TrashThenInboxRestoresIff | packages/db/src/mailbox-repos.ts:3583-3731 | a thread moved to the trash and later to the inbox, with anything but its moving or deletion in between, is back in its old folder iff the last report on it had it in the trash or it came from the inbox |
| Mailbox.TrashThenInboxRestores | packages/db/src/mailbox-repos.ts:3583-3731 | it is, with nothing remembered, if all reports on it in between have it in the trash, as a synchronization after the pushed move does |
| Mailbox.LateReportLosesTheFolder | packages/db/src/mailbox-repos.ts:3583-3731 | one report of the inbox in between leaves an archived thread in the inbox, with the archive still remembered |
| Mailbox.EveryMessageHasItsThread | packages/db/src/pg-schema.ts:1633-1635 | on every run no message outlives its thread |
| MailboxRepositories.MailboxRepository.UpsertThread | packages/db/src/mailbox-repos.ts:1918-2025 | raises the count of the existing thread unless it is in the trash or the drafts, or inserts a thread in the given folder that remembers none; no other thread changes |
| MailboxRepositories.MailboxRepository.Reconcile | packages/db/src/mailbox-repos.ts:3583-3647 | a message that is no draft takes the reported read state and keeps its other columns, a draft and every other message stay as they are; its thread takes the reported folder and counts its unread messages anew; no other thread changes |
| MailboxAnswers.ReconcileIsExact | packages/db/src/mailbox-repos.ts:3583-3647 | what a report changes in the message and the thread, column by column, and that nothing changes without a thread |
| MailboxRepositories.MailboxRepository.MarkRead | packages/db/src/mailbox-repos.ts:2277-2298 | every message of the thread is read and its count zero; nothing else changes |
| MailboxRepositories.MailboxRepository.MarkUnread | packages/db/src/mailbox-repos.ts:3733-3768 | every message of the thread but the drafts is unread and its count is their number, but at least one; nothing else changes |
| MailboxRepositories.MailboxRepository.ApplyFolderMove | packages/db/src/mailbox-repos.ts:3704-3731 | moves iff the thread exists and, to the archive, is in the inbox: to the trash remembering its folder, from there to the inbox back to it, from the archive to the inbox forgetting, else by changing the folder alone |
| MailboxAnswers.MovingIsExact | packages/db/src/mailbox-repos.ts:3681-3702 | every move by the folder the thread is in and the folder asked for, the archive included |
| MailboxAnswers.CascadeIsExact | packages/db/src/pg-schema.ts:1633-1635 | deleting a thread takes exactly its messages along and leaves every other thread and message as it was |
| MailboxAnswers.LocalMessagesAreExact | packages/db/src/mailbox-repos.ts:2111-2345 | a delivery starts an unread thread in the inbox, a draft a read one in the drafts, a composed message a read one in the sent folder |
| MailboxRepositories.MailboxRepository.SyncMessages | apps/worker/src/mailbox-sync-worker.ts:266-313 | one step per message in order; inserted plus reconciled is the batch size, afterwards all are known, and a batch already known inserts nothing; without repeated identifiers each reported message is stored as a draft or with the reported read state, and messages not reported stay as they are |
| MailboxRepositories.BatchIsSynced | apps/worker/src/mailbox-sync-worker.ts:266-313 | on every run a batch of reports keeps each stored message with its thread and identifier, changes no message it does not report, and without repeated identifiers leaves a stored message for each report that is a draft or has the reported read state |
| MailboxAnswers.ReportedStateWins | apps/worker/src/mailbox-sync-worker.ts:266-313 | where no two stored messages share an identifier, every reported message that is no draft ends with the reported read state |
| MailboxAnswers.SyncStepIsExact | apps/worker/src/mailbox-sync-worker.ts:266-313 | a known message is refiled; an unknown one is stored as reported, in the thread its provider names or in a new one where there is none |
| MailboxTrash.DeletedCount | packages/db/src/mailbox-repos.ts:4021-4045 | of n threads 500 (n / 1000) + min(500, n mod 1000) are deleted |
| MailboxTrash.EmptiesIffOnePage | packages/db/src/mailbox-repos.ts:4021-4045 | the trash ends empty iff it held at most 500 threads |
| MailboxTrash.DeletedAt | packages/db/src/mailbox-repos.ts:4021-4045 | the j-th thread deleted stood at position 1000 (j / 500) + j mod 500 of the listing |
| MailboxTrash.KeptAt | packages/db/src/mailbox-repos.ts:4021-4045 | the j-th thread that stays stood 500 positions behind that |
| MailboxTrash.ConcatIsExact | packages/db/src/mailbox-repos.ts:3999-4007 | the paths of a list of messages are those of its parts, one after the other, and of a single message its own |
| MailboxTrash.BlobPathsAreExact | packages/db/src/mailbox-repos.ts:4037-4040 | the paths of a list of threads are those of its parts, and of a single thread those of its messages |
| MailboxTrash.TrashFolder.DeletePermanently | packages/db/src/mailbox-repos.ts:3999-4019 | deletes one thread and returns the attachment paths of all its messages, one message after the other |
| MailboxTrash.TrashFolder.EmptyTrash | packages/db/src/mailbox-repos.ts:4021-4045 | the loop terminates, deletes exactly positions 0-499 of every thousand, and returns exactly their attachment paths in order |
| SubscriptionCosts.ComputationsAgree | packages/db/src/company-subscription-repos.ts:546-714 | the per-provider costs add up to the flat estimate for any providers, plans, seats and prices |
| CostAnswers.PlanCostIsExact | packages/shared/src/company-subscription-recurring-cost.ts:68-87 | a plan costs its monthly price times its licensed seats if there are any, else its assigned seats, else one; without a price it has no cost |
| CostAnswers.ProviderCostIsExact | packages/shared/src/company-subscription-recurring-cost.ts:89-103 | a singular provider costs its own price, a seated one the sum of its plans, and nothing is known iff none of them has a price |
| CostAnswers.SeatsOfIsExact | packages/db/src/company-subscription-repos.ts:546-714 | the seat count of a provider is the number of pairs of one of its plans and a seat on it |
| CostAnswers.EstimateIsExact | packages/db/src/company-subscription-repos.ts:1412-1517 | the estimate is the sum over the providers, one after the other, of what each is shown to cost |
| SubscriptionCosts.EstimateTenantMonthlyCost | packages/db/src/company-subscription-repos.ts:1412-1517 | the two loops compute the flat estimate |
| SubscriptionCosts.BuildProviderOverview | packages/db/src/company-subscription-repos.ts:546-714 | each entry holds the provider's number of plans, of their seats, and its monthly cost, null when nothing has a price |
| SubscriptionCosts.SumPlansMonthlyCost | packages/shared/src/company-subscription-recurring-cost.ts:89-103 | the shared helper with its flag computes the same cost for one provider |
| SubscriptionCosts.BothComputations | packages/db/src/company-subscription-repos.ts:546-1517 | run on the same rows, both computations end with the same total |

## Left out

- Tenants: each model is one tenant's rows; every query filters by tenant.
- Queue: interval timers and the repeat loop of `pollQueue`, payload parsing, the 4096-byte truncation of stored results and errors, and the list and count queries.
- Key cache: reading the lifetime and capacity from the environment. Agreement with a plain map assumes that clock readings do not go back; the other cache properties do not.
- CRM: reserved names are compared after folding the letters A to Z, where the code folds all of Unicode and trims; the model so allows more names than the code, never fewer. Names, channels, addresses, tags, sort orders, search tokens and encryption of the rows, trimming of identifiers, and other calls running between the statements of one function.
- Search index: Unicode normalization (normalized text is the input) and the digests themselves; injectivity of the keyed hash is an assumption of the exactness lemmas, not of the completeness ones.
- SearchIndex.ContainsSearchIsExactIff: assumes that some character besides the space does not occur in the query.
- Strings: sequences of characters, where the code counts UTF-16 units; the n-gram and prefix lengths differ only for characters outside the basic plane.
- Field encryption: AES-GCM, nonces as bytes, base64 and JSON; an ideal cipher is an assumption, shown to be consistent.
- Fuzzy score: rounding of floating-point division; the score is a real number.
- Invoices: tax breakdowns, dates, audit events, e-mail, and the event rules that decide when a dispute may be resolved; the model allows every status change its status guard allows.
- InvoiceRepositories.InvoiceRepository.RegisterPayment: the positive amount is demanded by the request schema and is a condition of the run lemmas, not of the method.
- Document numbers: two MySQL calls interleaving between increment and read; numbers of quotes that use random identifiers.
- Mailbox: accounts and permissions, attachments outside the trash loop, provider push and its renaming of message identifiers, calendar invitations and SMTP.
- MailboxTrash.TrashFolder.EmptyTrash: assumes that the listing order does not change while the loop runs; rows with equal last-message times have no fixed order in the query.
- SubscriptionCosts.ComputationsAgree: both computations read the same rows; the price normalization to a month is a parameter.
