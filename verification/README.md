# Verification of the shared infrastructure

Dafny models, with proofs, of the stateful and arithmetic parts of the backend template:
exactly-once processing of webhooks, the in-memory cache and its connection handling, units
of work, the circuit-breaker registry, client addresses behind proxies, admin allowlists,
pagination, admission control, metric paths and migration ids.  `dafny verify dfyconfig.toml`
checks all of it.

Classes updated in place in the source are classes here (`SharedCache`, `Service`,
`InMemoryCache`, `CacheService`, `Session`, `UnitOfWork`, `AdmissionControlMiddleware`), each
method proved against a function of the old state; what the source promises is then proved
about those functions, mostly over whole runs.  Protocols between workers or threads are
state machines whose steps are single cache commands, single memory operations, or what a
coroutine does between two awaits.

Conventions and assumptions:

- The clock is a real number; a call reads it once, and moves on between the events of the
  state machines.  An entry has expired when the clock is strictly past its expiry.
- The cache layer swallows Redis errors, so each command has a fate (`Fate`): answered, not
  executed, or executed without the reply being heard.
- SHA-256 is a function into 64 hex digits; freedom from collisions is assumed only of the
  keys in use, and only where that is stated.  JSON is a pair of partial functions;
  `RoundTrips` says what is assumed of it.  The grammars of addresses and networks are
  partial functions.
- Redis is a store with GET, SET, SET NX EX, SETEX, DEL and SCAN.  What SCAN promises is
  `MarkerCleanup.Honest`.
- A session's uncommitted rows are discarded when it is closed, also when closing times out.

Where code and documentation disagree the code is modelled:

- `BaseUnitOfWork.__aexit__` imports `TimeoutException`, which http_exceptions.py does not
  define, so every exceptional exit raises there, the explicit rollback is never reached and
  no timeout is recorded, against its docstring.  What undoes the writes is the close in
  `finally`.
- `rollback` does not ask who owns the session: an inner unit drops what its parent has
  written, and the owner goes on to commit the rest.
- `check` promises to fail closed, but `CacheService.get` turns an error into None: when the
  script and GET fail and SET NX does not, it answers NEW for a completed request.  A script
  whose reply is lost leaves a marker that nobody holds.
- Nothing locks `_ensure_connected` while it waits for PING.  Overlapping calls are not held
  back by the backoff, and a failure that overlaps a success leaves the service initialised
  without a client until it is closed.  An attempt that ends in an unhandled error records no
  failure, so nothing holds back the next one.  A `close` in which the client raises
  something unexpected leaves the service initialised without a client as well.
- `invalidate` is two deletes and can take the marker of a worker that checks in between.
- `cleanup_stuck_in_progress` for namespace `a` also removes the markers of `a:b`.
- A unit of work given its session through the constructor keeps auto_commit and commits its
  parent's rows.
- A cache with max_size below 10 never evicts, and setnx never makes room.
- A reconnect that succeeds leaves an in-memory fallback in use; a failed one empties it.
- The integration tests call `mark_complete`; the method is `store`.

## Model

| member | source | states |
|---|---|---|
| IdempotencyProtocol.MutualExclusion | backend/core/infrastructure/idempotency/service.py:51-70 | in every state reachable from any store, over every interleaving of any number of workers (atomic and non-atomic checks, heard or not, both writes of store, clears, crashes, invalidations, ticks), at most one worker holds a request it was told is NEW, under a live marker, if the holders of this request finish within 300 s and nobody deletes its marker while it is held |
| IdempotencyProtocol.StepKeepsExclusive | backend/core/infrastructure/idempotency/service.py:174-359 | each single cache command keeps that invariant if and only if it is timely: a tick within 300 s of every holder, a deleted marker (the second half of invalidate) only while nobody holds the request |
| IdempotencyProtocol.ExactlyOnce | backend/core/infrastructure/idempotency/service.py:4-5 | in every run from the start, atomic and non-atomic checks mixed, in which the request is never given back (cleared, crashed, not stored, invalidated, expired) and no non-atomic check acquires it late, at most one check is answered NEW |
| IdempotencyProtocol.SecuredIsNeverNewIff | backend/core/infrastructure/idempotency/service.py:56-69 | over whole runs: once somebody is processing a request or its result is stored, no check of it is answered NEW if and only if no non-atomic check acquires it late |
| IdempotencyProtocol.StepKeepsSecured | backend/core/infrastructure/idempotency/service.py:265-298 | the one command that answers NEW for such a request is an acquire of the non-atomic check while the result is live and the marker is gone |
| IdempotencyProtocol.ReleasesAreExact | backend/core/infrastructure/idempotency/service.py:300-359 | a request that is processed or done stays so through a timely command if and only if it is not cleared, crashed, not stored, invalidated or expired by it |
| IdempotencyProtocol.LateAcquireNeedsAWriteInBetween | backend/core/infrastructure/idempotency/service.py:265-298 | every schedule that ends in a late acquire has a write of the result between the worker's readable probe and its acquire, and no result at the probe |
| IdempotencyProtocol.ScriptsAreNeverLate | backend/core/infrastructure/idempotency/service.py:51-70 | runs whose checks of a request are all by the script have no late acquire of it |
| IdempotencyProtocol.FirstCheckIsNew | backend/core/infrastructure/idempotency/service.py:56-69 | a check is answered NEW if and only if neither a live result nor a live marker is there |
| IdempotencyProtocol.CompletedAnswerPersists | backend/core/infrastructure/idempotency/service.py:300-329 | in every reachable state with a result, and every run from there without a late acquire or an invalidation of it, the result is what every later check returns, value included, until its TTL is up; no delete or store of another worker touches it |
| IdempotencyProtocol.StepKeepsFinal | backend/core/infrastructure/idempotency/service.py:174-329 | a command leaves nobody processing a request whose result is there if and only if it is not a late acquire |
| IdempotencyProtocol.DeadlineIsExact | backend/core/infrastructure/idempotency/service.py:136 | a rival is told NEW while a worker is processing if and only if 300.0 s have passed |
| IdempotencyProtocol.OtherRequestsAreUntouched | backend/core/infrastructure/idempotency/service.py:9 | an event about another key or namespace leaves the result and the marker of this one as they are |
| IdempotencyProtocol.ClearReopens | backend/core/infrastructure/idempotency/service.py:331-343 | clear_in_progress lets the next check be NEW |
| IdempotencyProtocol.InvalidateReopens | backend/core/infrastructure/idempotency/service.py:345-359 | after both deletes of invalidate the next check is NEW |
| IdempotencyProtocol.UninterruptedProbeIsTheScript | backend/core/infrastructure/idempotency/service.py:265-298 | the two commands of the non-atomic check, back to back, leave the store and the verdict of the script |
| IdempotencyProtocol.StoreLeavesOnlyTheResult | backend/core/infrastructure/idempotency/service.py:317-329 | store ends with the result under its TTL, the marker gone and nothing else changed |
| IdempotencyProtocol.WriteThenDeleteHasNoGap | backend/core/infrastructure/idempotency/service.py:321-329 | between and after the two writes of store a rival sees IN_PROGRESS, DUPLICATE, DUPLICATE |
| IdempotencyProtocol.DeleteThenWriteHasAGap | backend/core/infrastructure/idempotency/service.py:321-329 | with the two writes swapped a rival in between is told NEW, in every store |
| IdempotencyProtocol.LosingTheMarkerReopens | backend/core/infrastructure/idempotency/service.py:425-429 | a holder whose marker is deleted by somebody else is unprotected: the next check is NEW |
| IdempotencyProtocol.SlowHolderIsNotAlone | backend/core/infrastructure/idempotency/service.py:136 | for every request a run in which a holder slower than 300 s ends with two holders |
| IdempotencyProtocol.InvalidateCanRaceACheck | backend/core/infrastructure/idempotency/service.py:355-358 | for every request a run in which invalidate, started while nobody holds it, ends with two holders |
| IdempotencyProtocol.NonAtomicCheckCanRepeatCompletedWork | backend/core/infrastructure/idempotency/service.py:265-298 | for every request a run, breaking no assumption, that ends in a late acquire: the non-atomic check answers NEW although the result is stored |
| IdempotencyService.RepeatsCompletedWorkIff | backend/core/infrastructure/idempotency/service.py:174-298 | check fails open in exactly one case: with a usable result live it answers NEW if and only if the script is not answered, PING is, GET is not, SET NX is, and no marker is live |
| IdempotencyService.AnswersNewIff | backend/core/infrastructure/idempotency/service.py:174-298 | without a usable result it answers NEW if and only if no marker is live and the commands it needs are answered, for every backend and every fate of every command |
| IdempotencyService.SilentGetRepeatsCompletedWork | backend/core/infrastructure/cache/service.py:358-439 | right after a response was stored, a check with a failing script and a swallowed GET error is told NEW, and with an answered GET gets the response |
| IdempotencyService.OrphanMarkerIff | backend/core/infrastructure/cache/service.py:712-734 | an untouched request is left IN_PROGRESS with nobody processing it if and only if the reply to the script, or to SET NX after a refused script, is lost |
| IdempotencyService.CheckOutcome | backend/core/infrastructure/idempotency/service.py:174-263 | NEW leaves a fresh 300 s marker, a returned response is the live result, nothing else in the store changes, and without a cache there is only the error |
| IdempotencyService.CheckIsARun | backend/core/infrastructure/idempotency/service.py:174-298 | whatever becomes of its commands, a check is a run of protocol events that leaves the same store, and its worker holds the request exactly when it is told NEW |
| IdempotencyService.StoreIsARun | backend/core/infrastructure/idempotency/service.py:300-329 | so is a store by the holder |
| IdempotencyService.NonAtomicEqualsScript | backend/core/infrastructure/idempotency/service.py:265-298 | uninterrupted and answered, the non-atomic check gives the answer and the store of the script path, except exactly when the live result is the empty string |
| IdempotencyService.StoredResponseComesBackIff | backend/core/infrastructure/idempotency/service.py:300-329 | for every TTL and every fate of every command, store then check returns the response if and only if the cache is read and either it was written and its TTL is not up, or nothing was written and the same response was there before |
| IdempotencyService.StoreHonoursTheTtl | backend/core/infrastructure/idempotency/service.py:317-322 | a stored response comes back until exactly the TTL asked for is up, 604800 s for none or zero; a negative one leaves what was there |
| IdempotencyService.AnswersAreReadIff | backend/core/infrastructure/idempotency/service.py:174-298 | a check returns a response if and only if it is the live result and the script or GET is answered |
| IdempotencyService.UnserialisableResponseIsRetried | backend/core/infrastructure/idempotency/service.py:321-329 | a response that cannot be encoded only drops the marker, so the request is NEW again |
| IdempotencyService.Service.Check | backend/core/infrastructure/idempotency/service.py:174-263 | the code of check on a shared cache has exactly that outcome, for the key built from the hashed request key and the namespace, whatever becomes of each command |
| IdempotencyService.Service.CheckNonAtomic | backend/core/infrastructure/idempotency/service.py:265-298 | the code of the fallback check has exactly the modelled outcome, swallowed errors included |
| IdempotencyService.Service.Store | backend/core/infrastructure/idempotency/service.py:300-329 | the code of store leaves exactly the modelled store, swallowed errors included |
| IdempotencyService.Service.ClearInProgress | backend/core/infrastructure/idempotency/service.py:331-343 | removes the marker and nothing else, and nothing when the delete is refused |
| IdempotencyService.Service.Invalidate | backend/core/infrastructure/idempotency/service.py:345-359 | removes the result and the marker, each unless its delete is refused, and nothing else |
| IdempotencyService.SharedCache.EvalCheckScript | backend/core/infrastructure/idempotency/service.py:51-70 | the script run as one command has exactly the modelled effect, and the modelled verdict if the reply is heard |
| IdempotencyKeys.KeysAreInjective | backend/core/infrastructure/idempotency/service.py:157-172 | two requests share a result key, and share a marker key, if and only if their hashes are equal and their namespaces are, the empty namespace being none |
| IdempotencyKeys.KeyLayout | backend/core/infrastructure/idempotency/service.py:164-172 | the literal layout of result keys and markers |
| IdempotencyKeys.ExternalKeysAreInjectiveIff | backend/core/infrastructure/idempotency/service.py:147-167 | among the external keys in use, two requests share a cache key only if they are the same key in the same namespace, if and only if the digest does not collide on those keys |
| IdempotencyKeys.MarkersAreInjective | backend/core/infrastructure/idempotency/service.py:169-172 | markers of different keys differ, and no marker is anybody's result key |
| IdempotencyKeys.PatternSelects | backend/core/infrastructure/idempotency/service.py:442-446 | the scan pattern of a glob-free namespace matches the markers of that namespace and of those that extend it with a colon, and no others; without a namespace it matches all |
| IdempotencyKeys.PatternSparesCompleted | backend/core/infrastructure/idempotency/service.py:442-446 | the scan pattern never matches a result key, also for a namespace with wildcards |
| IdempotencyKeys.LiteralStarLiteral | backend/core/infrastructure/idempotency/service.py:442-446 | what MATCH means for a pattern with one star: prefix and suffix that do not overlap |
| IdempotencyKeys.WildcardsMean | backend/core/infrastructure/idempotency/service.py:442-446 | `?` matches exactly one character, `*` anything |
| MarkerCleanup.CleanupStuckInProgress | backend/core/infrastructure/idempotency/service.py:448-476 | deletes exactly the first max_cleanup keys SCAN returns, repetitions counted, or those up to a SCAN or DEL that raises, returns how many DELs went well, and touches nothing else |
| MarkerCleanup.CountsWhatItDeletes | backend/core/infrastructure/idempotency/service.py:452-467 | what is counted and what is deleted are prefixes of what SCAN returns, of equal length unless a DEL is executed and raises |
| MarkerCleanup.LaterRepliesDoNotMatter | backend/core/infrastructure/idempotency/service.py:452-465 | the loop stops at the first cursor 0, error or limit: any further replies change nothing |
| MarkerCleanup.CleanupSparesResults | backend/core/infrastructure/idempotency/service.py:425-429 | no completed result is deleted, whatever the namespace |
| MarkerCleanup.CleanupSparesOtherNamespaces | backend/core/infrastructure/idempotency/service.py:442-446 | no marker outside a glob-free namespace and those below it is deleted |
| MarkerCleanup.CleanupIsThorough | backend/core/infrastructure/idempotency/service.py:452-465 | a full pass that returns no more than max_cleanup keys leaves no marker of the namespace |
| InMemoryCaching.InMemoryCache.Get | backend/core/infrastructure/cache/service.py:62-72 | returns the unexpired value or None, and drops an expired entry |
| InMemoryCaching.InMemoryCache.Set | backend/core/infrastructure/cache/service.py:74-88 | makes room when full (cleanup, then the oldest tenth) and writes at the end of the order or in place |
| InMemoryCaching.InMemoryCache.SetNx | backend/core/infrastructure/cache/service.py:90-100 | writes exactly when no unexpired entry is there, without making room |
| InMemoryCaching.InMemoryCache.Delete | backend/core/infrastructure/cache/service.py:102-108 | removes the key and says whether it was there, expired or not |
| InMemoryCaching.InMemoryCache.DeletePattern | backend/core/infrastructure/cache/service.py:110-118 | removes exactly the matching keys and counts them |
| InMemoryCaching.InMemoryCache.CleanupExpired | backend/core/infrastructure/cache/service.py:55-60 | removes exactly the entries that have expired, except an expiry of exactly 0.0, and nothing else |
| InMemoryCaching.Cleaned | backend/core/infrastructure/cache/service.py:55-60 | cleaning is invisible to every lookup then and later |
| InMemoryCaching.EvictionTakesTheOldest | backend/core/infrastructure/cache/service.py:80-84 | what goes are the first max_size // 10 places of the insertion order |
| CacheRuns.OrderIsInsertionOrder | backend/core/infrastructure/cache/service.py:81-84 | over every run keys stand in the order of their first write since they were last absent, so the places evicted are the oldest |
| InMemoryCaching.SetIsSeen | backend/core/infrastructure/cache/service.py:74-88 | a set never evicts what it has just written: a later get returns it exactly until now + ttl, for ever without a TTL |
| InMemoryCaching.SetNxIsSeen | backend/core/infrastructure/cache/service.py:90-100 | so does a setnx that finds nothing; one that finds something changes nothing |
| InMemoryCaching.GetDropsTheExpired | backend/core/infrastructure/cache/service.py:62-72 | a get drops an entry it finds expired and touches nothing else |
| InMemoryCaching.CleanupRemovesTheExpired | backend/core/infrastructure/cache/service.py:55-60 | exactly what has expired goes, said by the expiry alone |
| CacheRuns.GetReturnsTheLastWrite | backend/core/infrastructure/cache/service.py:49-118 | in every run, evictions included, what a get returns is the value last written to the key, unexpired, with no delete since |
| CacheRuns.AgreesWithTimedMap | backend/core/infrastructure/cache/service.py:49-118 | as long as no set has evicted an unexpired key other than its own, every get and every setnx answers as a timed map without eviction |
| CacheRuns.UnexpiredRoomIsEnough | backend/core/infrastructure/cache/service.py:74-88 | with a positive clock and no negative TTL: if no set finds max_size or more unexpired entries, the whole run agrees with the timed map on every entry and every get |
| CacheRuns.WithRoomItIsATimedMap | backend/core/infrastructure/cache/service.py:74-88 | for any clock: the same if no set finds max_size or more entries that are unexpired or expire at exactly 0.0, or max_size is below 10 |
| CacheRuns.NobodyIsEvictedIff | backend/core/infrastructure/cache/service.py:76-84 | a set evicts nobody if and only if fewer than max_size entries are unexpired or expire at exactly 0.0, or max_size is below 10 |
| CacheRuns.SetIsExactIff | backend/core/infrastructure/cache/service.py:76-88 | a single set agrees with the timed map if and only if it evicts no unexpired key other than its own |
| CacheRuns.SizeIsBounded | backend/core/infrastructure/cache/service.py:74-100 | with max_size of at least 10 the cache never holds more than max_size entries plus one per successful setnx |
| CacheRuns.SizeBoundIsReached | backend/core/infrastructure/cache/service.py:90-100 | for every size and every k a run of max_size sets and k setnx ends at max_size + k entries |
| CacheRuns.SmallCachesAreUnbounded | backend/core/infrastructure/cache/service.py:82 | with max_size below 10 a run of n sets leaves n entries, for every n |
| CacheConnection.CacheService.BeginAttempt | backend/core/infrastructure/cache/service.py:238-271 | as far as the await: the guard, the fallback made while waiting out a backoff, and the new client, exactly |
| CacheConnection.CacheService.FinishAttempt | backend/core/infrastructure/cache/service.py:271-316 | from the await on: exactly the modelled fields for success, both kinds of handled failure and an escaping error |
| CacheConnection.CacheService.EnsureConnected | backend/core/infrastructure/cache/service.py:238-316 | a call that nobody interrupts makes one attempt at most, with exactly that effect |
| CacheConnection.UninterruptedCallIsBeginFinish | backend/core/infrastructure/cache/service.py:238-316 | such a call is its two halves back to back |
| CacheConnection.CacheService.Close | backend/core/infrastructure/cache/service.py:736-758 | drops client and fallback, empties the fallback and makes a new attempt possible, keeping the backoff; an error of the client that is not handled drops the client too but leaves the service initialised |
| CacheConnection.CloseDropsTheCaches | backend/core/infrastructure/cache/service.py:736-758 | after a close there is neither client nor fallback, the backoff is as it was, and calls connect again unless it raised |
| CacheConnection.EveryStateIsConsistent | backend/core/infrastructure/cache/service.py:203-236 | in every reachable state, however calls overlap, the delay is min(2^failures, 60) s, the fallback flag is on exactly when a fallback cache exists, and only where it is allowed |
| CacheConnection.FailuresAreSpacedIff | backend/core/infrastructure/cache/service.py:203-230 | however calls overlap, a failure after k others comes from an attempt that waited min(2^k, 60) s after the last of them if and only if the attempt began after that one was recorded |
| CacheConnection.EveryFailureWaitsIff | backend/core/infrastructure/cache/service.py:203-230 | the same for whole runs |
| CacheConnection.AttemptsWaitOutTheBackoffIff | backend/core/infrastructure/cache/service.py:203-213 | in every run a call attempts a connection if and only if the service is not initialised and min(2^k, 60) s have passed since the last of the k failures recorded by then, if any |
| CacheConnection.FailuresFallBack | backend/core/infrastructure/cache/service.py:248-316 | where a fallback is allowed an empty one is in use after any handled failure, and there is one while a backoff is waited out; elsewhere never |
| CacheConnection.StreaksAreSpread | backend/core/infrastructure/cache/service.py:24-28 | in every run in which no failure overlaps the one before, k failures in a row take at least the sum of their delays, 62 + 60 (k - 6) s from the sixth on |
| CacheConnection.OverlappingFailuresHaveNoGap | backend/core/infrastructure/cache/service.py:245-271 | for every n a run in which n overlapping callers record n failures at one moment: nothing locks the service |
| CacheConnection.StrandedIff | backend/core/infrastructure/cache/service.py:271-278 | in every run the service becomes initialised without a client or a failure on record in exactly two ways: an attempt succeeds after its client was dropped while it waited, or a close of a connected service raises an error that is not handled |
| CacheConnection.StrandedStays | backend/core/infrastructure/cache/service.py:245-246 | nothing gets it out but a close that goes through or a failure of an attempt already in flight |
| CacheConnection.StrandedIsReachable | backend/core/infrastructure/cache/service.py:746-758 | a run for each of the two ways |
| CacheConnection.EscapingAttemptsDoNotWait | backend/core/infrastructure/cache/service.py:271-299 | an error that is not handled records no failure: for every n a run of n attempts one after the other at one moment |
| CacheConnection.BackoffIsCappedPower | backend/core/infrastructure/cache/service.py:227-230 | doubling with a cap is min(2^n, 60) |
| CacheConnection.AttemptsWaitForClose | backend/core/infrastructure/cache/service.py:245-246 | after a handled attempt, good or bad, further calls change nothing until close; an escaping error leaves the service uninitialised |
| CacheConnection.ReconnectUsesRedisIff | backend/core/infrastructure/cache/service.py:269-276 | a successful connection puts Redis into use if and only if there was no fallback cache |
| CacheConnection.StaleFallbackIsReachable | backend/core/infrastructure/cache/service.py:256-276 | a run that ends connected to Redis with the fallback still in front |
| CacheConnection.FailedRetryForgetsCompletedWorkIff | backend/core/infrastructure/cache/service.py:281-283 | a request completed on the fallback in use is answered DUPLICATE before a connection attempt and NEW after it if and only if the attempt fails in a handled way |
| CacheConnection.ProductionWithoutAClient | backend/core/infrastructure/idempotency/service.py:242-254 | where no fallback is allowed, in every reachable state without a client check raises and changes nothing, unless the connection step of its script, or of its PING when the backoff has run out in between, attempts and connects; then it goes on exactly as with Redis, or as with Redis without the script |
| CacheConnection.InitializedCheck | backend/core/infrastructure/cache/service.py:703-719 | on an initialised service the connection steps of the commands do nothing and check is exactly its modelled outcome, without a client the error |
| CacheConnection.FreshServiceServes | backend/core/infrastructure/cache/service.py:238-276 | a service just created connects on the way, answers NEW to an untouched request and leaves its marker |
| UnitsOfWork.OwnerAppliesWhatIsCommittedFirst | backend/core/infrastructure/database/uow.py:24-28 | for every program, with nesting, commits, rollbacks and auto_commit as it likes, the owner leaves in the database exactly the rows whose writing is followed by a commit that goes through before any rollback that does, in order |
| UnitsOfWork.SettlesIff | backend/core/infrastructure/database/uow.py:259-294 | that rule by places: some commit comes with no rollback before it |
| UnitsOfWork.OwnerAppliesTheRest | backend/core/infrastructure/database/uow.py:24-28 | with configured inner units and no commit of their own the owner applies the rows written since the last rollback, exactly when no exception leaves the body, auto_commit is on and the commit goes through, and nothing otherwise |
| UnitsOfWork.OwnerIsAllOrNothingIff | backend/core/infrastructure/database/uow.py:24-28 | that is every write or none if and only if nothing is applied or no rollback came between writes, whoever called it |
| UnitsOfWork.EvalIsReplay | backend/core/infrastructure/database/uow.py:170-208 | running any program and replaying its log of writes, commits and rollbacks come to the same |
| UnitsOfWork.BodiesOnlyQueue | backend/core/infrastructure/database/uow.py:79-122 | until the owner exits the database is as it was; nested bodies of any depth queue their writes in order, from the last rollback on |
| UnitsOfWork.InnerUnitCommitsIff | backend/core/infrastructure/database/uow.py:39-51 | for every program of an inner unit: it changes the database if and only if some commit in it, its exit's included, goes through while rows are queued |
| UnitsOfWork.FailedOwnerIsCleanIff | backend/core/infrastructure/database/uow.py:195-206 | an owner that fails leaves nothing behind if and only if no commit in its body did so |
| UnitsOfWork.ConstructorSharingCommits | backend/core/infrastructure/database/uow.py:39-51 | a unit given its session through the constructor commits its parent's rows with its own |
| UnitsOfWork.SharingWithoutAutoCommitOnlyQueues | backend/core/infrastructure/database/uow.py:39-51 | a unit that shares its session with auto_commit off leaves the database to its parent |
| UnitsOfWork.ConstructorSharingBreaksAtomicity | backend/core/infrastructure/database/uow.py:44-51 | with such a unit inside, an owner that fails has committed anyway |
| UnitsOfWork.InnerRollbackTearsTheOwner | backend/core/infrastructure/database/uow.py:273-294 | rollback has no test of ownership: called by an inner unit it drops its parent's rows, and the owner commits what is written after |
| UnitsOfWork.SwallowedFailureIsCommitted | backend/core/infrastructure/database/uow.py:195-206 | an inner unit that fails does not undo its writes: an owner whose body swallows the exception commits them |
| UnitsOfWork.UnitOfWork.Enter | backend/core/infrastructure/database/uow.py:142-168 | an owner opens a session of its own or fails without a factory; a shared unit keeps its session; a failed registration closes an owned session |
| UnitsOfWork.UnitOfWork.Exit | backend/core/infrastructure/database/uow.py:170-208 | commit only without exception and with auto_commit; an exception always raises, with no rollback and no timeout recorded; an owner closes and forgets its session in any case, a shared unit never closes |
| UnitsOfWork.UnitOfWork.Commit | backend/core/infrastructure/database/uow.py:259-271 | applies the queued rows, or rolls back and raises, and raises without a session |
| UnitsOfWork.UnitOfWork.Rollback | backend/core/infrastructure/database/uow.py:274-294 | drops the queued rows unless the rollback itself fails, which is swallowed |
| UnitsOfWork.UnitOfWork.ConfigureForSharedSession | backend/core/infrastructure/database/uow.py:112-122 | takes the session, gives up ownership and auto_commit |
| UnitsOfWork.RunInner | backend/core/infrastructure/database/uow.py:100-104 | running a program in an inner unit of this code has exactly the reference effect and leaves the session open |
| UnitsOfWork.RunOwner | backend/core/infrastructure/database/uow.py:142-208 | running a program in an owner of this code has exactly the reference effect and leaves the session closed |
| BreakerRegistry.OneRegistryOneFactoryPerKind | backend/core/security/circuit_breaker.py:57-64 | over all interleavings of any number of threads without reset at most one registry and one factory per kind is constructed, all calls of a kind return that factory, and no unlocked read finds nothing |
| BreakerRegistry.CallsGetWhatTheyAskedFor | backend/core/security/circuit_breaker.py:125-151 | over every run, resets or not, a thread that has returned holds a factory made for the kind of its last call |
| BreakerRegistry.InvariantHolds | backend/core/security/circuit_breaker.py:125-151 | without reset the invariant of both double-checked locks holds after every atomic step |
| BreakerRegistry.NoDeadlock | backend/core/security/circuit_breaker.py:133 | with any number of resets, as long as a call has not returned some thread can take a step |
| BreakerRegistry.ResetBreaksTheUnlockedReadsIff | backend/core/security/circuit_breaker.py:66-77 | a step of a reset makes a failing read possible if and only if it clears the table while a thread is about to release that registry's lock or to read, or forgets the singleton while a thread is about to read it; otherwise no continuation fails |
| BreakerRegistry.StrikesIff | backend/core/security/circuit_breaker.py:66-77 | an event takes away what a thread is about to read if and only if it is such a step |
| BreakerRegistry.NobodyFailsUnstruck | backend/core/security/circuit_breaker.py:125-151 | with any number of resets none of which does so, no unlocked read ever finds nothing |
| BreakerRegistry.FirstResetBreaksIff | backend/core/security/circuit_breaker.py:66-77 | after an uninterrupted first reset a thread has nothing to read if and only if it stood between its last check and its read |
| BreakerRegistry.ResetIsItsSteps | backend/core/security/circuit_breaker.py:72-76 | check, clear, forget and release under the lock come to that reset |
| IpNetworks.ContainsIffInBlock | backend/core/security/proxy_validation.py:96 | `address in network` by masks is membership in the interval of 2^(width - prefix) addresses, for IPv4 and IPv6, whatever host bits were configured |
| IpNetworks.HostBitsDoNotMatter | backend/core/security/proxy_validation.py:47 | every address of a block with its prefix length makes the same network |
| IpNetworks.LongerPrefixIsNarrower | backend/core/security/proxy_validation.py:88-96 | a longer prefix never lets more addresses in |
| IpNetworks.HostPrefixIsTheAddress | backend/core/infrastructure/admin/auth_backend.py:60-63 | a full-length prefix is the one address |
| ProxyValidation.ParseTrustedNetworks | backend/core/security/proxy_validation.py:27-54 | parses all CIDRs in order or fails on the first invalid one |
| ProxyValidation.IsTrusted | backend/core/security/proxy_validation.py:75-96 | trusted exactly for valid addresses in some configured network; blank, unknown and malformed texts are not |
| ProxyValidation.ExtractClientIp | backend/core/security/proxy_validation.py:99-200 | the loop from the right, its skips, and both fallbacks compute exactly the modelled address |
| ProxyValidation.WalkFindsTheRightmost | backend/core/security/proxy_validation.py:143-180 | the walk finds the rightmost valid untrusted token, and none exactly when there is none |
| ProxyValidation.TrustedPeerGivesTheRightmost | backend/core/security/proxy_validation.py:155-180 | from a trusted peer a chain with a client gives its rightmost client |
| ProxyValidation.TrustedChainGivesTheLeftmost | backend/core/security/proxy_validation.py:182-200 | a chain without one gives its leftmost entry if that is an address, else the peer |
| ProxyValidation.LastEntryDecides | backend/core/security/proxy_validation.py:136-157 | if the last entry, white space aside, is a client, it is the answer |
| ProxyValidation.WithoutAHeaderThePeerIsTaken | backend/core/security/proxy_validation.py:121-125 | without a header the peer is taken, a missing one as "unknown" |
| ProxyValidation.ConfigurationErrorsSurfaceIff | backend/core/security/proxy_validation.py:75-96 | a bad configuration raises exactly when there is a header and the peer is an address |
| ProxyValidation.TrustedIffInABlock | backend/core/security/proxy_validation.py:75-96 | trusted are exactly the addresses inside one of the configured intervals |
| ProxyValidation.ClientIffOutsideEveryBlock | backend/core/security/proxy_validation.py:157-180 | the walk stops exactly at addresses outside all of them |
| ProxyValidation.PrefixDoesNotMatter | backend/core/security/proxy_validation.py:155 | whatever is put in front of a header that holds a valid untrusted address, the result is the same |
| ProxyValidation.TrustedHopsDoNotMatter | backend/core/security/proxy_validation.py:144-153 | trusted, blank or malformed hops appended on the right do not change the result |
| ProxyValidation.WithoutAClientThePrefixDecides | backend/core/security/proxy_validation.py:155 | the condition is exact: with no valid untrusted address among the proxies' entries, an address put in front is the result |
| ProxyValidation.UntrustedPeerIsTakenAsIs | backend/core/security/proxy_validation.py:127-134 | from an untrusted peer the header is ignored |
| Text.SplitAcross | backend/core/security/proxy_validation.py:138 | splitting a concatenation at a separator is the concatenation of the splits |
| Text.StripIsIdempotent | backend/core/security/proxy_validation.py:157 | stripping twice is stripping once |
| Text.CharacterClasses | backend/core/security/proxy_validation.py:157 | which characters count as digits and as white space, by their codes |
| Text.StripOnlyDropsSpace | backend/core/security/proxy_validation.py:157 | all that stripping takes away is white space at the two ends |
| AdminAllowlist.ParseAllowedIps | backend/core/infrastructure/admin/auth_backend.py:54-76 | collects exactly the valid exact entries and the valid networks |
| AdminAllowlist.CheckIpAllowed | backend/core/infrastructure/admin/auth_backend.py:243-279 | lets a client in exactly when the list is empty or some valid entry admits it |
| AdminAllowlist.NetworkEntryAdmitsItsBlock | backend/core/infrastructure/admin/auth_backend.py:260-273 | a CIDR entry lets through exactly the addresses of its interval |
| AdminAllowlist.ExactEntryAdmitsItsText | backend/core/infrastructure/admin/auth_backend.py:265-267 | an exact entry lets through exactly the client written like it |
| AdminAllowlist.InvalidEntriesAdmitNobody | backend/core/infrastructure/admin/auth_backend.py:254-279 | a list of blank and malformed entries lets nobody through, the empty list everybody |
| AdminAllowlist.ListsAreUnions | backend/core/infrastructure/admin/auth_backend.py:254-279 | a list lets through whom one of its entries alone would |
| AdminAllowlist.OnlyValidEntriesMatter | backend/core/infrastructure/admin/auth_backend.py:51-76 | on non-empty lists the decision depends only on the set of valid entries |
| AdminAllowlist.AddingEntriesIsMonotoneIff | backend/core/infrastructure/admin/auth_backend.py:254-279 | adding entries keeps a client in if and only if the list was not empty or a new entry admits it |
| AdminAllowlist.ExactEntriesCompareTexts | backend/core/infrastructure/admin/auth_backend.py:265-273 | an exact entry compares texts: the same address written differently is admitted by the full-length CIDR only |
| Pagination.FastAgreesWithCounted | backend/core/infrastructure/database/repositories/base.py:270-326 | counting and fast pagination agree on items, has_next and has_previous for every page of every result |
| Pagination.HasNextMeansRowsLeft | backend/core/infrastructure/database/repositories/base.py:279-280 | both announce a next page exactly when rows are left after this one |
| Pagination.PagesDescribeThemselves | backend/core/infrastructure/database/repositories/base.py:279-326 | page number, page size, total and has_previous mean what they say, -1 standing for unknown |
| Pagination.PagesAreJustEnough | backend/core/infrastructure/database/repositories/base.py:279 | total_pages is the least number of pages that holds all rows, one for none |
| Pagination.PagesPartitionTheResult | backend/core/infrastructure/database/repositories/base.py:279-296 | following has_next from page 1 ends and yields every row once, in order |
| Pagination.RowIsOnItsPage | backend/core/infrastructure/database/repositories/base.py:283-286 | row i is item i mod size of page i div size + 1, and that page exists |
| Pagination.MetaAgreesWithCounted | backend/core/api/dtos/pagination.py:127-135 | the DTO agrees on has_next and has_prev, and on total_pages exactly when there are rows |
| Pagination.MetaDescribesItself | backend/core/api/dtos/pagination.py:127-135 | the DTO carries its arguments and has no pages for a page size that is not positive |
| AdmissionControl.AdmissionControlMiddleware.Begin | backend/core/api/middleware/admission_control.py:81-113 | exempt paths pass, a full gate rejects and counts, otherwise one permit is taken and one request counted |
| AdmissionControl.AdmissionControlMiddleware.End | backend/core/api/middleware/admission_control.py:117-120 | gives back the permit and the count |
| AdmissionControl.NothingIsLost | backend/core/api/middleware/admission_control.py:81-120 | in every reachable state permits plus current requests is the maximum, the counter is the number of admitted running requests, and arrivals are rejected, finished or in flight, however handlers end |
| AdmissionControl.RejectedIffFull | backend/core/api/middleware/admission_control.py:88-108 | a request is rejected if and only if it is not exempt and the maximum is in flight |
| AdmissionControl.ExemptIff | backend/core/api/middleware/admission_control.py:64-79 | exempt are exactly the paths that end, slashes aside, in a probe path |
| PathNormalizer.NormalizeIsPass | backend/core/observability/metrics.py:220 | the leftmost non-overlapping substitution is the alternating replacement over the slash-separated parts, on every newline-free path |
| PathNormalizer.OddOnesAreReplaced | backend/core/observability/metrics.py:220 | in each run of adjacent numeric segments exactly the 1st, 3rd, 5th, ... are replaced |
| PathNormalizer.OnePassIsEnoughIff | backend/core/observability/metrics.py:220 | one pass leaves no numeric segment if and only if no two were adjacent, and then it is idempotent |
| PathNormalizer.SeparatedPassIsSegmentwise | backend/core/observability/metrics.py:220 | without adjacent numeric segments the pass is the segment-wise map |
| PathNormalizer.NumericSegmentBecomesId | backend/core/observability/metrics.py:220 | a path of one numeric segment becomes /{id}, also in front of a final newline |
| PathNormalizer.TwoPassesReachAFixpoint | backend/core/observability/metrics.py:220 | two passes leave no numeric segment and a third changes nothing |
| RevisionIds.ParseUndoesFormat | backend/migrations/env.py:116-123 | a printed id stands for the number it was printed from, for every number, beyond 999 and below 0 too |
| RevisionIds.IdsAreThreeDigits | backend/migrations/env.py:123 | an id has at least three digits and no zero in front beyond that |
| RevisionIds.SignsAndUnderscores | backend/migrations/env.py:117 | int() takes a plus and single underscores between digits, and refuses a trailing one and nothing |
| RevisionIds.NextFollowsFormat | backend/migrations/env.py:110-123 | after the print of n comes the print of n + 1, for every n |
| RevisionIds.IdsCountUp | backend/migrations/env.py:103-123 | from any head whatsoever, "7" or "0012" too, successive ids are the prints of the numbers after the head's |
| RevisionIds.IdsAreDistinct | backend/migrations/env.py:104 | successive ids are strictly increasing and never repeat, from any head |
| RevisionIds.UnparsableHeadRestarts | backend/migrations/env.py:118-120 | a head that is not a number starts again at 001 |

## Left out

- Redis, PostgreSQL, SQLAlchemy and the breaker library themselves: only the operations used are modelled, as abstract steps.
- The in-place form of the three protocols between workers, threads and overlapping calls: they are state machines on values, so aliasing is not captured; one caller's calls are also proved in place (`Service`, `SharedCache`, `CacheService`).
- A connection that comes or goes between the commands of one check or store: the backend is the same throughout the call, except that in production each command of a check may make the connection (`CacheConnection.CheckInProduction`).
- The wait for the in-memory cache's own lock inside close: dropping the fallback is one step.
- What reset does to the recorded breaker states, and how many factories there are after one; log_circuit_open, log_circuit_success and the jitter are single-branch facts.
- IdempotencyService on the in-memory fallback: modelled on a store that does not evict and refuses a negative TTL as SETEX does; `CacheRuns.AgreesWithTimedMap` says when the real fallback answers the same.
- get_stuck_in_progress_count: the same loop as the cleanup without the deletes.
- IdempotencyKeys.PatternSparesCompleted: MATCH has literals, `*` and `?` only; with Redis's bracket classes an unclosed `[` in a namespace, as in `*[`, would swallow the suffix and select result keys.
- IdempotencyKeys.PatternSelects: namespaces without `*`, `?`, brackets and backslashes, for the same reason and because a wildcard selects other namespaces.
- fnmatch, which delete_pattern uses, is a parameter.
- White space and digits outside Latin-1 and ASCII: str.strip, `\d` and int() accept more than the models do; int() is modelled without surrounding white space and without its limit on the number of digits.
- The UUID pass of the metric path normaliser, the other metrics, and the cursor pagination DTO.
- Timeouts while a unit of work is entered, and flush: they do not decide what is committed.
- A commit or rollback whose outcome the driver does not learn: one that times out is taken not to have been applied.
- Code that goes around a unit to its session, or gives it another one through the session property.
- CRUD methods of the repository, feature flags, error mapping tables, logging, tracing, settings and wiring: plumbing that would only add easy members.
