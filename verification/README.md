# Limitador: a verified model of its counters

Limitador counts hits per fixed time window and decides whether one more hit
fits under a limit. This project models the parts of it whose guarantees hold
only over whole runs, and proves those guarantees for every input, every
interleaving or every reachable state:

- the counter cell with its compare-exchange window rollover, and the in-memory
  `check_and_update` built on it (`ExpiringCells`, `WindowRollover`,
  `RolloverLoss`, `InMemory`, `RateLimiting`, `FixedWindow`);
- reservations: holds placed all-or-nothing on several counters, committed and
  released later, and the same protocol a second time as a Redis Lua script
  (`Reservations`, `HoldRetention`, `ReservingStorage`, `ReserveMachine`,
  `ReservationSafety`, `ReserveInterleaving`, `RedisScripts`, `RedisWindows`,
  `ReserveRefinement`);
- the cache in front of Redis that records hits locally and flushes them later
  (`CachedCounters`, `FlushRace`, `WriteBehind`, `CachedRedis`, `Batching`,
  `QueueSafety`);
- the replicated counter and the network of nodes that exchange it
  (`CrCounter`, `CrLattice`, `Replication`, `CrStorage`);
- the disk storage's merge operator and byte codec, and reservations on it
  (`DiskValues`, `DiskMerge`, `DiskReserve`);
- the binary storage keys (`Postcard`, `Keys`, `KeyRecords`).

Objects the source changes in place are classes whose methods are proved against
functions on values; the theorems are about those functions. Concurrency is a
step relation: one atomic operation, one script or one call per step, in any
order. `dafny verify dfyconfig.toml` covers the project. Automatic induction is
switched off on every lemma, so each induction is written out.

## How the source is read

- Time is a natural number passed in; a call that reads the clock several times
  reads it once here. All modules but two leave the unit open:
  `Replication` counts microseconds and `DiskValues` nanoseconds, because both
  cut times to whole seconds.
- Counter cells are 64-bit: `fetch_add` wraps, the in-memory check saturates.
  Registry sums, Redis values and replicated counts are unbounded.
- Arithmetic is that of a release build, where sums wrap. System times are those
  of a 64-bit Unix, with fewer than 2^63 seconds.
- Simple and qualified counters share one map; a counter is qualified when it
  has variables. Size-based eviction does not happen.
- A Redis key whose time is up does not exist, from the moment of expiry on. The
  fields of a reservation hash are a sequence. A cache entry is served strictly
  before its expiry.
- Which counters a request applies to, reservation ids, the per-counter cap that
  `max_fraction` yields, the iteration order of concurrent maps, whether a flush
  reaches Redis, and when RocksDB merges are parameters.

## Where a promise fails, and exactly when

- A window rollover can lose the hits of a call that adds between the winner's
  exchange and its store. No interleaving loses any exactly when there is a
  single call or nothing to record (`RolloverNeverLosesIff`).
- With a limit of 2^64 - 1 the check saturates and the stored value wraps
  (`AdmissionIsExactIff`, `ReportedIsWhatIsLeftIff`, `LargestLimitWraps`).
- A flush that fails is undone exactly when the take did not start from zero;
  otherwise its hits are never sent (`RevertUndoesTakeIff`, `FailGivesBackIff`,
  `FailedFlushRestoresIff`).
- An acknowledged flush makes the instance count from the total Redis returned
  exactly when that is no less than the value sent; after a lost flush it may not
  be (`AckAdoptsTheTotalIff`, `AckAfterLossKeepsTheOldCount`).
- On a counter at zero, a flush between an increment's add and its reset of the
  initial value is repeated by the next one (`EveryInterleavingBalancesIff`).
- A counter is dropped from the flush queue with hits nobody will send exactly
  when the queue is checked after the window has ended, hits came in since the
  take, and the answer then revives the counter (`RemovalStrandsIff`,
  `WindowEndStrandsHits`).
- `reservation_released` is documented as reporting a live reservation
  (`limitador/src/reservation.rs:117-125`); the code also reports an expired one,
  exactly when it is still on record: no reserve was granted on some listed
  counter since it expired, and the window last reported there still runs
  (`ReleaseAfterRunReportsLiveIff`, `ReleaseReportsStaleHolds`). With nothing in
  between, that is when the ttl has run out and the window of a listed counter has
  not (`ReleaseReportsLiveIff`).
- A live hold is lost if a later reserve on the counter reports a window that
  ends before it (`PlacingKeepsHoldsWithinIff`, `ShrunkWindowLosesAHold`). On the
  disk storage the second reserve in a window does so exactly when the first opened
  it and not on a whole second (`SecondTouchShrinksIff`,
  `SecondReserveKeepsHoldIff`, `SecondReserveLosesHold`).
- The first increment after expiry of a replicated counter leaves the other
  actors' old counts in place (`IncAfterExpiryStartsOverIff`), and a message
  loses a count filed under the empty actor name (`MessageKeepsCountsIff`,
  `MessageLosesDefaultActor`). A message's end that does not fit 64 bits of
  microseconds wraps (`MessageEndIsExactIff`, `FarFutureEndsAtOnce`).
- The disk merge depends on when values were merged once one that took others in
  has expired (`HistoryMattersIff` for every history, `GroupingMattersIff` while
  the operands run, `PartialMergeMattersIff`, `EarlyBaseMattersIff`): hits can be
  counted again in a second window (`LateMergeCarriesHitsOver`).
- The disk storage checks a 64-bit sum, so hits that overflow it to something within
  the limit are written, and no others it should refuse (`OverflowMattersIff`,
  `FullCounterStartsOver`).
- A comment in the merge operator speaks of ignoring corrupted values. It panics
  on a base or operand of fewer than sixteen bytes, or whose seconds are beyond a
  system time, and on no others (`MergePanicsIff`, `CorruptedOperandsPanic`).

## Model

| member | source | states |
|---|---|---|
| ExpiringCells.AtomicExpiringValue.Update | limitador/src/storage/atomic_expiring_value.rs:36-42 | one undisturbed update is the cell's specified update: restart the window with the delta if it is over, add modulo 2^64 otherwise; the new value is returned |
| ExpiringCells.AtomicExpiringValue.ValueAt | limitador/src/storage/atomic_expiring_value.rs:19-24 | reads zero from the moment of expiry on, the stored value before |
| ExpiringCells.AtomicExpiringValue.UpdateIfExpired | limitador/src/storage/atomic_expiring_value.rs:87-99 | moves the window end exactly when it has passed, and says whether it did |
| WindowRollover.RolloverHasOneWinner | limitador/src/storage/atomic_expiring_value.rs:36-42 | any number of calls past the old end, any interleaving of their loads, exchanges, stores and adds: one winner sets the window, the final value is its delta plus the deltas added after its store, nothing of the old window survives |
| WindowRollover.RolloverCountsAllIff | limitador/src/storage/atomic_expiring_value.rs:87-99 | in a given interleaving the value plus the hits written before the winner's store is all hits, modulo 2^64 as the counter counts, so none is missing exactly when those amount to nothing |
| WindowRollover.RolloverCanLoseHits | limitador/src/storage/atomic_expiring_value.rs:36-42 | a concrete interleaving of two calls that loses five hits |
| WindowRollover.UninterruptedCallIsUpdate | limitador/src/storage/atomic_expiring_value.rs:36-42 | the atomic steps of one call, run without interruption, are the specified update, window over or not |
| RolloverLoss.RolloverNeverLosesIff | limitador/src/storage/atomic_expiring_value.rs:36-42 | every finished interleaving counts every hit, modulo 2^64, if and only if there is one call or no call has hits; otherwise a losing schedule exists |
| InMemory.SinglePassRefinesTwoPhase | limitador/src/storage/in_memory.rs:80-166 | the single pass leaves the same store as evaluate-then-update when admitted, and when denied a store in which every counter reads the same at every time |
| InMemory.InMemoryStorage.CheckAndUpdate | limitador/src/storage/in_memory.rs:80-166 | admits exactly when no counter goes over, names the first one that does, annotates every counter with its state before the call, applies the delta to all or to none |
| InMemory.EveryCounterIsReported | limitador/src/storage/in_memory.rs:98-106 | every counter is reported as itself, with the moment its running window ends, or a whole window from now if it is unknown or over, and with what is left of its limit |
| InMemory.ReportedEndIsTheWindowsEnd | limitador/src/storage/in_memory.rs:104-106 | the reported time left is exactly the time until the counter reads zero, before which it keeps its value at every moment |
| InMemory.ReportedRemainingMakesUpTheLimit | limitador/src/storage/in_memory.rs:101-106 | reported remaining and value read make up the limit, unless the value is past it |
| InMemory.AdmittedCallEndsAsReported | limitador/src/storage/in_memory.rs:80-166 | an admitted call leaves every counter a window that ends when the call reported |
| InMemory.NamesWhereAdmissionStops | limitador/src/storage/in_memory.rs:107-116 | the counter named is the one at which a growing prefix of the list stops being admitted |
| InMemory.NamesTheFirstSimpleFirst | limitador/src/storage/in_memory.rs:300-320 | and for a check without update, the least counter over its limit when simple ones are ordered before qualified ones |
| Counters.QualifiedIff | limitador/src/counter.rs:112-114 | a counter is qualified exactly when some variable singles it out |
| InMemory.InMemoryStorage.CheckThenUpdate | limitador/src/storage/in_memory.rs:50-72 | evaluate followed by one update per counter gives the same verdict and the same annotations as the single pass |
| InMemory.InMemoryStorage.Evaluate | limitador/src/storage/in_memory.rs:276-323 | changes no counter, admits exactly when none goes over, and names the first simple counter over its limit before any qualified one |
| InMemory.InMemoryStorage.UpdateCounter | limitador/src/storage/in_memory.rs:50-72 | hits one counter, opening its window if there is none, and no other |
| InMemory.InMemoryStorage.Touch | limitador/src/storage/in_memory.rs:374-392 | a hit of zero: starts a window if there is none and reports value and time left |
| RateLimiting.CheckRateLimitedAndUpdate | limitador/src/lib.rs:467-509 | limited exactly when some counter goes over, with that counter's name; every admitted counter is reported with the delta taken off its remaining |
| RateLimiting.ReportedIsWhatIsLeftIff | limitador/src/lib.rs:467-509 | after an admitted call on any list, the remaining reported for each counter is what the store then has left if and only if the new value fits 64 bits, which it does for every limit below 2^64 - 1 |
| FixedWindow.CallOnCell | limitador/src/storage/in_memory.rs:80-166 | one call seen from one counter: untouched, an empty window opened, or hit with its exact new value within the limit |
| FixedWindow.ValueStaysWithinLimit | limitador/src/storage/in_memory.rs:80-166 | over every run of calls the value never exceeds the limit, at any time, and no increment wraps |
| FixedWindow.AtMostTwiceTheLimitPerWindow | limitador/src/storage/in_memory.rs:80-166 | over every run with a clock that never goes back, any half-open interval of one window length admits at most twice the limit |
| FixedWindow.TwiceTheLimitIsReached | limitador/src/storage/atomic_expiring_value.rs:19-42 | that bound is attained, for every limit and every window longer than one |
| FixedWindow.AdmissionIsExactIff | limitador/src/storage/in_memory.rs:276-323 | the check is the exact comparison except at limit 2^64 - 1 when the sum overflows, and what is stored then |
| FixedWindow.LargestLimitWraps | limitador/src/storage/in_memory.rs:276-323 | a concrete counter at limit 2^64 - 1 that is hit once more and reads zero |
| Reservations.LocalReservationRegistry.Reserve | limitador/src/storage/local_reservations.rs:123-211 | admits exactly when the full amount fits every counter beside its live holds, places a clamped hold on all of them or on none, names the first misfit, reports what is left |
| HoldRetention.AdmittedReserveHoldsExactly | limitador/src/storage/local_reservations.rs:188-207 | an admitted reserve raises what is outstanding on every listed counter by exactly the hold amount until the earlier of ttl and window end, and by nothing from then on |
| HoldRetention.OtherReservesHoldNothing | limitador/src/storage/local_reservations.rs:176-186 | a reserve that is denied or holds nothing changes what is outstanding on no counter, and an admitted one on none it does not list |
| HoldRetention.ReserveReportsWhatIsLeft | limitador/src/storage/local_reservations.rs:154-174 | after an admitted reserve, reported remaining, value and what is then outstanding make up the limit, and the reported end is the window told |
| HoldRetention.DenialReportsWhatIsLeft | limitador/src/storage/local_reservations.rs:149-174 | after a denial the same with what was outstanding before, or zero when that is past the limit |
| Reservations.NamesWhereFittingStops | limitador/src/storage/local_reservations.rs:137-147 | the counter a denial names is the one at which a growing prefix of the list stops fitting |
| Reservations.LocalReservationRegistry.OutstandingOf | limitador/src/storage/local_reservations.rs:105-121 | sums the live holds of a counter, in a loop |
| Reservations.LocalReservationRegistry.Release | limitador/src/storage/local_reservations.rs:219-247 | drops the hold from every listed counter and entries left empty; reports whether any was on record |
| HoldRetention.ReleaseReportsLiveIff | limitador/src/reservation.rs:117-125 | for what a reserve placed on any list of counters and a release at any time: the report means a live hold was removed, if and only if it is not the case that the ttl has run out while the window of some listed counter still runs |
| HoldRetention.ReleaseAfterRunReportsLiveIff | limitador/src/storage/local_reservations.rs:195-247 | and after any run of reserves and releases of others in between: the report means a live hold was removed, if and only if it is not the case that the hold is live on no listed counter and still on record on one, no reserve having been granted there since it expired and the last window reported still running |
| Reservations.ReleaseReportsStaleHolds | limitador/src/reservation.rs:117-125 | a concrete hold reported as released ten time units after it expired |
| HoldRetention.CacheServesEveryLiveHold | limitador/src/storage/local_reservations.rs:69-93 | when holds end by their entry's end, the cache's own expiry hides no live hold, at any time |
| HoldRetention.PlacingKeepsHoldsWithinIff | limitador/src/storage/local_reservations.rs:166-207 | placing a hold keeps that invariant if and only if the window reported now ends no earlier than the live holds |
| HoldRetention.ShrunkWindowLosesAHold | limitador/src/storage/local_reservations.rs:84-93 | a concrete hold of five lost to a window that shrank |
| HoldRetention.LiveHoldsAreNeverLost | limitador/src/storage/local_reservations.rs:69-93 | over every run of reserves, rollovers and releases whose windows never shrink, the cache serves on every counter exactly the live holds of a ledger that enters every hold granted and strikes every hold released |
| HoldRetention.GrantedHoldIsServed | limitador/src/storage/local_reservations.rs:166-207 | a hold once granted and not released since is served until it expires, whatever happens in between |
| HoldRetention.ReleasedLive | limitador/src/storage/local_reservations.rs:219-247 | from a release on, every counter's live holds are the old ones without the released id if listed, and unchanged if not |
| ReservingStorage.ReserveOn | limitador/src/storage/in_memory.rs:224-249 | touches every counter, then decides all-or-nothing on what the touches returned |
| ReservingStorage.ReserveWithin | limitador/src/lib.rs:529-587 | decides on the full amount, holds the least of amount and caps for at most the longest allowed time, so that what is outstanding on every counter grows by exactly the amount handed back, hands out an id only for a hold that exists |
| ReservingStorage.Commit | limitador/src/lib.rs:596-623 | applies the real usage whether or not the hold lives, then releases it everywhere; reports whether it was on record |
| ReserveMachine.TouchedWindowsCover | limitador/src/storage/in_memory.rs:232-238 | in every reachable state a touch reports a window that ends no earlier than the counter's live holds, so windows never shrink under reserves |
| ReservationSafety.ReservationsAreSafe | limitador/src/lib.rs:529-623 | over every interleaving of reserves, commit steps and time: value plus what live holds still keep free is at most the limit plus this window's hits that no live hold covered |
| ReservationSafety.CoveredCommitsNeverExceedTheLimit | limitador/src/lib.rs:596-623 | when every commit is live and within its hold the value never exceeds the limit, even with reserves between a commit's update and its release |
| ReservationSafety.WholeCallsAreSafe | limitador/src/storage/local_reservations.rs:105-247 | over every run of whole calls: value plus live holds is at most the limit plus the part of each commit above the live hold it released |
| ReservationSafety.CommitOpsRun | limitador/src/lib.rs:596-623 | the commit steps of the machine change cells and registry as the commit call does |
| ReservationSafety.CallRuns | limitador/src/lib.rs:529-623 | every whole call of such a run does to clock, counters and registry what the storage does |
| ReserveMachine.CommitBooksBalance | limitador/src/lib.rs:596-623 | the books behind these bounds: what a commit uses of its hold and what it leaves uncovered make up its amount, it uses no more than the hold has left, and leaves nothing uncovered before the hold is used up |
| ReserveMachine.ReserveWritesOff | limitador/src/storage/in_memory.rs:224-249 | and a reserve clears the uncovered hits of exactly the listed counters whose window it starts anew |
| ReserveInterleaving.EqualReservesAdmitExactlyWhatFits | limitador/src/lib.rs:1017-1060 | N equal reserves of amount a, touches and admissions interleaved in any order: exactly the smaller of N and max / a are admitted |
| ReserveInterleaving.UninterruptedIsReserve | limitador/src/storage/in_memory.rs:224-249 | the two steps of one caller, left alone, are a whole reserve of the storage |
| RedisScripts.RedisStore.ScriptUpdateCounter | limitador/src/storage/redis/scripts.rs:18-24 | the script returns the old value plus the delta and gives a fresh key its time to live and its place in the index |
| RedisScripts.RedisStore.BatchUpdateCounters | limitador/src/storage/redis/scripts.rs:34-51 | the batch loop is the updates in order, and answers each entry with its new value and key expiry |
| RedisScripts.ReplyTellsTheEnd | limitador/src/storage/redis/scripts.rs:34-51 | the answer is the value and the expiry of the key the script leaves: the old value plus the delta, and the end of the running window or a whole window from now for a new key |
| RedisScripts.RedisStore.ScriptReserve | limitador/src/storage/redis/scripts.rs:90-164 | both loops of the script: start windows, prune and sum live fields, admit all or none, store one field per counter |
| RedisScripts.ScriptSeesTheKey | limitador/src/storage/redis/scripts.rs:104-119 | the script sees a counter's value and the end of its key, or a whole window where the key has no time to live |
| RedisScripts.RedisStore.ReleaseReservation | limitador/src/storage/redis/redis_sync.rs:220-240 | deletes the hold's field from every listed hash and reports whether any command found one |
| RedisScripts.RemovedIff | limitador/src/storage/redis/redis_sync.rs:220-240 | the command for a counter finds a field exactly when its hash had one of that id before the release began |
| RedisWindows.ScriptKeeps | limitador/src/storage/redis/scripts.rs:18-51 | every script keeps each counter key's time to live and index membership and moves no running window's end |
| RedisWindows.NewKeysRunAWholeWindow | limitador/src/storage/redis/scripts.rs:18-51 | a key that a script brings into being, in any position of its list, runs for the whole window of a counter the script was given |
| RedisWindows.ScriptsNeverMoveARunningWindow | limitador/src/storage/redis/scripts.rs:110-118 | over every interleaving of scripts a running window ends when it said it would, a key created at zero by a reserve included |
| RedisWindows.ScriptsCountEveryHit | limitador/src/storage/redis/scripts.rs:18-51 | over every interleaving of scripts within a running window the counter grows by exactly the hits that updates and batches brought it; reserves and releases bring none |
| ReserveRefinement.BothStoragesAnswerAlike | limitador/src/storage/redis/scripts.rs:90-164 | over every sequence of reserves, updates, releases and ticks on both, the Lua script and touch-plus-registry give the same verdicts, the same limit names, the same remaining and the same windows |
| ReserveRefinement.StepRelated | limitador/src/storage/local_reservations.rs:123-211 | each operation keeps both stores related: same running windows and values, same live holds with the same expiries on every counter |
| ReserveRefinement.SameAnswer | limitador/src/storage/redis/redis_sync.rs:187-217 | from related stores one reserve gets the same answer from both: verdict, name of the first counter without room, remaining and window of each |
| ReserveRefinement.NameOfFirstMisfit | limitador/src/storage/redis/redis_sync.rs:207-216 | the name in that answer is the name of the first counter without room |
| ReserveRefinement.DenialHoldsNothing | limitador/src/storage/local_reservations.rs:176-182 | a denied reserve adds no hold to any counter in either storage |
| ReserveRefinement.ScriptHoldsExactly | limitador/src/storage/redis/scripts.rs:137-164 | the reserve script raises the sum held in every listed hash by exactly the hold amount if it admits, and by nothing if not |
| ReserveRefinement.EmptyStoresRelated | limitador/src/storage/in_memory.rs:262-273 | empty stores are related, so the agreement starts from scratch |
| CachedCounters.CachedCounterValue.Delta | limitador/src/storage/redis/counters_cache.rs:55-65 | records hits; the first hits of a new window count from zero |
| CachedCounters.CachedCounterValue.PendingWritesAndValue | limitador/src/storage/redis/counters_cache.rs:71-98 | takes what is pending and returns it with the value it brings the counter to |
| CachedCounters.CachedCounterValue.RevertWrites | limitador/src/storage/redis/counters_cache.rs:106-120 | gives hits back if the initial value is larger than they are, and does nothing otherwise |
| CachedCounters.CachedCounterValue.AddFromAuthority | limitador/src/storage/redis/counters_cache.rs:46-53 | raises value and initial value alike and takes over the remote expiry |
| CachedCounters.TakeSendsWhatIsPending | limitador/src/storage/redis/counters_cache.rs:71-104 | in a running window a take sends exactly value minus initial and leaves nothing pending |
| CachedCounters.RevertUndoesTakeIff | limitador/src/storage/redis/counters_cache.rs:106-120 | with hits recorded in between, take then revert restores the pending hits if and only if the take did not start from zero, and then the counter is as if never taken |
| CachedCounters.FirstFailedFlushLosesHits | limitador/src/storage/redis/counters_cache.rs:106-120 | a concrete first flush whose five hits are never pending again |
| CachedCounters.FlushCanWaitIff | limitador/src/storage/redis/counters_cache.rs:141-143 | a counter need not be flushed at once if and only if Redis has confirmed it and its window runs throughout the coming interval |
| CachedCounters.NewValuesRunOneWindow | limitador/src/storage/redis/counters_cache.rs:27-44 | a value loaded from Redis is read for one window with nothing to send and may wait that long; one cached ahead of Redis is read for one window with all of it to send and may not wait |
| CachedCounters.TakePastTheWindowSendsNothing | limitador/src/storage/redis/counters_cache.rs:71-98 | once the window is over a take sends nothing and leaves the next window to count from zero |
| FlushRace.FlushesNeitherLoseNorRepeat | limitador/src/storage/redis/counters_cache.rs:71-98 | flushes' loads and exchanges interleaved with increments in any order on a non-zero counter: sent plus pending is recorded plus what was pending |
| FlushRace.FlushImbalance | limitador/src/storage/redis/counters_cache.rs:55-98 | from any counter the balance is off by exactly the initial values that resets overwrote |
| FlushRace.SentIsWhatFlushesReturned | limitador/src/storage/redis/counters_cache.rs:83-97 | in every interleaving what is booked as sent is the sum of what the flushes returned |
| FlushRace.LoneFlushNeverFails | limitador/src/storage/redis/counters_cache.rs:83-97 | whatever increments do meanwhile, a flush that no other flush runs beside never ends in an error |
| FlushRace.ZeroCounterCanSendTwice | limitador/src/storage/redis/counters_cache.rs:55-65 | for every zero counter with a flush and an increment that has hits, a schedule that sends twice |
| FlushRace.EveryInterleavingBalancesIff | limitador/src/storage/redis/counters_cache.rs:55-98 | every interleaving balances if and only if the counter starts above zero, or nothing flushes, or nothing is added |
| FlushRace.UninterruptedIncIsDelta | limitador/src/storage/redis/counters_cache.rs:55-65 | the atomic steps of one increment, left alone, are the cached counter's recording of hits |
| FlushRace.UninterruptedFlushIsTake | limitador/src/storage/redis/counters_cache.rs:71-98 | the three atomic steps of one flush, left alone, are the cached counter's take and return what was pending |
| WriteBehind.HitsAreConserved | limitador/src/storage/redis/redis_cached.rs:438-549 | over every interleaving of N instances: hits recorded are those Redis counted, those in flight, those pending in the caches and those lost to a failed first flush |
| WriteBehind.AckAdoptsTheTotalIff | limitador/src/storage/redis/counters_cache.rs:306-334 | after any run an acknowledgement leaves exactly the hits since the take on top; the instance counts from the total Redis returned if and only if that is no less than the value it sent, which it is unless the instance lost hits before |
| WriteBehind.AckAfterLossKeepsTheOldCount | limitador/src/storage/redis/redis_cached.rs:478-491 | a concrete run, a failed first flush and then an acknowledged one, after which the instance counts from six where Redis holds one |
| WriteBehind.FailGivesBackIff | limitador/src/storage/redis/counters_cache.rs:281-304 | a failed flush from a non-zero start is undone exactly, and from zero it loses exactly what it took |
| WriteBehind.InaccuracyIsBounded | limitador/src/storage/redis/redis_cached.rs:94-106 | when hits enter only through the check, each instance admits at most the limit, so N admit and Redis counts at most N times the limit, in every order of flushes and failures |
| WriteBehind.InaccuracyIsReached | limitador/src/storage/redis/redis_cached.rs:94-106 | that bound is attained: for every number of instances and every limit there is a run in which each admits the whole limit |
| CachedRedis.CachedRedisStorage.CheckAndUpdate | limitador/src/storage/redis/redis_cached.rs:94-106 | admits exactly when every cached counter has room and every unknown one, taken as zero, has; records the hits on all or none |
| CachedRedis.CachedRedisStorage.CheckAssumingFreshMisses | limitador/src/storage/redis/redis_cached.rs:208-302 | two loops, cached counters first: verdict, name of the first limited one, remaining and window of each |
| CachedRedis.AdmitsIff | limitador/src/storage/redis/counters_cache.rs:122-135 | the check admits if and only if hits plus delta is at most the limit on every counter, a counter not cached having no hits |
| CachedRedis.ShownIsWhatIsCached | limitador/src/storage/redis/redis_cached.rs:226-234 | reported remaining and hits make up the limit unless the hits are past it, and the time left ends when the cached value stops being read; a whole window for a counter not cached or over |
| CachedRedis.NamesTheFirstVisited | limitador/src/storage/redis/redis_cached.rs:208-302 | the counter named is the least one over its limit when cached ones are ordered before those the cache has not seen |
| CachedRedis.RecordedHitsLastTheirWindow | limitador/src/storage/redis/counters_cache.rs:336-347 | hits recorded are read on top of those before until the running window ends, or for a window of their own if none runs |
| CachedRedis.AdmittedStaysWithinLimit | limitador/src/storage/redis/counters_cache.rs:133-135 | an admitted call adds its hits to every counter and takes none past its limit as far as the cache knows |
| CachedRedis.CachedRedisStorage.FlushBatch | limitador/src/storage/redis/redis_cached.rs:438-549 | one whole flush: take, one script, fold the answers in or put the hits back |
| CachedRedis.FlushedAt | limitador/src/storage/redis/redis_cached.rs:438-549 | a batch does to each of its counters, in the cache and in Redis, what flushing that counter alone would |
| CachedRedis.ReplyInTimeIsFoldedIn | limitador/src/storage/redis/counters_cache.rs:306-334 | an answer whose window is still open raises what is read by what Redis counted beyond the value sent, until that window ends, and leaves the pending hits pending; any other answer changes nothing |
| CachedRedis.SentComesFrom | limitador/src/storage/redis/redis_cached.rs:438-471 | whatever a flush sends belongs to a cached counter of its batch and is exactly what was pending there, which is more than nothing |
| CachedRedis.FlushReconcilesIff | limitador/src/storage/redis/redis_cached.rs:473-491 | after a flush Redis has grown by exactly the pending hits and nothing is pending; cache and Redis then agree if and only if the cache had not counted from more than Redis held |
| CachedRedis.FailedFlushRestoresIff | limitador/src/storage/redis/redis_cached.rs:517-541 | a flush that fails leaves Redis alone, and a counter of the batch as it was if and only if its take did not start from zero |
| CachedRedis.FlushLeavesOthers | limitador/src/storage/redis/redis_cached.rs:438-549 | a flush touches no counter outside its batch, in the cache or in Redis |
| CachedRedis.FlushIsTakeApplyAck | limitador/src/storage/redis/redis_cached.rs:438-549 | on each counter of its batch a flush that reaches Redis is the take, apply and acknowledge steps of the protocol |
| CachedRedis.FailedFlushIsTakeFail | limitador/src/storage/redis/redis_cached.rs:517-541 | and one that does not is its take and fail steps |
| CachedRedis.CallIsTheCheckStep | limitador/src/storage/redis/redis_cached.rs:94-106 | a call on one counter is the check step: admitted hits recorded, or nothing changed |
| QueueSafety.NoHitIsStranded | limitador/src/storage/redis/counters_cache.rs:186-232 | over every interleaving of recording, queueing, taking, sending, failing, checking, removing, folding and time, window after window, in which no check is late: a counter with pending hits is queued or a call is on its way to queue it |
| QueueSafety.RemovalStrandsIff | limitador/src/storage/redis/counters_cache.rs:211-222 | check, removal and answer leave hits to nobody if and only if the check was late (window over, hits since the take, an answer to come) and the answer revives the counter |
| QueueSafety.WindowEndStrandsHits | limitador/src/storage/redis/counters_cache.rs:306-334 | a concrete run that leaves two hits pending on a counter nobody will flush |
| QueueSafety.FreshCounter | limitador/src/storage/redis/counters_cache.rs:336-347 | a counter that has just been cached satisfies what every run keeps |
| QueueSafety.FlushIsTheSteps | limitador/src/storage/redis/counters_cache.rs:186-232 | a flush nobody interrupts leaves the counter as the storage's flush of a batch does, and out of the queue |
| QueueSafety.IdleFlushIsTheSteps | limitador/src/storage/redis/counters_cache.rs:186-232 | likewise for a counter with nothing pending, for which nothing is sent or folded in |
| QueueSafety.IncreaseIsTheRecordStep | limitador/src/storage/redis/counters_cache.rs:336-347 | hits a call records in the cache are the record step |
| Batching.Batcher.Add | limitador/src/storage/redis/counters_cache.rs:165-184 | free permits plus queued counters stay constant; a new counter waits when no permit is free, a second value for a queued one has its hits moved over; urgency is asked for exactly when a queued value is urgent, or was already |
| Batching.Batcher.SelectBatch | limitador/src/storage/redis/counters_cache.rs:186-208 | never more than the maximum, an urgent counter left out only for a full batch of other urgent ones, at least half of what could be covered |
| Batching.Batcher.Finish | limitador/src/storage/redis/counters_cache.rs:211-222 | a counter leaves the queue only after a successful flush of a batch that lists it and with nothing pending, giving one permit back even if listed twice |
| Batching.Batcher.BatchReady | limitador/src/storage/redis/counters_cache.rs:243-249 | ready for a full batch or an urgent counter; the request for urgency is consumed only when it was what counted |
| Batching.MergeConservesPending | limitador/src/storage/redis/counters_cache.rs:168-172 | merging two values of one counter neither loses nor repeats a pending hit, whichever window the queued one is in |
| CrCounter.CrCounterValue.MergeAt | limitador/src/storage/distributed/cr_counter_value.rs:81-113 | the merge loop, over a map in any order, computes the specified merge |
| CrCounter.CrCounterValue.ReadAt | limitador/src/storage/distributed/cr_counter_value.rs:38-46 | reads the sum of all counts while the window runs and zero after |
| CrCounter.CrCounterValue.IncAt | limitador/src/storage/distributed/cr_counter_value.rs:52-58 | adds to our own count, or restarts it and the window if that is over, leaving the others as they are |
| CrCounter.CrCounterValue.IncActorAt | limitador/src/storage/distributed/cr_counter_value.rs:64-75 | the same for one other actor's count |
| CrCounter.RaisedInAnyOrder | limitador/src/storage/distributed/cr_counter_value.rs:90-111 | the order in which a message's counts are merged does not matter |
| CrLattice.MergeIsJoin | limitador/src/storage/distributed/cr_counter_value.rs:81-113 | merge is the join with expired counters as bottom, earliest expiry and per-actor maximum, and keeps our own name out of the others |
| CrLattice.MergeIsIdempotent | limitador/src/storage/distributed/cr_counter_value.rs:81-113 | merging the same state twice is merging it once |
| CrLattice.MergeIsCommutative | limitador/src/storage/distributed/cr_counter_value.rs:81-113 | two nodes that merge each other see the same |
| CrLattice.MergeIsAssociative | limitador/src/storage/distributed/cr_counter_value.rs:81-113 | merging what a third node merged is merging both |
| CrLattice.ReadsWhatIsSeen | limitador/src/storage/distributed/cr_counter_value.rs:38-46 | a read depends on nothing but that abstraction |
| CrLattice.IncAfterExpiryStartsOverIff | limitador/src/storage/distributed/cr_counter_value.rs:52-58 | the first hit of a new window reads as itself if and only if no other count was left over |
| CrLattice.IncAfterExpiryKeepsStaleCounts | limitador/src/storage/distributed/cr_counter_value.rs:52-58 | a concrete counter that reads eight after one hit in a new window |
| CrLattice.IncActorAfterExpiryStartsOverIff | limitador/src/storage/distributed/cr_counter_value.rs:64-75 | the same condition for a hit on behalf of another actor |
| CrLattice.IncActorCountsForThatActor | limitador/src/storage/distributed/cr_counter_value.rs:64-75 | a hit for an actor raises that actor's count and no other, and the read by as much while the window runs; after it, it starts that count and the window anew |
| CrLattice.MessageKeepsCountsIff | limitador/src/storage/distributed/cr_counter_value.rs:164-174 | a message read as a counter keeps every count if and only if none is filed under the default actor |
| CrLattice.MessageLosesDefaultActor | limitador/src/storage/distributed/cr_counter_value.rs:164-174 | a concrete message whose four hits are lost |
| Replication.ReadsGrowUpToTheTotal | limitador/src/storage/distributed/mod.rs:167-179 | with messages reordered, lost or repeated: no node counts more for an actor than it issued, a node's reads never go down and never exceed what all issued |
| Replication.NodesConverge | limitador/src/storage/distributed/mod.rs:251-297 | once every node has received from every other a snapshot taken after its last increment, all nodes read exactly the total |
| Replication.StepKeepsInv | limitador/src/storage/distributed/grpc/mod.rs:185-197 | increments, broadcasts, catch-up messages and receipts keep every view within what was issued, although messages cut expiries to whole seconds |
| Replication.MessageEndIsExactIff | limitador/src/storage/atomic_expiring_value.rs:62-66 | a message's end is taken as it says if and only if it fits 64 bits of microseconds |
| Replication.PublishTellsAll | limitador/src/storage/distributed/grpc/mod.rs:185-197 | a broadcast goes out if and only if the window still runs; it tells every count as known here, its end cut by less than a second |
| Replication.ResyncTellsOwn | limitador/src/storage/distributed/mod.rs:268-284 | a catch-up message goes out if and only if the window still runs and there is a count of our own, and tells that one only |
| Replication.ReceiveIsJoin | limitador/src/storage/distributed/mod.rs:167-179 | taking a message in joins what this node sees with what the message says at that moment; one whose end has passed changes nothing |
| Replication.FarFutureEndsAtOnce | limitador/src/storage/atomic_expiring_value.rs:62-66 | a concrete message of the far future whose end is taken to be in the first second of the epoch |
| Replication.FreshNodes | limitador/src/storage/distributed/cr_counter_value.rs:20-28 | fresh counters under distinct names satisfy what every run needs |
| CrStorage.CrInMemoryStorage.UpdateCounter | limitador/src/storage/distributed/mod.rs:65-90 | increments our own count of one counter, creating it if unknown, and leaves every other counter alone |
| CrStorage.IncrementCounts | limitador/src/storage/distributed/mod.rs:65-90 | in a running window, or on a counter not known, the value read grows by exactly the delta; after expiry it is the delta plus the other actors' counts left over |
| CrStorage.IncrementLeavesOthers | limitador/src/storage/distributed/mod.rs:65-90 | no other counter changes |
| CrStorage.IncrementIsTheIncStep | limitador/src/storage/distributed/mod.rs:251-256 | what it does to its counter is the increment step of the network, so the convergence results speak of it |
| CrStorage.CrInMemoryStorage.OnCounterUpdate | limitador/src/storage/distributed/mod.rs:167-179 | merges a peer's message into the one counter it names; fails, where the source panics, exactly for a counter this node does not know or an expiry of 2^63 seconds or more, and then changes nothing |
| CrStorage.CrInMemoryStorage.ProcessReSync | limitador/src/storage/distributed/mod.rs:259-297 | tells a peer our own count of every running counter that has one, in key order given, and changes nothing |
| CrStorage.CrInMemoryStorage.Evaluate | limitador/src/storage/distributed/mod.rs:218-249 | admits exactly when no counter goes over, names the first one that does, reports each without changing it, and a fresh window for one that is over |
| CrStorage.AdmitsIff | limitador/src/storage/distributed/mod.rs:218-249 | it admits if and only if the value read plus delta is at most the limit on every counter |
| CrStorage.AnnotatedIsWhatIsRead | limitador/src/storage/distributed/mod.rs:218-249 | reported remaining and value make up the limit unless the value is past it, and the time left ends with the running window, or is a whole window for a counter unknown or over |
| CrStorage.ValueIsTheSum | limitador/src/storage/distributed/mod.rs:237-246 | that value is the sum of every node's count while the window runs, and zero for a counter unknown or over |
| CrStorage.NamesWhereAdmissionStops | limitador/src/storage/distributed/mod.rs:230-234 | the counter named is the one at which a growing prefix of the list stops being admitted |
| CrStorage.CatchUpTellsOwnCount | limitador/src/storage/distributed/mod.rs:268-284 | every running counter with a count of ours is among the messages of a catch-up |
| DiskValues.StoredRoundTrip | limitador/src/storage/disk/expiring_value.rs:67-95 | a value written and read back is itself, its expiry cut to whole seconds |
| DiskValues.RawRoundTrip | limitador/src/storage/disk/expiring_value.rs:67-95 | sixteen bytes can be read exactly when the ninth is below 128, and then written back they are the same bytes |
| DiskValues.ReadableIff | limitador/src/storage/disk/expiring_value.rs:67-82 | eight big-endian bytes are seconds a system time can hold exactly when the first of them is below 128 |
| DiskValues.FreshOperandIsUpdate | limitador/src/storage/disk/expiring_value.rs:28-49 | merging one fresh operand is the update, and so after cutting both to whole seconds |
| DiskMerge.MergeOperator | limitador/src/storage/disk/rocksdb_storage.rs:256-268 | the operator's loop over bytes is one left-to-right pass over the decoded values, and has no result where decoding the base or an operand panics |
| DiskMerge.MergePanicsIff | limitador/src/storage/disk/expiring_value.rs:67-82 | it panics if and only if the base or some operand has fewer than sixteen bytes, or a ninth byte of 128 or more, which puts its seconds beyond a system time |
| DiskMerge.CorruptedOperandsPanic | limitador/src/storage/disk/rocksdb_storage.rs:262-265 | after any others, an operand of three bytes and one of sixteen bytes of 255 both leave the operator without a result |
| DiskMerge.MergingIsInvisible | limitador/src/storage/disk/rocksdb_storage.rs:256-268 | merging all that is stored for a key into one value changes nothing for a read at that moment |
| DiskMerge.RocksDbStorage.Get | limitador/src/storage/disk/rocksdb_storage.rs:283-297 | a read finds base and pending operands merged at the moment of the read |
| DiskMerge.RocksDbStorage.InsertOrUpdate | limitador/src/storage/disk/rocksdb_storage.rs:277-306 | hits that fit are stored as one operand and a read at that moment returns the value handed back, cut to whole seconds; hits that do not fit change nothing; it fails, where the source panics, exactly when they fit and the window's end is beyond a system time |
| DiskMerge.WritesIff | limitador/src/storage/disk/rocksdb_storage.rs:277-306 | when the sum fits 64 bits, hits are written if and only if value plus delta is at most the limit; a read then shows the sum, in the running window or a new one cut to whole seconds; otherwise the disk is as it was and its value is handed back |
| DiskMerge.OverflowMattersIff | limitador/src/storage/disk/rocksdb_storage.rs:296 | that check is exact if and only if the sum does not overflow 64 bits to something within the limit |
| DiskMerge.FullCounterStartsOver | limitador/src/storage/disk/rocksdb_storage.rs:296 | a concrete counter full at limit 2^64 - 1 that takes one more hit and reads zero |
| DiskMerge.FailsIff | limitador/src/storage/disk/rocksdb_storage.rs:296-303 | it fails if and only if the hits have room and the window they would open ends beyond a system time, and then writes nothing |
| DiskMerge.WriteLeavesOthers | limitador/src/storage/disk/rocksdb_storage.rs:277-306 | no other key changes |
| DiskMerge.EveryWriteStaysWithinLimit | limitador/src/storage/disk/rocksdb_storage.rs:277-306 | over every run of writes to any counters at any times, overflowing or not, what is read just after a write is within that counter's limit |
| DiskMerge.GroupingMattersIff | limitador/src/storage/disk/rocksdb_storage.rs:256-268 | for every nesting and timing of merges, base included, of operands that still run: the value is that of one pass now if and only if the base still runs, or took nothing in while it did, or what it took in amounts to nothing |
| DiskMerge.GroupingDoesNotMatter | limitador/src/storage/disk/rocksdb_storage.rs:256-268 | in particular it is when the base still runs or was already over the first time it was merged, whenever operands were merged among themselves |
| DiskMerge.AbsorbsNothingIff | limitador/src/storage/disk/expiring_value.rs:40-49 | the base takes nothing in exactly when it is never merged or was over at the first merge it took part in |
| DiskMerge.HistoryMattersIff | limitador/src/storage/disk/rocksdb_storage.rs:256-268 | for every history, whatever has expired when: the value is that of one pass now if and only if the operands the merges kept have the total and the first window of those from the first one running now |
| DiskMerge.SurvivorsSum | limitador/src/storage/disk/expiring_value.rs:40-49 | every history comes to the sum, modulo 2^64, of the operands its merges kept, in the window of the first |
| DiskMerge.PartialMergeMattersIff | limitador/src/storage/disk/expiring_value.rs:40-49 | exactly when two operands merged early differ from one pass |
| DiskMerge.EarlyBaseMattersIff | limitador/src/storage/disk/expiring_value.rs:40-49 | exactly when a base merged early differs from one pass |
| DiskMerge.LateMergeCarriesHitsOver | limitador/src/storage/disk/rocksdb_storage.rs:256-268 | concrete hits counted in their window and again in the next, because they were merged late |
| DiskReserve.SecondTouchShrinksIff | limitador/src/storage/disk/rocksdb_storage.rs:139-168 | a second touch in a window reports an earlier end than the first if and only if the first opened the window and not on a whole second |
| DiskReserve.ToldWhatIsRead | limitador/src/storage/disk/rocksdb_storage.rs:139-168 | a reserve is told the value read and the end of the running window, or of the one its touch opens, limit full or not |
| DiskReserve.SecondReserveKeepsHoldIff | limitador/src/storage/disk/rocksdb_storage.rs:139-168 | on a counter the disk does not know, a second reserve leaves the first one's hold to its full time if and only if that ends by the whole second the window is cut to |
| DiskReserve.SecondReserveLosesHold | limitador/src/storage/disk/rocksdb_storage.rs:139-168 | a concrete hold of five, off the books half a second early |
| Postcard.VarintRoundTrip | limitador/src/storage/keys.rs:271-283 | the variable-length integer is read back off the front of any bytes |
| Postcard.VarintIsShortest | limitador/src/storage/keys.rs:271-283 | no other bytes that decode to a number are shorter than its encoding |
| Keys.KeyRoundTrip | limitador/src/storage/keys.rs:230-283 | a counter key is read back as the record it was made from, whatever follows |
| Keys.CounterKeysArePrefixFree | limitador/src/storage/keys.rs:271-283 | no counter key begins another counter's key |
| Keys.CounterKeysAreInjective | limitador/src/storage/keys.rs:48-52 | counter keys and reservation keys are equal exactly for equal records |
| Keys.KindsOfKeyAreDisjoint | limitador/src/storage/keys.rs:48-75 | no counter key, reservation key and limit-index key of any counters and limits coincide |
| Keys.LimitIndexKeysAreInjective | limitador/src/storage/keys.rs:54-66 | limit-index keys are equal exactly for equal ids |
| Keys.PrefixFindsNamespaceIff | limitador/src/storage/keys.rs:335-344 | a disk key starts with a namespace's prefix if and only if the counter is in that namespace |
| Keys.DiskKeysAreInjective | limitador/src/storage/keys.rs:335-339 | equal disk keys come from equal namespaces, windows, conditions and variables |
| KeyRecords.MakeRecord | limitador/src/storage/keys.rs:236-269 | the record lists conditions and variables in ascending order, by id if the limit has one |
| KeyRecords.Sorted | limitador/src/storage/keys.rs:255-260 | sorting lists exactly the set's strings, ascending byte by byte |
| KeyRecords.LessIff | limitador/src/storage/keys.rs:255-260 | one string is below another if and only if it is a proper prefix of it or has the smaller byte where they first differ |
| KeyRecords.SameKeyIff | limitador/src/storage/keys.rs:236-283 | two counters get the same key if and only if they have the same identity, in whatever order their conditions and variables are walked |

## Left out

- Servers, configuration, metrics, tracing and the wait loops around batches and connections: plumbing without a hard property.
- CEL expressions and which limits apply to a request: the counters of a call are any list of distinct counters.
- Text keys for limits without an id on Redis, and rebuilding a counter from its key: the JSON serializer and the variable filter are not part of this model.
- The floating-point product behind `max_fraction`: every cap is allowed.
- Size-based eviction of caches, the second lookup in the queue it makes necessary, and `check_reading_misses`: without eviction a queued counter is always cached.
- Broker handshake, peer discovery and reconnection; `configure_with`; response headers; the asynchronous twins of blocking calls.
- Deleting and listing counters in each storage: set operations that would only add easy members.
- Reservations.LocalReservationRegistry.Reserve: sums of value, holds and amount are unbounded, so 64-bit saturation of that sum is not captured.
- RedisScripts.RedisStore.ScriptReserve: a window of zero seconds, which Redis rejects as an expiry, is not captured.
- WriteBehind.HitsAreConserved: runs stay within one window of every instance, because folding a remote value into an expired one revives it.
- CachedRedis.CachedRedisStorage.FlushBatch: the shared values behind cache and queue are one map of values; an interrupted take is the subject of `FlushRace` instead, and an error that is not transient, on which the source panics, is not captured.
- Replication.NodesConverge: runs stay within one window, since an increment after expiry keeps other actors' counts.
- Replication.ReadsGrowUpToTheTotal: counts are unbounded, so overflow of a 64-bit sum is not captured.
- CrCounter.CrCounterValue.MergeAt: the retry after a failed exchange of the expiry is not captured; a merge is one step.
- DiskMerge.RocksDbStorage.InsertOrUpdate: two writers between each other's read and merge are not captured.
- KeyRecords.SameKeyIff: equality of counters in the source ignores the id while the key uses nothing but the id when there is one; the key's notion is the one stated.
