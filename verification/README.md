# The uniqueness promise of zhi-id-gen-go, in Dafny

The generator promises that no ID is issued twice. The promise rests on four mechanisms, each modelled
and proved here:

- **Worker leases.** Instances share a table of worker ids; each holds a primary and some backups by
  renewing their leases, and gives up after two failed ticks. `WorkerLeaseStore` is the table,
  `WorkerLeaseManager` one instance's manager, `LeaseProtocol` any number of instances over time,
  `LeaseRaces` the interleaving of a tick with a promotion.
- **Snowflake IDs.** `Bits` and `SnowflakeLayout` are the int64 layout, `SnowflakeGenerator` the
  generator with its sequence overflow and clock guard, `SnowflakeService` the gated service with the
  switch to a backup. `ClusterProtocol` puts services on top of the lease protocol;
  `ClusterLimits` shows exactly what its uniqueness theorem needs, `ClusterRaces` what an interrupted
  tick does to the IDs.
- **Segment IDs.** `SegmentDomain` is the double buffer, `SegmentRepository` the row,
  `SegmentAllocator` the cache of one instance, `SegmentProtocol` all interleavings, `SegmentOrder`
  the order of the IDs of one buffer, `SegmentSequential` and `SegmentPreload` the view of a single caller.
- **Client buffers and the duplicate count.** `Client` and `Benchtool`.

Every object that the program updates in place is a class whose methods equal functions on its state
(`NextId`, `RenewOnce`, `Serve`, ...); the protocols and the theorems are about these functions. What
the database, the clocks and the server do is a parameter: a function from the number of the statement,
reading or request to its outcome, over which every theorem quantifies. Times of the lease side are
nanoseconds, clock readings of the generator whole milliseconds, rounded down as the program does; the skew is the
error of the clock itself.

## What does not hold

Some properties one would expect are false of the code. Each has a run that shows it and the exact
condition under which the property holds:

- Leases exclude each other exactly when `2 * gap <= timeout`, the timeout being cut to whole seconds
  (`MutualExclusionExact`, `CutToSecondsMatters`).
- An instance whose start takes longer than that timeout can acquire its own primary again as a backup,
  and then repeats an ID when its clock falls back; with a timeout configured below one second it is
  enough that the next statement comes a nanosecond later. Starts acquire distinct workers, and a service
  never repeats an ID, exactly when the last backup is asked for within the timeout
  (`StartupDistinctExact`, `ServiceUniquenessExact`).
- A worker that one instance releases, or loses, can be used by another within the same millisecond. The
  scenario list in `docs/` promises uniqueness across instances without reservation; it holds exactly
  when released workers rest for at least two clock skews and a millisecond, the longest time over which
  clocks can read the same millisecond, and expired ones do so too or the timeout has room for that and
  two gaps (`ClusterUniquenessExact`, with three families of runs). The code enforces no rest, so only the
  part about expired workers can be met by configuration alone.
- If a release reports an error, generator and manager part ways (`AgreementExact`, `LostPromotion`), and
  an ID is repeated. This is harmless exactly when all clocks are exact: a clock that wavers by a nanosecond
  can be seen to run backwards at the turn of a millisecond, which promotes a backup (`LostReleasesExact`).
- A renewal tick that a promotion interrupts can make two instances claim one worker, now or later;
  `InterruptedTickExact` says when it cannot, and `ThreeGapsExact` when it never can. If the renewal of the
  promoted worker is confirmed, the instance can also repeat an ID all by itself (`InterruptedTickRepeatsId`).
- The IDs of a buffer need not rise: a late preload, a racing slow path or a racing initialization makes
  them go back (`LatePreloadGoesBack`, `RacingInitializationGoesBack`); `RisesExact` gives the guard on
  each stored range that is necessary and sufficient. As the service is built, preloads are goroutines,
  and one caller is enough (`OutrunPreloadGoesBack`); a single caller whose preloads are carried out in
  line always sees them rise (`SessionIsCounter`).
- IDs of a tag repeat if the row goes back over a range; they never do exactly when the ranges delivered
  do not overlap, whatever the signs of the steps (`SegmentUniquenessExact`, `NegativeStepRepeatsIds`).
- The client loses IDs: with the default settings, three callers that find the buffer empty at once fetch
  more than fits (`RacingRefillsLoseIds`), and closing drops what is buffered. Nothing is lost exactly when
  every reply fits beside what is buffered and the buffer is empty at each close (`NothingCutExact`); for
  one caller without background refills, exactly when no answer is longer than the buffer (`NothingLostExact`).
- A timestamp more than 2^41 milliseconds from the epoch is not recovered by parsing (`ParseUndoesPack`).

The scenario list also says that an exhausted buffer without a ready next segment makes a request fail;
that is what the buffer does, but the allocator then loads a range on the spot, and so does the model.

## Model

| member | source | states |
|---|---|---|
| `ClusterProtocol.ClusterUniqueness` | internal/services/idgen/app/commands/snowflake_service.go:28-58 | over every run of any number of instances with skewed, non-monotone clocks, failed renewals, promotions, crashes, restarts and stolen leases, no two issued IDs are equal, provided the rest a worker gets before it changes hands is long enough and every promotion learns of its release |
| `ClusterLimits.ClusterUniquenessExact` | internal/services/idgen/app/commands/snowflake_service.go:28-58 | if promotions learn of their releases, IDs are distinct in all runs if and only if two renewal gaps fit the timeout, released workers rest for two clock skews and a millisecond, the longest time over which clocks can read one millisecond, and expired ones do too or the timeout has room for that and two gaps |
| `ClusterLimits.LostReleasesExact` | internal/services/idgen/app/commands/worker_lease_manager.go:156-165 | with rests that long, promotions may lose the outcome of their releases without harm if and only if all clocks are exact |
| `ClusterProtocol.RunKeepsInv` | internal/services/idgen/app/commands/worker_lease_manager.go:38-189 | in every such run the leases are healthy, generator and primary agree, and every earlier ID on a claimed worker is either too old to be repeated or below the generator's state |
| `ClusterProtocol.ServeIsSwitchAndIssue` | internal/services/idgen/app/commands/snowflake_service.go:28-58 | one call is at most one promotion with a fresh generator followed by at most one ID, and that ID is on the current valid worker, above the generator and near the clock; if the release reports an error the call is the manager's promotion alone, with the old generator and no ID |
| `ClusterProtocol.IssueKeepsInv` | internal/services/idgen/app/commands/snowflake_service.go:33-36 | an ID issued under the invariant differs from every ID issued before by anyone |
| `ClusterProtocol.SwitchKeepsInv` | internal/services/idgen/app/commands/snowflake_service.go:43-48 | a promotion keeps all fences, because backups carry only old IDs |
| `ClusterProtocol.StartKeepsInv` | internal/services/idgen/app/commands/worker_lease_manager.go:38-67 | whatever was issued on the workers a starting instance takes is older than any time it can read |
| `ClusterProtocol.StartupTakes` | internal/services/idgen/infra/postgres/worker_lease_store.go:30-57 | every worker a starting instance gets was released or expired before it started, and other rows are unchanged |
| `ClusterLimits.ShortRestRepeats` | internal/services/idgen/infra/postgres/worker_lease_store.go:99-118 | for every shorter rest of a released worker, a clean close and a takeover repeat an ID |
| `ClusterLimits.ShortExpiryRepeats` | internal/services/idgen/infra/postgres/worker_lease_store.go:34-39 | for every timeout and rest of an expired worker below the bound, an instance that misses a tick, issues at the last moment and crashes has its ID repeated by the next holder |
| `ClusterLimits.ShortTimeoutRepeats` | internal/services/idgen/infra/postgres/worker_lease_store.go:34-39 | with a timeout below two gaps, two instances issue the same ID at the same moment |
| `ClusterLimits.LostPromotion` | internal/services/idgen/app/commands/worker_lease_manager.go:156-165 | a promotion whose release reports an error, from any state: the manager is promoted, the generator keeps the old worker |
| `ClusterLimits.ExactClocksNeverPromote` | internal/services/idgen/domain/snowflake.go:68-71 | with exact clocks no generator ever finds its clock behind, so no backup is ever promoted |
| `ClusterLimits.LostReleaseRepeats` | internal/services/idgen/app/commands/snowflake_service.go:43-46 | with clocks a nanosecond or more off, from a start on a table of two workers: after a release that reports an error, effective or not, the instance goes on issuing on the old worker, and another instance that takes it once it has rested or expired repeats an ID |
| `LeaseProtocol.MutualExclusionExact` | internal/services/idgen/app/commands/worker_lease_manager.go:10-167 | no two running instances ever claim the same worker, over every run from every table, if and only if two renewal gaps fit into the timeout cut to whole seconds |
| `LeaseProtocol.RunKeepsInv` | internal/services/idgen/app/commands/worker_lease_manager.go:111-189 | in every run a valid primary and every backup is leased to its holder with enough time left to reach the tick that would give it up |
| `LeaseProtocol.ShortTimeoutBreaksExclusion` | internal/services/idgen/infra/postgres/worker_lease_store.go:30-38 | for every shorter timeout there is a run in which a second instance takes a worker whose holder is still valid |
| `LeaseProtocol.CutToSecondsMatters` | internal/services/idgen/infra/postgres/worker_lease_store.go:29 | the fraction of a second cut off the timeout decides: 1.9 s with gaps of 0.95 s is not safe |
| `LeaseProtocol.StaleBreaksExclusion` | internal/services/idgen/app/commands/worker_lease_manager.go:118-128 | from any state in which a believed primary's lease runs out before two failed ticks give it up, some run has two claimants |
| `LeaseProtocol.RenewalKeepsInv` | internal/services/idgen/app/commands/worker_lease_manager.go:111-145 | a tick keeps every lease it does not give up, and leaves other instances' rows alone |
| `LeaseProtocol.StartKeepsInv` | internal/services/idgen/app/commands/worker_lease_manager.go:38-67 | a starting instance takes no row that a running one still relies on |
| `LeaseProtocol.DemandKeepsInv` | internal/services/idgen/app/commands/worker_lease_manager.go:147-167 | a promotion, with any outcome of the release, keeps all leases |
| `LeaseRaces.InterruptedTickExact` | internal/services/idgen/app/commands/worker_lease_manager.go:111-167 | from every healthy state, a tick into which a promotion falls, at any of three moments, keeps exclusion in all later runs if and only if the promoted worker's renewal was not confirmed and either took effect, or the old primary's failed renewal was counted against it, or its old lease lasts two more gaps |
| `LeaseRaces.ThreeGapsExact` | internal/services/idgen/app/commands/worker_lease_manager.go:111-167 | an unconfirmed renewal makes the interruption harmless in every healthy state if and only if three gaps fit the timeout |
| `LeaseRaces.ExclusiveForeverExact` | internal/services/idgen/app/commands/worker_lease_manager.go:111-167 | a state in which only one instance's primary is in doubt stays exclusive for ever if and only if that primary is not among the backups and its lease lasts until it would be given up |
| `LeaseRaces.PromotedReturnsToBackups` | internal/services/idgen/app/commands/worker_lease_manager.go:114-145 | the worker promoted inside a tick is a backup again if and only if its renewal reached the table, found the lease its own, and was confirmed |
| `LeaseRaces.InterruptedTickBreaksExclusion` | internal/services/idgen/app/commands/worker_lease_manager.go:142-167 | with every statement succeeding, the interruption ends in two instances claiming one worker, wherever in the tick it falls |
| `ClusterRaces.InterruptedTickRepeatsId` | internal/services/idgen/app/commands/snowflake_service.go:43-57 | from every healthy state, after a tick that a promotion interrupted and that confirmed the promoted worker's renewal, one more fall of the clock at the turn of a millisecond makes the instance repeat an ID by itself |
| `ClusterRaces.OwnBackupRepeatsId` | internal/services/idgen/app/commands/snowflake_service.go:43-57 | an instance whose worker is also its first backup repeats an ID when its clock falls back |
| `WorkerLeaseManager.WorkerAccounting` | internal/services/idgen/app/commands/worker_lease_manager.go:147-167 | after a prompt start and any ticks and promotions, no worker becomes primary twice, primary and backups never contain duplicates, and backups only shrink as a subsequence of the acquired list |
| `WorkerLeaseManager.StartupDistinctExact` | internal/services/idgen/app/commands/worker_lease_manager.go:38-58 | a start acquires every worker at most once, from every table, if and only if its last statement comes before the first lease has run out |
| `WorkerLeaseManager.StartupDistinct` | internal/services/idgen/app/commands/worker_lease_manager.go:38-58 | a prompt start never acquires a worker twice, whatever fails and whatever is locked |
| `WorkerLeaseManager.StartupRepeats` | internal/services/idgen/infra/postgres/worker_lease_store.go:34-39 | every longer start takes one of its own workers again from some table |
| `WorkerLeaseManager.ManagerFollowsHistory` | internal/services/idgen/app/commands/worker_lease_manager.go:118-128 | flag and counter are determined by the history of renewals and promotions; the flag is down exactly if two renewals in a row failed and no promotion followed |
| `WorkerLeaseManager.ValidityIsHistory` | internal/services/idgen/app/commands/worker_lease_manager.go:118-128 | the same as a fact about histories: later successes do not restore validity |
| `WorkerLeaseManager.LiveIsSubsequence` | internal/services/idgen/app/commands/worker_lease_manager.go:134-144 | the backups kept by a tick are the old ones with some left out, in order |
| `WorkerLeaseManager.TickExact` | internal/services/idgen/app/commands/worker_lease_manager.go:111-145 | a tick worker by worker: each backup stays if and only if the table still has it leased to this owner and the answer to its own renewal arrives, the order stays, each row is what its own renewal makes of it, and all other rows are untouched |
| `WorkerLeaseManager.StartupExact` | internal/services/idgen/app/commands/worker_lease_manager.go:38-58 | there is a manager if and only if a primary was acquired, and its backups are those acquired in order up to the number wanted or the first failed attempt |
| `WorkerLeaseManager.CloseExact` | internal/services/idgen/app/commands/worker_lease_manager.go:169-189 | closing worker by worker: the primary by the first statement and each backup by its own; a row of the instance is released and without owner if and only if its statement reaches the database, and every other row stays |
| `WorkerLeaseManager.LeaseManager.New` | internal/services/idgen/app/commands/worker_lease_manager.go:38-67 | primary and backups are acquired in order, stopping at the first failed backup; no manager without a primary |
| `WorkerLeaseManager.LeaseManager.RunTick` | internal/services/idgen/app/commands/worker_lease_manager.go:111-145 | one tick changes manager and table as the specification of a tick says, for every pattern of database faults |
| `WorkerLeaseManager.LeaseManager.RenewEach` | internal/services/idgen/app/commands/worker_lease_manager.go:134-140 | the renewed backups, and the table after all renewals |
| `WorkerLeaseManager.LeaseManager.ConsumeBackupWorkerID` | internal/services/idgen/app/commands/worker_lease_manager.go:147-167 | the first backup becomes primary, valid and with no failures, also when the release reports an error |
| `WorkerLeaseManager.LeaseManager.Shutdown` | internal/services/idgen/app/commands/worker_lease_manager.go:169-189 | primary and backups are released one by one, errors not stopping the rest |
| `WorkerLeaseStore.FirstFree` | internal/services/idgen/infra/postgres/worker_lease_store.go:31-39 | the lowest unlocked worker that is released or expired, or none if there is no such worker |
| `WorkerLeaseStore.AcquireExact` | internal/services/idgen/infra/postgres/worker_lease_store.go:29-72 | with a timeout of s whole seconds and a fraction, exactly the lowest unlocked worker that was released or last renewed more than s seconds ago is taken, the caller learns of it if and only if the answer arrives, and no other row changes |
| `WorkerLeaseStore.EffectiveTimeoutIsSeconds` | internal/services/idgen/infra/postgres/worker_lease_store.go:29 | the timeout in whole seconds is the configured one without its fraction, cut towards zero |
| `WorkerLeaseStore.RenewExact` | internal/services/idgen/infra/postgres/worker_lease_store.go:78-97 | a renewal moves the lease of an active row of this owner to the present and nothing else, and reports it if and only if it happened and the answer arrives |
| `WorkerLeaseStore.Store.AcquireWorkerID` | internal/services/idgen/infra/postgres/worker_lease_store.go:18-76 | takes that worker for the caller in one step, whether or not the caller learns of it |
| `WorkerLeaseStore.Store.RenewLease` | internal/services/idgen/infra/postgres/worker_lease_store.go:78-97 | extends a lease only if the row is active and the caller's, and reports success only then |
| `WorkerLeaseStore.Store.ReleaseWorkerID` | internal/services/idgen/infra/postgres/worker_lease_store.go:99-118 | releases only the caller's row; finding nothing to release is no error |
| `SnowflakeService.ServiceUniqueness` | internal/services/idgen/app/commands/snowflake_service.go:28-74 | after a prompt start, all IDs one service ever returns are distinct, for any clock and any behaviour of the table, releases that fail included |
| `SnowflakeService.ServiceUniquenessExact` | internal/services/idgen/app/commands/snowflake_service.go:28-74 | a service never repeats an ID, from any table, if and only if its start was prompt with respect to the timeout cut to whole seconds |
| `SnowflakeService.DistinctWorkersExact` | internal/services/idgen/app/commands/snowflake_service.go:28-58 | a new service, static or leased, never repeats an ID if and only if the workers it was given are all different |
| `SnowflakeService.StepKeepsInv` | internal/services/idgen/app/commands/snowflake_service.go:28-58 | backups are unused and nothing on the current worker is above the generator, after every call and tick |
| `SnowflakeService.DistinctIds` | internal/services/idgen/domain/snowflake.go:85-90 | distinct (timestamp, worker, sequence) triples are distinct int64 IDs inside the time window |
| `SnowflakeService.InvalidIsFinal` | internal/services/idgen/app/commands/snowflake_service.go:29-31 | once the lease is invalid the service issues nothing more and does not recover |
| `SnowflakeService.AgreementExact` | internal/services/idgen/app/commands/snowflake_service.go:43-49 | after a call the generator's worker is the manager's primary unless the call promoted a backup and its release reported an error |
| `SnowflakeService.SnowflakeServer.GenerateSnowflakeID` | internal/services/idgen/app/commands/snowflake_service.go:28-58 | gate, generator, promotion and retry, with their three kinds of error, on the shared objects |
| `SnowflakeService.SnowflakeServer.SwitchAndRetry` | internal/services/idgen/app/commands/snowflake_service.go:43-57 | the promotion and the second attempt after the clock was found behind |
| `SnowflakeService.SnowflakeServer.GenerateBatchSnowflakeIDs` | internal/services/idgen/app/commands/snowflake_service.go:60-74 | exactly as many IDs as asked for, from a history of calls, or the error of the first call that fails; the table is what the calls leave one after the other |
| `SnowflakeGenerator.TicketsRise` | internal/services/idgen/domain/snowflake.go:64-90 | between worker switches and for any clock the (timestamp, sequence) pairs rise strictly, count up by one within a millisecond, and at most 4096 share one |
| `SnowflakeGenerator.GenerateRises` | internal/services/idgen/domain/snowflake.go:68-84 | a call fails exactly when the clock is behind, reports by how much, and then changes nothing; after the 4096th ID of a millisecond the next one is strictly later with sequence 0 |
| `SnowflakeGenerator.IdsRise` | internal/services/idgen/domain/snowflake.go:85-89 | as int64 numbers the IDs of one worker rise strictly inside the time window |
| `SnowflakeGenerator.Generator.GenerateID` | internal/services/idgen/domain/snowflake.go:64-90 | the wait ends at the first reading past the last timestamp, whenever the clock has such a reading; one reading otherwise |
| `SnowflakeGenerator.Generator.ParseID` | internal/services/idgen/domain/snowflake.go:92-106 | gives back the fields of every ID of this node inside the time window |
| `SnowflakeGenerator.Generator.SwitchWorkerID` | internal/services/idgen/domain/snowflake.go:120-126 | the new worker starts with no last timestamp and sequence 0 |
| `SnowflakeGenerator.NextSequenceIsModulo` | internal/services/idgen/domain/snowflake.go:74 | masking the incremented sequence is counting modulo 4096 |
| `SnowflakeLayout.PackValue` | internal/services/idgen/domain/snowflake.go:85-88 | the shift-and-or expression is positional notation: fields do not overlap, the result is an int64 |
| `SnowflakeLayout.ParseUndoesPack` | internal/services/idgen/domain/snowflake.go:85-106 | parsing returns datacenter, worker and sequence always, and the timestamp if and only if it lies within 2^41 ms of the epoch |
| `SnowflakeLayout.PackUndoesParse` | internal/services/idgen/domain/snowflake.go:92-106 | repacking the parsed fields of any int64 gives it back, for every epoch, overflow included |
| `SnowflakeLayout.PackKeepsOrder` | internal/services/idgen/domain/snowflake.go:85-88 | int64 order of IDs on one worker is the lexicographic order of (timestamp, sequence) |
| `SnowflakeLayout.PackInjective` | internal/services/idgen/domain/snowflake.go:85-88 | two IDs are equal if and only if all their fields are, time taken modulo 2^42 ms |
| `Bits.AndMask` | internal/services/idgen/domain/snowflake.go:14-16 | a mask of k ones keeps the k low bits of any int64, negative ones included |
| `Bits.OrDisjoint` | internal/services/idgen/domain/snowflake.go:85-88 | or-ing into clear low bits is addition |
| `Bits.WrapUndone` | internal/services/idgen/domain/snowflake.go:93 | subtracting and adding the epoch undo each other in int64, whether or not they overflow |
| `SegmentProtocol.SegmentUniqueness` | internal/services/idgen/app/commands/cached_segment_allocator.go:100-167 | over every interleaving of instances and goroutines, if the ranges delivered do not overlap, no ID of a tag is issued twice, and each is from one of the ranges |
| `SegmentProtocol.SegmentUniquenessExact` | internal/services/idgen/app/commands/cached_segment_allocator.go:100-167 | for given answers of the database, every interleaving issues distinct IDs if and only if the ranges they deliver do not overlap |
| `SegmentProtocol.SegmentConservation` | internal/services/idgen/domain/segment_buffer.go:64-204 | every ID delivered is in exactly one place: issued, in a current slot, in a ready next slot, in flight or discarded; no other ID is anywhere |
| `SegmentProtocol.RowConservation` | internal/services/idgen/infra/postgres/segment_repository.go:18-37 | where no step is negative, the IDs between the first and the current max_id are exactly those in one of these places and those of ranges whose replies were lost, each once, and no ID is issued twice |
| `SegmentProtocol.StepKeepsInv` | internal/services/idgen/domain/segment_buffer.go:64-204 | each lock-sized step moves IDs between places and neither copies nor loses one |
| `SegmentProtocol.LoadStep` | internal/services/idgen/infra/postgres/segment_repository.go:18-37 | a load whose range is new puts it in flight, or loses it, and moves nothing else |
| `SegmentProtocol.VersionCountsCommits` | internal/services/idgen/infra/postgres/segment_repository.go:22-27 | the version of the row counts the committed statements over every run |
| `SegmentProtocol.DrawStep` | internal/services/idgen/domain/segment_buffer.go:125-165 | a draw moves one ID out of its slot, switching slots if it must |
| `SegmentProtocol.FillSlot` | internal/services/idgen/domain/segment_buffer.go:64-100 | storing a range discards what its slot held and nothing else |
| `SegmentProtocol.DisableStep` | internal/services/idgen/domain/segment_buffer.go:195-204 | deactivation discards what both slots held |
| `SegmentProtocol.NegativeStepRepeatsIds` | internal/services/idgen/infra/postgres/segment_repository.go:22-27 | with a negative step between two positive ones, which the schema permits, an ID can be issued twice |
| `SegmentProtocol.NoNegativeStepIsDisjoint` | internal/services/idgen/infra/postgres/segment_repository.go:22-27 | without negative steps the ranges never overlap |
| `SegmentOrder.RisesExact` | internal/services/idgen/domain/segment_buffer.go:64-165 | for every run, the IDs of a buffer rise in all continuations by draws if and only if every range stored into it fit at its time: above what was issued and left in the current slot, and below a ready next range when it replaces the current one |
| `SegmentOrder.LoadOrderRises` | internal/services/idgen/app/commands/cached_segment_allocator.go:100-167 | they rise if each range stored was loaded after those stored before, and no initialization meets a buffer that is initialized or has a range ready |
| `SegmentOrder.LatePreloadGoesBack` | internal/services/idgen/app/commands/cached_segment_allocator.go:154-167 | a preload stored after the slow path has moved on makes IDs go back |
| `SegmentOrder.RacingInitializationGoesBack` | internal/services/idgen/app/commands/cached_segment_allocator.go:109-122 | a late second initialization overwrites the current slot before an older ready range and makes IDs go back |
| `SegmentOrder.OutrunPreloadGoesBack` | internal/services/idgen/app/commands/cached_segment_allocator.go:125-167 | one caller with a preload that is a goroutine: the first draw asks for it, the second finds nothing and loads on the spot, and the preload stored afterwards makes IDs go back |
| `SegmentOrder.DrawsReturnCached` | internal/services/idgen/domain/segment_buffer.go:125-165 | after any run, further draws return exactly the cached IDs in order |
| `SegmentSequential.SessionIsCounter` | internal/services/idgen/app/commands/cached_segment_allocator.go:35-51 | with one caller and in-line preloads, drawn IDs rise strictly, lost ranges or not, and drawn then cached IDs are the consecutive integers from the first max_id if and only if the database lost no committed range |
| `SegmentSequential.SessionKeepsAccount` | internal/services/idgen/app/commands/cached_segment_allocator.go:125-167 | for any steps and failures, drawn then cached IDs are exactly the IDs received, in order |
| `SegmentSequential.GapFreeIffNothingLost` | internal/services/idgen/infra/postgres/segment_repository.go:22-27 | the ranges received join up if and only if no committed range went missing |
| `SegmentSequential.LoadedIdsBound` | internal/services/idgen/infra/postgres/segment_repository.go:22-27 | the IDs received rise strictly and stay below max_id |
| `SegmentSequential.AllocateKeepsAccount` | internal/services/idgen/app/commands/cached_segment_allocator.go:35-51 | a successful call returns all the IDs it drew, as many as asked for; a failed one draws some and returns none |
| `SegmentSequential.DrawOneExact` | internal/services/idgen/app/commands/cached_segment_allocator.go:125-152 | a draw returns the first cached ID, or loads a range on the spot and returns its first ID; it fails if and only if nothing is cached and that load fails or brings no ID, with the error of the cause |
| `SegmentSequential.CallSucceeds` | internal/services/idgen/app/commands/cached_segment_allocator.go:35-51 | while the database delivers ranges, of whatever sizes, every call returns as many IDs as it asked for |
| `SegmentSequential.CallFailsAsDraw` | internal/services/idgen/app/commands/cached_segment_allocator.go:35-51 | a call that fails on its way found nothing cached after the IDs it drew, and reports why no new range came |
| `SegmentSequential.FirstLoadFailure` | internal/services/idgen/app/commands/cached_segment_allocator.go:113-122 | a call whose first load fails reports an unknown tag or a failed load, draws nothing and leaves no buffer |
| `SegmentSequential.RemovedTagIsRefused` | internal/services/idgen/app/commands/cached_segment_allocator.go:113-135 | on the buffer of a removed tag a draw reports an unknown tag and changes nothing, and a call draws no ID and reports that or the failure of its load |
| `SegmentSequential.DrawPreloads` | internal/services/idgen/app/commands/cached_segment_allocator.go:126-132 | after a draw the next range is ready, or not yet due, or was asked for in vain |
| `SegmentPreload.ExactPreloadCount` | internal/services/idgen/app/commands/cached_segment_allocator.go:125-167 | with a constant step s and no failures, after any calls that asked for n IDs in all the repository was called 1 + floor((n + s - floor(s/10) - 1)/s) times, the IDs are consecutive, the next draw finds one in the buffer, and the next call returns the next IDs |
| `SegmentPreload.SteadyDraw` | internal/services/idgen/domain/segment_buffer.go:167-173 | each draw succeeds at once and the next range is fetched when one tenth of the current one is gone |
| `SegmentAllocator.CachedSegmentAllocator.AllocateSegmentIDs` | internal/services/idgen/app/commands/cached_segment_allocator.go:35-51 | state, drawn IDs and reply of a call; other tags are untouched |
| `SegmentAllocator.CachedSegmentAllocator.GetOrInitializeBuffer` | internal/services/idgen/app/commands/cached_segment_allocator.go:100-123 | loads a buffer before first use and forgets it again if that load fails |
| `SegmentAllocator.CachedSegmentAllocator.NextIDFrom` | internal/services/idgen/app/commands/cached_segment_allocator.go:125-152 | one draw, with the load on the spot when the buffer is empty, and with preloading |
| `SegmentAllocator.CachedSegmentAllocator.DrawLoop` | internal/services/idgen/app/commands/cached_segment_allocator.go:41-50 | draws until done or until the first error |
| `SegmentAllocator.CachedSegmentAllocator.PreloadNext` | internal/services/idgen/app/commands/cached_segment_allocator.go:154-167 | at most one load per buffer; a failed load allows the next attempt |
| `SegmentAllocator.CachedSegmentAllocator.SyncBizTags` | internal/services/idgen/app/commands/cached_segment_allocator.go:57-80 | afterwards exactly the desired tags are cached; kept buffers are unchanged, others deactivated |
| `SegmentAllocator.AllocateIsQuiet` | internal/services/idgen/app/commands/cached_segment_allocator.go:35-51 | between calls no load is under way and every cached buffer is enabled and well formed |
| `SegmentRepository.Repository.LoadSegmentRange` | internal/services/idgen/infra/postgres/segment_repository.go:18-37 | advances the row by its step in one statement and returns the new range, or an error with or without effect |
| `SegmentDomain.SnapshotIsExactCapacity` | internal/services/idgen/domain/segment_buffer.go:175-217 | exactly idle(current) + idle(next) further calls succeed, in order, every later one fails, and the switch comes after exactly idle(current) of them |
| `SegmentDomain.DrainConserves` | internal/services/idgen/domain/segment_buffer.go:125-165 | drawn IDs followed by the remaining ones are always the IDs that were cached |
| `SegmentDomain.ReachableWellFormed` | internal/services/idgen/domain/segment_buffer.go:64-204 | after any calls whatever, a next slot that is not ready is exhausted |
| `SegmentDomain.NextIdTakesFirst` | internal/services/idgen/domain/segment_buffer.go:125-165 | a call returns the first cached ID, and fails only when none is cached |
| `SegmentDomain.DeactivationIsFinal` | internal/services/idgen/domain/segment_buffer.go:195-204 | a deactivated buffer never issues again, whatever is stored into it |
| `SegmentDomain.OneLoadAtATime` | internal/services/idgen/domain/segment_buffer.go:102-117 | after a load of the next range was started, none is started and no draw asks for one until it is stored or reported as failed, whatever else happens |
| `SegmentDomain.NextLoadMayStart` | internal/services/idgen/domain/segment_buffer.go:102-117 | when the load is over another one may start as soon as no range is ready |
| `SegmentDomain.MinStepStays` | internal/services/idgen/domain/segment_buffer.go:64-100 | the smallest step reported is that of the first range the buffer got since it was initialized last |
| `SegmentDomain.SegmentBuffer.Initialize` | internal/services/idgen/domain/segment_buffer.go:64-79 | overwrites the current slot unless disabled |
| `SegmentDomain.SegmentBuffer.Store` | internal/services/idgen/domain/segment_buffer.go:81-100 | overwrites the other slot and marks it ready unless disabled |
| `SegmentDomain.SegmentBuffer.StartLoading` | internal/services/idgen/domain/segment_buffer.go:102-111 | one loader at a time, and none while a range is ready |
| `SegmentDomain.SegmentBuffer.FinishLoading` | internal/services/idgen/domain/segment_buffer.go:113-117 | clears the loading mark only |
| `SegmentDomain.SegmentBuffer.Draw` | internal/services/idgen/domain/segment_buffer.go:125-165 | draws from the current slot or switches to the ready one |
| `SegmentDomain.SegmentBuffer.Disable` | internal/services/idgen/domain/segment_buffer.go:195-204 | clears both slots and all marks |
| `SegmentDomain.SegmentBuffer.TakeSnapshot` | internal/services/idgen/domain/segment_buffer.go:175-193 | reports both slots; the idle counts add up to what can be drawn |
| `Client.QueueConservation` | pkg/client/client.go:258-366 | over any interleaving of callers, refills and closes a buffer never exceeds its size, IDs handed out then buffered are a subsequence of the replies appended, and no ID fetched once is handed out twice |
| `Client.NothingCutExact` | pkg/client/client.go:258-366 | over any interleaving, IDs handed out then buffered are all the IDs appended if and only if every reply fit beside what was buffered and every close met an empty buffer; otherwise some are missing for ever |
| `Client.RacingRefillsLoseIds` | pkg/client/client.go:320-342 | with the default settings, three refills that each found the buffer empty lose IDs although no reply is longer than asked |
| `Client.ClientConservation` | pkg/client/client.go:135-366 | the same for every history of single calls and batches, buffered or not, background refills and closing of a client and every behaviour of the server, by showing that it is a run of the queue |
| `Client.NothingLostExact` | pkg/client/client.go:135-160 | with one caller and no background refill, going on after errors: IDs drawn then buffered are all the IDs received if and only if no answer was longer than the buffer |
| `Client.RefillExact` | pkg/client/client.go:320-342 | a refill makes a request if and only if the buffer has room, asks for as many IDs as one batch and the room allow, appends what fits, and buffers an answer no longer than asked whole |
| `Client.NormalizeExact` | pkg/client/client.go:97-132 | settings that make sense are kept, each other one is the default, and the switches are never touched |
| `Client.AppendKeepsInv` | pkg/client/client.go:335-341 | appending a reply and cutting off the excess keeps order and bounds |
| `Client.IdClient.NextSnowflakeID` | pkg/client/client.go:135-160 | takes the head, refilling first if empty and again after an empty answer; refuses when closed; asks for a background refill below the threshold |
| `Client.IdClient.NextSnowflakeIDs` | pkg/client/client.go:162-179 | validated count; direct fetch when the buffer is off or too small; otherwise one by one up to the first error, the segment buffers being untouched |
| `Client.IdClient.NextSegmentID` | pkg/client/client.go:181-210 | the same per tag, other tags and the Snowflake buffer being untouched |
| `Client.IdClient.RefillSnowflakeBuffer` | pkg/client/client.go:320-342 | asks for no more than fits and no more than one batch |
| `Client.IdClient.RefillSegmentBuffer` | pkg/client/client.go:344-366 | the same per tag |
| `Client.IdClient.TriggerSnowflakeRefill` | pkg/client/client.go:276-296 | starts a background refill only if none is under way |
| `Client.IdClient.BackgroundRefill` | pkg/client/client.go:288-295 | one refill, after which another may start, also if it failed; the other buffers and the closed mark stay |
| `Client.IdClient.BackgroundSegmentRefill` | pkg/client/client.go:310-317 | the same per tag |
| `Client.IdClient.CloseClient` | pkg/client/client.go:258-265 | drops all buffered IDs and nothing else |
| `Benchtool.CountDuplicates` | internal/platform/benchtool/stats.go:5-20 | the length minus the number of distinct values, the input left as it was |
| `Benchtool.NewValue` | internal/platform/benchtool/stats.go:13-18 | in a sorted list an entry is new exactly when it differs from its left neighbour |

## Left out

- HTTP handlers, routing, response mapping, retries, JSON, configuration, bootstrap, logging, health and tag queries: no property beyond single branches.
- `snowflake_command_service.go` and `segment_command_service.go`: thin wrappers; only the batch count check is modelled.
- Error texts, wall-clock update times and the cache view: copied fields.
- Validation of tag strings in server and client: easy members.
- SQL, transactions and contexts: a statement is one atomic step that may fail before or after its effect; rows locked by others are skipped by an acquisition, as `SKIP LOCKED` does.
- Integer overflow of `max_id`: the database rejects the statement, which the model has as a refused load.
- The load threshold as a floating-point product: `idle < 0.9 * step` is `10 * idle < 9 * step`, which agrees for every 32-bit step.
- The duration of the lease timeout as a floating-point number of seconds: cut to whole seconds exactly.
- Deleting and re-inserting a `leaf_alloc` row: it would rewind `max_id`; the row is assumed to stay.
- Time passing inside a call: starting, a renewal tick, closing and one call of the service, its wait for the next millisecond included, each happen at one instant, and the lease flag is the one of that instant; `gap` is the longest time between two ticks that are carried out.
- Statements of other instances between the statements of one start: the start of `WorkerLeaseManager` works on the table as its own statements leave it.
- Concurrent calls of one service, and ticks interleaved with promotions: calls, ticks and promotions are taken one after the other; `LeaseRaces` shows what an interruption of a tick does; a promotion between two of the backups' renewals is not told apart from one after them, whose effects are the same.
- Datacenter ids and static worker ids outside 0..31: the program does not check them; the theorems ask for the range.
- Different epochs on different instances: all instances are assumed to share one.
- Requests still served after `Close`: an instance that closes has stopped issuing.
- ClusterProtocol.ClusterUniqueness: assumes that workers rest before they change hands and that promotions learn of their releases, because the code enforces neither; `ClusterLimits` shows for which rests and clocks this is needed.
- ClusterLimits.ClusterUniquenessExact: asks for two instances that share a datacenter, which the runs that repeat an ID need, and for an epoch after 1970.
- ClusterLimits.LostReleasesExact: asks the same, times after 1970, and a rest of released workers below the 69 years of the time window.
- SegmentProtocol.SegmentUniqueness: asks that the ranges delivered do not overlap, which the schema does not enforce for negative steps; by `SegmentUniquenessExact` nothing less will do.
- SnowflakeService.SnowflakeServer.GenerateSnowflakeID: asks that the clock gets past the last timestamp if the call has to wait for that, because otherwise it never returns; the same of the calls of a batch.
- Client.IdClient.NextSnowflakeID: asks, when it finds the buffer empty, that some later answer is an error or brings an ID, because otherwise the program asks for ever; the same of the calls of a batch.
- Client.IdClient.NextSegmentID: asks the same of the answers for its tag.
- Client.ClientConservation: IDs drawn by a batch that then fails count as drawn, although the caller does not get them.
- `NextSegmentIDs` of the client: the same loop as `NextSnowflakeIDs`, on the buffer of a tag.
- SegmentAllocator.CachedSegmentAllocator.AllocateSegmentIDs: one goroutine with preloads carried out in line; interleavings are in `SegmentProtocol`, whose steps are the buffer's own functions.
- The removal of a tag while a call on it is under way: only in `SegmentProtocol`, as deactivation at any moment.
- Benchtool.SortSlice: the library's sort is any in-place sort; its order and contents are stated, not its algorithm.
