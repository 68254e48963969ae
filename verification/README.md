# Superseedr: verified models

Superseedr is a BitTorrent client. This project models its most stateful parts in Dafny and proves
what they keep over whole runs. Hash-table iteration, clocks, replies, disk answers and write
failures are inputs, so each theorem covers every order and every outcome.

Each part has a specification on values (functions over datatypes), classes and loops proved equal to
it, and theorems about the specification. `*_verdicts`, `checkpoint_progress`, `offline_move_outcome`,
`shared_round_trip`, `rate_requests` and `bencode_lenient` say what the results mean in terms of their
inputs alone: who is blocked until when, when a move goes through, which bytes decode to what.

- **Integrity scheduler** (`file_probe`, `scheduler_*`). Two slots, epochs, timeouts, priority classes
  and sweeps of several batches, driven by any sequence of events.
- **Peer policy** (`peer_policy*`, `peer_history*`, `peer_reducer*`, `peer_window`, `peer_replay*`,
  `peer_eviction`, `peer_verdicts`). Cumulative per-endpoint counters folded into evidence per torrent
  and address, a ten-second reconnect window, a bounded restriction table, and the cached time of the
  next expiry.
- **Policy checkpoint** (`checkpoint*`). The revision-numbered protocol between the service, a slot that
  drops intermediate requests, a writer that may be slow, fail or die, and delayed reports.
- **Offline move** (`offline_move*`). Copy, save the catalog, remove the sources, with every disk
  operation a step and a crash possible between any two, also in the middle of a copy.
- **Bencode** (`decimals`, `bencode*`). The torrent generator's printer and lenient parser, and the
  rewriting of the announce address.
- **Rate limiter** (`rate_*`, `token_bucket`). The token bucket over reals and infinity.
- **Shared configuration** (`shared_*`). Paths relative to a mount, layers per cluster and host, and
  saves that write only what changed.

## Where the code falls short of a promise

The code is modelled as it is. Where a natural promise fails there is a concrete or general failing
case, and the exact condition under which the promise holds.

- The comment on the offline move says that either catalog can read every file at every
  interruption. That holds of every run if and only if the plan is orderly: no entry's source is an
  earlier entry's destination, and no entry stays in place while another moves its file away.
  Moving into a folder inside the old one can break it, because a source that was missing when the plan
  was checked appears when an earlier entry is staged (`SafeExactlyWhenOrderly`, `NestedRootsCanLose`).
- An unreadable source length ends staging without the rollback. An abandoned move leaves the disk as
  before in every environment if and only if the plan is refused or at most one of its entries is worth
  moving, also counting one that becomes so by an earlier copy. Abandoning at a given entry leaves no
  copy if and only if no earlier entry is worth moving (`AbandonedLeavesCopies`, `AbandonedAt`, `AbandonedInstance`).
- A refused hard link is cleaned up by removing its destination, which is then a file that was there. A
  move leaves every file it does not move as it was, at every instant of every run, if and only if the
  plan is refused or no entry that has something to move by its turn leads to such a file
  (`LeftAloneExactly`, `RefusedLinkRemovesForeignFile`).
- A metadata reload resets a sweep's cursor and not its epoch, so a batch in flight past the first
  file completes a sweep that lacks its beginning (`ReloadLosesPrefix`, `LossIsReachable`).
- A torrent removed and added again counts its epochs anew. At any later time it takes a result of its
  former life as current if and only if that result's epoch is the number of faults and timeouts of
  the new life (`ReAddedAcceptsByCount`); a batch of the former life can complete a sweep of the new
  one (`FormerLifeAnswers`).
- Every sync moves a healthy deadline back to one interval from now. With syncs closer together than
  its interval less five seconds, a healthy torrent at rest is never probed again
  (`NeverProbedAgain`).
- Reducing the same metrics again, whatever happened to the reducer in between, restricts an address
  a second time if and only if its history was dropped since and the listing alone exceeds a limit
  (`ReplayOverRuns`). Maintenance drops a listed history that is evicted at the cap, or that has no
  connected endpoint after an hour (`ListedReplayExactly`); eviction needs no hour
  (`EvictedIsRestrictedAgain`, and for every cap `EvictionInstance`).
- A policy file that could not be read starts as clean. "Not dirty means saved" holds of every run if
  and only if the flag was true to the file at the start (`StartMustBeTrue`), which loading ensures
  if and only if the file is absent, could be read or holds nothing (`StartService`,
  `UnreadableStaysUnsaved`).
- Requests beyond the bucket's capacity sleep but take nothing out. The rate bound holds of all
  requests up to a size if and only if that size is at most the capacity
  (`BoundedExactlyWithinCapacity`). Through rate changes it holds with each rate counted for its time
  if the changes preserve the tokens (`ChangingRateBound`); setting a rate without preserving them
  fills the bucket, so that repeating it obtains any amount in no time (`ResetsObtain`).
- Rewriting the announce address keeps the bytes of `info`, and so the torrent's identity, if and only
  if they are strict: plain decimals without leading zeros, strings of full length, strictly ascending
  keys (`EntryKeptExactlyIfStrict`, `PaddedInfoChanges`).
- A second save of the same settings is silent whatever was stored if and only if no two torrents
  share an info hash (`SecondSavesSilentExactly`).
- A save that changes something shared and fails is to be announced when it is repeated. A failed write
  leaves its file as it was, or replaced, or torn, as the length check behind the rename can fail. The
  repetition writes the revision marker if and only if the file left parses and something shared still
  reads differently (`RetryAnnouncesExactly`). Without torn files that is: the failed write was that of
  the settings, the catalog or the metadata, and it did not land or a shared file behind it still has to
  change; otherwise the other hosts are told only if the marker itself had landed
  (`IntactRetryAnnouncesExactly`, `LandedInstance`, `HostFailureInstance`, `RevisionIsLost`). A torn host
  file that lost the host's id makes the repetition take over the cluster's id
  (`HostFailureLosesRevision`, `TornHostInstance`).
- Settings that were saved come back from the files as they were if and only if a default folder is set,
  paths are plain ones below the mount, no name is filled in from the metadata, and the port is 0
  exactly if it is randomized (`SameSettingsReturnExactly`).
- Loading the files and saving what was loaded writes nothing if and only if a default folder is stored,
  no torrent lacks a name that its metadata have, and no id stored for this host has become the
  cluster's (`LoadThenSaveSilentExactly`, `TwoHostInstance`). One such round settles the shared files for
  every host; another host then writes its own file once if and only if its stored id is the cluster's
  (`LoadAndSaveSettles`).

## Model

| member | source | states |
|---|---|---|
| FileProbe.PrepareBatch | src/torrent_manager/manager.rs:2984-3046 | dropping padding and skipped files from a range loses no problem |
| FileProbe.CollectProblems | src/torrent_manager/manager.rs:3048-3097 | one entry per file with a problem, in order |
| FileProbe.ProbeBatch | src/torrent_manager/manager.rs:2984-3097 | a reply reports exactly the problems of the files asked for, clipped to the manifest, and where the sweep goes on |
| FileProbe.ProblemsSplit | src/torrent_manager/manager.rs:3048-3097 | reports of adjacent ranges concatenate to the report of the whole range |
| IntegrityScheduler.IntegrityScheduler.constructor | src/integrity_scheduler.rs:170-176 | a new scheduler has no torrents and no batch in flight |
| IntegrityScheduler.IntegrityScheduler.AdvanceTime | src/integrity_scheduler.rs:178-180 | moves the clock and nothing else |
| IntegrityScheduler.IntegrityScheduler.SyncTorrents | src/integrity_scheduler.rs:182-219 | the loop over snapshots, the retention of listed torrents and the recount equal `Sync` on values |
| IntegrityScheduler.IntegrityScheduler.RemoveTorrent | src/integrity_scheduler.rs:221-228 | equals `Remove`, with the counter recounted |
| IntegrityScheduler.IntegrityScheduler.NextProbeIn | src/integrity_scheduler.rs:230-241 | none for an unknown torrent or one whose download suppresses probes, zero if in flight or due, otherwise exactly the time until it becomes eligible |
| IntegrityScheduler.IntegrityScheduler.OnMetadataLoaded | src/integrity_scheduler.rs:243-250 | resets the sweep of that torrent alone; the epoch stays |
| IntegrityScheduler.IntegrityScheduler.OnDataAvailabilityFault | src/integrity_scheduler.rs:252-280 | the pass over the table, in any iteration order, equals the closed form `Fault` |
| IntegrityScheduler.IntegrityScheduler.DrainDueProbeRequests | src/integrity_scheduler.rs:282-313 | the picking loop returns the requests and the state of `Drain` |
| IntegrityScheduler.IntegrityScheduler.ReclaimTimedOutProbeBatches | src/integrity_scheduler.rs:315-335 | the pass over the table, in any iteration order, equals the closed form `Reclaim` |
| IntegrityScheduler.IntegrityScheduler.PickNextDueTorrent | src/integrity_scheduler.rs:337-353 | finds the first due torrent in dispatch order, or none if nothing is due |
| IntegrityScheduler.IntegrityScheduler.OnDispatchFailed | src/integrity_scheduler.rs:355-363 | equals `DispatchFailed`: the slot is freed and the torrent retried a second later |
| IntegrityScheduler.IntegrityScheduler.OnProbeBatchResult | src/integrity_scheduler.rs:365-414 | equals `BatchResult`; a result of an old epoch changes nothing; a finished sweep reports the problems collected and is unavailable and due in 5 s exactly if there are any |
| SchedulerPasses.ReclaimInAnyOrder | src/integrity_scheduler.rs:315-335 | reclaiming entry by entry in any order is one simultaneous reclaim |
| SchedulerPasses.FaultInAnyOrder | src/integrity_scheduler.rs:252-280 | marking entry by entry in any order is one simultaneous fault |
| SchedulerSpec.DrainUnfolds | src/integrity_scheduler.rs:282-313 | a drain dispatches the unique first due torrent, then drains the rest |
| SchedulerSlots.FaultAccounted | src/integrity_scheduler.rs:252-280 | a fault keeps the slot accounting and its saturating subtraction never clips |
| SchedulerSlots.StepAccounted | src/integrity_scheduler.rs:182-414 | every event keeps: counter equals torrents in flight, at most two, each with a start time |
| SchedulerSlots.SlotsNeverLeak | src/integrity_scheduler.rs:212-379 | over any run the counter is exact, and right after a drain every batch in flight is younger than 30 s |
| SchedulerDrain.PrefixUnique | src/integrity_scheduler.rs:337-353 | the first n due torrents in dispatch order are determined, so iteration order cannot matter |
| SchedulerDrain.DrainSelectsSortedPrefix | src/integrity_scheduler.rs:282-353 | a drain returns exactly the first free-slots-many due torrents by class, deadline and hash, and ends with both slots used or nothing due |
| SchedulerEffects.DeadlineWrites | src/integrity_scheduler.rs:112-120 | every deadline any event writes is at least the current time |
| SchedulerEpochs.EpochStep | src/integrity_scheduler.rs:252-335 | the epoch grows by one exactly on a fault or timeout of the torrent |
| SchedulerEpochs.StaleResultIgnored | src/integrity_scheduler.rs:365-374 | a result requested before a fault or timeout leaves the whole scheduler as it is, after any later events |
| SchedulerEpochs.InvalidationNeedsRoom | src/integrity_scheduler.rs:252-335 | invalidation drops the outstanding batch if and only if the epoch is below the 64-bit maximum |
| SchedulerEpochs.EpochCounts | src/integrity_scheduler.rs:252-335 | along any run the epoch grows by the number of faults and timeouts of the torrent, saturating |
| SchedulerEpochs.ReAddedAcceptsByCount | src/integrity_scheduler.rs:365-374 | at any time after re-adding, a result is taken as current if and only if its epoch is the number of invalidations since, whenever it was requested |
| SchedulerEpochs.FormerLifeAnswers | src/integrity_scheduler.rs:82-100 | a run from a new scheduler in which a batch asked before the removal completes a sweep after the re-adding |
| SchedulerFairness.BoundedOvertaking | src/integrity_scheduler.rs:282-363 | while a torrent waits past its deadline, no lower class is dispatched and no other torrent twice as a member of its class |
| SchedulerFairness.SyncReanchors | src/integrity_scheduler.rs:122-219 | after a sync a healthy resting torrent that is not due is due one interval from now, within 5 s |
| SchedulerFairness.NeverProbedAgain | src/integrity_scheduler.rs:147-219 | along an undisturbed run whose syncs are closer together than the torrent's interval less 5 s, a healthy resting torrent is never dispatched |
| SchedulerFairness.DueOnlyAcrossAGap | src/integrity_scheduler.rs:147-219 | a resting torrent is due after the next sync if and only if that sync comes after its remaining time |
| SchedulerSweep.MoveSweeping | src/integrity_scheduler.rs:243-414 | every move of scheduler or prober keeps the sweep invariant, and an outcome is a full report exactly on the answer that ends the manifest |
| SchedulerSweep.CompletedSweepReports | src/integrity_scheduler.rs:365-414 | in any run a completed sweep reports exactly the problems from its first really probed file on, in order |
| SchedulerSweep.ReportCompleteIff | src/integrity_scheduler.rs:380-413 | that report is the manifest's problem list if and only if no earlier file has a problem |
| SchedulerSweep.SafeSweepIsComplete | src/integrity_scheduler.rs:243-414 | if no reload hits a batch in flight past the first file, every completed sweep reports exactly the manifest's problems |
| SchedulerSweep.ReloadLosesPrefix | src/integrity_scheduler.rs:243-250 | an unsafe reload makes the sweep report only from its last batch on |
| SchedulerSweep.LossIsReachable | src/integrity_scheduler.rs:243-250 | such a run exists for every manifest of two batches |
| SchedulerVerdicts.ReportTellsDamage | src/torrent_manager/manager.rs:3048-3097 | a report names exactly the files that are missing, no file or of another size, in order, with what was found |
| SchedulerVerdicts.ReplyTells | src/torrent_manager/manager.rs:2984-3046 | how many files a batch covers, where the next one starts and when the end is reached, from start and size alone |
| SchedulerVerdicts.SweepDecides | src/integrity_scheduler.rs:380-413 | in every run a finished sweep leaves the torrent unavailable exactly if a file it really probed is damaged, due 5 s or one healthy interval later; from then it may be asked for, downloading or not if damaged, only when not downloading otherwise |
| SchedulerVerdicts.AvailabilityIsLastWord | src/integrity_scheduler.rs:182-414 | over any run the availability is what the last sync, own fault or finished sweep said |
| SchedulerVerdicts.DeadlineExactly | src/integrity_scheduler.rs:147-414 | the deadline after each event, with every interval as a number; no other event writes one |
| SchedulerVerdicts.SyncDeadlineExactly | src/integrity_scheduler.rs:122-219 | a sync writes a new deadline, one interval from now, exactly for a healthy resting torrent whose old one is more than 5 s off |
| SchedulerVerdicts.DescribedAsListed | src/integrity_scheduler.rs:182-219 | a sync describes a torrent as its last listing does, and nothing else changes the description |
| SchedulerVerdicts.ProgressStep | src/integrity_scheduler.rs:243-414 | exactly which events complete a sweep, begin or end the wait for metadata, and set the times of completion |
| SchedulerVerdicts.NewlyListed | src/integrity_scheduler.rs:82-219 | a torrent that appears in a sync is due at once from its first file, with nothing known of its data unless the sync misses them |
| SchedulerVerdicts.KnownAsListed | src/integrity_scheduler.rs:182-228 | over every run a torrent is known exactly if the last sync listed it and no removal followed |
| SchedulerVerdicts.DrainAsksExactly | src/integrity_scheduler.rs:282-353 | a drain asks, for 256 files each, exactly the torrents that may be asked for: those without their data first, then active ones, then by time and hash; one is passed over only if both slots are used by such as precede it |
| SchedulerVerdicts.StartsAfresh | src/integrity_scheduler.rs:282-335 | a torrent asked for is in flight since now; its problem list is empty if the batch starts at the first file or the last one timed out |
| PeerPolicy.PeerPolicyTable.BlocksIp | src/peer_manager.rs:207-211 | true exactly if the normalized address has a deadline in the future |
| PeerPolicy.PeerPolicyTable.RestrictIp | src/peer_manager.rs:827-858 | equals `Restrict` with eviction of the soonest entry; the flag is set exactly if the table changed |
| PeerPolicy.PeerPolicyTable.FindSoonest | src/peer_manager.rs:843-849 | the entry with the least deadline and address |
| PeerPolicy.PeerPolicyTable.RetainLiveAndBoundedTo | src/peer_manager.rs:243-260 | keeps exactly the live entries that last longest, up to the bound |
| PeerPolicy.PeerPolicyTable.SortByExpiry | src/peer_manager.rs:247-256 | an order of all addresses ascending by deadline and address |
| PeerPolicy.BoundedUnique | src/peer_manager.rs:243-260 | which entries survive the bound is determined |
| PeerPolicyRefinement.BoundedRefinesUnbounded | src/peer_manager.rs:827-858 | over any run, if the unbounded table blocks an address and the bounded one does not, the bounded one is full and everything in it lasts at least as long |
| PeerPolicyRefinement.ExactWhileSmall | src/peer_manager.rs:827-858 | while no more addresses than the bound deserve blocking, both tables block the same |
| PeerPolicyLoad.NormalizeRestrictions | src/peer_manager.rs:221-241 | one entry per normalized address with the latest of its deadlines; changed exactly if some address was not normal |
| PeerPolicyLoad.LoadPolicy | src/peer_manager.rs:310-334 | the table is the file's normal form, live and bounded, and the file's own content if that is so already; the reconciliation flag is raised exactly if the two differ |
| PeerReducerPasses.PruneReconnects | src/peer_manager.rs:506-511 | keeps exactly the reconnects younger than the window, in order |
| PeerReducerPasses.AddGains | src/peer_manager.rs:435-468 | endpoint-by-endpoint saturating sums, in any order, are the base plus the total gain |
| PeerReducerPasses.ObserveSnapshot | src/peer_manager.rs:397-473 | the new history of a listed address, with its inferred reconnect |
| PeerReducerPasses.ObserveReconnectCount | src/peer_manager.rs:475-494 | new reconnects up to the room left in the window |
| PeerReducerPasses.ObserveAbsence | src/peer_manager.rs:500-504 | an absent address keeps its evidence and loses its endpoints |
| PeerReducerPasses.CollectReconnectCounts | src/peer_manager.rs:552-555 | counts of an address and its mapped form are added up, whatever the iteration order |
| PeerReducerPasses.CollectPeers | src/peer_manager.rs:556-580 | peers grouped by normalized address, the larger counters of repeated endpoints, and who is active |
| PeerReducerPasses.ThreePasses | src/peer_manager.rs:587-613 | three passes, each in its own arbitrary order, are one observation of every address |
| PeerReducerPasses.JudgeAll | src/peer_manager.rs:615-650 | every history judged, the restrictions in visiting order, and the earliest front expiry |
| PeerReducerPasses.EarliestExpiry | src/peer_manager.rs:801-809 | the minimum expiry over every stored reconnect of every torrent |
| PeerReducerPasses.PruneTorrent | src/peer_manager.rs:788-799 | all histories of a torrent pruned; the flag is set exactly if one changed |
| PeerPolicyReducer.PeerPolicyReducer.ReduceMetrics | src/peer_manager.rs:540-680 | the whole reduction in place equals `Reduce` on values for the order it visited, which `ReduceBlocksExactly` says who is blocked by; no reported change means no changed restriction |
| PeerPolicyReducer.PeerPolicyReducer.PruneReconnectEvidence | src/peer_manager.rs:788-799 | every history pruned, the flag exact, the cache the true minimum |
| PeerPolicyReducer.PeerPolicyReducer.RefreshNextReconnectExpiry | src/peer_manager.rs:801-809 | the cache becomes the true minimum |
| PeerPolicyReducer.PeerPolicyReducer.RemoveTorrent | src/peer_manager.rs:875-878 | that torrent's histories go and the cache becomes the true minimum |
| PeerHistoryLaws.OnlyLastListingCounts | src/peer_manager.rs:397-473 | while counters grow, lifetime totals after any reductions are those of the last listing alone |
| PeerHistoryLaws.ReplayAddsNothing | src/peer_manager.rs:397-494 | reducing the same listing later adds no bytes, connections, reconnects or restriction |
| PeerHistoryLaws.ReplayExactly | src/peer_manager.rs:397-526 | reducing a listing again finds a reason to restrict if and only if the history was dropped in between and the listing alone exceeds a limit |
| PeerHistoryLaws.WindowRefinesLog | src/peer_manager.rs:423-517 | stored reconnects are the log entries under ten seconds old since the last consumption, fewer than ten between reductions; churn is found exactly on ten of them |
| PeerWindow.WindowOverRuns | src/peer_manager.rs:423-809 | so along any run of reductions, maintenance, pruning and removals from an empty reducer, for every torrent and address |
| PeerReplay.ReplayRestrictsExactly | src/peer_manager.rs:540-786 | reduced, maintained and reduced again, the second reduction restricts an address if and only if maintenance dropped its history and its listing alone exceeds a limit |
| PeerReplay.ListedReplayExactly | src/peer_manager.rs:519-781 | for a listed address: restricted again if and only if the listing exceeds a limit and its history was evicted, or it has no connected endpoint and an hour had passed |
| PeerReplayRuns.ReplayOverRuns | src/peer_manager.rs:540-878 | the same after any run of reductions, maintenance, pruning, removal and registration anew: restricted again if and only if the history was dropped since it was last counted and the listing alone exceeds a limit |
| PeerReplay.EvictedIsRestrictedAgain | src/peer_manager.rs:759-781 | in any state over the cap, the history seen longest ago is forgotten, and the next reduction restricts its address if and only if the listing alone exceeds a limit, with no time passed |
| PeerEviction.EvictionInstance | src/peer_manager.rs:759-781 | a run from an empty reducer for every cap: one address, that many younger ones, eviction, and the first restricted again |
| PeerReducerLaws.CacheNeverLate | src/peer_manager.rs:639-678 | over any run, if a reconnect is stored anywhere the cache is set and no later than its expiry |
| PeerReducerLaws.PruneLeavesFuture | src/peer_manager.rs:788-814 | right after a prune the cached time is in the future |
| PeerReducerLaws.ReplayKeepsPolicy | src/peer_manager.rs:540-680 | reducing the same metrics again later changes no restriction |
| PeerReducerLaws.ReplayKeepsCounters | src/peer_manager.rs:540-680 | nor any counter of any address; reconnects only age |
| PeerVerdicts.BlocksByAddress | src/peer_manager.rs:207-211 | both forms of an IPv4 address are blocked exactly while the table holds a later deadline for it |
| PeerVerdicts.CollectIsLargest | src/peer_manager.rs:556-580 | a listing shows per address and endpoint the largest of each counter, and no endpoint that is not listed |
| PeerVerdicts.ActiveExactly | src/peer_manager.rs:556-580 | an address is active exactly if a connected peer has it in either form |
| PeerVerdicts.CountsAddUp | src/peer_manager.rs:552-555 | the count of an IPv4 address is the sum of its two forms, of any other address its own |
| PeerVerdicts.InputTells | src/peer_manager.rs:552-613 | a reduction knows the endpoints of connected and departed peers, and takes an address as present exactly if a connected one has it |
| PeerVerdicts.ListingAdds | src/peer_manager.rs:397-473 | each counter grows by what the endpoints added since the last listing, a counter that fell counting from zero |
| PeerVerdicts.ReconnectInferredExactly | src/peer_manager.rs:397-432 | of two reductions the second infers a reconnect if and only if the address was seen before and had gone, came back with other endpoints only, or with a counter that fell |
| PeerVerdicts.PruneExactly | src/peer_manager.rs:506-511 | a stored reconnect stays for less than ten seconds |
| PeerVerdicts.LimitExactly | src/peer_manager.rs:167-171 | bytes exceed the limit exactly if they are more than 256 MiB and more than twice the torrent |
| PeerVerdicts.ReduceRestrictsExactly | src/peer_manager.rs:540-680 | in a table with room: excessive transfer is entered for 24 hours, churn alone for two, with its reason, unless a longer entry is there; every other address keeps its entry or its absence |
| PeerVerdicts.ReduceBlocksExactly | src/peer_manager.rs:540-680 | so an address is blocked at a time if and only if it was before, or transferred too much and the time is within 24 hours, or only reconnected too often and it is within two |
| PeerVerdicts.FullTableGivesUpFirst | src/peer_manager.rs:827-858 | a full table gives up the entry that ends first for a new one, unless that ends no later |
| PeerVerdicts.HistoryKeptExactly | src/peer_manager.rs:751-786 | maintenance keeps a history exactly unless it is evicted, or its address has gone and was last seen an hour ago |
| PeerVerdicts.MaintainKeepsLive | src/peer_manager.rs:243-260 | maintenance keeps exactly the live restrictions, of more than a million those that end last |
| PeerVerdicts.StepBounded | src/peer_manager.rs:827-858 | no event makes the table larger than a million |
| PeerVerdicts.CacheIsSomeExpiry | src/peer_manager.rs:639-661 | after a reduction the cached time is the one before or ten seconds after a stored reconnect |
| PeerVerdicts.RunsAreProper | src/peer_manager.rs:540-878 | what `ReduceBlocksExactly` asks of a table, beside room in it, holds at every point of every run |
| Checkpoint.RequestSlot.SendReplace | src/peer_manager.rs:1344-1350 | the slot holds the last request only |
| Checkpoint.PolicyPersistenceState.MarkDirty | src/peer_manager.rs:1324-1327 | dirty under a new revision |
| Checkpoint.PolicyPersistenceState.ApplyResult | src/peer_manager.rs:1329-1335 | a report of the current revision clears the queued revision and leaves the policy dirty exactly if it failed; any other report changes nothing |
| Checkpoint.PolicyPersistenceState.QueueIfDirty | src/peer_manager.rs:1337-1352 | an unqueued dirty revision is sent once |
| Checkpoint.ActCoherent | src/peer_manager.rs:1447-1660 | every step of service, slot, writer and reports keeps the protocol's invariant |
| Checkpoint.CleanMeansSaved | src/peer_manager.rs:1323-1408 | in every interleaving, a policy that is not dirty is exactly what the file holds |
| Checkpoint.StartMustBeTrue | src/peer_manager.rs:1037-1048 | so if and only if the flag was true to the file at the start |
| CheckpointStart.StartService | src/peer_manager.rs:1031-1048 | the start that loading gives, with its policy, flag and revision; the promise holds of every run from it if and only if the file was absent, read or empty; a normal, live and bounded policy that the file holds is the one loaded |
| Checkpoint.ShutdownSaves | src/peer_manager.rs:1373-1408 | after an orderly shutdown the file holds the final policy unless the write of that revision failed |
| CheckpointProgress.ReportCleans | src/peer_manager.rs:1329-1352 | in every run a successful report of the current revision makes the policy clean until the next change; meanwhile nothing is sent and the file holds the policy |
| CheckpointProgress.FailureIsRetried | src/peer_manager.rs:1329-1352 | after a failed report of the current revision the next checkpoint sends it again |
| CheckpointProgress.GoneWriterIsTriedAgain | src/peer_manager.rs:1337-1352 | a request sent to a writer that is gone does not count as queued, so the next checkpoint tries again |
| CheckpointProgress.ClosedForGood | src/peer_manager.rs:1447-1660 | once the service knows that its writer is gone no later checkpoint of any run sends anything, and the policy ends unsaved exactly if it was or changed |
| CheckpointProgress.TakenAtMostOnce | src/peer_manager.rs:1337-1408 | in every run whose writes succeed the writer takes each revision at most once |
| CheckpointProgress.CanBecomeClean | src/peer_manager.rs:1329-1408 | from every state that serves with a live writer some run without changes ends clean, with the policy in the file |
| OfflineMove.Preflight | src/control_service.rs:882-914 | accepts exactly the plans whose movable entries have distinct destinations that do not exist |
| OfflineMoveTransaction.OfflineMoveTransaction.CopyForCrossDeviceMove | src/control_service.rs:857-880 | the disk and the states passed through while copying |
| OfflineMoveTransaction.OfflineMoveTransaction.StageMoveFile | src/control_service.rs:965-981 | link first within a mount, copy otherwise, with every failing answer; onto a free path it succeeds exactly if the file is linked or copied completely and verified |
| OfflineMoveTransaction.OfflineMoveTransaction.RollbackStagedMoveFiles | src/control_service.rs:983-1010 | removes staged destinations last first, each step logged |
| OfflineMoveTransaction.OfflineMoveTransaction.StageMovePayloadFiles | src/control_service.rs:1028-1067 | the loop stops at the first failure and equals `StageUpTo` on values |
| OfflineMoveTransaction.OfflineMoveTransaction.FinalizeStagedMoveFiles | src/control_service.rs:1012-1026 | removes the sources one by one |
| OfflineMoveTransaction.OfflineMoveTransaction.WriteCatalogAtomically | src/fs_atomic.rs:32-49 | every catalog state a save passes through, and its result |
| OfflineMoveTransaction.OfflineMoveTransaction.Apply | src/main.rs:2810-2828 | the whole request equals `Execute`; the settings in memory are the new ones exactly if the move went through |
| OfflineMoveSafety.OrderlyIsCrashSafe | src/main.rs:2816-2819 | in an orderly plan, at every instant, whichever catalog is on disk names a readable copy of every payload file |
| OfflineMoveSafety.DisorderlyLoses | src/control_service.rs:1032-1065 | a disorderly plan that passes the checks loses a file even when nothing fails |
| OfflineMoveSafety.SafeExactlyWhenOrderly | src/main.rs:2810-2828 | all runs are crash-safe and undone completely if and only if the plan is refused or orderly |
| OfflineMoveSafety.RollbackRestores | src/control_service.rs:983-1010 | undoing all staged files gives back exactly the former disk |
| OfflineMoveSafety.OrderlyIsUndone | src/control_service.rs:1037-1048 | a failed staging whose removals succeed leaves no trace |
| OfflineMoveSafety.AbandonedAt | src/control_service.rs:1032-1036 | staging abandoned at an entry loses no file, and leaves the disk as before if and only if no earlier entry is worth moving |
| OfflineMoveSafety.AbandonedLeavesCopies | src/control_service.rs:1028-1067 | an abandoned move leaves the disk as before in every environment if and only if the plan is refused or at most one entry is worth moving or becomes so |
| OfflineMoveSafety.AbandonedInstance | src/control_service.rs:1036-1036 | two files between separate folders, the second unreadable: a copy of the first stays |
| OfflineMoveSafety.FailedSaveKeepsBoth | src/main.rs:2820-2826 | a failed save keeps every file at its source and at its destination |
| OfflineMoveSafety.MovedExactly | src/control_service.rs:929-952 | a completed move leaves the moved files at their destinations, no moved source, and everything else alone |
| OfflineMoveOutcome.OutcomeExactly | src/control_service.rs:965-1067 | a move is refused exactly if the checks fail; without chains it goes through if and only if every entry worth moving gets staged and the catalog saved, each told from the answers of the system; the first entry that fails decides between undone and abandoned |
| OfflineMoveOutcome.EndsWith | src/main.rs:2810-2828 | a run starts with the old disk and catalog and ends with its final disk and the catalog the save left; a save that leaves an empty file shows it |
| OfflineMoveOutcome.RollbackGoesBackwards | src/control_service.rs:983-1010 | after i steps of undoing exactly the last i copies are gone |
| OfflineMoveOutcome.CommitGoesForwards | src/control_service.rs:1012-1026 | after i removals the first i sources are gone and no others |
| OfflineMoveOutcome.CopyingIsSeen | src/control_service.rs:857-880 | a crash can see the destination with every content it passes through while it is copied |
| OfflineMoveOutcome.BrokenCopyIsSeen | src/control_service.rs:857-880 | and a copy that broke off with what it left |
| OfflineMoveOutcome.OrphansStay | src/control_service.rs:983-1000 | undoing never removes a destination whose source is gone |
| OfflineMoveOutcome.OneMountNeverOverwrites | src/control_service.rs:965-981 | within one mount staging never writes to a path that exists, whatever the plan |
| OfflineMoveBystanders.LeftAloneExactly | src/control_service.rs:1028-1067 | files that a move does not move are as before at every instant of every run if and only if the plan is refused or no entry with something to move by its turn leads to one |
| OfflineMoveBystanders.NoChainsNoHits | src/control_service.rs:882-914 | which holds of every accepted plan without chains |
| OfflineMoveBystanders.RefusedLinkRemovesForeignFile | src/control_service.rs:1037-1040 | a chain of two entries within one mount whose clean-up removes a file that was there before |
| OfflineMoveSafety.SeparateRootsAreOrderly | src/control_service.rs:607-680 | plans between folders neither of which contains the other are orderly |
| OfflineMoveSafety.NestedRootsCanLose | src/control_service.rs:607-680 | a plan into a nested folder passes the checks and loses a file |
| Decimals.ParseDecimal | scripts/generate_integration_torrents.py:49-53 | reading back a printed number gives the number |
| Bencode.SortedKeysAscend | scripts/generate_integration_torrents.py:92-99 | dictionary keys are printed in strictly ascending order |
| Bencode.DecodeAt | scripts/generate_integration_torrents.py:44-79 | a decoded value starts inside the data and moves the offset forward |
| BencodeCodec.SortKeys | scripts/generate_integration_torrents.py:94-94 | computes the sorted keys |
| BencodeCodec.EncodeValue | scripts/generate_integration_torrents.py:82-100 | the printer with its buffer equals `Encode` |
| BencodeCodec.DecodeValue | scripts/generate_integration_torrents.py:44-79 | the parser equals `DecodeAt` |
| BencodeCodec.DecodeList | scripts/generate_integration_torrents.py:54-60 | the loop over items equals `DecodeItems` |
| BencodeCodec.DecodeDict | scripts/generate_integration_torrents.py:61-70 | the loop over entries equals `DecodeEntries`: keys must be bytes, the last value of a key counts |
| BencodeCodec.DecodeAll | scripts/generate_integration_torrents.py:37-41 | trailing data is an error |
| BencodeCodec.RewriteTorrent | scripts/generate_integration_torrents.py:103-115 | the rewrite equals `RewriteAnnounce`, with its two error cases |
| BencodeLaws.DecodeEncoded | scripts/generate_integration_torrents.py:44-100 | wherever an encoding stands in any data, decoding there yields the value and the position behind it |
| BencodeLaws.RoundTrip | scripts/generate_integration_torrents.py:37-100 | decoding an encoding followed by anything yields the value and stops at its end |
| BencodeLaws.PrefixFree | scripts/generate_integration_torrents.py:82-100 | no encoding is a prefix of another |
| BencodeLaws.RawDecodes | scripts/generate_integration_torrents.py:61-70 | the bytes of each root entry decode to that entry's value |
| BencodeLaws.RewriteDecodes | scripts/generate_integration_torrents.py:103-115 | a rewritten torrent decodes to the old entries with the new address |
| BencodeLaws.RewriteTwice | scripts/generate_integration_torrents.py:103-115 | only the last of two rewrites counts |
| BencodeStrict.StrictExactlyEncodings | scripts/generate_integration_torrents.py:82-100 | a recursive grammar on the bytes describes exactly what the printer prints |
| BencodeStrict.ReencodeExactlyStrict | scripts/generate_integration_torrents.py:37-100 | decoding and encoding again gives the same bytes if and only if they are strict |
| BencodeStrict.EntryKeptExactlyIfStrict | scripts/generate_integration_torrents.py:103-115 | the bytes of any other entry, `info` among them, survive if and only if they are strict |
| BencodeLaws.PaddedInfoChanges | scripts/generate_integration_torrents.py:49-53 | a torrent whose `info` bytes the rewrite changes |
| BencodeLenient.NumeralReads | scripts/generate_integration_torrents.py:49-76 | a number may have blanks around it, a sign, and single underscores between digits, and reads as the number its digits spell |
| BencodeLenient.OnlyNumeralsRead | scripts/generate_integration_torrents.py:49-76 | nothing else reads as a number |
| BencodeLenient.DecodesExactly | scripts/generate_integration_torrents.py:37-79 | data decode to a value if and only if they are the text of a tree with that meaning, where keys and values come in turn and the last value of a key counts |
| BencodeLenient.ErrorsTell | scripts/generate_integration_torrents.py:44-79 | which error stands for the end of the data, an unknown marker, an unclosed integer and a length without a colon |
| BencodeLenient.BadNumbersTell | scripts/generate_integration_torrents.py:49-76 | a closed number is bad exactly if it is no numeral |
| BencodeLenient.ContainersFail | scripts/generate_integration_torrents.py:54-70 | a list or dictionary fails with the error of its first element, and a dictionary for a key that is no string |
| BencodeLenient.CutShortIsTrailing | scripts/generate_integration_torrents.py:37-79 | a string shorter than its length is refused only for not ending where the data do |
| BencodeLenient.MoreIsTrailing | scripts/generate_integration_torrents.py:37-41 | and so is a value with more behind it |
| BencodeLenient.RewriteTells | scripts/generate_integration_torrents.py:103-115 | a rewrite fails with the decoder's error or for a root that is no dictionary; else the result decodes to the old entries with the address under `announce` and alone in the only tier of `announce-list` |
| RateLimit.RunKeepsSane | src/token_bucket.rs:33-147 | through any refills, rate changes and grants, tokens stay between zero and the capacity |
| RateLimitBound.Conserved | src/token_bucket.rs:131-201 | what was obtained and what is left came in with time |
| RateLimitBound.RateBound | src/token_bucket.rs:185-201 | any interleaved turns obtain at most the capacity plus the rate times the time between first and last |
| RateLimitBound.WindowBound | src/token_bucket.rs:185-201 | so in every window of a longer run |
| RateLimitBound.TwoOversize | src/token_bucket.rs:172-183 | two requests beyond the capacity obtain more than the bound |
| RateLimitBound.BoundedExactlyWithinCapacity | src/token_bucket.rs:172-201 | the bound holds of all requests up to a size if and only if it is at most the capacity |
| RateLimitBound.OneSleepIsEnough | src/token_bucket.rs:185-201 | after the announced sleep an undisturbed request is granted |
| RateChanges.BooksBalance | src/token_bucket.rs:58-147 | through any changes of rate and capacity: what was granted, is left and was spilled equals what was there, what time brought and what unpreserved changes gave |
| RateChanges.ChangingRateBound | src/token_bucket.rs:58-201 | from any point of any such history on, at most the capacity there, plus each rate times its time, plus those bursts, is obtained; without unpreserved changes there are none |
| RateChanges.ResetsObtain | src/token_bucket.rs:58-75 | setting a rate and using it up n times in one instant obtains n times the rate |
| TokenBucket.TokenBucket.constructor | src/token_bucket.rs:33-56 | a new bucket is full and sane, infinite exactly if its rate is |
| TokenBucket.TokenBucket.Refill | src/token_bucket.rs:132-146 | equals `Refilled`, capped at the capacity |
| TokenBucket.TokenBucket.SetRate | src/token_bucket.rs:58-75 | equals `WithRate` |
| TokenBucket.TokenBucket.SetRateWithCapacityPreservingTokens | src/token_bucket.rs:81-99 | equals `WithRateAndCapacity` |
| TokenBucket.TokenBucket.TryTake | src/token_bucket.rs:186-198 | one turn of the waiting loop, with the sleep it asks for |
| TokenBucket.TokenBucket.ConsumeAlone | src/token_bucket.rs:185-201 | an undisturbed request sleeps at most once and takes its amount exactly once |
| RateRequests.NewBucketFills | src/token_bucket.rs:33-56 | a new bucket is full, and what is taken comes back at its rate up to its capacity |
| RateRequests.ChangeTakesEffect | src/token_bucket.rs:81-99 | after a preserving change the old tokens, cut to the capacity asked for, and from then the rate asked for |
| RateRequests.ResetTakesEffect | src/token_bucket.rs:58-75 | after any other change one second's worth, and from then the rate asked for |
| RateRequests.UnlimitedPasses | src/token_bucket.rs:149-201 | an unlimited rate lets every request pass at once, also one that was waiting |
| RateRequests.SortedAsAssumed | src/token_bucket.rs:149-183 | a request takes turns exactly if the bucket can hold it; an oversize one sleeps for its share of time, from five minutes on not at all |
| RateRequests.SleepIsShortest | src/token_bucket.rs:185-201 | a refused request sleeps until it can be granted and no longer, but at least a millisecond |
| SharedPaths.NormalizeSharedRelativePath | src/config.rs:1324-1354 | the named components, or an error for a path that climbs or is absolute |
| SharedPaths.ResolvesUnderMount | src/config.rs:1356-1460 | what one host stores another resolves under its own mount |
| SharedPaths.PortableExactly | src/config.rs:1356-1460 | storing the resolved path again gives the same relative path if and only if the mount is absolute or names nothing |
| SharedPaths.StoredExactly | src/config.rs:1324-1380 | a path is stored, as its named components, exactly if it is relative or below the mount and what remains only names or stays |
| SharedPaths.ResolvedExactly | src/config.rs:1445-1460 | a stored path is found below the mount of the host that looks, or refused if it climbs |
| SharedPaths.BelowReturns | src/config.rs:1356-1460 | a plain path below the mount comes back as it was |
| SharedConfigBackend.EncodeSharedDataPath | src/config.rs:1356-1380 | stored are the named components below the mount, exactly if the path is relative or below the mount and neither climbs nor restarts |
| SharedConfigBackend.SyncTorrentMetadata | src/config.rs:850-885 | equals `Synced`; with distinct hashes the result is a fixed point |
| SharedConfigBackend.SharedConfigBackend.SaveSettings | src/config.rs:2383-2449 | files read, compared and written in order, with any one write failing and leaving anything behind, equal `Save` |
| SharedConfig.SaveStores | src/config.rs:2383-2449 | a save leaves exactly the encoded layers and synchronized metadata; the revision moves only with something shared |
| SharedRoundTrip.SavesExactly | src/config.rs:2383-2449 | a save succeeds if and only if the files parse and every path that is set can be stored; otherwise nothing is written; stored are the named components of each path, the port or 0, and everything else unchanged |
| SharedRoundTrip.LastEntryCounts | src/config.rs:850-885 | of several metadata entries with one hash the last counts |
| SharedRoundTrip.MetadataAfterSync | src/config.rs:850-885 | synchronized metadata hold one entry per torrent with a hash, in catalog order, with its own name and priorities and the known or announced content |
| SharedConfig.ClusterIdAfterSave | src/config.rs:645-672 | a host with an id of its own never changes the cluster's, whichever write fails, unless the failed one tears the settings |
| SharedConfig.OwnIdAfterSave | src/config.rs:1049-1060 | a host sees the id it saved |
| SharedConfigLaws.SyncIdempotentExactly | src/config.rs:850-885 | synchronizing twice is synchronizing once, whatever was stored, if and only if no two torrents share a hash |
| SharedConfigLaws.SecondSaveIsSilent | src/config.rs:2383-2449 | the second of two equal saves writes nothing and keeps the revision |
| SharedConfigLaws.SecondSavesSilentExactly | src/config.rs:2383-2449 | so from any stored files if and only if no two torrents share a hash |
| SharedConfigLaws.RetryAnnouncesExactly | src/config.rs:2399-2447 | whatever the failed write left, the repetition writes the marker if and only if that parses and something shared still reads differently (or metadata of shared hashes do not settle); otherwise the marker stays as left |
| SharedConfigLaws.IntactRetryAnnouncesExactly | src/fs_atomic.rs:32-49 | for a write that failed before or behind its rename: the repetition writes the marker if and only if the write was shared and did not land or a later shared file has to change; no further repetition writes anything |
| SharedConfigLaws.RevisionIsLost | src/config.rs:2440-2447 | after a save that fails only on the revision marker, repeating it writes nothing: the marker stays what that write left |
| SharedConfigLaws.HostFailureLosesRevision | src/config.rs:2431-2447 | after a save that fails on the host's file, repeating it writes that file alone, if at all, and keeps the old revision; but if the file lost the host's id, that id becomes the cluster's |
| SharedConfigLaws.LandedInstance | src/fs_atomic.rs:221-230 | the settings land, the write reports an error, and repeating the save writes nothing |
| SharedConfigLaws.HostFailureInstance | src/config.rs:2431-2447 | a host that changes its port and a shared field together |
| SharedConfigLaws.TornHostInstance | src/fs_atomic.rs:221-230 | an emptied host file makes the repetition store the host's id as the cluster's |
| SharedConfigBackend.ApplyMetadata | src/config.rs:887-909 | the loop over torrents takes priorities, and missing names, from the metadata |
| SharedConfigBackend.SharedConfigBackend.LoadSettings | src/config.rs:2357-2366 | equals `Loaded`, with its errors for files that do not parse and paths that climb or leave the mount |
| SharedLoad.SaveStoresWell | src/config.rs:2383-2449 | every save leaves plain relative paths and metadata that match the catalog, and the host that saved an id only if it differs from the cluster's |
| SharedLoad.LoadedLayers | src/config.rs:674-1066 | what a load under any absolute mount would save again: the same layers, but for the default folder, filled-in names and a host id equal to the cluster's |
| SharedRoundTrip.LoadTells | src/config.rs:2357-2366 | a host loads settings exactly if the files parse and no stored path climbs or is absolute, and what it then sees of ids, paths, port, names and priorities |
| SharedRoundTrip.LoadAfterSave | src/config.rs:2357-2449 | on the host that saved, everything comes back: a randomized port as 0 and randomized, paths below the mount without dots, an unset folder as the mount, a missing name as the known one |
| SharedRoundTrip.SameSettingsReturnExactly | src/config.rs:2357-2449 | exactly the saved settings come back if and only if a folder is set, paths are plain ones below the mount, no name is filled in, and the port is 0 exactly if randomized |
| SharedLoad.LoadThenSaveSilentExactly | src/config.rs:2357-2449 | any host, with the share mounted anywhere, writes nothing when it saves what it loaded, if and only if a default folder is stored, no torrent lacks a name its metadata have, and its stored id is not the cluster's |
| SharedLoad.LoadAndSaveSettles | src/config.rs:2357-2449 | after one load and save, another host with any file of its own writes nothing when it loads and saves, if and only if its stored id is not the cluster's; otherwise only its own file |
| SharedLoad.TwoHostInstance | src/config.rs:645-672 | a host whose own id another host made the cluster's writes its file again |

## Left out

- Maintenance of histories: `PeerReducer.Maintain` takes the evicted set as a parameter, and the run theorems hold for any; which set the code takes is `PeerReplay.EvictsOldest`.
- PeerPolicyLoad.LoadPolicy: starts from the parsed contents; the file size limit and read errors are the flag `readable` of `CheckpointStart.StartService`.
- PeerReducerPasses.ObserveSnapshot: leaves out the set of client names, which no decision reads.
- OfflineMove.Preflight: leaves out the refusal of a source that is not a regular file, as the modelled disk holds regular files only.
- OfflineMoveTransaction.OfflineMoveTransaction.StageMovePayloadFiles: leaves out the branch for a source that vanishes while it is staged, which needs another process.
- PeerVerdicts.ReduceRestrictsExactly: speaks of a table with room for every address in question; what a full table gives up is `FullTableGivesUpFirst` and, over runs, `BoundedRefinesUnbounded`.
- OfflineMoveOutcome.OutcomeExactly: past the refusal speaks of plans without chains; in a chain the answers alone do not decide, as a destination may exist by its turn.
- SharedRoundTrip.LoadAfterSave: speaks of distinct info hashes, without which saves do not settle (`SecondSavesSilentExactly`).
- PeerReplayRuns.ReplayOverRuns: says nothing of an address that was last listed in another way in between, as the second listing is then no replay.
- Peer client names, view building, performance counters, logging and the parsing of endpoint strings; a listed peer carries its parsed address, if it parses.
- Overflow of the system clock and of instants: times are unbounded integers of nanoseconds.
- The sweep theorems assume a prober that answers each request at most once and truthfully for the range asked, over a manifest that stays the same.
- Tokio channels, tasks and timers: only the message slots and the order of steps are modelled.
- Python's digit and recursion limits, `bool` and `str` values in the bencode printer.
- Directories, symbolic links and other processes during a move; the removal of empty source folders.
- Hard links share their contents; the model copies them. In an orderly plan nothing is written to a path that exists, so the difference cannot be seen there.
- Disk space and mount detection: answers of the environment.
- Floating-point rounding, rounding of sleeps to nanoseconds, and memory ordering of the bucket's flag: setting a rate is one step.
- SharedLoad.LoadThenSaveSilentExactly: speaks of absolute mounts, which is what a path from the environment is made into (src/config.rs:1145-1148) and what the launcher insists on (src/config.rs:2624).
- RateChanges.ChangingRateBound: speaks of histories without an unlimited phase, during which nothing is counted.
- The bootstrapping of a missing host file, environment variables, Windows path forms, TOML syntax, torrent source strings and catalog backups in the shared configuration; fields copied unchanged are one map.
- Sorting is modelled by selection or insertion; only its result matters.
- The DHT, the wire protocol, storage and the terminal interface.
