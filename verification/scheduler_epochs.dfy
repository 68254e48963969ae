/** Epoch safety: a result asked for before a fault or a timeout changes nothing later. */
module SchedulerEpochs {
  import opened Common
  import opened FileProbe
  import opened TorrentIntegrity
  import opened SchedulerSpec
  import opened SchedulerDrain
  import opened SchedulerEffects

  ghost predicate Registered(s: Scheduler, events: seq<Event>, h: InfoHash)
    decreases |events|
  {
    h in s.torrents && (events != [] ==> Registered(Step(s, events[0]), events[1..], h))
  }

  /** Events that give up on whatever batch of `h` is outstanding. */
  predicate Invalidates(s: Scheduler, e: Event, h: InfoHash)
    requires h in s.torrents
  {
    match e
    case FaultEvent(f) => SharesFault(s.torrents, f, h)
    case DrainEvent => s.torrents[h].TimedOut(s.now)
    case _ => false
  }

  lemma EpochStep(s: Scheduler, e: Event, h: InfoHash)
    requires h in s.torrents && h in Step(s, e).torrents && s.torrents[h].probeEpoch <= U64_MAX
    ensures s.torrents[h].probeEpoch <= Step(s, e).torrents[h].probeEpoch <= U64_MAX
    ensures Invalidates(s, e, h) ==>
              Step(s, e).torrents[h].probeEpoch == NextEpoch(s.torrents[h].probeEpoch)
    ensures !Invalidates(s, e, h) ==> Step(s, e).torrents[h].probeEpoch == s.torrents[h].probeEpoch
  {
    match e {
      case SyncEvent(snapshots) => SyncEffect(s.torrents, snapshots, s.now, h);
      case DrainEvent => DrainEffect(s, h);
      case _ =>
    }
  }

  lemma {:induction false} EpochRun(s: Scheduler, events: seq<Event>, h: InfoHash)
    requires Registered(s, events, h) && s.torrents[h].probeEpoch <= U64_MAX
    ensures h in Run(s, events).torrents
    ensures s.torrents[h].probeEpoch <= Run(s, events).torrents[h].probeEpoch <= U64_MAX
    decreases |events|
  {
    if events != [] {
      EpochStep(s, events[0], h);
      EpochRun(Step(s, events[0]), events[1..], h);
    }
  }

  /** While `h` stays registered, a batch requested before a fault or a timeout of `h` is
      ignored whenever its result arrives: the whole scheduler is left as it is. */
  lemma StaleResultIgnored(
    s: Scheduler, request: ProbeBatchRequest, events: seq<Event>, e: Event, later: seq<Event>,
    result: FileProbeBatchResult)
    requires request in Drain(s).1 && result.epoch == request.epoch
    requires request.infoHash in s.torrents && s.torrents[request.infoHash].probeEpoch <= U64_MAX
    requires Registered(Drain(s).0, events, request.infoHash)
    requires
      var invalidated := Run(Drain(s).0, events);
      && Registered(invalidated, [e] + later, request.infoHash)
      && Invalidates(invalidated, e, request.infoHash)
      && invalidated.torrents[request.infoHash].probeEpoch < U64_MAX
    ensures
      var end := Run(Step(Run(Drain(s).0, events), e), later);
      BatchResult(end, request.infoHash, result) == (end, None)
  {
    var h := request.infoHash;
    DrainEffect(s, h);
    EpochRun(Drain(s).0, events, h);
    var invalidated := Run(Drain(s).0, events);
    assert ([e] + later)[1..] == later;
    EpochStep(invalidated, e, h);
    EpochRun(Step(invalidated, e), later, h);
  }

  /** The bound on the epoch is exact: invalidation drops the outstanding batch if and only if
      the epoch counter has not reached its maximum. */
  lemma InvalidationNeedsRoom(s: Scheduler, e: Event, h: InfoHash, result: FileProbeBatchResult)
    requires h in s.torrents && h in Step(s, e).torrents && Invalidates(s, e, h)
    requires result.epoch == s.torrents[h].probeEpoch <= U64_MAX
    ensures !Accepts(Step(s, e), h, result) <==> s.torrents[h].probeEpoch < U64_MAX
  {
    EpochStep(s, e, h);
  }

  // A torrent that was removed and added again.

  /** How often the outstanding batch of `h` is given up along a run. */
  ghost function Invalidations(s: Scheduler, events: seq<Event>, h: InfoHash): nat
    requires Registered(s, events, h)
    decreases |events|
  {
    if events == [] then 0
    else (if Invalidates(s, events[0], h) then 1 else 0) + Invalidations(Step(s, events[0]), events[1..], h)
  }

  /** The epoch counts the invalidations, up to its maximum. */
  lemma {:induction false} EpochCounts(s: Scheduler, events: seq<Event>, h: InfoHash)
    requires Registered(s, events, h) && s.torrents[h].probeEpoch <= U64_MAX
    ensures h in Run(s, events).torrents
    ensures Run(s, events).torrents[h].probeEpoch == SatAdd(s.torrents[h].probeEpoch, Invalidations(s, events, h))
    decreases |events|
  {
    if events != [] {
      EpochStep(s, events[0], h);
      EpochCounts(Step(s, events[0]), events[1..], h);
    }
  }

  /** Staying registered matters: a torrent that is gone and added again starts to count anew. At
      any later time a result from its previous life is taken as current if and only if its epoch
      is the number of invalidations in the new one. */
  lemma ReAddedAcceptsByCount(
    s: Scheduler, snapshots: seq<Snapshot>, later: seq<Event>, h: InfoHash, result: FileProbeBatchResult)
    requires h !in s.torrents && h in Hashes(snapshots)
    requires Registered(Sync(s, snapshots), later, h)
    ensures
      var readded := Sync(s, snapshots);
      Accepts(Run(readded, later), h, result) <==> result.epoch == SatAdd(0, Invalidations(readded, later, h))
  {
    SyncEffect(s.torrents, snapshots, s.now, h);
    EpochCounts(Sync(s, snapshots), later, h);
  }

  lemma OnlyTorrent(now: Time, snapshot: Snapshot)
    ensures Sync(New(now), [snapshot]) ==
            Scheduler(now, map[snapshot.infoHash := Synced(NewTorrent(now), snapshot, now)], 0)
  {
    var h := snapshot.infoHash;
    assert [snapshot][0].infoHash in Hashes([snapshot]);
    assert [snapshot][..0] == [];
    var none: Torrents := map[];
    assert SyncEach(none, [], now) == none;
    var synced := SyncEach(none, [snapshot], now);
    assert synced == SyncOne(none, snapshot, now);
    assert synced == map[h := Synced(NewTorrent(now), snapshot, now)];
    assert InFlight(synced) == {};
  }

  /** A run in which a batch of the former life completes a sweep of the new one: register, probe,
      remove, register again, and let the first answer arrive. */
  lemma FormerLifeAnswers(now: Time, snapshot: Snapshot, result: FileProbeBatchResult)
    requires !snapshot.isDownloading || !snapshot.dataAvailable
    requires result.epoch == 0 && !result.pendingMetadata && result.reachedEndOfManifest
    ensures
      var h := snapshot.infoHash;
      var first := Sync(New(now), [snapshot]);
      var end := Sync(Remove(Drain(first).0, h), [snapshot]);
      && (exists r :: r in Drain(first).1 && r.infoHash == h && r.epoch == result.epoch)
      && h in end.torrents && !end.torrents[h].hasCompletedProbe && !end.torrents[h].inFlight
      && BatchResult(end, h, result).1 == Some(CompletedSweep(result.problemFiles))
      && h in BatchResult(end, h, result).0.torrents && BatchResult(end, h, result).0.torrents[h].hasCompletedProbe
  {
    var h := snapshot.infoHash;
    var first := Sync(New(now), [snapshot]);
    assert [snapshot][0].infoHash in Hashes([snapshot]);
    OnlyTorrent(now, snapshot);
    var st := Synced(NewTorrent(now), snapshot, now);
    SoloDrain(now, h, st);
    assert RequestFor(h, st) in Drain(first).1;
    var removed := Remove(Drain(first).0, h);
    assert removed == New(now);
    assert first.torrents[h] == st && st.sweepProblems == [];
    assert [] + result.problemFiles == result.problemFiles;
  }
}
