/** Slot accounting: the batch counter is the number of torrents in flight. */
module SchedulerSlots {
  import opened Common
  import opened Iteration
  import opened FileProbe
  import opened TorrentIntegrity
  import opened SchedulerSpec

  /** Every batch in flight was started, no later than now. */
  predicate StartsRecorded(s: Scheduler) {
    forall h | h in InFlight(s.torrents) ::
      s.torrents[h].lastProbeStartedAt.Some? && s.torrents[h].lastProbeStartedAt.value <= s.now
  }

  predicate Accounted(s: Scheduler) {
    && s.inFlightBatches == |InFlight(s.torrents)|
    && s.inFlightBatches <= MAX_IN_FLIGHT_PROBE_BATCHES
    && StartsRecorded(s)
  }

  lemma SyncEachKeepsFlight(torrents: Torrents, snapshots: seq<Snapshot>, now: Time)
    ensures InFlight(SyncEach(torrents, snapshots, now)) == InFlight(torrents)
    ensures forall h | h in torrents ::
              h in SyncEach(torrents, snapshots, now)
              && SyncEach(torrents, snapshots, now)[h].lastProbeStartedAt == torrents[h].lastProbeStartedAt
    decreases |snapshots|
  {
    if snapshots != [] {
      var last := |snapshots| - 1;
      SyncEachKeepsFlight(torrents, snapshots[..last], now);
    }
  }

  lemma SyncAccounted(s: Scheduler, snapshots: seq<Snapshot>)
    requires Accounted(s)
    ensures Accounted(Sync(s, snapshots))
  {
    SyncEachKeepsFlight(s.torrents, snapshots, s.now);
    SubsetCard(InFlight(Sync(s, snapshots).torrents), InFlight(s.torrents));
  }

  lemma RemoveAccounted(s: Scheduler, h: InfoHash)
    requires Accounted(s)
    ensures Accounted(Remove(s, h))
  {
    SubsetCard(InFlight(Remove(s, h).torrents), InFlight(s.torrents));
  }

  lemma FaultInFlight(s: Scheduler, h: InfoHash) returns (hit: set<InfoHash>)
    ensures hit == set g | g in s.torrents && SharesFault(s.torrents, h, g) && s.torrents[g].inFlight
    ensures hit <= InFlight(s.torrents) && InFlight(Fault(s, h).torrents) == InFlight(s.torrents) - hit
  {
    hit := set g | g in s.torrents && SharesFault(s.torrents, h, g) && s.torrents[g].inFlight;
  }

  /** The saturating subtraction of a fault never clips. */
  lemma FaultAccounted(s: Scheduler, h: InfoHash)
    requires Accounted(s)
    ensures Accounted(Fault(s, h))
    ensures s.inFlightBatches >= |InFlight(s.torrents) - InFlight(Fault(s, h).torrents)|
  {
    var hit := FaultInFlight(s, h);
    SubsetCard(hit, InFlight(s.torrents));
    assert InFlight(s.torrents) - InFlight(Fault(s, h).torrents) == hit;
  }

  /** After the timeout sweep every batch in flight is younger than the timeout. */
  lemma ReclaimAccounted(s: Scheduler)
    requires Accounted(s)
    ensures Accounted(Reclaim(s))
    ensures forall h | h in Reclaim(s).torrents :: !Reclaim(s).torrents[h].TimedOut(s.now)
  {
    var late := set g | g in s.torrents && s.torrents[g].TimedOut(s.now);
    SubsetCard(late, InFlight(s.torrents));
    assert InFlight(Reclaim(s).torrents) == InFlight(s.torrents) - late;
  }

  lemma StartAccounted(s: Scheduler, h: InfoHash)
    requires Accounted(s) && h in s.torrents && !s.torrents[h].inFlight
    requires s.inFlightBatches < MAX_IN_FLIGHT_PROBE_BATCHES
    ensures Accounted(StartProbe(s, h))
  {
    assert InFlight(StartProbe(s, h).torrents) == InFlight(s.torrents) + {h};
  }

  lemma DrainLoopAccounted(s: Scheduler)
    requires Accounted(s)
    requires forall h | h in s.torrents :: !s.torrents[h].TimedOut(s.now)
    ensures Accounted(DrainLoop(s).0)
    ensures forall h | h in DrainLoop(s).0.torrents :: !DrainLoop(s).0.torrents[h].TimedOut(s.now)
    decreases MAX_IN_FLIGHT_PROBE_BATCHES - s.inFlightBatches
  {
    if s.inFlightBatches < MAX_IN_FLIGHT_PROBE_BATCHES && exists h :: IsNext(s, h) {
      var h :| IsNext(s, h);
      DrainUnfolds(s, h);
      StartAccounted(s, h);
      DrainLoopAccounted(StartProbe(s, h));
    }
  }

  lemma DrainAccounted(s: Scheduler)
    requires Accounted(s)
    ensures Accounted(Drain(s).0)
    ensures forall h | h in Drain(s).0.torrents :: !Drain(s).0.torrents[h].TimedOut(s.now)
  {
    ReclaimAccounted(s);
    DrainLoopAccounted(Reclaim(s));
  }

  lemma ReleaseAccounted(s: Scheduler, h: InfoHash, st: TorrentState)
    requires Accounted(s) && h in s.torrents && !st.inFlight
    ensures Accounted(Release(s, h, st))
    ensures s.torrents[h].inFlight ==> s.inFlightBatches >= 1
  {
    assert InFlight(Release(s, h, st).torrents) == InFlight(s.torrents) - {h};
  }

  lemma AdvanceAccounted(s: Scheduler, dt: nat)
    requires Accounted(s)
    ensures Accounted(AdvanceTime(s, dt))
  {
  }

  lemma MetadataLoadedAccounted(s: Scheduler, h: InfoHash)
    requires Accounted(s)
    ensures Accounted(MetadataLoaded(s, h))
  {
    assert InFlight(MetadataLoaded(s, h).torrents) == InFlight(s.torrents);
  }

  lemma DispatchFailedAccounted(s: Scheduler, h: InfoHash)
    requires Accounted(s)
    ensures Accounted(DispatchFailed(s, h))
  {
    if h in s.torrents {
      ReleaseAccounted(s, h, Undispatched(s.torrents[h], s.now));
    }
  }

  lemma BatchResultAccounted(s: Scheduler, h: InfoHash, result: FileProbeBatchResult)
    requires Accounted(s)
    ensures Accounted(BatchResult(s, h, result).0)
  {
    if Accepts(s, h, result) {
      ReleaseAccounted(s, h, Answered(s.torrents[h], result, s.now).0);
    }
  }

  lemma StepAccounted(s: Scheduler, e: Event)
    requires Accounted(s)
    ensures Accounted(Step(s, e))
  {
    match e {
      case AdvanceEvent(dt) => AdvanceAccounted(s, dt);
      case SyncEvent(snapshots) => SyncAccounted(s, snapshots);
      case RemoveEvent(h) => RemoveAccounted(s, h);
      case ReloadEvent(h) => MetadataLoadedAccounted(s, h);
      case FaultEvent(h) => FaultAccounted(s, h);
      case DrainEvent => DrainAccounted(s);
      case UndispatchedEvent(h) => DispatchFailedAccounted(s, h);
      case ResultEvent(h, result) => BatchResultAccounted(s, h, result);
    }
  }

  lemma {:induction false} RunAccounted(s: Scheduler, events: seq<Event>)
    requires Accounted(s)
    ensures Accounted(Run(s, events))
    decreases |events|
  {
    if events != [] {
      StepAccounted(s, events[0]);
      RunAccounted(Step(s, events[0]), events[1..]);
    }
  }

  /** From a new scheduler, whatever happens: the counter equals the number of torrents in
      flight and never exceeds two, and right after a drain every batch in flight was
      started less than the timeout ago, so a lost reply cannot hold a slot. */
  lemma SlotsNeverLeak(now: Time, events: seq<Event>)
    ensures Accounted(Run(New(now), events))
    ensures
      var drained := Drain(Run(New(now), events)).0;
      Accounted(drained)
      && forall h | h in InFlight(drained.torrents) ::
           drained.torrents[h].lastProbeStartedAt.Some?
           && drained.now - drained.torrents[h].lastProbeStartedAt.value < PROBE_BATCH_TIMEOUT
  {
    RunAccounted(New(now), events);
    var s := Run(New(now), events);
    DrainAccounted(s);
    DrainKeepsClock(Reclaim(s));
  }

  lemma DrainKeepsClock(s: Scheduler)
    ensures DrainLoop(s).0.now == s.now
    decreases MAX_IN_FLIGHT_PROBE_BATCHES - s.inFlightBatches
  {
    if s.inFlightBatches < MAX_IN_FLIGHT_PROBE_BATCHES && exists h :: IsNext(s, h) {
      var h :| IsNext(s, h);
      DrainUnfolds(s, h);
      DrainKeepsClock(StartProbe(s, h));
    }
  }
}
