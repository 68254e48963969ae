/** The integrity scheduler as it runs: one object updated in place. The torrent table is a
    hash map in the program; loops over it below take the keys in an arbitrary order. */
module IntegrityScheduler {
  import opened Common
  import opened Iteration
  import opened FileProbe
  import opened TorrentIntegrity
  import Spec = SchedulerSpec
  import Passes = SchedulerPasses

  lemma HashesStep(snapshots: seq<Snapshot>, i: nat)
    requires i < |snapshots|
    ensures Spec.Hashes(snapshots[..i + 1]) == Spec.Hashes(snapshots[..i]) + {snapshots[i].infoHash}
  {
    assert forall k | 0 <= k < i :: snapshots[..i + 1][k] == snapshots[..i][k];
    assert snapshots[..i + 1][i] == snapshots[i];
  }

  class IntegrityScheduler {
    var now: Time
    var torrents: Spec.Torrents
    var inFlightProbeBatches: nat

    ghost function State(): Spec.Scheduler
      reads this
    {
      Spec.Scheduler(now, torrents, inFlightProbeBatches)
    }

    constructor (now: Time)
      ensures State() == Spec.New(now)
    {
      this.now := now;
      torrents := map[];
      inFlightProbeBatches := 0;
    }

    method AdvanceTime(dt: nat)
      modifies this
      ensures State() == Spec.AdvanceTime(old(State()), dt)
    {
      now := now + dt;
    }

    method SyncTorrents(snapshots: seq<Snapshot>)
      modifies this
      ensures State() == Spec.Sync(old(State()), snapshots)
    {
      var seen: set<InfoHash> := {};
      for i := 0 to |snapshots|
        invariant now == old(now)
        invariant seen == Spec.Hashes(snapshots[..i])
        invariant torrents == Spec.SyncEach(old(torrents), snapshots[..i], now)
      {
        var snapshot := snapshots[i];
        assert snapshots[..i + 1][..i] == snapshots[..i];
        HashesStep(snapshots, i);
        seen := seen + {snapshot.infoHash};
        var st := if snapshot.infoHash in torrents then torrents[snapshot.infoHash] else NewTorrent(now);
        st := SyncTorrent(st, snapshot, now);
        torrents := torrents[snapshot.infoHash := st];
      }
      assert snapshots[..|snapshots|] == snapshots;
      torrents := map h | h in torrents && h in seen :: torrents[h];
      inFlightProbeBatches := |Spec.InFlight(torrents)|;
    }

    static method SyncTorrent(state: TorrentState, snapshot: Snapshot, now: Time) returns (st: TorrentState)
      ensures st == Synced(state, snapshot, now)
    {
      st := state.(
        isActive := snapshot.downloadSpeedBps > 0 || snapshot.uploadSpeedBps > 0,
        isDownloading := snapshot.isDownloading,
        fileCount := snapshot.fileCount,
        savedLocation := snapshot.savedLocation);
      if !snapshot.dataAvailable {
        st := st.(availability := Unavailable);
      } else if st.hasCompletedProbe {
        st := st.(availability := Available);
      }
      if st.DeadlineMismatch(now) {
        st := st.(nextDueAt := now + st.HealthyRetryInterval());
      }
    }

    method RemoveTorrent(infoHash: InfoHash)
      modifies this
      ensures State() == Spec.Remove(old(State()), infoHash)
    {
      torrents := torrents - {infoHash};
      inFlightProbeBatches := |Spec.InFlight(torrents)|;
    }

    method NextProbeIn(infoHash: InfoHash) returns (delay: Option<nat>)
      ensures delay.None? <==>
              infoHash !in torrents
              || (torrents[infoHash].isDownloading && torrents[infoHash].availability != Unavailable)
      ensures delay.Some? ==>
              (delay.value == 0 <==> torrents[infoHash].inFlight || torrents[infoHash].nextDueAt <= now)
      ensures delay.Some? && delay.value > 0 ==>
              (torrents[infoHash].Eligible(now + delay.value)
               && forall t | t < now + delay.value :: !torrents[infoHash].Eligible(t))
    {
      if infoHash !in torrents {
        return None;
      }
      var st := torrents[infoHash];
      if st.isDownloading && st.availability != Unavailable {
        return None;
      }
      if st.inFlight || st.nextDueAt <= now {
        return Some(0);
      }
      return Some(st.nextDueAt - now);
    }

    method OnMetadataLoaded(infoHash: InfoHash)
      modifies this
      ensures State() == Spec.MetadataLoaded(old(State()), infoHash)
    {
      if infoHash in torrents {
        var st := torrents[infoHash];
        st := st.(pendingMetadata := false);
        st := st.(nextProbeFileIndex := 0);
        st := st.(sweepProblems := []);
        st := st.(nextDueAt := now);
        torrents := torrents[infoHash := st];
      }
    }

    method OnDataAvailabilityFault(infoHash: InfoHash)
      modifies this
      ensures State() == Spec.Fault(old(State()), infoHash)
    {
      var sharedLocation := if infoHash in torrents then torrents[infoHash].savedLocation else None;
      ghost var before := State();
      var order := Enumerate(torrents.Keys);
      for i := 0 to |order|
        invariant State() == Passes.FaultEach(before, infoHash, sharedLocation, order[..i])
      {
        assert order[..i + 1][..i] == order[..i];
        var g := order[i];
        Passes.FaultEachFrame(before, infoHash, sharedLocation, order[..i]);
        var sameLocation := sharedLocation.Some? && torrents[g].savedLocation == sharedLocation;
        FaultIf(g == infoHash || sameLocation, g, g == infoHash);
      }
      assert order[..|order|] == order;
      Passes.FaultInAnyOrder(before, infoHash, sharedLocation, order);
    }

    method FaultIf(shares: bool, g: InfoHash, sameTorrent: bool)
      requires g in torrents
      modifies this
      ensures State() == Passes.FaultOne(old(State()), shares, g, sameTorrent)
    {
      if shares {
        var st := torrents[g];
        if st.inFlight {
          inFlightProbeBatches := SatSub(inFlightProbeBatches, 1);
        }
        st := st.(
          probeEpoch := NextEpoch(st.probeEpoch),
          inFlight := false,
          nextProbeFileIndex := 0,
          sweepProblems := [],
          nextDueAt := now,
          pendingMetadata := false);
        if sameTorrent {
          st := st.(availability := Unavailable);
        }
        torrents := torrents[g := st];
      }
    }

    method DrainDueProbeRequests() returns (requests: seq<ProbeBatchRequest>)
      modifies this
      ensures (State(), requests) == Spec.Drain(old(State()))
    {
      requests := [];
      ReclaimTimedOutProbeBatches();
      ghost var entry := State();
      assert [] + Spec.DrainLoop(entry).1 == Spec.DrainLoop(entry).1;
      while inFlightProbeBatches < MAX_IN_FLIGHT_PROBE_BATCHES
        invariant Spec.DrainLoop(entry) == (Spec.DrainLoop(State()).0, requests + Spec.DrainLoop(State()).1)
        decreases MAX_IN_FLIGHT_PROBE_BATCHES - inFlightProbeBatches
      {
        var next := PickNextDueTorrent();
        if next.None? {
          break;
        }
        Spec.DrainUnfolds(State(), next.value);
        var request := StartProbeBatch(next.value);
        ghost var later := Spec.DrainLoop(State()).1;
        assert requests + ([request] + later) == requests + [request] + later;
        requests := requests + [request];
      }
      assert requests + [] == requests;
    }

    method StartProbeBatch(infoHash: InfoHash) returns (request: ProbeBatchRequest)
      requires infoHash in torrents
      modifies this
      ensures State() == Spec.StartProbe(old(State()), infoHash)
      ensures request == RequestFor(infoHash, old(torrents[infoHash]))
    {
      var st := torrents[infoHash];
      if st.nextProbeFileIndex == 0 {
        st := st.(sweepProblems := []);
      }
      st := st.(inFlight := true);
      st := st.(lastProbeStartedAt := Some(now));
      torrents := torrents[infoHash := st];
      inFlightProbeBatches := inFlightProbeBatches + 1;
      request := ProbeBatchRequest(infoHash, st.probeEpoch, st.nextProbeFileIndex, PROBE_BATCH_MAX_FILES);
    }

    method ReclaimTimedOutProbeBatches()
      modifies this
      ensures State() == Spec.Reclaim(old(State()))
    {
      ghost var before := State();
      var order := Enumerate(torrents.Keys);
      for i := 0 to |order|
        invariant State() == Passes.ReclaimEach(before, order[..i])
      {
        assert order[..i + 1][..i] == order[..i];
        Passes.ReclaimEachFrame(before, order[..i]);
        ReclaimIfTimedOut(order[i]);
      }
      assert order[..|order|] == order;
      Passes.ReclaimInAnyOrder(before, order);
    }

    method ReclaimIfTimedOut(g: InfoHash)
      requires g in torrents
      modifies this
      ensures State() == Passes.ReclaimOne(old(State()), g)
    {
      var st := torrents[g];
      if st.TimedOut(now) {
        st := st.(
          inFlight := false,
          probeEpoch := NextEpoch(st.probeEpoch),
          nextProbeFileIndex := 0,
          sweepProblems := [],
          pendingMetadata := false,
          nextDueAt := now,
          lastProbeStartedAt := None);
        torrents := torrents[g := st];
        inFlightProbeBatches := SatSub(inFlightProbeBatches, 1);
      }
    }

    /** The first due torrent in dispatch order, whatever order the table is scanned in. */
    method PickNextDueTorrent() returns (next: Option<InfoHash>)
      ensures next.None? <==> !exists h :: Spec.IsNext(State(), h)
      ensures next.Some? ==> Spec.IsNext(State(), next.value)
    {
      next := None;
      var rest := torrents.Keys;
      ghost var scanned: set<InfoHash> := {};
      while rest != {}
        invariant rest <= torrents.Keys && scanned == torrents.Keys - rest
        invariant next.None? ==> Spec.Due(State()) !! scanned
        invariant next.Some? ==> next.value in Spec.Due(State()) * scanned
        invariant next.Some? ==> forall g | g in Spec.Due(State()) * scanned && g != next.value ::
                                   Spec.Before(torrents, next.value, g)
        decreases rest
      {
        var h :| h in rest;
        rest := rest - {h};
        scanned := scanned + {h};
        if torrents[h].Eligible(now) {
          if next.None? {
            next := Some(h);
          } else {
            Spec.BeforeTotal(torrents, h, next.value);
            if Spec.Before(torrents, h, next.value) {
              forall g | g in Spec.Due(State()) * scanned && g != h
                ensures Spec.Before(torrents, h, g)
              {
                if g != next.value {
                  Spec.BeforeTransitive(torrents, h, next.value, g);
                }
              }
              next := Some(h);
            }
          }
        }
      }
      Spec.NextExists(State());
    }

    method OnDispatchFailed(infoHash: InfoHash)
      modifies this
      ensures State() == Spec.DispatchFailed(old(State()), infoHash)
    {
      if infoHash in torrents {
        var st := torrents[infoHash];
        if st.inFlight {
          st := st.(inFlight := false);
          inFlightProbeBatches := SatSub(inFlightProbeBatches, 1);
        }
        st := st.(nextDueAt := now + DISPATCH_FAILURE_RETRY_INTERVAL);
        torrents := torrents[infoHash := st];
      }
    }

    method OnProbeBatchResult(infoHash: InfoHash, result: FileProbeBatchResult)
      returns (outcome: Option<ProbeBatchOutcome>)
      modifies this
      ensures (State(), outcome) == Spec.BatchResult(old(State()), infoHash, result)
      ensures outcome.None? <==> infoHash !in old(torrents) || result.epoch != old(torrents)[infoHash].probeEpoch
      ensures outcome.Some? && outcome.value.CompletedSweep? ==>
                var problems := outcome.value.problemFiles;
                && infoHash in torrents && problems == old(torrents)[infoHash].sweepProblems + result.problemFiles
                && torrents[infoHash].availability == (if problems == [] then Available else Unavailable)
                && (problems != [] ==> torrents[infoHash].nextDueAt == now + 5_000_000_000)
    {
      if infoHash !in torrents {
        return None;
      }
      var st := torrents[infoHash];
      if result.epoch != st.probeEpoch {
        return None;
      }
      if st.inFlight {
        inFlightProbeBatches := SatSub(inFlightProbeBatches, 1);
      }
      var answer;
      st, answer := AnswerTorrent(st, result, now);
      torrents := torrents[infoHash := st];
      outcome := Some(answer);
    }

    static method AnswerTorrent(state: TorrentState, result: FileProbeBatchResult, now: Time)
      returns (st: TorrentState, outcome: ProbeBatchOutcome)
      ensures (st, outcome) == Answered(state, result, now)
    {
      st := state.(inFlight := false, lastProbeCompletedAt := Some(now));
      if result.pendingMetadata {
        st := st.(
          pendingMetadata := true,
          nextProbeFileIndex := 0,
          sweepProblems := [],
          nextDueAt := now + PENDING_METADATA_RETRY_INTERVAL);
        return st, PendingMetadata;
      }
      st := st.(
        pendingMetadata := false,
        sweepProblems := st.sweepProblems + result.problemFiles,
        nextProbeFileIndex := result.nextFileIndex);
      if result.reachedEndOfManifest {
        var problemFiles := st.sweepProblems;
        st := st.(
          hasCompletedProbe := true,
          lastFullProbeCompletedAt := Some(now),
          nextProbeFileIndex := 0,
          sweepProblems := [],
          availability := if problemFiles == [] then Available else Unavailable);
        st := st.(nextDueAt := now + st.FullProbeInterval());
        return st, CompletedSweep(problemFiles);
      }
      st := st.(nextDueAt := now);
      return st, SweepInProgress;
    }
  }
}
