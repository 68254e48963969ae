/** What one event can do to one torrent's record. */
module SchedulerEffects {
  import opened Common
  import opened FileProbe
  import opened TorrentIntegrity
  import opened SchedulerSpec
  import opened SchedulerDrain

  /** The parts of a record that a sync never touches. */
  predicate SameProbe(a: TorrentState, b: TorrentState) {
    && a.probeEpoch == b.probeEpoch
    && a.nextProbeFileIndex == b.nextProbeFileIndex
    && a.sweepProblems == b.sweepProblems
    && a.inFlight == b.inFlight
    && a.pendingMetadata == b.pendingMetadata
    && a.hasCompletedProbe == b.hasCompletedProbe
    && a.lastProbeStartedAt == b.lastProbeStartedAt
  }

  lemma SyncEffect(torrents: Torrents, snapshots: seq<Snapshot>, now: Time, h: InfoHash)
    ensures
      var after := SyncEach(torrents, snapshots, now);
      && (h in after <==> h in torrents || h in Hashes(snapshots))
      && (h in torrents ==> SameProbe(after[h], torrents[h]))
      && (h in torrents && after[h].nextDueAt != torrents[h].nextDueAt ==> after[h].nextDueAt > now)
      && (h in after && h !in torrents ==> SameProbe(after[h], NewTorrent(now)) && after[h].nextDueAt >= now)
    decreases |snapshots|
  {
    if snapshots != [] {
      var last := |snapshots| - 1;
      SyncEffect(torrents, snapshots[..last], now, h);
      assert snapshots == snapshots[..last] + [snapshots[last]];
      HashesSnoc(snapshots[..last], snapshots[last]);
    }
  }

  lemma HashesSnoc(snapshots: seq<Snapshot>, last: Snapshot)
    ensures Hashes(snapshots + [last]) == Hashes(snapshots) + {last.infoHash}
  {
    var all := snapshots + [last];
    assert forall i | 0 <= i < |snapshots| :: all[i] == snapshots[i];
    assert all[|snapshots|] == last;
  }

  /** A drain reclaims a torrent's batch if it is late, and starts a new one if it picks it. */
  lemma DrainEffect(s: Scheduler, h: InfoHash)
    requires h in s.torrents
    ensures
      var reclaimed := ReclaimedIfLate(s.torrents[h], s.now);
      var (after, requests) := Drain(s);
      && after.now == s.now
      && h in after.torrents
      && after.torrents[h] == (if h in Picked(requests) then Started(reclaimed, s.now) else reclaimed)
      && (h in Picked(requests) ==>
            reclaimed.Eligible(s.now) && forall r | r in requests && r.infoHash == h :: r == RequestFor(h, reclaimed))
      && (h in Picked(requests) <==> exists r :: r in requests && r.infoHash == h)
  {
    var ready := Reclaim(s);
    DrainLoopSelects(ready.torrents, ready);
    var (after, requests) := Drain(s);
    var hs := Picked(requests);
    forall r | r in requests && r.infoHash == h
      ensures h in hs && r == RequestFor(h, ready.torrents[h])
    {
      var i :| 0 <= i < |requests| && requests[i] == r;
      assert hs[i] == h;
    }
    if h in hs {
      var i :| 0 <= i < |hs| && hs[i] == h;
      assert requests[i].infoHash == h;
    }
  }

  lemma DrainKeys(s: Scheduler)
    ensures Drain(s).0.torrents.Keys == s.torrents.Keys
  {
    DrainLoopSelects(Reclaim(s).torrents, Reclaim(s));
  }

  /** Every deadline an operation writes is at least the current time, and a batch leaves
      flight only together with such a write. */
  lemma DeadlineWrites(s: Scheduler, e: Event, g: InfoHash)
    requires g in Step(s, e).torrents
    ensures
      var after := Step(s, e).torrents[g];
      || after.nextDueAt >= s.now
      || (g in s.torrents
          && after.nextDueAt == s.torrents[g].nextDueAt
          && (s.torrents[g].inFlight ==> after.inFlight))
  {
    match e {
      case SyncEvent(snapshots) => SyncEffect(s.torrents, snapshots, s.now, g);
      case DrainEvent =>
        DrainKeys(s);
        DrainEffect(s, g);
      case _ =>
    }
  }
}
