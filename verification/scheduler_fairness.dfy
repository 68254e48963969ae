/** Who may be probed before a waiting torrent, and when a resting torrent is never probed. */
module SchedulerFairness {
  import opened Common
  import opened FileProbe
  import opened TorrentIntegrity
  import opened SchedulerSpec
  import opened SchedulerDrain
  import opened SchedulerEffects

  // Bounded overtaking.

  /** `h` may be probed, with rank `c` and a deadline `due` that has passed. */
  predicate Waits(s: Scheduler, h: InfoHash, due: Time, c: nat) {
    && h in s.torrents
    && s.torrents[h].Probable()
    && s.torrents[h].nextDueAt == due < s.now
    && s.torrents[h].Rank() == c
  }

  ghost predicate WaitsThroughout(s: Scheduler, events: seq<Event>, h: InfoHash, due: Time, c: nat)
    decreases |events|
  {
    Waits(s, h, due, c)
    && (events != [] ==> WaitsThroughout(Step(s, events[0]), events[1..], h, due, c))
  }

  /** A dispatched torrent together with the rank it was dispatched under. */
  datatype Pick = Pick(infoHash: InfoHash, rank: nat)

  function PicksOf(s: Scheduler, requests: seq<ProbeBatchRequest>): seq<Pick>
    requires forall r | r in requests :: r.infoHash in s.torrents
  {
    seq(|requests|, i requires 0 <= i < |requests| =>
      assert requests[i] in requests;
      Pick(requests[i].infoHash, s.torrents[requests[i].infoHash].Rank()))
  }

  lemma RequestsDue(s: Scheduler)
    ensures forall r | r in Drain(s).1 :: r.infoHash in Due(Reclaim(s))
  {
    var ready := Reclaim(s);
    DrainLoopSelects(ready.torrents, ready);
    forall r | r in Drain(s).1
      ensures r.infoHash in Due(ready)
    {
      var i :| 0 <= i < |Drain(s).1| && Drain(s).1[i] == r;
      assert Picked(Drain(s).1)[i] == r.infoHash;
    }
  }

  ghost function StepPicks(s: Scheduler, e: Event): seq<Pick> {
    if e.DrainEvent? then
      RequestsDue(s);
      PicksOf(Reclaim(s), Drain(s).1)
    else []
  }

  /** Everything dispatched along a run, in order. */
  ghost function Picks(s: Scheduler, events: seq<Event>): seq<Pick>
    decreases |events|
  {
    if events == [] then [] else StepPicks(s, events[0]) + Picks(Step(s, events[0]), events[1..])
  }

  /** `g` cannot be dispatched on a deadline older than `t`: it is gone, in flight, or due later. */
  predicate Spent(s: Scheduler, g: InfoHash, t: Time) {
    g in s.torrents ==> s.torrents[g].inFlight || s.torrents[g].nextDueAt >= t
  }

  lemma SpentStays(s: Scheduler, e: Event, g: InfoHash, t: Time)
    requires Spent(s, g, t) && t <= s.now
    ensures Spent(Step(s, e), g, t)
  {
    if g in Step(s, e).torrents {
      DeadlineWrites(s, e, g);
    }
  }

  lemma ClockAdvances(s: Scheduler, e: Event)
    ensures s.now <= Step(s, e).now
  {
    if e.DrainEvent? {
      DrainLoopSelects(Reclaim(s).torrents, Reclaim(s));
    }
  }

  /** A drain that leaves `h` waiting dispatches only torrents that come before it. */
  lemma PickedAhead(s: Scheduler, h: InfoHash, due: Time, c: nat, p: Pick)
    requires Waits(s, h, due, c) && Waits(Step(s, DrainEvent), h, due, c) && p in StepPicks(s, DrainEvent)
    ensures
      var ready := Reclaim(s).torrents;
      && p.infoHash in ready && h in ready && ready[h] == s.torrents[h]
      && p.rank == ready[p.infoHash].Rank()
      && p.infoHash in Picked(Drain(s).1) && Before(ready, p.infoHash, h)
  {
    var ready := Reclaim(s);
    var (after, requests) := Drain(s);
    RequestsDue(s);
    DrainLoopSelects(ready.torrents, ready);
    var i :| 0 <= i < |requests| && StepPicks(s, DrainEvent)[i] == p;
    assert Picked(requests)[i] == p.infoHash;
    assert h !in Picked(requests);
    assert h in Due(ready);
  }

  /** What comes before `h` is of a higher class, or not in flight and due no later. */
  lemma AheadIsUnspent(s: Scheduler, h: InfoHash, g: InfoHash, t: Time)
    requires g in s.torrents && h in s.torrents && s.torrents[h].nextDueAt < t <= s.now
    requires Reclaim(s).torrents[h] == s.torrents[h] && Before(Reclaim(s).torrents, g, h)
    requires Reclaim(s).torrents[g].Eligible(s.now)
    ensures Reclaim(s).torrents[g].Rank() <= s.torrents[h].Rank()
    ensures Reclaim(s).torrents[g].Rank() == s.torrents[h].Rank() ==> !Spent(s, g, t)
  {
  }

  /** A drain that leaves `h` waiting dispatches only torrents ahead of it; each of them is of a
      higher class, or was not spent and now is. */
  lemma DrainStepAhead(s: Scheduler, h: InfoHash, due: Time, c: nat, p: Pick, t: Time)
    requires Waits(s, h, due, c) && Waits(Step(s, DrainEvent), h, due, c)
    requires due < t <= s.now && p in StepPicks(s, DrainEvent)
    ensures p.rank <= c
    ensures p.rank == c ==> !Spent(s, p.infoHash, t)
    ensures Spent(Step(s, DrainEvent), p.infoHash, t)
  {
    PickedAhead(s, h, due, c, p);
    PickedIsDue(s, p.infoHash);
    AheadIsUnspent(s, h, p.infoHash, t);
    PickedIsSpent(s, p.infoHash, t);
  }

  lemma PickedIsDue(s: Scheduler, g: InfoHash)
    requires g in Picked(Drain(s).1)
    ensures g in s.torrents && Reclaim(s).torrents[g].Eligible(s.now)
  {
    RequestsDue(s);
    var i :| 0 <= i < |Picked(Drain(s).1)| && Picked(Drain(s).1)[i] == g;
    assert Drain(s).1[i] in Drain(s).1;
  }

  lemma PickedIsSpent(s: Scheduler, g: InfoHash, t: Time)
    requires g in Picked(Drain(s).1)
    ensures Spent(Step(s, DrainEvent), g, t)
  {
    DrainKeys(s);
    if g in s.torrents {
      DrainEffect(s, g);
    }
  }

  lemma DrainStepOnce(s: Scheduler, p: Pick)
    ensures multiset(StepPicks(s, DrainEvent))[p] <= 1
  {
    var ready := Reclaim(s);
    var (after, requests) := Drain(s);
    RequestsDue(s);
    DrainLoopSelects(ready.torrents, ready);
    var picks := StepPicks(s, DrainEvent);
    forall i, j | 0 <= i < j < |picks|
      ensures picks[i] != picks[j]
    {
      var hs := Picked(requests);
      assert hs[i] == picks[i].infoHash && hs[j] == picks[j].infoHash;
      BeforeAsymmetric(ready.torrents, hs[i], hs[j]);
    }
    DistinctOnce(picks, p);
  }

  lemma {:induction false} DistinctOnce(picks: seq<Pick>, p: Pick)
    requires forall i, j | 0 <= i < j < |picks| :: picks[i] != picks[j]
    ensures multiset(picks)[p] <= 1
    decreases |picks|
  {
    if picks != [] {
      var last := |picks| - 1;
      assert picks == picks[..last] + [picks[last]];
      DistinctOnce(picks[..last], p);
      if picks[last] == p {
        assert p !in picks[..last];
      }
    }
  }

  lemma OvertakenFrom(
    s: Scheduler, events: seq<Event>, h: InfoHash, due: Time, c: nat, t: Time, p: Pick)
    requires WaitsThroughout(s, events, h, due, c) && due < t <= s.now
    ensures p in Picks(s, events) ==> p.rank <= c
    ensures p.rank == c ==> multiset(Picks(s, events))[p] <= if Spent(s, p.infoHash, t) then 0 else 1
    decreases |events|
  {
    if events != [] {
      var e := events[0];
      var first := StepPicks(s, e);
      OvertakenFrom(Step(s, e), events[1..], h, due, c, t, p) by {
        ClockAdvances(s, e);
      }
      if e.DrainEvent? {
        DrainStepOnce(s, p);
        if p in first {
          DrainStepAhead(s, h, due, c, p, t);
        }
      }
      if Spent(s, p.infoHash, t) {
        SpentStays(s, e, p.infoHash, t);
      }
    }
  }

  /** While a torrent waits past its deadline in an unchanged class, nothing of a lower class is
      dispatched before it, and no torrent is dispatched as a member of its class more than once. */
  lemma BoundedOvertaking(s: Scheduler, events: seq<Event>, h: InfoHash, due: Time, c: nat)
    requires WaitsThroughout(s, events, h, due, c)
    ensures forall p | p in Picks(s, events) :: p.rank <= c
    ensures forall g: InfoHash {:trigger Pick(g, c)} :: multiset(Picks(s, events))[Pick(g, c)] <= 1
  {
    forall p: Pick
      ensures p in Picks(s, events) ==> p.rank <= c
      ensures p.rank == c ==> multiset(Picks(s, events))[p] <= 1
    {
      OvertakenFrom(s, events, h, due, c, s.now, p);
    }
  }

  // Deadline re-anchoring.

  /** A rest that ends within the tolerance of one healthy interval from now. */
  predicate Anchored(st: TorrentState, now: Time) {
    -DEADLINE_TOLERANCE <= st.nextDueAt - (now + st.HealthyRetryInterval()) <= DEADLINE_TOLERANCE
  }

  lemma SyncEachReanchors(torrents: Torrents, snapshots: seq<Snapshot>, now: Time, h: InfoHash)
    requires h in Hashes(snapshots)
    ensures
      var after := SyncEach(torrents, snapshots, now);
      h in after && (after[h].RestsHealthy() && after[h].nextDueAt > now ==> Anchored(after[h], now))
    decreases |snapshots|
  {
    var last := |snapshots| - 1;
    if snapshots[last].infoHash != h {
      assert snapshots == snapshots[..last] + [snapshots[last]];
      HashesSnoc(snapshots[..last], snapshots[last]);
      SyncEachReanchors(torrents, snapshots[..last], now, h);
    }
  }

  /** After every sync, each healthy torrent at rest and not yet due is due one healthy interval
      from now, give or take five seconds. */
  lemma SyncReanchors(s: Scheduler, snapshots: seq<Snapshot>, h: InfoHash)
    requires h in Sync(s, snapshots).torrents
    ensures
      var st := Sync(s, snapshots).torrents[h];
      st.RestsHealthy() && st.nextDueAt > s.now ==> Anchored(st, s.now)
  {
    SyncEachReanchors(s.torrents, snapshots, s.now, h);
  }

  /** A torrent's healthy interval less the tolerance: fifty-five seconds at least. */
  function ShortestRest(st: TorrentState): (rest: int)
    ensures rest >= 55_000_000_000
  {
    st.HealthyRetryInterval() - DEADLINE_TOLERANCE
  }

  /** `h` rests, its deadline at least its shortest rest after the last sync `ago` earlier. */
  predicate Resting(s: Scheduler, h: InfoHash, ago: int) {
    && h in s.torrents
    && s.torrents[h].RestsHealthy()
    && 0 <= ago < ShortestRest(s.torrents[h])
    && s.torrents[h].nextDueAt >= s.now - ago + ShortestRest(s.torrents[h])
  }

  /** No fault, reload, removal, failed dispatch, accepted result or loss of data concerns `h`. */
  predicate Undisturbing(s: Scheduler, e: Event, h: InfoHash)
    requires h in s.torrents
  {
    match e
    case AdvanceEvent(_) => true
    case SyncEvent(snapshots) =>
      h in Hashes(snapshots)
      && forall i | 0 <= i < |snapshots| && snapshots[i].infoHash == h :: snapshots[i].dataAvailable
    case RemoveEvent(g) => g != h
    case ReloadEvent(g) => g != h
    case FaultEvent(g) => !SharesFault(s.torrents, g, h)
    case DrainEvent => true
    case UndispatchedEvent(g) => g != h
    case ResultEvent(g, result) => g != h || result.epoch != s.torrents[h].probeEpoch
  }

  /** Time since the last sync once `e` has happened. */
  function SinceSync(e: Event, ago: int): int {
    match e
    case AdvanceEvent(dt) => ago + dt
    case SyncEvent(_) => 0
    case _ => ago
  }

  /** An undisturbed run in which the next sync always comes within the torrent's shortest rest. */
  ghost predicate KeptInSync(s: Scheduler, events: seq<Event>, h: InfoHash, ago: int)
    decreases |events|
  {
    h in s.torrents && ago < ShortestRest(s.torrents[h])
    && (events != [] ==>
          Undisturbing(s, events[0], h)
          && KeptInSync(Step(s, events[0]), events[1..], h, SinceSync(events[0], ago)))
  }

  lemma SyncKeepsHealthy(torrents: Torrents, snapshots: seq<Snapshot>, now: Time, h: InfoHash)
    requires h in torrents && torrents[h].RestsHealthy()
    requires forall i | 0 <= i < |snapshots| && snapshots[i].infoHash == h :: snapshots[i].dataAvailable
    ensures
      var after := SyncEach(torrents, snapshots, now);
      h in after && after[h].RestsHealthy()
    decreases |snapshots|
  {
    if snapshots != [] {
      SyncKeepsHealthy(torrents, snapshots[..|snapshots| - 1], now, h);
    }
  }

  lemma RestingStep(s: Scheduler, e: Event, h: InfoHash, ago: int)
    requires Resting(s, h, ago) && Undisturbing(s, e, h)
    requires h in Step(s, e).torrents && SinceSync(e, ago) < ShortestRest(Step(s, e).torrents[h])
    ensures Resting(Step(s, e), h, SinceSync(e, ago))
  {
    match e {
      case SyncEvent(snapshots) =>
        SyncKeepsHealthy(s.torrents, snapshots, s.now, h);
        SyncEffect(s.torrents, snapshots, s.now, h);
        SyncReanchors(s, snapshots, h);
      case DrainEvent => DrainEffect(s, h);
      case _ =>
    }
  }

  /** The deadline of a healthy torrent is pushed away by every sync: along an undisturbed run in
      which each sync comes within its interval less five seconds - fifty-five seconds for a small
      manifest, minutes for others - it is never dispatched again. */
  lemma {:induction false} NeverProbedAgain(s: Scheduler, events: seq<Event>, h: InfoHash, ago: int)
    requires Resting(s, h, ago) && KeptInSync(s, events, h, ago)
    ensures forall p | p in Picks(s, events) :: p.infoHash != h
    decreases |events|
  {
    if events != [] {
      var e := events[0];
      RestingStep(s, e, h, ago);
      NeverProbedAgain(Step(s, e), events[1..], h, SinceSync(e, ago));
      if e.DrainEvent? {
        RequestsDue(s);
        forall p | p in StepPicks(s, e)
          ensures p.infoHash != h
        {
          var i :| 0 <= i < |Drain(s).1| && StepPicks(s, e)[i] == p;
          assert Drain(s).1[i] in Drain(s).1;
        }
      }
    }
  }

  /** The gap is what decides: a resting torrent with `left` to go is due after the next sync if
      and only if that sync comes at least `left` later. */
  lemma DueOnlyAcrossAGap(s: Scheduler, h: InfoHash, snapshot: Snapshot, dt: nat)
    requires h in s.torrents && s.torrents[h].RestsHealthy() && s.torrents[h].nextDueAt > s.now
    requires snapshot.infoHash == h && snapshot.dataAvailable && !snapshot.isDownloading
    ensures
      var synced := Sync(AdvanceTime(s, dt), [snapshot]);
      h in synced.torrents
      && (synced.torrents[h].Eligible(synced.now) <==> dt >= s.torrents[h].nextDueAt - s.now)
  {
    assert [snapshot][0].infoHash in Hashes([snapshot]);
    assert [snapshot][..0] == [];
    var now := s.now + dt;
    assert SyncEach(s.torrents, [snapshot], now) == SyncOne(s.torrents, snapshot, now);
    assert SyncOne(s.torrents, snapshot, now)[h] == Synced(s.torrents[h], snapshot, now);
  }
}
