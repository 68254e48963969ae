/** The integrity scheduler as a value, its operations as functions of that
    value, and runs of events. */
module SchedulerSpec {
  import opened Common
  import opened ByteStrings
  import opened FileProbe
  import opened TorrentIntegrity

  type Torrents = map<InfoHash, TorrentState>

  datatype Scheduler = Scheduler(now: Time, torrents: Torrents, inFlightBatches: nat)

  function InFlight(torrents: Torrents): set<InfoHash> {
    set h | h in torrents && torrents[h].inFlight
  }

  function New(now: Time): Scheduler {
    Scheduler(now, map[], 0)
  }

  function AdvanceTime(s: Scheduler, dt: nat): Scheduler {
    s.(now := s.now + dt)
  }

  function SyncOne(torrents: Torrents, snapshot: Snapshot, now: Time): Torrents {
    var h := snapshot.infoHash;
    var st := if h in torrents then torrents[h] else NewTorrent(now);
    torrents[h := Synced(st, snapshot, now)]
  }

  function SyncEach(torrents: Torrents, snapshots: seq<Snapshot>, now: Time): Torrents {
    if snapshots == [] then torrents
    else
      var last := |snapshots| - 1;
      SyncOne(SyncEach(torrents, snapshots[..last], now), snapshots[last], now)
  }

  function Hashes(snapshots: seq<Snapshot>): set<InfoHash> {
    set i | 0 <= i < |snapshots| :: snapshots[i].infoHash
  }

  function Sync(s: Scheduler, snapshots: seq<Snapshot>): Scheduler {
    var synced := SyncEach(s.torrents, snapshots, s.now);
    var kept := map h | h in synced && h in Hashes(snapshots) :: synced[h];
    Scheduler(s.now, kept, |InFlight(kept)|)
  }

  function Remove(s: Scheduler, h: InfoHash): Scheduler {
    var kept := s.torrents - {h};
    Scheduler(s.now, kept, |InFlight(kept)|)
  }

  function MetadataLoaded(s: Scheduler, h: InfoHash): Scheduler {
    if h in s.torrents then s.(torrents := s.torrents[h := Reloaded(s.torrents[h], s.now)]) else s
  }

  /** Torrents hit by a fault on `h`: itself and those saved at the same location. */
  predicate SharesFault(torrents: Torrents, h: InfoHash, g: InfoHash)
    requires g in torrents
  {
    g == h || (h in torrents && torrents[h].savedLocation.Some?
               && torrents[g].savedLocation == torrents[h].savedLocation)
  }

  function FaultedIf(shares: bool, st: TorrentState, same: bool, now: Time): TorrentState {
    if shares then Faulted(st, same, now) else st
  }

  function FaultedTorrents(torrents: Torrents, h: InfoHash, now: Time): Torrents {
    map g | g in torrents :: FaultedIf(SharesFault(torrents, h, g), torrents[g], g == h, now)
  }

  function Fault(s: Scheduler, h: InfoHash): Scheduler {
    var hit := set g | g in s.torrents && SharesFault(s.torrents, h, g) && s.torrents[g].inFlight;
    Scheduler(s.now, FaultedTorrents(s.torrents, h, s.now), SatSub(s.inFlightBatches, |hit|))
  }

  function ReclaimedIfLate(st: TorrentState, now: Time): TorrentState {
    if st.TimedOut(now) then Reclaimed(st, now) else st
  }

  function ReclaimedTorrents(torrents: Torrents, now: Time): Torrents {
    map g | g in torrents :: ReclaimedIfLate(torrents[g], now)
  }

  function Reclaim(s: Scheduler): Scheduler {
    var late := set g | g in s.torrents && s.torrents[g].TimedOut(s.now);
    Scheduler(s.now, ReclaimedTorrents(s.torrents, s.now), SatSub(s.inFlightBatches, |late|))
  }

  function Due(s: Scheduler): set<InfoHash> {
    set h | h in s.torrents && s.torrents[h].Eligible(s.now)
  }

  /** Dispatch order: class rank, then deadline, then info hash. */
  predicate Before(torrents: Torrents, g: InfoHash, h: InfoHash)
    requires g in torrents && h in torrents
  {
    var (a, b) := (torrents[g], torrents[h]);
    || a.Rank() < b.Rank()
    || (a.Rank() == b.Rank() && a.nextDueAt < b.nextDueAt)
    || (a.Rank() == b.Rank() && a.nextDueAt == b.nextDueAt && Less(g, h))
  }

  /** `h` is the first due torrent in dispatch order. */
  predicate IsNext(s: Scheduler, h: InfoHash) {
    h in Due(s) && forall g | g in Due(s) && g != h :: Before(s.torrents, h, g)
  }

  function StartProbe(s: Scheduler, h: InfoHash): Scheduler
    requires h in s.torrents
  {
    Scheduler(s.now, s.torrents[h := Started(s.torrents[h], s.now)], s.inFlightBatches + 1)
  }

  ghost function DrainLoop(s: Scheduler): (Scheduler, seq<ProbeBatchRequest>)
    decreases MAX_IN_FLIGHT_PROBE_BATCHES - s.inFlightBatches
  {
    if s.inFlightBatches < MAX_IN_FLIGHT_PROBE_BATCHES && exists h :: IsNext(s, h) then
      var h :| IsNext(s, h);
      var (after, requests) := DrainLoop(StartProbe(s, h));
      (after, [RequestFor(h, s.torrents[h])] + requests)
    else (s, [])
  }

  ghost function Drain(s: Scheduler): (Scheduler, seq<ProbeBatchRequest>) {
    DrainLoop(Reclaim(s))
  }

  function Release(s: Scheduler, h: InfoHash, st: TorrentState): Scheduler
    requires h in s.torrents
  {
    Scheduler(s.now, s.torrents[h := st],
              if s.torrents[h].inFlight then SatSub(s.inFlightBatches, 1) else s.inFlightBatches)
  }

  function DispatchFailed(s: Scheduler, h: InfoHash): Scheduler {
    if h in s.torrents then Release(s, h, Undispatched(s.torrents[h], s.now)) else s
  }

  predicate Accepts(s: Scheduler, h: InfoHash, result: FileProbeBatchResult) {
    h in s.torrents && result.epoch == s.torrents[h].probeEpoch
  }

  function BatchResult(s: Scheduler, h: InfoHash, result: FileProbeBatchResult)
    : (Scheduler, Option<ProbeBatchOutcome>)
  {
    if Accepts(s, h, result) then
      var (st, outcome) := Answered(s.torrents[h], result, s.now);
      (Release(s, h, st), Some(outcome))
    else (s, None)
  }

  datatype Event =
    | AdvanceEvent(dt: nat)
    | SyncEvent(snapshots: seq<Snapshot>)
    | RemoveEvent(removed: InfoHash)
    | ReloadEvent(reloaded: InfoHash)
    | FaultEvent(faulty: InfoHash)
    | DrainEvent
    | UndispatchedEvent(undispatched: InfoHash)
    | ResultEvent(answered: InfoHash, result: FileProbeBatchResult)

  ghost function Step(s: Scheduler, e: Event): Scheduler {
    match e
    case AdvanceEvent(dt) => AdvanceTime(s, dt)
    case SyncEvent(snapshots) => Sync(s, snapshots)
    case RemoveEvent(h) => Remove(s, h)
    case ReloadEvent(h) => MetadataLoaded(s, h)
    case FaultEvent(h) => Fault(s, h)
    case DrainEvent => Drain(s).0
    case UndispatchedEvent(h) => DispatchFailed(s, h)
    case ResultEvent(h, result) => BatchResult(s, h, result).0
  }

  ghost function Run(s: Scheduler, events: seq<Event>): Scheduler
    decreases |events|
  {
    if events == [] then s else Run(Step(s, events[0]), events[1..])
  }

  // Dispatch order is a strict total order.

  lemma BeforeTotal(torrents: Torrents, g: InfoHash, h: InfoHash)
    requires g in torrents && h in torrents && g != h
    ensures Before(torrents, g, h) || Before(torrents, h, g)
  {
    LessTotal(g, h);
  }

  lemma BeforeTransitive(torrents: Torrents, f: InfoHash, g: InfoHash, h: InfoHash)
    requires f in torrents && g in torrents && h in torrents
    requires Before(torrents, f, g) && Before(torrents, g, h)
    ensures Before(torrents, f, h)
  {
    if Less(f, g) && Less(g, h) {
      LessTransitive(f, g, h);
    }
  }

  lemma BeforeAsymmetric(torrents: Torrents, g: InfoHash, h: InfoHash)
    requires g in torrents && h in torrents
    requires Before(torrents, g, h)
    ensures !Before(torrents, h, g) && g != h
  {
    LessIrreflexive(g);
    if Less(g, h) {
      LessAsymmetric(g, h);
    }
  }

  lemma NextUnique(s: Scheduler, g: InfoHash, h: InfoHash)
    requires IsNext(s, g) && IsNext(s, h)
    ensures g == h
  {
    if g != h {
      BeforeAsymmetric(s.torrents, g, h);
    }
  }

  /** A non-empty set of torrents has a first member in dispatch order. */
  lemma FirstExists(torrents: Torrents, hs: set<InfoHash>) returns (first: InfoHash)
    requires hs != {} && hs <= torrents.Keys
    ensures first in hs && forall g | g in hs && g != first :: Before(torrents, first, g)
  {
    var h :| h in hs;
    first := h;
    if other :| other in hs && other != h {
      assert other in hs - {h};
      var r := FirstExists(torrents, hs - {h});
      BeforeTotal(torrents, h, r);
      if Before(torrents, r, h) {
        first := r;
      } else {
        forall g | g in hs && g != h
          ensures Before(torrents, h, g)
        {
          if g != r {
            BeforeTransitive(torrents, h, r, g);
          }
        }
      }
    }
  }

  lemma NextExists(s: Scheduler)
    ensures Due(s) == {} <==> !exists h :: IsNext(s, h)
  {
    if Due(s) != {} {
      var h := FirstExists(s.torrents, Due(s));
      assert IsNext(s, h);
    }
  }

  lemma DrainUnfolds(s: Scheduler, h: InfoHash)
    requires s.inFlightBatches < MAX_IN_FLIGHT_PROBE_BATCHES && IsNext(s, h)
    ensures DrainLoop(s) == (DrainLoop(StartProbe(s, h)).0,
                             [RequestFor(h, s.torrents[h])] + DrainLoop(StartProbe(s, h)).1)
  {
    forall g | IsNext(s, g)
      ensures g == h
    {
      NextUnique(s, g, h);
    }
  }
}
