/** Sweep completeness: what a completed sweep reports about one torrent, over every run of the
    scheduler together with a prober that answers each request at most once. */
module SchedulerSweep {
  import opened Common
  import opened FileProbe
  import opened TorrentIntegrity
  import opened SchedulerSpec
  import opened SchedulerDrain
  import opened SchedulerEffects
  import opened SchedulerEpochs

  /** The scheduler, the unanswered requests of the torrent under watch, the one of them asked
      for last, and the first file the sweep under way has really looked at. A request that is
      never answered stays in `pending`: its reply was lost. */
  datatype Probing = Probing(
    scheduler: Scheduler,
    pending: set<ProbeBatchRequest>,
    sent: Option<ProbeBatchRequest>,
    base: nat)

  datatype Move =
    | SchedulerMove(e: Event)
    | ReloadMove
    | UndispatchedMove
    | AnswerMove(answered: ProbeBatchRequest)
    | NoMetadataMove(unready: ProbeBatchRequest)

  function Record(p: Probing, h: InfoHash): TorrentState
    requires h in p.scheduler.torrents
  {
    p.scheduler.torrents[h]
  }

  /** What may happen: any event of another torrent or of all of them, and, for `h`, a metadata
      reload, a request that could not be sent, or an answer to an unanswered request. */
  predicate Allowed(p: Probing, m: Move, h: InfoHash)
    requires h in p.scheduler.torrents
  {
    match m
    case SchedulerMove(e) =>
      e != ReloadEvent(h) && e != UndispatchedEvent(h) && !(e.ResultEvent? && e.answered == h)
    case ReloadMove => true
    case UndispatchedMove => p.sent.Some? && p.sent.value in p.pending
    case AnswerMove(r) => r in p.pending
    case NoMetadataMove(r) => r in p.pending
  }

  function MoveEvent(m: Move, h: InfoHash, manifest: seq<ManifestFile>): Event {
    match m
    case SchedulerMove(e) => e
    case ReloadMove => ReloadEvent(h)
    case UndispatchedMove => UndispatchedEvent(h)
    case AnswerMove(r) => ResultEvent(h, HonestReply(manifest, r.epoch, r.startFileIndex, r.maxFiles))
    case NoMetadataMove(r) => ResultEvent(h, PendingReply(r.epoch))
  }

  ghost function NextPending(p: Probing, m: Move, h: InfoHash): set<ProbeBatchRequest> {
    match m
    case SchedulerMove(e) =>
      if e.DrainEvent? then p.pending + set r | r in Drain(p.scheduler).1 && r.infoHash == h else p.pending
    case ReloadMove => p.pending
    case UndispatchedMove => if p.sent.Some? then p.pending - {p.sent.value} else p.pending
    case AnswerMove(r) => p.pending - {r}
    case NoMetadataMove(r) => p.pending - {r}
  }

  ghost function NextSent(p: Probing, m: Move, h: InfoHash, after: TorrentState): Option<ProbeBatchRequest> {
    if !after.inFlight then None
    else if m == SchedulerMove(DrainEvent) && exists r :: r in Drain(p.scheduler).1 && r.infoHash == h then
      var r :| r in Drain(p.scheduler).1 && r.infoHash == h;
      Some(r)
    else p.sent
  }

  /** A sweep starts over when the epoch changes or the cursor is back at 0 with nothing in
      flight; a reload with a batch in flight makes the sweep go on from that batch. */
  function NextBase(p: Probing, m: Move, before: TorrentState, after: TorrentState): nat {
    if m.ReloadMove? then (if p.sent.Some? then p.sent.value.startFileIndex else 0)
    else if after.probeEpoch != before.probeEpoch then 0
    else if !after.inFlight && after.nextProbeFileIndex == 0 then 0
    else p.base
  }

  ghost function Next(p: Probing, m: Move, h: InfoHash, manifest: seq<ManifestFile>): Probing
    requires h in p.scheduler.torrents && h in Step(p.scheduler, MoveEvent(m, h, manifest)).torrents
  {
    var scheduler := Step(p.scheduler, MoveEvent(m, h, manifest));
    var after := scheduler.torrents[h];
    Probing(scheduler, NextPending(p, m, h), NextSent(p, m, h, after), NextBase(p, m, Record(p, h), after))
  }

  /** What the scheduler tells its caller when the move is an answer. */
  function Outcome(p: Probing, m: Move, h: InfoHash, manifest: seq<ManifestFile>): Option<ProbeBatchOutcome> {
    match m
    case AnswerMove(r) =>
      BatchResult(p.scheduler, h, HonestReply(manifest, r.epoch, r.startFileIndex, r.maxFiles)).1
    case NoMetadataMove(r) => BatchResult(p.scheduler, h, PendingReply(r.epoch)).1
    case _ => None
  }

  /** Where the sweep will go on: the batch in flight if there is one, else the stored cursor. */
  function Cursor(p: Probing, st: TorrentState): nat {
    if p.sent.Some? then p.sent.value.startFileIndex else st.nextProbeFileIndex
  }

  ghost predicate Tracked(p: Probing, h: InfoHash) {
    && h in p.scheduler.torrents
    && var st := Record(p, h);
    && (p.sent.Some? <==> st.inFlight)
    && (p.sent.Some? ==> p.sent.value in p.pending && p.sent.value.epoch == st.probeEpoch)
    && (forall r | r in p.pending ::
          && r.infoHash == h && r.maxFiles == PROBE_BATCH_MAX_FILES
          && r.epoch <= st.probeEpoch
          && (r.epoch == st.probeEpoch ==> p.sent == Some(r)))
  }

  ghost predicate Sweeping(p: Probing, h: InfoHash, manifest: seq<ManifestFile>) {
    && Tracked(p, h)
    && var st := Record(p, h);
    && p.base <= Cursor(p, st) <= |manifest|
    && (p.sent.Some? ==>
          st.nextProbeFileIndex == Cursor(p, st) || (st.nextProbeFileIndex == 0 && p.base == Cursor(p, st)))
    && st.sweepProblems == Problems(manifest[p.base..Cursor(p, st)])
  }

  /** A torrent that has just been registered. */
  ghost predicate Fresh(p: Probing, h: InfoHash) {
    && h in p.scheduler.torrents
    && SameProbe(Record(p, h), NewTorrent(p.scheduler.now))
    && p.pending == {} && p.sent == None && p.base == 0
  }

  /** The requests of a drain that concern `h`: one if it is picked, none otherwise. */
  lemma AskedOnce(s: Scheduler, h: InfoHash)
    requires h in s.torrents
    ensures
      (set r | r in Drain(s).1 && r.infoHash == h) ==
      if h in Picked(Drain(s).1) then {RequestFor(h, ReclaimedIfLate(s.torrents[h], s.now))} else {}
  {
    DrainEffect(s, h);
  }

  lemma DrainMove(p: Probing, h: InfoHash, manifest: seq<ManifestFile>)
    requires Tracked(p, h)
    ensures
      h in Drain(p.scheduler).0.torrents
      && var reclaimed := ReclaimedIfLate(Record(p, h), p.scheduler.now);
      var q := Next(p, SchedulerMove(DrainEvent), h, manifest);
      var r := RequestFor(h, reclaimed);
      if h in Picked(Drain(p.scheduler).1) then
        && Record(q, h) == Started(reclaimed, p.scheduler.now) && !reclaimed.inFlight
        && q.pending == p.pending + {r} && q.sent == Some(r)
      else
        && Record(q, h) == reclaimed
        && q.pending == p.pending && q.sent == if reclaimed.inFlight then p.sent else None
  {
    DrainEffect(p.scheduler, h);
    AskedOnce(p.scheduler, h);
  }

  lemma LateDrainSweeping(p: Probing, h: InfoHash, manifest: seq<ManifestFile>)
    requires Sweeping(p, h, manifest) && Record(p, h).probeEpoch < U64_MAX
    requires Record(p, h).TimedOut(p.scheduler.now)
    ensures h in Drain(p.scheduler).0.torrents
    ensures Sweeping(Next(p, SchedulerMove(DrainEvent), h, manifest), h, manifest)
  {
    DrainMove(p, h, manifest);
    assert manifest[0..0] == [];
    assert forall r | r in p.pending :: r.epoch < NextEpoch(Record(p, h).probeEpoch);
  }

  lemma TimelyDrainSweeping(p: Probing, h: InfoHash, manifest: seq<ManifestFile>)
    requires Sweeping(p, h, manifest) && !Record(p, h).TimedOut(p.scheduler.now)
    ensures h in Drain(p.scheduler).0.torrents
    ensures Sweeping(Next(p, SchedulerMove(DrainEvent), h, manifest), h, manifest)
  {
    DrainMove(p, h, manifest);
    assert manifest[0..0] == [];
    assert ReclaimedIfLate(Record(p, h), p.scheduler.now) == Record(p, h);
  }

  lemma DrainSweeping(p: Probing, h: InfoHash, manifest: seq<ManifestFile>)
    requires Sweeping(p, h, manifest) && Record(p, h).probeEpoch < U64_MAX
    ensures h in Drain(p.scheduler).0.torrents
    ensures Sweeping(Next(p, SchedulerMove(DrainEvent), h, manifest), h, manifest)
  {
    if Record(p, h).TimedOut(p.scheduler.now) {
      LateDrainSweeping(p, h, manifest);
    } else {
      TimelyDrainSweeping(p, h, manifest);
    }
  }

  lemma SyncSweeping(p: Probing, snapshots: seq<Snapshot>, h: InfoHash, manifest: seq<ManifestFile>)
    requires Sweeping(p, h, manifest) && h in Step(p.scheduler, SyncEvent(snapshots)).torrents
    ensures Sweeping(Next(p, SchedulerMove(SyncEvent(snapshots)), h, manifest), h, manifest)
  {
    SyncEffect(p.scheduler.torrents, snapshots, p.scheduler.now, h);
  }

  lemma FaultSweeping(p: Probing, f: InfoHash, h: InfoHash, manifest: seq<ManifestFile>)
    requires Sweeping(p, h, manifest) && Record(p, h).probeEpoch < U64_MAX
    ensures h in Fault(p.scheduler, f).torrents
    ensures Sweeping(Next(p, SchedulerMove(FaultEvent(f)), h, manifest), h, manifest)
  {
    assert manifest[0..0] == [];
  }

  lemma SchedulerMoveSweeping(p: Probing, e: Event, h: InfoHash, manifest: seq<ManifestFile>)
    requires Sweeping(p, h, manifest) && Record(p, h).probeEpoch < U64_MAX
    requires Allowed(p, SchedulerMove(e), h) && h in Step(p.scheduler, e).torrents
    ensures Sweeping(Next(p, SchedulerMove(e), h, manifest), h, manifest)
  {
    match e {
      case DrainEvent => DrainSweeping(p, h, manifest);
      case SyncEvent(snapshots) => SyncSweeping(p, snapshots, h, manifest);
      case FaultEvent(f) => FaultSweeping(p, f, h, manifest);
      case _ => assert Step(p.scheduler, e).torrents[h] == Record(p, h);
    }
  }

  /** An answer under an old epoch is dropped. */
  lemma StaleAnswerSweeping(p: Probing, r: ProbeBatchRequest, h: InfoHash, manifest: seq<ManifestFile>)
    requires Sweeping(p, h, manifest) && r in p.pending && r.epoch != Record(p, h).probeEpoch
    ensures h in Step(p.scheduler, MoveEvent(AnswerMove(r), h, manifest)).torrents
    ensures Sweeping(Next(p, AnswerMove(r), h, manifest), h, manifest)
    ensures Outcome(p, AnswerMove(r), h, manifest) == None
  {
  }

  /** An answer that ends the manifest completes the sweep with everything from `base` on. */
  lemma LastAnswerReports(p: Probing, r: ProbeBatchRequest, h: InfoHash, manifest: seq<ManifestFile>)
    requires Sweeping(p, h, manifest) && r in p.pending && r.epoch == Record(p, h).probeEpoch
    requires r.startFileIndex + PROBE_BATCH_MAX_FILES >= |manifest|
    ensures Outcome(p, AnswerMove(r), h, manifest) == Some(CompletedSweep(Problems(manifest[p.base..])))
  {
    assert p.sent == Some(r);
    ProblemsSplit(manifest, p.base, r.startFileIndex, |manifest|);
    assert manifest[p.base..|manifest|] == manifest[p.base..];
    assert manifest[r.startFileIndex..|manifest|] == manifest[r.startFileIndex..];
  }

  lemma LastAnswerSweeping(p: Probing, r: ProbeBatchRequest, h: InfoHash, manifest: seq<ManifestFile>)
    requires Sweeping(p, h, manifest) && r in p.pending && r.epoch == Record(p, h).probeEpoch
    requires r.startFileIndex + PROBE_BATCH_MAX_FILES >= |manifest|
    ensures h in Step(p.scheduler, MoveEvent(AnswerMove(r), h, manifest)).torrents
    ensures Sweeping(Next(p, AnswerMove(r), h, manifest), h, manifest)
  {
    assert p.sent == Some(r);
    assert manifest[0..0] == [];
  }

  lemma PartAnswerSweeping(p: Probing, r: ProbeBatchRequest, h: InfoHash, manifest: seq<ManifestFile>)
    requires Sweeping(p, h, manifest) && r in p.pending && r.epoch == Record(p, h).probeEpoch
    requires r.startFileIndex + PROBE_BATCH_MAX_FILES < |manifest|
    ensures h in Step(p.scheduler, MoveEvent(AnswerMove(r), h, manifest)).torrents
    ensures Sweeping(Next(p, AnswerMove(r), h, manifest), h, manifest)
    ensures Outcome(p, AnswerMove(r), h, manifest) == Some(SweepInProgress)
  {
    assert p.sent == Some(r);
    ProblemsSplit(manifest, p.base, r.startFileIndex, r.startFileIndex + PROBE_BATCH_MAX_FILES);
  }

  /** Whether an answer completes a sweep. */
  predicate Completes(p: Probing, m: Move, h: InfoHash, manifest: seq<ManifestFile>)
    requires h in p.scheduler.torrents
  {
    && m.AnswerMove?
    && m.answered.epoch == Record(p, h).probeEpoch
    && m.answered.startFileIndex + PROBE_BATCH_MAX_FILES >= |manifest|
  }

  lemma MoveSweeping(p: Probing, m: Move, h: InfoHash, manifest: seq<ManifestFile>)
    requires Sweeping(p, h, manifest) && Record(p, h).probeEpoch < U64_MAX
    requires Allowed(p, m, h) && h in Step(p.scheduler, MoveEvent(m, h, manifest)).torrents
    ensures Sweeping(Next(p, m, h, manifest), h, manifest)
    ensures var outcome := Outcome(p, m, h, manifest);
            if Completes(p, m, h, manifest)
            then outcome == Some(CompletedSweep(Problems(manifest[p.base..])))
            else !(outcome.Some? && outcome.value.CompletedSweep?)
  {
    match m {
      case SchedulerMove(e) => SchedulerMoveSweeping(p, e, h, manifest);
      case AnswerMove(r) =>
        if r.epoch != Record(p, h).probeEpoch {
          StaleAnswerSweeping(p, r, h, manifest);
        } else if r.startFileIndex + PROBE_BATCH_MAX_FILES >= |manifest| {
          LastAnswerReports(p, r, h, manifest);
          LastAnswerSweeping(p, r, h, manifest);
        } else {
          PartAnswerSweeping(p, r, h, manifest);
        }
      case ReloadMove => ReloadSweeping(p, h, manifest);
      case UndispatchedMove => UndispatchedSweeping(p, h, manifest);
      case NoMetadataMove(r) => NoMetadataSweeping(p, r, h, manifest);
    }
  }

  lemma ReloadSweeping(p: Probing, h: InfoHash, manifest: seq<ManifestFile>)
    requires Sweeping(p, h, manifest)
    ensures Sweeping(Next(p, ReloadMove, h, manifest), h, manifest)
  {
    var c := if p.sent.Some? then p.sent.value.startFileIndex else 0;
    assert manifest[c..c] == [];
  }

  lemma UndispatchedSweeping(p: Probing, h: InfoHash, manifest: seq<ManifestFile>)
    requires Sweeping(p, h, manifest) && Allowed(p, UndispatchedMove, h)
    ensures Sweeping(Next(p, UndispatchedMove, h, manifest), h, manifest)
  {
    assert manifest[0..0] == [] && manifest[p.base..p.base] == [];
  }

  lemma NoMetadataSweeping(p: Probing, r: ProbeBatchRequest, h: InfoHash, manifest: seq<ManifestFile>)
    requires Sweeping(p, h, manifest) && r in p.pending
    ensures h in Step(p.scheduler, MoveEvent(NoMetadataMove(r), h, manifest)).torrents
    ensures Sweeping(Next(p, NoMetadataMove(r), h, manifest), h, manifest)
  {
    assert manifest[0..0] == [];
  }

  // Whole runs.

  /** A run of allowed moves during which `h` stays registered and its epoch has room. */
  ghost predicate Watched(p: Probing, moves: seq<Move>, h: InfoHash, manifest: seq<ManifestFile>)
    decreases |moves|
  {
    && h in p.scheduler.torrents
    && Record(p, h).probeEpoch < U64_MAX
    && (moves != [] ==>
          && Allowed(p, moves[0], h)
          && h in Step(p.scheduler, MoveEvent(moves[0], h, manifest)).torrents
          && Watched(Next(p, moves[0], h, manifest), moves[1..], h, manifest))
  }

  ghost function After(p: Probing, moves: seq<Move>, h: InfoHash, manifest: seq<ManifestFile>): (end: Probing)
    requires Watched(p, moves, h, manifest)
    ensures h in end.scheduler.torrents
    decreases |moves|
  {
    if moves == [] then p else After(Next(p, moves[0], h, manifest), moves[1..], h, manifest)
  }

  /** No reload happens while a batch that does not start at the first file is in flight. */
  ghost predicate ReloadsSafely(p: Probing, moves: seq<Move>, h: InfoHash, manifest: seq<ManifestFile>)
    requires Watched(p, moves, h, manifest)
    decreases |moves|
  {
    moves != [] ==>
      && (moves[0].ReloadMove? ==> !(Record(p, h).inFlight && Record(p, h).nextProbeFileIndex != 0))
      && ReloadsSafely(Next(p, moves[0], h, manifest), moves[1..], h, manifest)
  }

  /** The sweep under way began at the first file. */
  ghost predicate FromStart(p: Probing, h: InfoHash)
    requires h in p.scheduler.torrents
  {
    p.base == 0 && (p.sent.Some? ==> Record(p, h).nextProbeFileIndex == p.sent.value.startFileIndex)
  }

  lemma {:induction false} RunSweeping(p: Probing, moves: seq<Move>, h: InfoHash, manifest: seq<ManifestFile>)
    requires Sweeping(p, h, manifest) && Watched(p, moves, h, manifest)
    ensures Sweeping(After(p, moves, h, manifest), h, manifest)
    ensures Record(After(p, moves, h, manifest), h).probeEpoch < U64_MAX
    decreases |moves|
  {
    if moves != [] {
      MoveSweeping(p, moves[0], h, manifest);
      RunSweeping(Next(p, moves[0], h, manifest), moves[1..], h, manifest);
    }
  }

  lemma FreshSweeping(p: Probing, h: InfoHash, manifest: seq<ManifestFile>)
    requires Fresh(p, h)
    ensures Sweeping(p, h, manifest) && FromStart(p, h)
  {
    assert manifest[0..0] == [];
  }

  /** In every run from a fresh registration, over any mix of faults, timeouts, lost replies,
      failed dispatches, reloads and metadata gaps, a sweep that completes reports exactly the
      problem files from its first really probed file on, in manifest order, once each. */
  lemma CompletedSweepReports(p: Probing, moves: seq<Move>, m: Move, h: InfoHash, manifest: seq<ManifestFile>)
    requires Fresh(p, h) && Watched(p, moves, h, manifest)
    requires
      var end := After(p, moves, h, manifest);
      Allowed(end, m, h) && h in Step(end.scheduler, MoveEvent(m, h, manifest)).torrents
    ensures
      var end := After(p, moves, h, manifest);
      var outcome := Outcome(end, m, h, manifest);
      end.base <= |manifest|
      && if Completes(end, m, h, manifest)
         then outcome == Some(CompletedSweep(Problems(manifest[end.base..])))
         else !(outcome.Some? && outcome.value.CompletedSweep?)
  {
    FreshSweeping(p, h, manifest);
    RunSweeping(p, moves, h, manifest);
    MoveSweeping(After(p, moves, h, manifest), m, h, manifest);
  }

  /** Such a report is the manifest's own problem list if and only if no file before the
      sweep's first probed file has a problem. */
  lemma ReportCompleteIff(manifest: seq<ManifestFile>, base: nat)
    requires base <= |manifest|
    ensures Problems(manifest[base..]) == Problems(manifest) <==> Problems(manifest[..base]) == []
  {
    ProblemsSplit(manifest, 0, base, |manifest|);
    assert manifest[0..|manifest|] == manifest && manifest[0..base] == manifest[..base];
    assert manifest[base..|manifest|] == manifest[base..];
  }

  lemma MoveFromStart(p: Probing, m: Move, h: InfoHash, manifest: seq<ManifestFile>)
    requires Sweeping(p, h, manifest) && FromStart(p, h) && Record(p, h).probeEpoch < U64_MAX
    requires Allowed(p, m, h) && h in Step(p.scheduler, MoveEvent(m, h, manifest)).torrents
    requires m.ReloadMove? ==> !(Record(p, h).inFlight && Record(p, h).nextProbeFileIndex != 0)
    ensures FromStart(Next(p, m, h, manifest), h)
  {
    match m {
      case SchedulerMove(e) => SchedulerMoveFromStart(p, e, h, manifest);
      case _ =>
    }
  }

  lemma SchedulerMoveFromStart(p: Probing, e: Event, h: InfoHash, manifest: seq<ManifestFile>)
    requires Sweeping(p, h, manifest) && FromStart(p, h) && Record(p, h).probeEpoch < U64_MAX
    requires Allowed(p, SchedulerMove(e), h) && h in Step(p.scheduler, e).torrents
    ensures FromStart(Next(p, SchedulerMove(e), h, manifest), h)
  {
    match e {
      case DrainEvent => DrainMove(p, h, manifest);
      case SyncEvent(snapshots) => SyncEffect(p.scheduler.torrents, snapshots, p.scheduler.now, h);
      case _ =>
    }
  }

  lemma {:induction false} RunFromStart(p: Probing, moves: seq<Move>, h: InfoHash, manifest: seq<ManifestFile>)
    requires Sweeping(p, h, manifest) && FromStart(p, h)
    requires Watched(p, moves, h, manifest) && ReloadsSafely(p, moves, h, manifest)
    ensures FromStart(After(p, moves, h, manifest), h)
    decreases |moves|
  {
    if moves != [] {
      MoveSweeping(p, moves[0], h, manifest);
      MoveFromStart(p, moves[0], h, manifest);
      RunFromStart(Next(p, moves[0], h, manifest), moves[1..], h, manifest);
    }
  }

  /** If no reload hits a batch in flight past the first file, every completed sweep reports
      exactly the manifest's problem files. */
  lemma SafeSweepIsComplete(p: Probing, moves: seq<Move>, m: Move, h: InfoHash, manifest: seq<ManifestFile>)
    requires Fresh(p, h) && Watched(p, moves, h, manifest) && ReloadsSafely(p, moves, h, manifest)
    requires
      var end := After(p, moves, h, manifest);
      Allowed(end, m, h) && h in Step(end.scheduler, MoveEvent(m, h, manifest)).torrents
      && Completes(end, m, h, manifest)
    ensures Outcome(After(p, moves, h, manifest), m, h, manifest) == Some(CompletedSweep(Problems(manifest)))
  {
    CompletedSweepReports(p, moves, m, h, manifest);
    FreshSweeping(p, h, manifest);
    RunFromStart(p, moves, h, manifest);
    assert manifest[0..] == manifest;
  }

  /** A reload keeps the batch in flight and makes it the start of the sweep. */
  lemma ReloadRebases(p: Probing, h: InfoHash, manifest: seq<ManifestFile>) returns (q: Probing)
    requires Sweeping(p, h, manifest) && p.sent.Some?
    ensures h in Step(p.scheduler, MoveEvent(ReloadMove, h, manifest)).torrents
    ensures q == Next(p, ReloadMove, h, manifest) && Sweeping(q, h, manifest)
    ensures q.pending == p.pending && q.base == p.sent.value.startFileIndex <= |manifest|
    ensures p.sent.value in q.pending && p.sent.value.epoch == Record(q, h).probeEpoch
  {
    ReloadSweeping(p, h, manifest);
    q := Next(p, ReloadMove, h, manifest);
  }

  /** Each unsafe reload is a real loss: with the last batch of a sweep in flight at file `k`, a
      reload makes the sweep report only files from `k` on. That is the whole list if and only
      if the batch starts the manifest or no earlier file has a problem. */
  lemma ReloadLosesPrefix(p: Probing, h: InfoHash, manifest: seq<ManifestFile>) returns (q: Probing)
    requires Sweeping(p, h, manifest) && FromStart(p, h) && p.sent.Some?
    requires Record(p, h).nextProbeFileIndex + PROBE_BATCH_MAX_FILES >= |manifest|
    ensures h in Step(p.scheduler, MoveEvent(ReloadMove, h, manifest)).torrents
    ensures q == Next(p, ReloadMove, h, manifest)
    ensures
      var k := Record(p, h).nextProbeFileIndex;
      var outcome := Outcome(q, AnswerMove(p.sent.value), h, manifest);
      && k <= |manifest|
      && outcome == Some(CompletedSweep(Problems(manifest[k..])))
      && (outcome == Some(CompletedSweep(Problems(manifest))) <==> Problems(manifest[..k]) == [])
  {
    q := ReloadRebases(p, h, manifest);
    LastAnswerReports(q, p.sent.value, h, manifest);
    ReportCompleteIff(manifest, q.base);
  }

  ghost predicate Solo(p: Probing, h: InfoHash, st: TorrentState, now: Time) {
    p.scheduler == Scheduler(now, map[h := st], if st.inFlight then 1 else 0)
  }

  lemma SoloAsk(p: Probing, h: InfoHash, st: TorrentState, now: Time, manifest: seq<ManifestFile>)
    requires Solo(p, h, st, now) && st.Eligible(now) && st.probeEpoch < U64_MAX
    requires Sweeping(p, h, manifest)
    ensures h in Drain(p.scheduler).0.torrents
    ensures
      var q := Next(p, SchedulerMove(DrainEvent), h, manifest);
      Solo(q, h, Started(st, now), now) && Sweeping(q, h, manifest) && q.sent == Some(RequestFor(h, st))
      && q.base == p.base
  {
    SoloDrain(now, h, st);
    DrainMove(p, h, manifest);
    DrainSweeping(p, h, manifest);
    assert Picked([RequestFor(h, st)])[0] == h;
  }

  /** The move `m` is possible and leads from `p` to `q`. */
  ghost predicate Leads(p: Probing, m: Move, q: Probing, h: InfoHash, manifest: seq<ManifestFile>) {
    && h in p.scheduler.torrents && Record(p, h).probeEpoch < U64_MAX && Allowed(p, m, h)
    && h in Step(p.scheduler, MoveEvent(m, h, manifest)).torrents
    && q == Next(p, m, h, manifest)
  }

  lemma WatchedCons(p: Probing, m: Move, q: Probing, rest: seq<Move>, h: InfoHash, manifest: seq<ManifestFile>)
    requires Leads(p, m, q, h, manifest) && Watched(q, rest, h, manifest)
    ensures Watched(p, [m] + rest, h, manifest)
    ensures After(p, [m] + rest, h, manifest) == After(q, rest, h, manifest)
  {
    assert ([m] + rest)[1..] == rest;
  }

  /** The first batch of a new torrent is asked for and answered in part. */
  lemma FirstHalf(now: Time, h: InfoHash, manifest: seq<ManifestFile>)
    returns (p: Probing, asked: Probing, first: ProbeBatchRequest, half: Probing, partway: TorrentState)
    requires PROBE_BATCH_MAX_FILES < |manifest|
    ensures Fresh(p, h)
    ensures Leads(p, SchedulerMove(DrainEvent), asked, h, manifest)
    ensures Leads(asked, AnswerMove(first), half, h, manifest)
    ensures Solo(half, h, partway, now) && Sweeping(half, h, manifest) && half.base == 0
    ensures partway.Eligible(now) && partway.probeEpoch == 0 && partway.nextProbeFileIndex == PROBE_BATCH_MAX_FILES
  {
    var st := NewTorrent(now);
    p := Probing(Scheduler(now, map[h := st], 0), {}, None, 0);
    FreshSweeping(p, h, manifest);
    SoloAsk(p, h, st, now, manifest);
    asked := Next(p, SchedulerMove(DrainEvent), h, manifest);
    first := RequestFor(h, st);
    half := Next(asked, AnswerMove(first), h, manifest);
    partway := SoloPart(asked, h, Started(st, now), now, manifest);
  }

  /** The second batch is asked for, and the metadata reloaded while it is in flight. */
  lemma SecondHalf(now: Time, h: InfoHash, manifest: seq<ManifestFile>, half: Probing, partway: TorrentState)
    returns (again: Probing, second: ProbeBatchRequest, reloaded: Probing)
    requires PROBE_BATCH_MAX_FILES < |manifest| <= 2 * PROBE_BATCH_MAX_FILES
    requires Solo(half, h, partway, now) && Sweeping(half, h, manifest) && half.base == 0
    requires partway.Eligible(now) && partway.probeEpoch == 0 && partway.nextProbeFileIndex == PROBE_BATCH_MAX_FILES
    ensures Leads(half, SchedulerMove(DrainEvent), again, h, manifest)
    ensures Leads(again, ReloadMove, reloaded, h, manifest)
    ensures h in reloaded.scheduler.torrents && Record(reloaded, h).probeEpoch < U64_MAX
    ensures Allowed(reloaded, AnswerMove(second), h)
    ensures Outcome(reloaded, AnswerMove(second), h, manifest) ==
            Some(CompletedSweep(Problems(manifest[PROBE_BATCH_MAX_FILES..])))
  {
    SoloAsk(half, h, partway, now, manifest);
    again := Next(half, SchedulerMove(DrainEvent), h, manifest);
    second := RequestFor(h, partway);
    reloaded := ReloadLosesPrefix(again, h, manifest);
  }

  /** The loss is reachable for every manifest of two batches: probe the first batch, start the
      second, reload, and let the second answer. The report then covers the second batch only. */
  lemma LossIsReachable(now: Time, h: InfoHash, manifest: seq<ManifestFile>)
    returns (p: Probing, moves: seq<Move>, m: Move)
    requires PROBE_BATCH_MAX_FILES < |manifest| <= 2 * PROBE_BATCH_MAX_FILES
    ensures Fresh(p, h) && Watched(p, moves, h, manifest)
    ensures Allowed(After(p, moves, h, manifest), m, h)
    ensures Outcome(After(p, moves, h, manifest), m, h, manifest) ==
            Some(CompletedSweep(Problems(manifest[PROBE_BATCH_MAX_FILES..])))
  {
    var drain := SchedulerMove(DrainEvent);
    var asked, first, half, partway;
    p, asked, first, half, partway := FirstHalf(now, h, manifest);
    var again, second, reloaded := SecondHalf(now, h, manifest, half, partway);
    m := AnswerMove(second);
    WatchedCons(again, ReloadMove, reloaded, [], h, manifest);
    WatchedCons(half, drain, again, [ReloadMove] + [], h, manifest);
    WatchedCons(asked, AnswerMove(first), half, [drain] + ([ReloadMove] + []), h, manifest);
    WatchedCons(p, drain, asked, [AnswerMove(first)] + ([drain] + ([ReloadMove] + [])), h, manifest);
    moves := [drain] + ([AnswerMove(first)] + ([drain] + ([ReloadMove] + [])));
  }

  lemma SoloPart(p: Probing, h: InfoHash, st: TorrentState, now: Time, manifest: seq<ManifestFile>)
    returns (after: TorrentState)
    requires Solo(p, h, st, now) && Sweeping(p, h, manifest) && st.inFlight && !st.isDownloading
    requires p.sent.Some? && p.sent.value.startFileIndex + PROBE_BATCH_MAX_FILES < |manifest|
    ensures h in Step(p.scheduler, MoveEvent(AnswerMove(p.sent.value), h, manifest)).torrents
    ensures
      var q := Next(p, AnswerMove(p.sent.value), h, manifest);
      && Solo(q, h, after, now) && Sweeping(q, h, manifest) && after.Eligible(now) && q.base == p.base
      && after.probeEpoch == st.probeEpoch
      && after.nextProbeFileIndex == p.sent.value.startFileIndex + PROBE_BATCH_MAX_FILES
  {
    PartAnswerSweeping(p, p.sent.value, h, manifest);
    after := Record(Next(p, AnswerMove(p.sent.value), h, manifest), h);
  }
}
