/** What the scheduler decides, in terms of files, clocks and what callers report: when a torrent
    counts as unavailable, when it is due again, and who is asked for first. */
module SchedulerVerdicts {
  import opened Common
  import opened ByteStrings
  import opened Iteration
  import opened FileProbe
  import opened TorrentIntegrity
  import opened SchedulerSpec
  import opened SchedulerSlots
  import opened SchedulerDrain
  import opened SchedulerEffects
  import opened SchedulerSweep

  // Files.

  /** A file worth looking at that is not on disk with its length. */
  predicate Damaged(f: ManifestFile) {
    !f.isPadding && !f.isSkipped && f.observed != Sized(f.length)
  }

  function DamagedOf(files: seq<ManifestFile>): seq<ManifestFile> {
    if files == [] then []
    else DamagedOf(files[..|files| - 1]) + if Damaged(files[|files| - 1]) then [files[|files| - 1]] else []
  }

  /** What an entry says about its file. */
  predicate Tells(entry: FileProbeEntry, f: ManifestFile) {
    && entry.path == f.path && entry.expectedSize == f.length
    && (entry.error == ReadError <==> f.observed == Unreadable)
    && (entry.error == UnexpectedType <==> f.observed == NotAFile)
    && (f.observed.Sized? ==> entry.error == SizeMismatch(f.length, f.observed.bytes))
    && entry.observedSize == if f.observed.Sized? then Some(f.observed.bytes) else None
  }

  /** A report tells of exactly the damaged files, in order. */
  lemma {:induction false} ReportTellsDamage(files: seq<ManifestFile>)
    ensures |Problems(files)| == |DamagedOf(files)|
    ensures forall k | 0 <= k < |Problems(files)| :: Tells(Problems(files)[k], DamagedOf(files)[k])
    ensures Problems(files) != [] <==> exists i :: 0 <= i < |files| && Damaged(files[i])
  {
    if files != [] {
      var front, last := files[..|files| - 1], files[|files| - 1];
      ReportTellsDamage(front);
      assert forall i | 0 <= i < |front| :: front[i] == files[i];
      if i :| 0 <= i < |files| && Damaged(files[i]) {
        assert i < |front| ==> Damaged(front[i]);
      }
    }
  }

  /** A batch covers its range of the manifest, clipped at the end, counts the files it covers, and says
      where to go on; without metadata it says so and nothing else. */
  lemma ReplyTells(manifest: seq<ManifestFile>, epoch: nat, start: nat, maxFiles: nat)
    requires maxFiles > 0
    ensures
      var reply := HonestReply(manifest, epoch, start, maxFiles);
      && reply.epoch == epoch && !reply.pendingMetadata
      && (reply.reachedEndOfManifest <==> start + maxFiles >= |manifest|)
      && reply.scannedFiles == (if start >= |manifest| then 0
                                else if start + maxFiles >= |manifest| then |manifest| - start else maxFiles)
      && reply.nextFileIndex == (if start + maxFiles >= |manifest| then 0 else start + maxFiles)
      && |reply.problemFiles| <= reply.scannedFiles
    ensures PendingReply(epoch) == FileProbeBatchResult(epoch, 0, 0, false, true, [])
  {
    if start < |manifest| {
      ProblemsFewer(manifest[start..Min(|manifest|, start + maxFiles)]);
    }
  }

  lemma {:induction false} ProblemsFewer(files: seq<ManifestFile>)
    ensures |Problems(files)| <= |files|
  {
    if files != [] {
      ProblemsFewer(files[..|files| - 1]);
    }
  }

  // Deadlines.

  predicate SmallManifest(st: TorrentState) {
    st.fileCount.Some? && st.fileCount.value < 1000
  }

  /** How long a healthy torrent rests: a minute for a small manifest, else five minutes if it is
      active and half an hour if it is not. */
  function Rest(st: TorrentState): int {
    if SmallManifest(st) then 60_000_000_000 else if st.isActive then 300_000_000_000 else 1_800_000_000_000
  }

  /** The batch of `st` has been in flight for thirty seconds. */
  predicate Late(st: TorrentState, now: Time) {
    st.inFlight && st.lastProbeStartedAt.Some? && now - st.lastProbeStartedAt.value >= 30_000_000_000
  }

  /** A fault on `g` concerns `h`: the same torrent, or the same saved location. */
  predicate HitBy(torrents: Torrents, g: InfoHash, h: InfoHash) {
    g == h || (g in torrents && h in torrents && torrents[g].savedLocation.Some?
               && torrents[g].savedLocation == torrents[h].savedLocation)
  }

  /** A result the scheduler takes as current. */
  predicate Current(torrents: Torrents, g: InfoHash, result: FileProbeBatchResult) {
    g in torrents && torrents[g].probeEpoch == result.epoch
  }

  /** When `h` is due after an event that speaks about it. */
  function DueAfter(s: Scheduler, e: Event, h: InfoHash): Option<Time>
    requires h in s.torrents
  {
    var st := s.torrents[h];
    match e
    case ReloadEvent(g) => if g == h then Some(s.now) else None
    case FaultEvent(g) => if HitBy(s.torrents, g, h) then Some(s.now) else None
    case DrainEvent => if Late(st, s.now) then Some(s.now) else None
    case UndispatchedEvent(g) => if g == h then Some(s.now + 1_000_000_000) else None
    case ResultEvent(g, result) =>
      if g != h || !Current(s.torrents, g, result) then None
      else if result.pendingMetadata then Some(s.now + 15_000_000_000)
      else if !result.reachedEndOfManifest then Some(s.now)
      else if st.sweepProblems + result.problemFiles != [] then Some(s.now + 5_000_000_000)
      else Some(s.now + Rest(st))
    case _ => None
  }

  lemma SyncKeepsDeadline(torrents: Torrents, snapshots: seq<Snapshot>, now: Time, h: InfoHash)
    requires h in torrents
    ensures
      var st, after := torrents[h], SyncEach(torrents, snapshots, now);
      h in after
      && (!st.hasCompletedProbe || st.inFlight || st.pendingMetadata || st.nextDueAt <= now ==>
            after[h].nextDueAt == st.nextDueAt)
    decreases |snapshots|
  {
    if snapshots != [] {
      var front := snapshots[..|snapshots| - 1];
      SyncKeepsDeadline(torrents, front, now, h);
      SyncEffect(torrents, front, now, h);
    }
  }

  /** A sync that lists a torrent once. One that has been swept, rests with its data and is not due gets
      a new deadline one rest from now exactly if the old one is more than five seconds off that. */
  lemma SyncDeadlineExactly(s: Scheduler, snapshots: seq<Snapshot>, x: Snapshot, h: InfoHash)
    requires h in s.torrents && ListingsOf(snapshots, h) == [x]
    ensures h in Sync(s, snapshots).torrents
    ensures
      var st, after := s.torrents[h], Sync(s, snapshots).torrents[h];
      var target := s.now + Rest(after);
      var rests :=
        st.hasCompletedProbe && !st.inFlight && !st.pendingMetadata && x.dataAvailable && st.nextDueAt > s.now;
      after.nextDueAt ==
        if rests && (st.nextDueAt > target + 5_000_000_000 || st.nextDueAt < target - 5_000_000_000) then target
        else st.nextDueAt
  {
    SyncOnceAt(s.torrents, snapshots, s.now, h);
    SyncEffect(s.torrents, snapshots, s.now, h);
  }

  /** Only its own listings matter to a torrent. */
  lemma {:induction false} SyncOnceAt(torrents: Torrents, snapshots: seq<Snapshot>, now: Time, h: InfoHash)
    requires h in torrents && |ListingsOf(snapshots, h)| <= 1
    ensures
      var xs, after := ListingsOf(snapshots, h), SyncEach(torrents, snapshots, now);
      && h in after
      && after[h] == (if xs == [] then torrents[h] else Synced(torrents[h], xs[0], now))
      && (xs != [] ==> h in Hashes(snapshots))
    decreases |snapshots|
  {
    if snapshots != [] {
      var front, last := snapshots[..|snapshots| - 1], snapshots[|snapshots| - 1];
      assert snapshots == front + [last];
      HashesSnoc(front, last);
      SyncOnceAt(torrents, front, now, h);
    }
  }

  /** Every event writes exactly this deadline, and no other event writes any. A sync writes one only
      for a torrent that has been swept, rests and is not due. */
  lemma DeadlineExactly(s: Scheduler, e: Event, h: InfoHash)
    requires h in s.torrents && h in Step(s, e).torrents
    ensures
      var st, after := s.torrents[h], Step(s, e).torrents[h];
      if e.SyncEvent? then
        !st.hasCompletedProbe || st.inFlight || st.pendingMetadata || st.nextDueAt <= s.now ==>
          after.nextDueAt == st.nextDueAt
      else
        after.nextDueAt == match DueAfter(s, e, h) case Some(due) => due case None => st.nextDueAt
  {
    match e {
      case SyncEvent(snapshots) => SyncKeepsDeadline(s.torrents, snapshots, s.now, h);
      case DrainEvent => DrainEffect(s, h);
      case ResultEvent(g, result) => ResultDeadline(s, g, result, h);
      case _ =>
    }
  }

  lemma ResultDeadline(s: Scheduler, g: InfoHash, result: FileProbeBatchResult, h: InfoHash)
    requires h in s.torrents
    ensures BatchResult(s, g, result).0.torrents[h].nextDueAt ==
            match DueAfter(s, ResultEvent(g, result), h) case Some(due) => due case None => s.torrents[h].nextDueAt
  {
  }

  // Availability.

  /** The listings of `h` in a sync, in order. */
  function ListingsOf(snapshots: seq<Snapshot>, h: InfoHash): seq<Snapshot> {
    if snapshots == [] then []
    else
      var last := snapshots[|snapshots| - 1];
      ListingsOf(snapshots[..|snapshots| - 1], h) + if last.infoHash == h then [last] else []
  }

  /** What an event says about the data of `h`, if anything. */
  function Word(s: Scheduler, e: Event, h: InfoHash): Option<Availability>
    requires h in s.torrents
  {
    var st := s.torrents[h];
    match e
    case SyncEvent(snapshots) =>
      var xs := ListingsOf(snapshots, h);
      if xs == [] then None
      else if !xs[|xs| - 1].dataAvailable then Some(Unavailable)
      else if st.hasCompletedProbe then Some(Available)
      else if Missed(xs) then Some(Unavailable)
      else None
    case FaultEvent(g) => if g == h then Some(Unavailable) else None
    case ResultEvent(g, result) =>
      if g != h || !Current(s.torrents, g, result) || result.pendingMetadata || !result.reachedEndOfManifest then None
      else Some(if st.sweepProblems == [] && result.problemFiles == [] then Available else Unavailable)
    case _ => None
  }

  /** One of the listings misses the data. */
  predicate Missed(xs: seq<Snapshot>) {
    exists i :: 0 <= i < |xs| && !xs[i].dataAvailable
  }

  lemma MissedSnoc(xs: seq<Snapshot>, x: Snapshot)
    ensures Missed(xs + [x]) <==> Missed(xs) || !x.dataAvailable
  {
    var all := xs + [x];
    assert forall i | 0 <= i < |xs| :: all[i] == xs[i];
    assert all[|xs|] == x;
  }

  lemma {:induction false} SyncSays(torrents: Torrents, snapshots: seq<Snapshot>, now: Time, h: InfoHash)
    requires h in torrents
    ensures
      var after := SyncEach(torrents, snapshots, now);
      h in after && after[h].availability ==
        (match Word(Scheduler(now, torrents, 0), SyncEvent(snapshots), h)
         case Some(word) => word
         case None => torrents[h].availability)
    decreases |snapshots|
  {
    if snapshots != [] {
      var front, last := snapshots[..|snapshots| - 1], snapshots[|snapshots| - 1];
      SyncSays(torrents, front, now, h);
      SyncEffect(torrents, front, now, h);
      var ys := ListingsOf(front, h);
      assert ys + [] == ys;
      if last.infoHash == h {
        MissedSnoc(ys, last);
      }
    }
  }

  lemma WordDecides(s: Scheduler, e: Event, h: InfoHash)
    requires h in s.torrents && h in Step(s, e).torrents
    ensures Step(s, e).torrents[h].availability ==
            match Word(s, e, h) case Some(word) => word case None => s.torrents[h].availability
  {
    match e {
      case SyncEvent(snapshots) => SyncSays(s.torrents, snapshots, s.now, h);
      case DrainEvent => DrainEffect(s, h);
      case _ =>
    }
  }

  ghost predicate Stays(s: Scheduler, events: seq<Event>, h: InfoHash)
    decreases |events|
  {
    h in s.torrents && (events != [] ==> Stays(Step(s, events[0]), events[1..], h))
  }

  /** The last thing said about the data of `h` along a run. */
  ghost function LastWord(s: Scheduler, events: seq<Event>, h: InfoHash, word: Availability): Availability
    requires Stays(s, events, h)
    decreases |events|
  {
    if events == [] then word
    else
      LastWord(Step(s, events[0]), events[1..], h,
               match Word(s, events[0], h) case Some(next) => next case None => word)
  }

  /** Over any run, a torrent's availability is the last thing that was said about it: by a sync, a
      fault of its own, or a sweep that ended. */
  lemma {:induction false} AvailabilityIsLastWord(s: Scheduler, events: seq<Event>, h: InfoHash)
    requires Stays(s, events, h)
    ensures h in Run(s, events).torrents
    ensures Run(s, events).torrents[h].availability == LastWord(s, events, h, s.torrents[h].availability)
    decreases |events|
  {
    if events != [] {
      WordDecides(s, events[0], h);
      AvailabilityIsLastWord(Step(s, events[0]), events[1..], h);
    }
  }

  // The rest of a record.

  /** What `h` is known as: active, downloading, its file count and where it is saved. */
  predicate DescribedBy(st: TorrentState, x: Snapshot) {
    && (st.isActive <==> x.downloadSpeedBps > 0 || x.uploadSpeedBps > 0)
    && st.isDownloading == x.isDownloading && st.fileCount == x.fileCount && st.savedLocation == x.savedLocation
  }

  predicate SameDescription(a: TorrentState, b: TorrentState) {
    && a.isActive == b.isActive && a.isDownloading == b.isDownloading
    && a.fileCount == b.fileCount && a.savedLocation == b.savedLocation
  }

  /** A sync describes a torrent as its last listing does; nothing else changes the description. */
  lemma DescribedAsListed(s: Scheduler, e: Event, h: InfoHash)
    requires h in Step(s, e).torrents
    ensures e.SyncEvent? ==>
              var xs := ListingsOf(e.snapshots, h);
              xs != [] && DescribedBy(Step(s, e).torrents[h], xs[|xs| - 1])
    ensures !e.SyncEvent? ==> h in s.torrents && SameDescription(Step(s, e).torrents[h], s.torrents[h])
  {
    if e.SyncEvent? {
      SyncDescribes(s.torrents, e.snapshots, s.now, h);
    } else {
      KeepsDescription(s, e, h);
    }
  }

  lemma KeepsDescription(s: Scheduler, e: Event, h: InfoHash)
    requires h in Step(s, e).torrents && !e.SyncEvent?
    ensures h in s.torrents && SameDescription(Step(s, e).torrents[h], s.torrents[h])
  {
    match e {
      case DrainEvent =>
        DrainKeys(s);
        DrainEffect(s, h);
      case ResultEvent(g, result) => AnswerKeepsDescription(s, g, result, h);
      case AdvanceEvent(_) =>
      case RemoveEvent(_) =>
      case ReloadEvent(_) =>
      case FaultEvent(_) =>
      case UndispatchedEvent(_) =>
    }
  }

  lemma AnswerKeepsDescription(s: Scheduler, g: InfoHash, result: FileProbeBatchResult, h: InfoHash)
    requires h in BatchResult(s, g, result).0.torrents
    ensures h in s.torrents && SameDescription(BatchResult(s, g, result).0.torrents[h], s.torrents[h])
  {
  }

  lemma {:induction false} SyncDescribes(torrents: Torrents, snapshots: seq<Snapshot>, now: Time, h: InfoHash)
    requires h in Hashes(snapshots)
    ensures
      var xs, after := ListingsOf(snapshots, h), SyncEach(torrents, snapshots, now);
      xs != [] && h in after && DescribedBy(after[h], xs[|xs| - 1])
    decreases |snapshots|
  {
    var front, last := snapshots[..|snapshots| - 1], snapshots[|snapshots| - 1];
    assert snapshots == front + [last];
    HashesSnoc(front, last);
    if last.infoHash != h {
      SyncDescribes(torrents, front, now, h);
    }
  }

  /** A full answer arrived for `h`. */
  predicate Finishes(s: Scheduler, e: Event, h: InfoHash) {
    e.ResultEvent? && e.answered == h && Current(s.torrents, h, e.result)
    && !e.result.pendingMetadata && e.result.reachedEndOfManifest
  }

  /** An answer arrived for `h`. */
  predicate Answers(s: Scheduler, e: Event, h: InfoHash) {
    e.ResultEvent? && e.answered == h && Current(s.torrents, h, e.result)
  }

  /** A torrent has been swept exactly if a full answer arrived, waits for metadata exactly from an
      answer that says so until the next answer, reload, fault or timeout, and remembers when it was
      last answered. */
  lemma ProgressStep(s: Scheduler, e: Event, h: InfoHash)
    requires h in s.torrents && h in Step(s, e).torrents
    ensures
      var st, after := s.torrents[h], Step(s, e).torrents[h];
      && after.hasCompletedProbe == (st.hasCompletedProbe || Finishes(s, e, h))
      && after.pendingMetadata ==
           (if Answers(s, e, h) then e.result.pendingMetadata
            else st.pendingMetadata && e != ReloadEvent(h) && !(e.FaultEvent? && HitBy(s.torrents, e.faulty, h))
                 && !(e.DrainEvent? && Late(st, s.now)))
      && after.lastProbeCompletedAt == (if Answers(s, e, h) then Some(s.now) else st.lastProbeCompletedAt)
      && after.lastFullProbeCompletedAt == (if Finishes(s, e, h) then Some(s.now) else st.lastFullProbeCompletedAt)
  {
    match e {
      case SyncEvent(snapshots) =>
        SyncEffect(s.torrents, snapshots, s.now, h);
        SyncKeepsTimes(s.torrents, snapshots, s.now, h);
      case DrainEvent => DrainEffect(s, h);
      case _ =>
    }
  }

  lemma {:induction false} SyncKeepsTimes(torrents: Torrents, snapshots: seq<Snapshot>, now: Time, h: InfoHash)
    requires h in torrents
    ensures
      var after := SyncEach(torrents, snapshots, now);
      && h in after
      && after[h].lastProbeCompletedAt == torrents[h].lastProbeCompletedAt
      && after[h].lastFullProbeCompletedAt == torrents[h].lastFullProbeCompletedAt
    decreases |snapshots|
  {
    if snapshots != [] {
      SyncKeepsTimes(torrents, snapshots[..|snapshots| - 1], now, h);
    }
  }

  /** A torrent that appears in a sync is due at once, at epoch 0 and the first file, with nothing
      known of its data unless the sync misses them. */
  lemma NewlyListed(s: Scheduler, snapshots: seq<Snapshot>, h: InfoHash)
    requires h in Hashes(snapshots) && h !in s.torrents
    ensures h in Sync(s, snapshots).torrents
    ensures
      var st := Sync(s, snapshots).torrents[h];
      && st.nextDueAt == s.now && st.probeEpoch == 0 && st.nextProbeFileIndex == 0 && st.sweepProblems == []
      && !st.inFlight && !st.pendingMetadata && !st.hasCompletedProbe
      && st.availability ==
           if exists i :: 0 <= i < |snapshots| && snapshots[i].infoHash == h && !snapshots[i].dataAvailable
           then Unavailable else Unknown
  {
    SyncEffect(s.torrents, snapshots, s.now, h);
    NewlyListedEach(s.torrents, snapshots, s.now, h);
  }

  lemma {:induction false} NewlyListedEach(torrents: Torrents, snapshots: seq<Snapshot>, now: Time, h: InfoHash)
    requires h !in torrents
    ensures
      var after := SyncEach(torrents, snapshots, now);
      h in after ==>
        && after[h].nextDueAt == now && !after[h].hasCompletedProbe
        && after[h].availability ==
             if exists i :: 0 <= i < |snapshots| && snapshots[i].infoHash == h && !snapshots[i].dataAvailable
             then Unavailable else Unknown
    ensures h !in SyncEach(torrents, snapshots, now) ==> forall i | 0 <= i < |snapshots| :: snapshots[i].infoHash != h
    decreases |snapshots|
  {
    if snapshots != [] {
      var front, last := snapshots[..|snapshots| - 1], snapshots[|snapshots| - 1];
      NewlyListedEach(torrents, front, now, h);
      assert forall i | 0 <= i < |front| :: front[i] == snapshots[i];
      if i :| 0 <= i < |snapshots| && snapshots[i].infoHash == h && !snapshots[i].dataAvailable {
        assert i < |front| ==> front[i].infoHash == h && !front[i].dataAvailable;
      }
    }
  }

  /** Listed after `events`: a sync says who is, and a removal who no longer is. */
  predicate Listed(h: InfoHash, before: bool, events: seq<Event>)
    decreases |events|
  {
    if events == [] then before
    else
      var after := match events[0]
        case SyncEvent(snapshots) => exists i :: 0 <= i < |snapshots| && snapshots[i].infoHash == h
        case RemoveEvent(removed) => before && removed != h
        case _ => before;
      Listed(h, after, events[1..])
  }

  /** Over every run, the torrents known are those listed. */
  lemma {:induction false} KnownAsListed(s: Scheduler, h: InfoHash, events: seq<Event>)
    ensures h in Run(s, events).torrents <==> Listed(h, h in s.torrents, events)
    decreases |events|
  {
    if events != [] {
      var e := events[0];
      KnownStep(s, h, e);
      KnownAsListed(Step(s, e), h, events[1..]);
    }
  }

  lemma KnownStep(s: Scheduler, h: InfoHash, e: Event)
    ensures e.SyncEvent? ==>
              (h in Step(s, e).torrents <==> exists i :: 0 <= i < |e.snapshots| && e.snapshots[i].infoHash == h)
    ensures e.RemoveEvent? ==> (h in Step(s, e).torrents <==> h in s.torrents && e.removed != h)
    ensures !e.SyncEvent? && !e.RemoveEvent? ==> (h in Step(s, e).torrents <==> h in s.torrents)
  {
    match e
    case SyncEvent(snapshots) => SyncEffect(s.torrents, snapshots, s.now, h);
    case DrainEvent => DrainKeys(s);
    case _ =>
  }

  // Dispatch.

  /** May be asked for: not in flight unless its batch is late, due unless late, and not held back by
      a download of intact data. */
  predicate MayBeAsked(st: TorrentState, now: Time) {
    && (!st.inFlight || Late(st, now))
    && (Late(st, now) || st.nextDueAt <= now)
    && (!st.isDownloading || st.availability == Unavailable)
  }

  function DueTime(st: TorrentState, now: Time): Time {
    if Late(st, now) then now else st.nextDueAt
  }

  /** Torrents without their data come first, then active ones; then who was due first, then by hash. */
  predicate Precedes(s: Scheduler, g: InfoHash, h: InfoHash)
    requires g in s.torrents && h in s.torrents
  {
    var (a, b) := (s.torrents[g], s.torrents[h]);
    if (a.availability == Unavailable) != (b.availability == Unavailable) then a.availability == Unavailable
    else if a.availability != Unavailable && a.isActive != b.isActive then a.isActive
    else if DueTime(a, s.now) != DueTime(b, s.now) then DueTime(a, s.now) < DueTime(b, s.now)
    else Less(g, h)
  }

  lemma ReadyMeans(s: Scheduler, h: InfoHash)
    requires h in s.torrents
    ensures h in Due(Reclaim(s)) <==> MayBeAsked(s.torrents[h], s.now)
  {
  }

  lemma BeforeMeans(s: Scheduler, g: InfoHash, h: InfoHash)
    requires g in s.torrents && h in s.torrents
    ensures Before(Reclaim(s).torrents, g, h) <==> Precedes(s, g, h)
  {
  }

  /** A drain asks for torrents that may be asked for, in this order, and passes one over only if
      both slots are used and everyone it asks for precedes it. Each is asked for its next 256 files
      under its epoch; a late one starts over under the next epoch. */
  lemma DrainAsksExactly(s: Scheduler)
    requires Accounted(s)
    ensures
      var (after, rs) := Drain(s);
      && (forall i | 0 <= i < |rs| ::
            var g := rs[i].infoHash;
            && g in s.torrents && MayBeAsked(s.torrents[g], s.now) && rs[i].maxFiles == 256
            && rs[i].startFileIndex == (if Late(s.torrents[g], s.now) then 0 else s.torrents[g].nextProbeFileIndex)
            && rs[i].epoch == if Late(s.torrents[g], s.now) then SatAdd(s.torrents[g].probeEpoch, 1)
                              else s.torrents[g].probeEpoch)
      && (forall i, j | 0 <= i < j < |rs| :: Precedes(s, rs[i].infoHash, rs[j].infoHash))
      && (forall h | h in s.torrents && MayBeAsked(s.torrents[h], s.now) && h !in Picked(rs) ::
            after.inFlightBatches == 2 && forall i | 0 <= i < |rs| :: Precedes(s, rs[i].infoHash, h))
  {
    DrainSelectsSortedPrefix(s);
    var ready := Reclaim(s);
    var (after, rs) := Drain(s);
    var hs := Picked(rs);
    forall i | 0 <= i < |rs|
      ensures hs[i] == rs[i].infoHash && hs[i] in s.torrents && MayBeAsked(s.torrents[hs[i]], s.now)
    {
      ReadyMeans(s, hs[i]);
    }
    forall i, j | 0 <= i < j < |rs|
      ensures Precedes(s, rs[i].infoHash, rs[j].infoHash)
    {
      BeforeMeans(s, hs[i], hs[j]);
    }
    forall h | h in s.torrents && MayBeAsked(s.torrents[h], s.now) && h !in hs
      ensures after.inFlightBatches == 2 && forall i | 0 <= i < |rs| :: Precedes(s, rs[i].infoHash, h)
    {
      PassedOver(s, h);
    }
  }

  /** A sweep that starts at the first file starts with an empty list of problems. */
  lemma StartsAfresh(s: Scheduler, h: InfoHash)
    requires h in s.torrents && h in Picked(Drain(s).1)
    ensures
      var st, after := s.torrents[h], Drain(s).0.torrents;
      && h in after && after[h].inFlight && after[h].lastProbeStartedAt == Some(s.now)
      && after[h].sweepProblems == if Late(st, s.now) || st.nextProbeFileIndex == 0 then [] else st.sweepProblems
  {
    DrainEffect(s, h);
  }

  lemma PassedOver(s: Scheduler, h: InfoHash)
    requires Accounted(s) && h in s.torrents && MayBeAsked(s.torrents[h], s.now) && h !in Picked(Drain(s).1)
    ensures Drain(s).0.inFlightBatches == 2
    ensures forall i | 0 <= i < |Drain(s).1| ::
              Drain(s).1[i].infoHash in s.torrents && Precedes(s, Drain(s).1[i].infoHash, h)
  {
    DrainSelectsSortedPrefix(s);
    ReadyMeans(s, h);
    DrainEffect(s, h);
    var (after, rs) := Drain(s);
    assert h in Due(after);
    forall i | 0 <= i < |rs|
      ensures rs[i].infoHash in s.torrents && Precedes(s, rs[i].infoHash, h)
    {
      assert Picked(rs)[i] == rs[i].infoHash;
      BeforeMeans(s, rs[i].infoHash, h);
    }
  }

  // What a sweep decides.

  /** A torrent whose sweep has just ended. It is unavailable if damage was found and available
      otherwise, due five seconds later or one rest later. From that time on it may be asked for:
      always if damaged, and unless it is downloading if not. */
  ghost predicate Decided(st: TorrentState, now: Time, damaged: bool) {
    && st.availability == (if damaged then Unavailable else Available)
    && st.hasCompletedProbe && !st.inFlight && !st.pendingMetadata
    && st.nextDueAt == now + (if damaged then 5_000_000_000 else Rest(st))
    && forall later :: MayBeAsked(st, later) <==>
         if damaged then later >= now + 5_000_000_000 else later >= now + Rest(st) && !st.isDownloading
  }

  lemma DamageBehind(manifest: seq<ManifestFile>, base: nat)
    requires base <= |manifest|
    ensures Problems(manifest[base..]) != [] <==> exists i :: base <= i < |manifest| && Damaged(manifest[i])
  {
    ReportTellsDamage(manifest[base..]);
    if i :| base <= i < |manifest| && Damaged(manifest[i]) {
      assert manifest[base..][i - base] == manifest[i];
    }
  }

  /** What a result that ends a sweep leaves. */
  lemma FinishedRecord(s: Scheduler, h: InfoHash, result: FileProbeBatchResult)
    requires Current(s.torrents, h, result) && !result.pendingMetadata && result.reachedEndOfManifest
    ensures BatchResult(s, h, result).1 == Some(CompletedSweep(s.torrents[h].sweepProblems + result.problemFiles))
    ensures h in BatchResult(s, h, result).0.torrents
    ensures Decided(BatchResult(s, h, result).0.torrents[h], s.now,
                    s.torrents[h].sweepProblems + result.problemFiles != [])
  {
  }

  lemma EndDecides(p: Probing, r: ProbeBatchRequest, h: InfoHash, manifest: seq<ManifestFile>)
    requires Sweeping(p, h, manifest) && r in p.pending && Completes(p, AnswerMove(r), h, manifest)
    ensures
      var e := MoveEvent(AnswerMove(r), h, manifest);
      && h in Step(p.scheduler, e).torrents
      && Decided(Step(p.scheduler, e).torrents[h], p.scheduler.now, Problems(manifest[p.base..]) != [])
  {
    LastAnswerReports(p, r, h, manifest);
    FinishedRecord(p.scheduler, h, HonestReply(manifest, r.epoch, r.startFileIndex, r.maxFiles));
  }

  /** In every run from a fresh registration: what a sweep that ends decides depends on whether one
      of the files it really probed is damaged, and on nothing else. */
  lemma SweepDecides(p: Probing, moves: seq<Move>, m: Move, h: InfoHash, manifest: seq<ManifestFile>)
    requires Fresh(p, h) && Watched(p, moves, h, manifest)
    requires
      var end := After(p, moves, h, manifest);
      Allowed(end, m, h) && h in Step(end.scheduler, MoveEvent(m, h, manifest)).torrents
      && Completes(end, m, h, manifest)
    ensures
      var end := After(p, moves, h, manifest);
      Decided(Step(end.scheduler, MoveEvent(m, h, manifest)).torrents[h], end.scheduler.now,
              exists i :: end.base <= i < |manifest| && Damaged(manifest[i]))
  {
    FreshSweeping(p, h, manifest);
    RunSweeping(p, moves, h, manifest);
    var end := After(p, moves, h, manifest);
    DamageBehind(manifest, end.base);
    EndDecides(end, m.answered, h, manifest);
  }
}
