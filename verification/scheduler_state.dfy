/** The integrity scheduler's per-torrent record and the change each operation
    makes to one record. Times are instants and durations in nanoseconds. */
module TorrentIntegrity {
  import opened Common
  import opened ByteStrings
  import opened FileProbe

  type Time = int

  type InfoHash = Bytes

  const PROBE_BATCH_MAX_FILES: nat := 256
  const MAX_IN_FLIGHT_PROBE_BATCHES: nat := 2
  const PROBE_BATCH_TIMEOUT: int := 30_000_000_000
  const PENDING_METADATA_RETRY_INTERVAL: int := 15_000_000_000
  const RECOVERY_RETRY_INTERVAL: int := 5_000_000_000
  const SMALL_MANIFEST_FILE_COUNT_THRESHOLD: nat := 1_000
  const SMALL_MANIFEST_HEALTHY_RETRY_INTERVAL: int := 60_000_000_000
  const ACTIVE_HEALTHY_RETRY_INTERVAL: int := 300_000_000_000
  const IDLE_HEALTHY_RETRY_INTERVAL: int := 1_800_000_000_000
  const DISPATCH_FAILURE_RETRY_INTERVAL: int := 1_000_000_000
  const DEADLINE_TOLERANCE: int := 5_000_000_000

  datatype Availability = Unknown | Available | Unavailable

  datatype PriorityClass = Recovery | ActiveHealthy | IdleHealthy

  datatype Snapshot = Snapshot(
    infoHash: InfoHash,
    dataAvailable: bool,
    isDownloading: bool,
    fileCount: Option<nat>,
    savedLocation: Option<string>,
    downloadSpeedBps: nat,
    uploadSpeedBps: nat)

  datatype ProbeBatchRequest = ProbeBatchRequest(
    infoHash: InfoHash,
    epoch: nat,
    startFileIndex: nat,
    maxFiles: nat)

  datatype ProbeBatchOutcome =
    | PendingMetadata
    | SweepInProgress
    | CompletedSweep(problemFiles: seq<FileProbeEntry>)

  datatype TorrentState = TorrentState(
    probeEpoch: nat,
    nextProbeFileIndex: nat,
    sweepProblems: seq<FileProbeEntry>,
    inFlight: bool,
    pendingMetadata: bool,
    availability: Availability,
    hasCompletedProbe: bool,
    isDownloading: bool,
    isActive: bool,
    fileCount: Option<nat>,
    savedLocation: Option<string>,
    nextDueAt: Time,
    lastProbeStartedAt: Option<Time>,
    lastProbeCompletedAt: Option<Time>,
    lastFullProbeCompletedAt: Option<Time>)
  {
    function Class(): PriorityClass {
      if availability == Unavailable then Recovery
      else if isActive then ActiveHealthy
      else IdleHealthy
    }

    function Rank(): nat {
      match Class()
      case Recovery => 0
      case ActiveHealthy => 1
      case IdleHealthy => 2
    }

    function HealthyRetryInterval(): int {
      if fileCount.Some? && fileCount.value < SMALL_MANIFEST_FILE_COUNT_THRESHOLD then
        SMALL_MANIFEST_HEALTHY_RETRY_INTERVAL
      else if isActive then ACTIVE_HEALTHY_RETRY_INTERVAL
      else IDLE_HEALTHY_RETRY_INTERVAL
    }

    function FullProbeInterval(): int {
      if Class() == Recovery then RECOVERY_RETRY_INTERVAL else HealthyRetryInterval()
    }

    /** A healthy torrent that has been swept and is waiting for its next sweep. */
    predicate RestsHealthy() {
      hasCompletedProbe && !inFlight && !pendingMetadata && availability == Available
    }

    predicate DeadlineMismatch(now: Time) {
      && RestsHealthy()
      && nextDueAt > now
      && (nextDueAt - now - HealthyRetryInterval() > DEADLINE_TOLERANCE
          || HealthyRetryInterval() - (nextDueAt - now) > DEADLINE_TOLERANCE)
    }

    /** What the dispatcher asks before a torrent may be probed, apart from its deadline. */
    predicate Probable() {
      !inFlight && (!isDownloading || availability == Unavailable)
    }

    predicate Eligible(now: Time) {
      Probable() && nextDueAt <= now
    }

    predicate TimedOut(now: Time) {
      && inFlight
      && lastProbeStartedAt.Some?
      && now - lastProbeStartedAt.value >= PROBE_BATCH_TIMEOUT
    }
  }

  function NewTorrent(now: Time): TorrentState {
    TorrentState(0, 0, [], false, false, Unknown, false, false, false, None, None, now, None, None, None)
  }

  function NextEpoch(epoch: nat): nat {
    SatAdd(epoch, 1)
  }

  function Synced(st: TorrentState, snapshot: Snapshot, now: Time): TorrentState {
    var described := st.(
      isActive := snapshot.downloadSpeedBps > 0 || snapshot.uploadSpeedBps > 0,
      isDownloading := snapshot.isDownloading,
      fileCount := snapshot.fileCount,
      savedLocation := snapshot.savedLocation,
      availability :=
        if !snapshot.dataAvailable then Unavailable
        else if st.hasCompletedProbe then Available
        else st.availability);
    if described.DeadlineMismatch(now)
    then described.(nextDueAt := now + described.HealthyRetryInterval())
    else described
  }

  function Reloaded(st: TorrentState, now: Time): TorrentState {
    st.(pendingMetadata := false, nextProbeFileIndex := 0, sweepProblems := [], nextDueAt := now)
  }

  function Faulted(st: TorrentState, same: bool, now: Time): TorrentState {
    st.(
      probeEpoch := NextEpoch(st.probeEpoch),
      inFlight := false,
      nextProbeFileIndex := 0,
      sweepProblems := [],
      nextDueAt := now,
      pendingMetadata := false,
      availability := if same then Unavailable else st.availability)
  }

  function Reclaimed(st: TorrentState, now: Time): TorrentState {
    st.(
      inFlight := false,
      probeEpoch := NextEpoch(st.probeEpoch),
      nextProbeFileIndex := 0,
      sweepProblems := [],
      pendingMetadata := false,
      nextDueAt := now,
      lastProbeStartedAt := None)
  }

  function Started(st: TorrentState, now: Time): TorrentState {
    st.(
      sweepProblems := if st.nextProbeFileIndex == 0 then [] else st.sweepProblems,
      inFlight := true,
      lastProbeStartedAt := Some(now))
  }

  function RequestFor(h: InfoHash, st: TorrentState): ProbeBatchRequest {
    ProbeBatchRequest(h, st.probeEpoch, st.nextProbeFileIndex, PROBE_BATCH_MAX_FILES)
  }

  function Undispatched(st: TorrentState, now: Time): TorrentState {
    st.(inFlight := false, nextDueAt := now + DISPATCH_FAILURE_RETRY_INTERVAL)
  }

  /** The record and outcome after a result whose epoch is the current one. */
  function Answered(st: TorrentState, result: FileProbeBatchResult, now: Time): (TorrentState, ProbeBatchOutcome) {
    var received := st.(inFlight := false, lastProbeCompletedAt := Some(now));
    if result.pendingMetadata then
      (received.(
        pendingMetadata := true,
        nextProbeFileIndex := 0,
        sweepProblems := [],
        nextDueAt := now + PENDING_METADATA_RETRY_INTERVAL),
       PendingMetadata)
    else
      var problems := st.sweepProblems + result.problemFiles;
      if result.reachedEndOfManifest then
        var done := received.(
          pendingMetadata := false,
          hasCompletedProbe := true,
          lastFullProbeCompletedAt := Some(now),
          nextProbeFileIndex := 0,
          sweepProblems := [],
          availability := if problems == [] then Available else Unavailable);
        (done.(nextDueAt := now + done.FullProbeInterval()), CompletedSweep(problems))
      else
        (received.(
          pendingMetadata := false,
          sweepProblems := problems,
          nextProbeFileIndex := result.nextFileIndex,
          nextDueAt := now),
         SweepInProgress)
  }
}
