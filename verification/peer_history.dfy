/** Evidence about one address in one torrent, folded from cumulative per-endpoint counters. */
module PeerHistory {
  import opened Common
  import opened Iteration
  import opened Sums
  import opened PeerPolicy

  const RECONNECT_LIMIT: nat := 10
  const RECONNECT_WINDOW: int := 10_000_000_000
  const RECONNECT_WINDOW_SECS: nat := 10
  const HISTORY_RETENTION: int := 3_600_000_000_000
  const MIN_TRANSFER_ABUSE_BYTES: nat := 268_435_456
  const TRANSFER_ABUSE_MULTIPLIER: nat := 2

  /** A torrent's transfer limit per address: twice its size, at least 256 MiB. */
  function TransferAbuseLimit(totalSize: nat): nat {
    Max(if totalSize * TRANSFER_ABUSE_MULTIPLIER > U64_MAX then U64_MAX else totalSize * TRANSFER_ABUSE_MULTIPLIER,
        MIN_TRANSFER_ABUSE_BYTES)
  }

  /** Four counters of one endpoint, or lifetime sums of them. */
  datatype Totals = Totals(downloaded: nat, uploaded: nat, connections: nat, disconnects: nat)

  const NO_TOTALS := Totals(0, 0, 0, 0)

  type Endpoints = map<string, Totals>

  datatype History = History(
    seen: bool,
    present: bool,
    reconnectEventsSeen: nat,
    endpoints: Endpoints,
    downloadedEvidence: nat,
    uploadedEvidence: nat,
    lifetime: Totals,
    reconnects: seq<Time>,
    lastSeen: Option<Time>)

  const NEW_HISTORY := History(false, false, 0, map[], 0, 0, NO_TOTALS, [], None)

  datatype Counter = Downloaded | Uploaded | Connections | Disconnects

  function Get(t: Totals, c: Counter): nat {
    match c
    case Downloaded => t.downloaded
    case Uploaded => t.uploaded
    case Connections => t.connections
    case Disconnects => t.disconnects
  }

  function SatAddTotals(a: Totals, b: Totals): Totals {
    Totals(SatAdd(a.downloaded, b.downloaded), SatAdd(a.uploaded, b.uploaded),
           SatAdd(a.connections, b.connections), SatAdd(a.disconnects, b.disconnects))
  }

  /** A counter that went down was reset: everything it shows is new. */
  function Delta(now: nat, before: nat): nat {
    if now >= before then now - before else now
  }

  predicate AtLeast(a: Totals, b: Totals) {
    a.downloaded >= b.downloaded && a.uploaded >= b.uploaded
    && a.connections >= b.connections && a.disconnects >= b.disconnects
  }

  function At(endpoints: Endpoints, e: string): Totals {
    if e in endpoints then endpoints[e] else NO_TOTALS
  }

  /** What counter `c` of endpoint `e` adds when the listing goes from `before` to `now`. */
  function Gain(before: Endpoints, now: Endpoints, c: Counter, e: string): nat {
    if e in now then Delta(Get(now[e], c), Get(At(before, e), c)) else 0
  }

  function GainOf(before: Endpoints, now: Endpoints, c: Counter): string -> nat {
    e => Gain(before, now, c, e)
  }

  ghost function Gains(before: Endpoints, now: Endpoints, c: Counter): nat {
    Sum(GainOf(before, now, c), now.Keys)
  }

  /** What a listing adds to the lifetime counters. */
  ghost function AllGains(before: Endpoints, now: Endpoints): Totals {
    Totals(Gains(before, now, Downloaded), Gains(before, now, Uploaded),
           Gains(before, now, Connections), Gains(before, now, Disconnects))
  }

  // Observing.

  predicate Fresh(seenAt: Time, now: Time) {
    now - seenAt < RECONNECT_WINDOW
  }

  /** The reconnects younger than the window, in order. */
  function Prune(reconnects: seq<Time>, now: Time): seq<Time> {
    if reconnects == [] then []
    else
      var rest := Prune(reconnects[..|reconnects| - 1], now);
      var last := reconnects[|reconnects| - 1];
      if Fresh(last, now) then rest + [last] else rest
  }

  function EndpointsReplaced(h: History, endpoints: Endpoints): bool {
    h.present && h.endpoints != map[] && endpoints != map[] && h.endpoints.Keys !! endpoints.Keys
  }

  function CounterReset(h: History, endpoints: Endpoints): bool {
    h.present && exists e :: e in endpoints && e in h.endpoints && !AtLeast(endpoints[e], h.endpoints[e])
  }

  function InfersReconnect(h: History, endpoints: Endpoints, infer: bool, isPresent: bool): bool {
    isPresent && infer && h.seen && (!h.present || EndpointsReplaced(h, endpoints) || CounterReset(h, endpoints))
  }

  ghost function ObservedSnapshot(h: History, endpoints: Endpoints, now: Time, infer: bool, isPresent: bool): History {
    var gains := AllGains(h.endpoints, endpoints);
    h.(
      seen := true,
      present := isPresent,
      lastSeen := Some(now),
      reconnects := Prune(h.reconnects + (if InfersReconnect(h, endpoints, infer, isPresent) then [now] else []), now),
      downloadedEvidence := SatAdd(h.downloadedEvidence, gains.downloaded),
      uploadedEvidence := SatAdd(h.uploadedEvidence, gains.uploaded),
      lifetime := SatAddTotals(h.lifetime, gains),
      endpoints := endpoints)
  }

  function Repeat(t: Time, n: nat): seq<Time> {
    seq(n, _ => t)
  }

  function NewReconnects(h: History, cumulative: nat): nat {
    Delta(cumulative, h.reconnectEventsSeen)
  }

  function ObservedReconnects(h: History, cumulative: nat, now: Time): History {
    var kept := Prune(h.reconnects, now);
    var added := NewReconnects(h, cumulative);
    var available := SatSub(RECONNECT_LIMIT, |kept|);
    h.(
      reconnects := kept + Repeat(now, Min(added, available)),
      reconnectEventsSeen := cumulative,
      seen := h.seen || added > 0,
      lastSeen := if added > 0 then Some(now) else h.lastSeen)
  }

  function ObservedAbsence(h: History, now: Time): History {
    h.(present := false, endpoints := map[], reconnects := Prune(h.reconnects, now))
  }

  function Consumed(h: History): History {
    h.(downloadedEvidence := 0, uploadedEvidence := 0, reconnects := [])
  }

  predicate IsStale(h: History, now: Time) {
    !h.present && h.lastSeen.Some? && now - h.lastSeen.value >= HISTORY_RETENTION
  }

  /** What one reduction knows about an address: its listed endpoints if any, its cumulative
      reconnect count if any, and whether one of its endpoints is connected. */
  datatype Input = Input(endpoints: Option<Endpoints>, reconnects: Option<nat>, active: bool)

  ghost function Observed(h: History, input: Input, now: Time): History {
    var baseline := if input.reconnects.None? then h.(reconnectEventsSeen := 0) else h;
    var absent := if !input.active && input.endpoints.None? then ObservedAbsence(baseline, now) else baseline;
    var counted := if input.reconnects.Some? then ObservedReconnects(absent, input.reconnects.value, now) else absent;
    if input.endpoints.Some?
    then ObservedSnapshot(counted, input.endpoints.value, now, input.reconnects.None?, input.active)
    else counted
  }

  /** Why a history deserves a restriction, uploads before downloads before churn. */
  function Verdict(h: History, limit: nat): Option<Reason> {
    if h.uploadedEvidence > limit then Some(ExcessiveUpload(h.uploadedEvidence, limit))
    else if h.downloadedEvidence > limit then Some(ExcessiveDownload(h.downloadedEvidence, limit))
    else if |h.reconnects| >= RECONNECT_LIMIT then
      Some(ReconnectChurn(|h.reconnects|, RECONNECT_LIMIT, RECONNECT_WINDOW_SECS))
    else None
  }

  function Judged(h: History, limit: nat): History {
    if Verdict(h, limit).Some? then Consumed(h) else h
  }

  /** One reduction of one address. */
  ghost function Reduced(h: History, input: Input, now: Time, limit: nat): History {
    Judged(Observed(h, input, now), limit)
  }

  // Laws of pruning.

  lemma PruneConcat(a: seq<Time>, b: seq<Time>, now: Time)
    ensures Prune(a + b, now) == Prune(a, now) + Prune(b, now)
    decreases |b|
  {
    if b == [] {
      assert a + b == a;
    } else {
      assert (a + b)[..|a + b| - 1] == a + b[..|b| - 1];
      PruneConcat(a, b[..|b| - 1], now);
    }
  }

  /** Pruning later subsumes pruning earlier. */
  lemma {:induction false} PruneTwice(reconnects: seq<Time>, now: Time, later: Time)
    requires now <= later
    ensures Prune(Prune(reconnects, now), later) == Prune(reconnects, later)
    decreases |reconnects|
  {
    if reconnects != [] {
      var front := reconnects[..|reconnects| - 1];
      var last := reconnects[|reconnects| - 1];
      PruneTwice(front, now, later);
      PruneConcat(Prune(front, now), [last], later);
      assert [last][..0] == [];
      assert Prune([last], later) == if Fresh(last, later) then [last] else [];
    }
  }

  lemma {:induction false} PruneNow(now: Time, n: nat)
    ensures Prune(Repeat(now, n), now) == Repeat(now, n)
  {
    if n > 0 {
      assert Repeat(now, n)[..n - 1] == Repeat(now, n - 1);
      PruneNow(now, n - 1);
    }
  }

  lemma {:induction false} PruneFresh(reconnects: seq<Time>, now: Time)
    ensures |Prune(reconnects, now)| <= |reconnects|
    ensures forall i | 0 <= i < |Prune(reconnects, now)| :: Fresh(Prune(reconnects, now)[i], now)
    ensures forall t | t in Prune(reconnects, now) :: t in reconnects
    decreases |reconnects|
  {
    if reconnects != [] {
      PruneFresh(reconnects[..|reconnects| - 1], now);
    }
  }
}
