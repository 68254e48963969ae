/** The reducer: metrics of all torrents folded into histories and restrictions, with a cached
    time of the next reconnect to expire. */
module PeerReducer {
  import opened Common
  import opened Iteration
  import opened PeerPolicy
  import opened PeerHistory
  import opened PeerHistoryLaws

  const EXCESSIVE_TRANSFER_BLOCK_DURATION: int := 86_400_000_000_000
  const RECONNECT_BLOCK_DURATION: int := 7_200_000_000_000

  /** A peer as the metrics list it; `ip` is the address parsed from the endpoint, if it parses. */
  datatype PeerInfo = PeerInfo(address: string, ip: Option<IpAddr>, totals: Totals)

  datatype Metrics = Metrics(
    totalSize: nat,
    peers: seq<PeerInfo>,
    departed: seq<PeerInfo>,
    reconnectCounts: map<IpAddr, nat>)

  type Histories = map<IpAddr, History>

  datatype Reducer = Reducer(
    histories: map<InfoHash, Histories>,
    policy: Policy,
    nextExpiry: Option<Time>)

  // Grouping a listing by address.

  function MaxTotals(a: Totals, b: Totals): Totals {
    Totals(Max(a.downloaded, b.downloaded), Max(a.uploaded, b.uploaded),
           Max(a.connections, b.connections), Max(a.disconnects, b.disconnects))
  }

  function CollectOne(observed: map<IpAddr, Endpoints>, peer: PeerInfo): map<IpAddr, Endpoints> {
    if peer.ip.None? then observed
    else
      var key := NormalizeIp(peer.ip.value);
      var endpoints := if key in observed then observed[key] else map[];
      observed[key := endpoints[peer.address := MaxTotals(At(endpoints, peer.address), peer.totals)]]
  }

  function Collect(peers: seq<PeerInfo>): map<IpAddr, Endpoints> {
    if peers == [] then map[] else CollectOne(Collect(peers[..|peers| - 1]), peers[|peers| - 1])
  }

  function ActiveIps(peers: seq<PeerInfo>): set<IpAddr> {
    if peers == [] then {}
    else
      var last := peers[|peers| - 1];
      ActiveIps(peers[..|peers| - 1]) + if last.ip.Some? then {NormalizeIp(last.ip.value)} else {}
  }

  /** The raw address other than `key` itself that normalizes to `key`, if any. */
  function MappedForm(key: IpAddr): IpAddr {
    match key
    case V4(bits) => V6(MAPPED_PREFIX + bits)
    case V6(_) => key
  }

  function CountAt(counts: map<IpAddr, nat>, ip: IpAddr): nat {
    if ip in counts then counts[ip] else 0
  }

  /** The counts of a normalized address and of its mapped form, added up. */
  function TotalFor(counts: map<IpAddr, nat>, key: IpAddr): nat {
    if key.V4? && key.bits < V4_SPACE then SatAdd(CountAt(counts, key), CountAt(counts, MappedForm(key)))
    else SatAdd(0, CountAt(counts, key))
  }

  /** Reconnect counts per normalized address. */
  function ReconnectTotals(counts: map<IpAddr, nat>): map<IpAddr, nat> {
    map key | key in (set ip | ip in counts :: NormalizeIp(ip)) :: TotalFor(counts, key)
  }

  function InputFor(m: Metrics, ip: IpAddr): Input {
    var observed := Collect(m.peers + m.departed);
    var counts := ReconnectTotals(m.reconnectCounts);
    Input(if ip in observed then Some(observed[ip]) else None,
          if ip in counts then Some(counts[ip]) else None,
          ip in ActiveIps(m.peers))
  }

  lemma {:induction false} ActiveListed(peers: seq<PeerInfo>, more: seq<PeerInfo>)
    ensures ActiveIps(peers) <= Collect(peers + more).Keys
    decreases |peers| + |more|
  {
    if more != [] {
      assert (peers + more)[..|peers + more| - 1] == peers + more[..|more| - 1];
      ActiveListed(peers, more[..|more| - 1]);
    } else if peers != [] {
      assert peers + more == peers;
      ActiveListed(peers[..|peers| - 1], []);
      assert peers[..|peers| - 1] + [] == peers[..|peers| - 1];
    }
  }

  lemma InputsWellFormed(m: Metrics, ip: IpAddr)
    ensures WellFormed(InputFor(m, ip))
  {
    ActiveListed(m.peers, m.departed);
  }

  // Histories of one torrent.

  function HistoryAt(hs: Histories, ip: IpAddr): History {
    if ip in hs then hs[ip] else NEW_HISTORY
  }

  function Mentioned(hs: Histories, m: Metrics): set<IpAddr> {
    hs.Keys + ReconnectTotals(m.reconnectCounts).Keys + Collect(m.peers + m.departed).Keys
  }

  /** Every history after observing, before evidence is judged. */
  ghost function ObservedAll(hs: Histories, m: Metrics, now: Time): Histories {
    map ip | ip in Mentioned(hs, m) :: Observed(HistoryAt(hs, ip), InputFor(m, ip), now)
  }

  ghost function JudgedAll(hs: Histories, limit: nat): Histories {
    map ip | ip in hs :: Judged(hs[ip], limit)
  }

  // Restrictions, in the order the histories are visited.

  function BlockDuration(reason: Reason): int {
    if reason.ReconnectChurn? then RECONNECT_BLOCK_DURATION else EXCESSIVE_TRANSFER_BLOCK_DURATION
  }

  function RestrictionFor(reason: Reason, h: InfoHash, now: Time): Restriction {
    Restriction(now, now + BlockDuration(reason), Some(h), reason)
  }

  datatype Sentence = Sentence(ip: IpAddr, reason: Reason)

  function Sentences(hs: Histories, order: seq<IpAddr>, limit: nat): seq<Sentence> {
    if order == [] then []
    else
      var ip := order[|order| - 1];
      var rest := Sentences(hs, order[..|order| - 1], limit);
      if ip in hs && Verdict(hs[ip], limit).Some? then rest + [Sentence(ip, Verdict(hs[ip], limit).value)] else rest
  }

  ghost function RestrictEach(policy: Policy, sentences: seq<Sentence>, h: InfoHash, now: Time): Policy {
    if sentences == [] then policy
    else
      var last := sentences[|sentences| - 1];
      Restrict(RestrictEach(policy, sentences[..|sentences| - 1], h, now), last.ip,
               RestrictionFor(last.reason, h, now), MAX_POLICY_RESTRICTIONS)
  }

  // Expiry of reconnects.

  function Sooner(a: Option<Time>, b: Option<Time>): Option<Time> {
    match (a, b)
    case (None, _) => b
    case (_, None) => a
    case (Some(x), Some(y)) => Some(Min(x, y))
  }

  function FrontExpiry(h: History): Option<Time> {
    if h.reconnects == [] then None else Some(h.reconnects[0] + RECONNECT_WINDOW)
  }

  function ExpiryAlong(hs: Histories, order: seq<IpAddr>): Option<Time> {
    if order == [] then None
    else
      var ip := order[|order| - 1];
      var rest := ExpiryAlong(hs, order[..|order| - 1]);
      if ip in hs then Sooner(rest, FrontExpiry(hs[ip])) else rest
  }

  /** Reducing one torrent's metrics; `order` is the order its histories are visited in. */
  ghost function Reduce(s: Reducer, h: InfoHash, m: Metrics, now: Time, order: seq<IpAddr>): Reducer {
    var before := if h in s.histories then s.histories[h] else map[];
    var limit := TransferAbuseLimit(m.totalSize);
    var observed := ObservedAll(before, m, now);
    var judged := JudgedAll(observed, limit);
    Reducer(
      s.histories[h := judged],
      RestrictEach(s.policy, Sentences(observed, order, limit), h, now),
      Sooner(s.nextExpiry, ExpiryAlong(judged, order)))
  }

  ghost predicate VisitsAll(s: Reducer, h: InfoHash, m: Metrics, order: seq<IpAddr>) {
    IsOrderOf(order, Mentioned(if h in s.histories then s.histories[h] else map[], m))
  }

  /** Dropping stale histories, any set of evicted ones, and expired or surplus restrictions. */
  ghost function Maintain(s: Reducer, now: Time, evicted: set<(InfoHash, IpAddr)>): Reducer {
    var kept := map h | h in s.histories ::
      map ip | ip in s.histories[h] && !IsStale(s.histories[h][ip], now) && (h, ip) !in evicted :: s.histories[h][ip];
    Reducer(map h | h in kept && kept[h] != map[] :: kept[h],
            Retained(s.policy, now, MAX_POLICY_RESTRICTIONS), s.nextExpiry)
  }

  function PrunedHistories(hs: Histories, now: Time): Histories {
    map ip | ip in hs :: hs[ip].(reconnects := Prune(hs[ip].reconnects, now))
  }

  predicate StoredAt(histories: map<InfoHash, Histories>, h: InfoHash, ip: IpAddr, i: int) {
    h in histories && ip in histories[h] && 0 <= i < |histories[h][ip].reconnects|
  }

  /** `next` is the earliest time any stored reconnect leaves the window. */
  ghost predicate IsEarliestExpiry(histories: map<InfoHash, Histories>, next: Option<Time>) {
    && (next.None? <==> forall h, ip, i :: !StoredAt(histories, h, ip, i))
    && (next.Some? ==> exists h, ip, i :: StoredAt(histories, h, ip, i)
                         && next.value == histories[h][ip].reconnects[i] + RECONNECT_WINDOW)
    && (forall h, ip, i | StoredAt(histories, h, ip, i) ::
          next.Some? && next.value <= histories[h][ip].reconnects[i] + RECONNECT_WINDOW)
  }
}
