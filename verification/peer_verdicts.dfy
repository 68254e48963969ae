/** What a reduction decides, in bytes, clocks and addresses: what counts as evidence, who is
    restricted for it, and for how long. */
module PeerVerdicts {
  import opened Common
  import opened Iteration
  import opened Sums
  import opened PeerPolicy
  import opened PeerHistory
  import opened PeerHistoryLaws
  import opened PeerReducer
  import opened PeerReducerLaws
  import opened PeerReplay

  // Addresses.

  /** The form of an address that the tables use: an IPv4 address in IPv6 clothing is that address. */
  predicate SameAddress(ip: IpAddr, key: IpAddr) {
    if ip.V6? && 0xFFFF_0000_0000 <= ip.bits <= 0xFFFF_FFFF_FFFF then key == V4(ip.bits - 0xFFFF_0000_0000)
    else key == ip
  }

  /** An address is blocked exactly if the table holds a deadline in the future for its proper form. */
  lemma BlocksByAddress(policy: Policy, ip: IpAddr, key: IpAddr, now: Time)
    requires SameAddress(ip, key)
    ensures Blocks(policy, ip, now) <==> key in policy && now < policy[key].blockedUntil
  {
  }

  // Listings.

  /** A counter of a listing that is read off by `get`: what `key` shows at endpoint `address`. */
  function Shown(listing: map<IpAddr, Endpoints>, key: IpAddr, address: string, get: Totals -> nat): nat {
    if key in listing && address in listing[key] then get(listing[key][address]) else 0
  }

  predicate ListedAs(peer: PeerInfo, key: IpAddr, address: string) {
    peer.ip.Some? && SameAddress(peer.ip.value, key) && peer.address == address
  }

  /** A listing shows, per address and endpoint, the largest of each counter among the peers listed. */
  lemma {:induction false} CollectIsLargest(peers: seq<PeerInfo>, key: IpAddr, address: string)
    ensures (key in Collect(peers) && address in Collect(peers)[key]) <==>
              exists i :: 0 <= i < |peers| && ListedAs(peers[i], key, address)
    ensures LargestShown(peers, key, address, (t: Totals) => t.downloaded)
    ensures LargestShown(peers, key, address, (t: Totals) => t.uploaded)
    ensures LargestShown(peers, key, address, (t: Totals) => t.connections)
    ensures LargestShown(peers, key, address, (t: Totals) => t.disconnects)
    decreases |peers|
  {
    if peers != [] {
      var front, last := peers[..|peers| - 1], peers[|peers| - 1];
      assert peers == front + [last];
      CollectIsLargest(front, key, address);
      ListedSnoc(front, last, key, address);
      CollectedAt(front, last, key, address);
      LargestSnoc(front, last, key, address, (t: Totals) => t.downloaded);
      LargestSnoc(front, last, key, address, (t: Totals) => t.uploaded);
      LargestSnoc(front, last, key, address, (t: Totals) => t.connections);
      LargestSnoc(front, last, key, address, (t: Totals) => t.disconnects);
    }
  }

  ghost predicate LargestShown(peers: seq<PeerInfo>, key: IpAddr, address: string, get: Totals -> nat) {
    var shown := Shown(Collect(peers), key, address, get);
    && (forall i | 0 <= i < |peers| && ListedAs(peers[i], key, address) :: get(peers[i].totals) <= shown)
    && (shown > 0 ==> exists i :: 0 <= i < |peers| && ListedAs(peers[i], key, address) && get(peers[i].totals) == shown)
  }

  lemma ListedSnoc(front: seq<PeerInfo>, last: PeerInfo, key: IpAddr, address: string)
    ensures (exists i :: 0 <= i < |front + [last]| && ListedAs((front + [last])[i], key, address)) <==>
              (exists i :: 0 <= i < |front| && ListedAs(front[i], key, address)) || ListedAs(last, key, address)
  {
    var all := front + [last];
    assert forall i | 0 <= i < |front| :: all[i] == front[i];
    assert all[|front|] == last;
  }

  /** What one more peer does to the listing. */
  lemma CollectedAt(front: seq<PeerInfo>, last: PeerInfo, key: IpAddr, address: string)
    ensures
      var before, after := Collect(front), Collect(front + [last]);
      && (key in after && address in after[key] <==>
            (key in before && address in before[key]) || ListedAs(last, key, address))
      && (ListedAs(last, key, address) ==>
            after[key][address] == MaxTotals(At(if key in before then before[key] else map[], address), last.totals))
      && (!ListedAs(last, key, address) && key in before && address in before[key] ==>
            after[key][address] == before[key][address])
  {
    assert (front + [last])[..|front|] == front;
  }

  lemma LargestSnoc(front: seq<PeerInfo>, last: PeerInfo, key: IpAddr, address: string, get: Totals -> nat)
    requires LargestShown(front, key, address, get)
    requires
      var before, after := Shown(Collect(front), key, address, get), Shown(Collect(front + [last]), key, address, get);
      after == if ListedAs(last, key, address) then Max(before, get(last.totals)) else before
    ensures LargestShown(front + [last], key, address, get)
  {
    var all := front + [last];
    assert forall i | 0 <= i < |front| :: all[i] == front[i];
    assert all[|front|] == last;
  }

  /** An address is active exactly if a connected peer has it. */
  lemma {:induction false} ActiveExactly(peers: seq<PeerInfo>, key: IpAddr)
    ensures key in ActiveIps(peers) <==>
              exists i :: 0 <= i < |peers| && peers[i].ip.Some? && SameAddress(peers[i].ip.value, key)
    decreases |peers|
  {
    if peers != [] {
      var front, last := peers[..|peers| - 1], peers[|peers| - 1];
      ActiveExactly(front, key);
      assert forall i | 0 <= i < |front| :: peers[i] == front[i];
      if i :| 0 <= i < |peers| && peers[i].ip.Some? && SameAddress(peers[i].ip.value, key) {
        assert i < |front| ==> front[i] == peers[i];
      }
    }
  }

  /** A reconnect count of an IPv4 address adds up its two forms; of any other address it is its own. */
  lemma CountsAddUp(counts: map<IpAddr, nat>, key: IpAddr)
    requires NormalizeIp(key) == key
    ensures
      var totals := ReconnectTotals(counts);
      var mapped := key.V4? && key.bits <= 0xFFFF_FFFF && V6(0xFFFF_0000_0000 + key.bits) in counts;
      && (key in totals <==> key in counts || mapped)
      && (key in totals ==>
            totals[key] == SatAdd(if key in counts then counts[key] else 0,
                                  if mapped then counts[V6(0xFFFF_0000_0000 + key.bits)] else 0))
  {
    var forms := set ip | ip in counts :: NormalizeIp(ip);
    if key in counts {
      assert NormalizeIp(key) in forms;
    }
    if key.V4? && V6(0xFFFF_0000_0000 + key.bits) in counts {
      assert NormalizeIp(V6(0xFFFF_0000_0000 + key.bits)) in forms;
    }
  }

  /** What a reduction knows about an address: its endpoints if a connected or departed peer has it, and
      whether a connected one does. */
  lemma InputTells(m: Metrics, ip: IpAddr)
    ensures InputFor(m, ip).active <==>
              exists i :: 0 <= i < |m.peers| && m.peers[i].ip.Some? && SameAddress(m.peers[i].ip.value, ip)
    ensures InputFor(m, ip).endpoints ==
            (if ip in Collect(m.peers + m.departed) then Some(Collect(m.peers + m.departed)[ip]) else None)
    ensures InputFor(m, ip).reconnects ==
            (if ip in ReconnectTotals(m.reconnectCounts) then Some(ReconnectTotals(m.reconnectCounts)[ip]) else None)
  {
    ActiveExactly(m.peers, ip);
  }

  // Evidence.

  /** What an endpoint has added since it was last listed; a counter that fell started over. */
  function AddedAt(before: Endpoints, now: Endpoints, get: Totals -> nat, e: string): nat {
    if e !in now then 0
    else if e in before && get(now[e]) >= get(before[e]) then get(now[e]) - get(before[e])
    else get(now[e])
  }

  ghost function Added(before: Endpoints, now: Endpoints, get: Totals -> nat): nat {
    Sum(e => AddedAt(before, now, get, e), now.Keys)
  }

  lemma {:induction false} SumSame<K>(f: K -> nat, g: K -> nat, keys: set<K>)
    requires forall k | k in keys :: f(k) == g(k)
    ensures Sum(f, keys) == Sum(g, keys)
    decreases keys
  {
    if keys != {} {
      var k :| k in keys;
      SumSplit(f, keys, k);
      SumSplit(g, keys, k);
      SumSame(f, g, keys - {k});
    }
  }

  lemma GainsAdded(before: Endpoints, now: Endpoints)
    ensures Gains(before, now, Downloaded) == Added(before, now, (t: Totals) => t.downloaded)
    ensures Gains(before, now, Uploaded) == Added(before, now, (t: Totals) => t.uploaded)
    ensures Gains(before, now, Connections) == Added(before, now, (t: Totals) => t.connections)
    ensures Gains(before, now, Disconnects) == Added(before, now, (t: Totals) => t.disconnects)
  {
    SumSame(GainOf(before, now, Downloaded), e => AddedAt(before, now, (t: Totals) => t.downloaded, e), now.Keys);
    SumSame(GainOf(before, now, Uploaded), e => AddedAt(before, now, (t: Totals) => t.uploaded, e), now.Keys);
    SumSame(GainOf(before, now, Connections), e => AddedAt(before, now, (t: Totals) => t.connections, e), now.Keys);
    SumSame(GainOf(before, now, Disconnects), e => AddedAt(before, now, (t: Totals) => t.disconnects, e), now.Keys);
  }

  /** A listing adds what its endpoints have added since to the evidence and to the lifetime
      counters; without a listing neither changes. */
  lemma ListingAdds(h: History, input: Input, now: Time)
    ensures
      var after := Observed(h, input, now);
      if input.endpoints.None? then
        && after.uploadedEvidence == h.uploadedEvidence && after.downloadedEvidence == h.downloadedEvidence
        && after.lifetime == h.lifetime
      else
        var listed := input.endpoints.value;
        && after.uploadedEvidence == SatAdd(h.uploadedEvidence, Added(h.endpoints, listed, (t: Totals) => t.uploaded))
        && after.downloadedEvidence ==
             SatAdd(h.downloadedEvidence, Added(h.endpoints, listed, (t: Totals) => t.downloaded))
        && after.lifetime.uploaded == SatAdd(h.lifetime.uploaded, Added(h.endpoints, listed, (t: Totals) => t.uploaded))
        && after.lifetime.downloaded ==
             SatAdd(h.lifetime.downloaded, Added(h.endpoints, listed, (t: Totals) => t.downloaded))
        && after.lifetime.connections ==
             SatAdd(h.lifetime.connections, Added(h.endpoints, listed, (t: Totals) => t.connections))
        && after.lifetime.disconnects ==
             SatAdd(h.lifetime.disconnects, Added(h.endpoints, listed, (t: Totals) => t.disconnects))
  {
    if input.endpoints.Some? {
      GainsAdded(h.endpoints, input.endpoints.value);
    }
  }

  // Reconnects.

  /** Every endpoint is new, though there were some before and are some now. */
  predicate AllReplaced(before: Endpoints, now: Endpoints) {
    before != map[] && now != map[] && forall e | e in now :: e !in before
  }

  predicate SomeCounterFell(before: Endpoints, now: Endpoints) {
    exists e :: e in before && e in now &&
                (|| now[e].downloaded < before[e].downloaded || now[e].uploaded < before[e].uploaded
                 || now[e].connections < before[e].connections || now[e].disconnects < before[e].disconnects)
  }

  lemma InferredMeans(h: History, endpoints: Endpoints)
    ensures InfersReconnect(h, endpoints, true, true) <==>
              h.seen && (!h.present || AllReplaced(h.endpoints, endpoints) || SomeCounterFell(h.endpoints, endpoints))
  {
    if AllReplaced(h.endpoints, endpoints) {
      assert h.endpoints.Keys !! endpoints.Keys;
    }
    if SomeCounterFell(h.endpoints, endpoints) {
      var e :| e in h.endpoints && e in endpoints &&
               (|| endpoints[e].downloaded < h.endpoints[e].downloaded
                || endpoints[e].uploaded < h.endpoints[e].uploaded
                || endpoints[e].connections < h.endpoints[e].connections
                || endpoints[e].disconnects < h.endpoints[e].disconnects);
      assert !AtLeast(endpoints[e], h.endpoints[e]);
    }
    if CounterReset(h, endpoints) {
      var e :| e in endpoints && e in h.endpoints && !AtLeast(endpoints[e], h.endpoints[e]);
      assert e in h.endpoints && e in endpoints;
    }
  }

  /** Two reductions in a row, the second without a reconnect count but with the address connected: one
      reconnect is inferred if and only if it was seen before - listed, or counted as reconnecting - and
      had gone, or came back with other endpoints only, or with a counter that fell. */
  lemma ReconnectInferredExactly(h: History, r: Reduction, next: Input, later: Time)
    requires WellFormed(r.input) && next.reconnects == None && next.active && next.endpoints.Some?
    ensures
      var first := Reduced(h, r.input, r.now, r.limit);
      var counted := r.input.reconnects.Some? && r.input.reconnects.value != h.reconnectEventsSeen
                     && r.input.reconnects.value > 0;
      var seen := h.seen || r.input.endpoints.Some? || counted;
      var shown := if r.input.endpoints.Some? then r.input.endpoints.value else map[];
      var back := seen && (|| !r.input.active || AllReplaced(shown, next.endpoints.value)
                           || SomeCounterFell(shown, next.endpoints.value));
      Observed(first, next, later).reconnects == Prune(first.reconnects + (if back then [later] else []), later)
  {
    var first := Reduced(h, r.input, r.now, r.limit);
    InferredMeans(first, next.endpoints.value);
  }

  /** A stored reconnect stays for less than ten seconds. */
  lemma {:induction false} PruneExactly(reconnects: seq<Time>, now: Time, t: Time)
    ensures t in Prune(reconnects, now) <==> t in reconnects && now - t < 10_000_000_000
    decreases |reconnects|
  {
    if reconnects != [] {
      var front, last := reconnects[..|reconnects| - 1], reconnects[|reconnects| - 1];
      PruneExactly(front, now, t);
      assert reconnects == front + [last];
    }
  }

  /** Maintenance keeps a history unless it is evicted, or the address has left and was last seen an
      hour ago. */
  lemma HistoryKeptExactly(s: Reducer, now: Time, evicted: set<(InfoHash, IpAddr)>, h: InfoHash, ip: IpAddr)
    requires h in s.histories && ip in s.histories[h]
    ensures
      var history := s.histories[h][ip];
      var after := Maintain(s, now, evicted).histories;
      var forgotten :=
        !history.present && history.lastSeen.Some? && now >= history.lastSeen.value + 3_600_000_000_000;
      && (h in after && ip in after[h] <==> !forgotten && (h, ip) !in evicted)
      && (h in after && ip in after[h] ==> after[h][ip] == history)
  {
    var kept := map ip | ip in s.histories[h] && !IsStale(s.histories[h][ip], now) && (h, ip) !in evicted ::
      s.histories[h][ip];
    assert ip in kept ==> kept != map[];
  }

  // Verdicts.

  /** More than 256 MiB, and more than twice the size of the torrent. */
  predicate Excessive(bytes: nat, totalSize: nat) {
    bytes > 268_435_456 && bytes > 2 * totalSize
  }

  lemma LimitExactly(bytes: nat, totalSize: nat)
    requires bytes <= U64_MAX
    ensures bytes > TransferAbuseLimit(totalSize) <==> Excessive(bytes, totalSize)
  {
  }

  /** The evidence a reduction sees about `ip`. */
  ghost function Seen(s: Reducer, h: InfoHash, m: Metrics, now: Time, ip: IpAddr): History {
    Observed(HistoryAt(HistoriesOf(s, h), ip), InputFor(m, ip), now)
  }

  ghost predicate Heavy(s: Reducer, h: InfoHash, m: Metrics, now: Time, ip: IpAddr) {
    var seen := Seen(s, h, m, now, ip);
    Excessive(seen.uploadedEvidence, m.totalSize) || Excessive(seen.downloadedEvidence, m.totalSize)
  }

  ghost predicate Churning(s: Reducer, h: InfoHash, m: Metrics, now: Time, ip: IpAddr) {
    |Seen(s, h, m, now, ip).reconnects| >= 10
  }

  /** Histories are kept under proper addresses, with counters of 64 bits. */
  ghost predicate Proper(s: Reducer, h: InfoHash) {
    forall ip | ip in HistoriesOf(s, h) ::
      && SameAddress(ip, ip)
      && HistoriesOf(s, h)[ip].uploadedEvidence <= U64_MAX && HistoriesOf(s, h)[ip].downloadedEvidence <= U64_MAX
  }

  /** The table has room for every address the reduction knows. */
  ghost predicate Room(s: Reducer, h: InfoHash, m: Metrics) {
    |s.policy.Keys + Mentioned(HistoriesOf(s, h), m)| <= 1_000_000
  }

  lemma MentionedProper(s: Reducer, h: InfoHash, m: Metrics, ip: IpAddr)
    requires Proper(s, h) && ip in Mentioned(HistoriesOf(s, h), m)
    ensures NormalizeIp(ip) == ip
  {
    if ip in ReconnectTotals(m.reconnectCounts) {
      var j :| j in m.reconnectCounts && NormalizeIp(j) == ip;
    } else if ip in Collect(m.peers + m.departed) {
      CollectedProper(m.peers + m.departed, ip);
    }
  }

  lemma {:induction false} CollectedProper(peers: seq<PeerInfo>, ip: IpAddr)
    requires ip in Collect(peers)
    ensures NormalizeIp(ip) == ip
    decreases |peers|
  {
    var front := peers[..|peers| - 1];
    if ip in Collect(front) {
      CollectedProper(front, ip);
    }
  }

  /** An entry of torrent `h` that starts now and ends `until`, unless one is there that ends no
      earlier. */
  predicate Longer(before: Policy, after: Policy, ip: IpAddr, h: InfoHash, now: Time, until: Time, why: Reason) {
    && ip in after
    && after[ip] == if ip in before && before[ip].blockedUntil >= until then before[ip]
                    else Restriction(now, until, Some(h), why)
  }

  predicate SameEntry(before: Policy, after: Policy, ip: IpAddr) {
    (ip in after <==> ip in before) && (ip in after ==> after[ip] == before[ip])
  }

  /** Restricting some addresses in a table with room: each gets its entry, the others keep theirs. */
  lemma {:induction false} RestrictEachAt(
    policy: Policy, sentences: seq<Sentence>, h: InfoHash, now: Time, keys: set<IpAddr>, ip: IpAddr)
    requires policy.Keys <= keys && |keys| <= 1_000_000
    requires forall i | 0 <= i < |sentences| ::
               sentences[i].ip in keys && NormalizeIp(sentences[i].ip) == sentences[i].ip
    requires forall i, j | 0 <= i < j < |sentences| :: sentences[i].ip != sentences[j].ip
    ensures
      var after := RestrictEach(policy, sentences, h, now);
      && after.Keys <= keys
      && (forall i | 0 <= i < |sentences| && sentences[i].ip == ip ::
            Longer(policy, after, ip, h, now,
                   now + (if sentences[i].reason.ReconnectChurn? then 7_200_000_000_000 else 86_400_000_000_000),
                   sentences[i].reason))
      && ((forall i | 0 <= i < |sentences| :: sentences[i].ip != ip) ==> SameEntry(policy, after, ip))
    decreases |sentences|
  {
    if sentences != [] {
      var front, last := sentences[..|sentences| - 1], sentences[|sentences| - 1];
      RestrictEachAt(policy, front, h, now, keys, ip);
      RestrictEachAt(policy, front, h, now, keys, last.ip);
      var before := RestrictEach(policy, front, h, now);
      assert forall i | 0 <= i < |front| :: front[i] == sentences[i];
      RestrictWithRoom(before, last.ip, RestrictionFor(last.reason, h, now), keys, ip);
    }
  }

  lemma RestrictWithRoom(policy: Policy, key: IpAddr, r: Restriction, keys: set<IpAddr>, ip: IpAddr)
    requires policy.Keys <= keys && key in keys && |keys| <= 1_000_000 && NormalizeIp(key) == key
    ensures
      var after := Restrict(policy, key, r, MAX_POLICY_RESTRICTIONS);
      && after.Keys <= keys
      && (ip != key ==> SameEntry(policy, after, ip))
      && key in after
      && after[key] == if key in policy && policy[key].blockedUntil >= r.blockedUntil then policy[key] else r
  {
    if key !in policy {
      SubsetCard(policy.Keys, keys - {key});
    }
  }

  lemma {:induction false} SentenceAt(hs: Histories, order: seq<IpAddr>, limit: nat, i: nat)
    requires i < |Sentences(hs, order, limit)|
    ensures
      var x := Sentences(hs, order, limit)[i];
      x.ip in order && x.ip in hs && Verdict(hs[x.ip], limit) == Some(x.reason)
    decreases |order|
  {
    var front, last := order[..|order| - 1], order[|order| - 1];
    assert order == front + [last];
    if i < |Sentences(hs, front, limit)| {
      SentenceAt(hs, front, limit, i);
    }
  }

  lemma {:induction false} SentencesDistinct(hs: Histories, order: seq<IpAddr>, limit: nat, i: nat, j: nat)
    requires forall k, l | 0 <= k < l < |order| :: order[k] != order[l]
    requires i < j < |Sentences(hs, order, limit)|
    ensures Sentences(hs, order, limit)[i].ip != Sentences(hs, order, limit)[j].ip
    decreases |order|
  {
    var front, last := order[..|order| - 1], order[|order| - 1];
    if j < |Sentences(hs, front, limit)| {
      SentencesDistinct(hs, front, limit, i, j);
    } else {
      SentenceAt(hs, front, limit, i);
      assert last !in front;
    }
  }

  /** The larger of 256 MiB and twice the size, within 64 bits. */
  function LimitFor(totalSize: nat): nat {
    if 2 * totalSize <= 268_435_456 then 268_435_456
    else if 2 * totalSize <= U64_MAX then 2 * totalSize
    else U64_MAX
  }

  /** The reason on file: uploads before downloads before reconnects. */
  function Why(seen: History, totalSize: nat): Reason {
    if Excessive(seen.uploadedEvidence, totalSize) then ExcessiveUpload(seen.uploadedEvidence, LimitFor(totalSize))
    else if Excessive(seen.downloadedEvidence, totalSize) then
      ExcessiveDownload(seen.downloadedEvidence, LimitFor(totalSize))
    else ReconnectChurn(|seen.reconnects|, 10, 10)
  }

  lemma EvidenceBounded(h: History, input: Input, now: Time)
    requires h.uploadedEvidence <= U64_MAX && h.downloadedEvidence <= U64_MAX
    ensures Observed(h, input, now).uploadedEvidence <= U64_MAX && Observed(h, input, now).downloadedEvidence <= U64_MAX
  {
  }

  lemma VerdictMeans(s: Reducer, h: InfoHash, m: Metrics, now: Time, ip: IpAddr)
    requires Proper(s, h)
    ensures Verdict(Seen(s, h, m, now, ip), TransferAbuseLimit(m.totalSize)) ==
            if Heavy(s, h, m, now, ip) || Churning(s, h, m, now, ip)
            then Some(Why(Seen(s, h, m, now, ip), m.totalSize)) else None
  {
    EvidenceBounded(HistoryAt(HistoriesOf(s, h), ip), InputFor(m, ip), now);
    var seen := Seen(s, h, m, now, ip);
    LimitExactly(seen.uploadedEvidence, m.totalSize);
    LimitExactly(seen.downloadedEvidence, m.totalSize);
  }

  /** A sentence of a reduction is for an address it knows, with the reason it has. */
  ghost predicate Justified(s: Reducer, h: InfoHash, m: Metrics, now: Time, x: Sentence) {
    && x.ip in Mentioned(HistoriesOf(s, h), m) && NormalizeIp(x.ip) == x.ip
    && Verdict(Seen(s, h, m, now, x.ip), TransferAbuseLimit(m.totalSize)) == Some(x.reason)
  }

  lemma SentenceJustified(s: Reducer, h: InfoHash, m: Metrics, now: Time, order: seq<IpAddr>, i: nat)
    requires VisitsAll(s, h, m, order) && Proper(s, h)
    requires i < |Sentences(ObservedAll(HistoriesOf(s, h), m, now), order, TransferAbuseLimit(m.totalSize))|
    ensures Justified(s, h, m, now,
                      Sentences(ObservedAll(HistoriesOf(s, h), m, now), order, TransferAbuseLimit(m.totalSize))[i])
  {
    var observed := ObservedAll(HistoriesOf(s, h), m, now);
    var limit := TransferAbuseLimit(m.totalSize);
    SentenceAt(observed, order, limit, i);
    MentionedProper(s, h, m, Sentences(observed, order, limit)[i].ip);
  }

  lemma SentencesOf(s: Reducer, h: InfoHash, m: Metrics, now: Time, order: seq<IpAddr>)
    returns (ss: seq<Sentence>)
    requires VisitsAll(s, h, m, order) && Proper(s, h)
    ensures ss == Sentences(ObservedAll(HistoriesOf(s, h), m, now), order, TransferAbuseLimit(m.totalSize))
    ensures forall i | 0 <= i < |ss| :: Justified(s, h, m, now, ss[i])
    ensures forall i, j | 0 <= i < j < |ss| :: ss[i].ip != ss[j].ip
  {
    var observed := ObservedAll(HistoriesOf(s, h), m, now);
    var limit := TransferAbuseLimit(m.totalSize);
    ss := Sentences(observed, order, limit);
    forall i | 0 <= i < |ss|
      ensures Justified(s, h, m, now, ss[i])
    {
      SentenceJustified(s, h, m, now, order, i);
    }
    forall i, j | 0 <= i < j < |ss|
      ensures ss[i].ip != ss[j].ip
    {
      SentencesDistinct(observed, order, limit, i, j);
    }
  }

  /** An address gets a sentence exactly if it is known and has a reason. */
  lemma SentenceFor(s: Reducer, h: InfoHash, m: Metrics, now: Time, order: seq<IpAddr>, ss: seq<Sentence>, ip: IpAddr)
    requires VisitsAll(s, h, m, order)
    requires ss == Sentences(ObservedAll(HistoriesOf(s, h), m, now), order, TransferAbuseLimit(m.totalSize))
    ensures (exists i :: 0 <= i < |ss| && ss[i].ip == ip) <==>
              ip in Mentioned(HistoriesOf(s, h), m)
              && Verdict(Seen(s, h, m, now, ip), TransferAbuseLimit(m.totalSize)).Some?
  {
    var observed := ObservedAll(HistoriesOf(s, h), m, now);
    SentencedIff(observed, order, TransferAbuseLimit(m.totalSize), ip);
    assert ip in order <==> ip in Mentioned(HistoriesOf(s, h), m);
  }

  /** What a verdict does to the entry of its address. */
  predicate Taken(before: Policy, after: Policy, ip: IpAddr, h: InfoHash, now: Time, verdict: Option<Reason>) {
    match verdict
    case Some(why) =>
      Longer(before, after, ip, h, now, now + (if why.ReconnectChurn? then 7_200_000_000_000 else 86_400_000_000_000),
             why)
    case None => SameEntry(before, after, ip)
  }

  /** What justified sentences do to the entry of one address. */
  lemma SentencesTake(s: Reducer, h: InfoHash, m: Metrics, now: Time, ss: seq<Sentence>, ip: IpAddr)
    requires Room(s, h, m) && forall i | 0 <= i < |ss| :: Justified(s, h, m, now, ss[i])
    requires forall i, j | 0 <= i < j < |ss| :: ss[i].ip != ss[j].ip
    ensures
      var verdict := Verdict(Seen(s, h, m, now, ip), TransferAbuseLimit(m.totalSize));
      Taken(s.policy, RestrictEach(s.policy, ss, h, now), ip, h, now,
            if exists i :: 0 <= i < |ss| && ss[i].ip == ip then verdict else None)
  {
    var keys := s.policy.Keys + Mentioned(HistoriesOf(s, h), m);
    assert forall i | 0 <= i < |ss| :: Justified(s, h, m, now, ss[i]) && ss[i].ip in keys;
    RestrictEachAt(s.policy, ss, h, now, keys, ip);
  }

  lemma ReduceTakes(s: Reducer, h: InfoHash, m: Metrics, now: Time, order: seq<IpAddr>, ip: IpAddr)
    requires VisitsAll(s, h, m, order) && Proper(s, h) && Room(s, h, m)
    ensures
      var verdict := Verdict(Seen(s, h, m, now, ip), TransferAbuseLimit(m.totalSize));
      Taken(s.policy, Reduce(s, h, m, now, order).policy, ip, h, now,
            if ip in Mentioned(HistoriesOf(s, h), m) then verdict else None)
  {
    var ss := SentencesOf(s, h, m, now, order);
    assert Reduce(s, h, m, now, order).policy == RestrictEach(s.policy, ss, h, now);
    SentenceFor(s, h, m, now, order, ss, ip);
    SentencesTake(s, h, m, now, ss, ip);
  }

  /** A reduction in a table with room. An address with excessive transfers is blocked for the next
      24 hours, one that only reconnected too often for the next two, each unless it was blocked for
      longer already. Every other address keeps its entry or its absence. */
  lemma ReduceRestrictsExactly(
    s: Reducer, h: InfoHash, m: Metrics, now: Time, order: seq<IpAddr>, ip: IpAddr)
    requires VisitsAll(s, h, m, order) && Proper(s, h) && Room(s, h, m)
    ensures
      var after := Reduce(s, h, m, now, order).policy;
      var known := ip in Mentioned(HistoriesOf(s, h), m);
      var why := Why(Seen(s, h, m, now, ip), m.totalSize);
      if known && Heavy(s, h, m, now, ip) then Longer(s.policy, after, ip, h, now, now + 86_400_000_000_000, why)
      else if known && Churning(s, h, m, now, ip) then Longer(s.policy, after, ip, h, now, now + 7_200_000_000_000, why)
      else SameEntry(s.policy, after, ip)
  {
    ReduceTakes(s, h, m, now, order, ip);
    VerdictMeans(s, h, m, now, ip);
  }

  /** The same, as callers see it: who is blocked when. */
  lemma ReduceBlocksExactly(
    s: Reducer, h: InfoHash, m: Metrics, now: Time, order: seq<IpAddr>, ip: IpAddr, t: Time)
    requires VisitsAll(s, h, m, order) && Proper(s, h) && Room(s, h, m) && SameAddress(ip, ip)
    ensures
      var after := Reduce(s, h, m, now, order).policy;
      var known := ip in Mentioned(HistoriesOf(s, h), m);
      Blocks(after, ip, t) <==>
        || Blocks(s.policy, ip, t)
        || (known && Heavy(s, h, m, now, ip) && t < now + 86_400_000_000_000)
        || (known && Churning(s, h, m, now, ip) && t < now + 7_200_000_000_000)
  {
    ReduceRestrictsExactly(s, h, m, now, order, ip);
  }

  // Keeping to the bound, and to what is live.

  /** The order of addresses: IPv4 before IPv6, then by number. */
  predicate LowerAddress(a: IpAddr, b: IpAddr) {
    match (a, b)
    case (V4(_), V6(_)) => true
    case (V6(_), V4(_)) => false
    case (V4(x), V4(y)) => x < y
    case (V6(x), V6(y)) => x < y
  }

  /** `first` ends before every other entry; of those that end together it has the lowest address. */
  predicate EndsFirst(policy: Policy, first: IpAddr) {
    && first in policy
    && forall j | j in policy && j != first ::
         || policy[first].blockedUntil < policy[j].blockedUntil
         || (policy[first].blockedUntil == policy[j].blockedUntil && LowerAddress(first, j))
  }

  /** A full table makes room for a new address by giving up the entry that ends first, unless that one
      ends no earlier than the new one would. */
  lemma FullTableGivesUpFirst(policy: Policy, ip: IpAddr, r: Restriction, max: nat, first: IpAddr)
    requires SameAddress(ip, ip) && ip !in policy && |policy| >= max && EndsFirst(policy, first)
    ensures Restrict(policy, ip, r, max) ==
            if policy[first].blockedUntil >= r.blockedUntil then policy
            else map j | j in policy.Keys + {ip} && j != first :: if j == ip then r else policy[j]
  {
    assert IsSoonest(policy, first);
    SoonestUnique(policy, first, Soonest(policy));
  }

  lemma RestrictBounded(policy: Policy, ip: IpAddr, r: Restriction, max: nat)
    requires |policy| <= max
    ensures |Restrict(policy, ip, r, max)| <= max
  {
    var key := NormalizeIp(ip);
    PutSize(policy, key, r);
    if policy != map[] {
      var rest := policy - {Soonest(policy)};
      RemoveOne(policy, Soonest(policy));
      PutSize(rest, key, r);
    }
  }

  lemma PutSize(policy: Policy, key: IpAddr, r: Restriction)
    ensures |policy[key := r]| == |policy| + (if key in policy then 0 else 1)
  {
    assert policy[key := r].Keys == policy.Keys + {key};
    assert key in policy ==> policy.Keys + {key} == policy.Keys;
    assert |policy[key := r].Keys| == |policy[key := r]| && |policy.Keys| == |policy|;
  }

  lemma {:induction false} RestrictEachBounded(policy: Policy, ss: seq<Sentence>, h: InfoHash, now: Time)
    requires |policy| <= 1_000_000
    ensures |RestrictEach(policy, ss, h, now)| <= 1_000_000
    decreases |ss|
  {
    if ss != [] {
      var front, last := ss[..|ss| - 1], ss[|ss| - 1];
      RestrictEachBounded(policy, front, h, now);
      RestrictBounded(RestrictEach(policy, front, h, now), last.ip, RestrictionFor(last.reason, h, now), 1_000_000);
    }
  }

  /** Maintenance keeps exactly the restrictions that are still live - of more than a million, those
      that end last, ties by address - and no torrent without histories. */
  lemma MaintainKeepsLive(s: Reducer, now: Time, evicted: set<(InfoHash, IpAddr)>)
    ensures
      var before, after := s.policy, Maintain(s, now, evicted).policy;
      var live := set ip | ip in before && before[ip].blockedUntil > now;
      && |after| == (if |live| <= 1_000_000 then |live| else 1_000_000)
      && (forall ip | ip in after :: ip in live && after[ip] == before[ip])
      && (|live| <= 1_000_000 ==> after.Keys == live)
      && (forall ip, j | ip in live && ip !in after && j in after ::
            || before[ip].blockedUntil < before[j].blockedUntil
            || (before[ip].blockedUntil == before[j].blockedUntil && LowerAddress(ip, j)))
    ensures forall h | h in Maintain(s, now, evicted).histories :: Maintain(s, now, evicted).histories[h] != map[]
  {
    RetainedKeepsLive(s.policy, now);
  }

  lemma RetainedKeepsLive(before: Policy, now: Time)
    ensures
      var after := Retained(before, now, 1_000_000);
      var live := set ip | ip in before && before[ip].blockedUntil > now;
      && |after| == (if |live| <= 1_000_000 then |live| else 1_000_000)
      && (forall ip | ip in after :: ip in live && after[ip] == before[ip])
      && (|live| <= 1_000_000 ==> after.Keys == live)
      && (forall ip, j | ip in live && ip !in after && j in after ::
            || before[ip].blockedUntil < before[j].blockedUntil
            || (before[ip].blockedUntil == before[j].blockedUntil && LowerAddress(ip, j)))
  {
    var live := set ip | ip in before && before[ip].blockedUntil > now;
    assert Live(before, now).Keys == live;
    var after := Retained(before, now, 1_000_000);
    if |live| <= 1_000_000 {
      SubsetCard(after.Keys, live);
    }
    forall ip, j | ip in live && ip !in after && j in after
      ensures || before[ip].blockedUntil < before[j].blockedUntil
              || (before[ip].blockedUntil == before[j].blockedUntil && LowerAddress(ip, j))
    {
      assert PeerPolicy.Sooner(Live(before, now), ip, j);
    }
  }

  /** No event makes the table larger than a million. */
  lemma StepBounded(s: Reducer, e: ReducerEvent, after: Reducer)
    requires StepsTo(s, e, after) && |s.policy| <= 1_000_000
    ensures |after.policy| <= 1_000_000
  {
    match e {
      case ReduceEvent(h, m, now, order) =>
        var limit := TransferAbuseLimit(m.totalSize);
        RestrictEachBounded(s.policy, Sentences(ObservedAll(HistoriesOf(s, h), m, now), order, limit), h, now);
      case MaintainEvent(now, evicted) => MaintainKeepsLive(s, now, evicted);
      case _ =>
    }
  }

  /** After a reduction the cached time is the one before it, or ten seconds after a stored reconnect. */
  lemma CacheIsSomeExpiry(s: Reducer, h: InfoHash, m: Metrics, now: Time, order: seq<IpAddr>)
    ensures
      var after := Reduce(s, h, m, now, order);
      after.nextExpiry == s.nextExpiry
      || (after.nextExpiry.Some?
          && exists ip, i :: StoredAt(after.histories, h, ip, i)
                             && after.nextExpiry.value == after.histories[h][ip].reconnects[i] + 10_000_000_000)
  {
    var after := Reduce(s, h, m, now, order);
    ExpiryFromStored(after.histories, h, order);
  }

  lemma {:induction false} ExpiryFromStored(histories: map<InfoHash, Histories>, h: InfoHash, order: seq<IpAddr>)
    requires h in histories
    ensures
      var next := ExpiryAlong(histories[h], order);
      next.Some? ==>
        exists ip, i :: StoredAt(histories, h, ip, i)
                        && next.value == histories[h][ip].reconnects[i] + 10_000_000_000
    decreases |order|
  {
    if order != [] {
      var ip := order[|order| - 1];
      ExpiryFromStored(histories, h, order[..|order| - 1]);
      if ip in histories[h] && histories[h][ip].reconnects != [] {
        assert StoredAt(histories, h, ip, 0);
      }
    }
  }

  // Runs.

  lemma ReducedProper(s: Reducer, h: InfoHash, m: Metrics, now: Time, order: seq<IpAddr>)
    requires Proper(s, h)
    ensures Proper(Reduce(s, h, m, now, order), h)
  {
    var after := HistoriesOf(Reduce(s, h, m, now, order), h);
    ReduceHistories(s, h, m, now, order);
    forall ip | ip in after
      ensures SameAddress(ip, ip) && after[ip].uploadedEvidence <= U64_MAX && after[ip].downloadedEvidence <= U64_MAX
    {
      MentionedProper(s, h, m, ip);
      ReducedBounded(HistoryAt(HistoriesOf(s, h), ip), InputFor(m, ip), now, TransferAbuseLimit(m.totalSize));
    }
  }

  lemma ReducedBounded(h: History, input: Input, now: Time, limit: nat)
    requires h.uploadedEvidence <= U64_MAX && h.downloadedEvidence <= U64_MAX
    ensures Reduced(h, input, now, limit).uploadedEvidence <= U64_MAX
    ensures Reduced(h, input, now, limit).downloadedEvidence <= U64_MAX
  {
    EvidenceBounded(h, input, now);
  }

  lemma MaintainedProper(s: Reducer, now: Time, evicted: set<(InfoHash, IpAddr)>, h: InfoHash)
    requires Proper(s, h)
    ensures Proper(Maintain(s, now, evicted), h)
  {
    var after := HistoriesOf(Maintain(s, now, evicted), h);
    forall ip | ip in after
      ensures ip in HistoriesOf(s, h) && after[ip] == HistoriesOf(s, h)[ip]
    {
      MaintainedAt(s, now, evicted, h, ip);
    }
  }

  /** Every step keeps histories proper, so every run from an empty reducer does. */
  lemma StepKeepsProper(s: Reducer, e: ReducerEvent, after: Reducer, h: InfoHash)
    requires StepsTo(s, e, after) && Proper(s, h)
    ensures Proper(after, h)
  {
    match e {
      case ReduceEvent(g, m, now, order) =>
        if g == h {
          ReducedProper(s, h, m, now, order);
        }
      case MaintainEvent(now, evicted) => MaintainedProper(s, now, evicted, h);
      case _ =>
    }
  }

  lemma {:induction false} RunsAreProper(
    s: Reducer, events: seq<ReducerEvent>, states: seq<Reducer>, t: Time, k: nat, h: InfoHash)
    requires IsRun(s, events, states, t) && k < |states| && Proper(s, h) && |s.policy| <= 1_000_000
    ensures Proper(states[k], h) && |states[k].policy| <= 1_000_000
    decreases |events|
  {
    StepKeepsProper(s, events[0], states[0], h);
    StepBounded(s, events[0], states[0]);
    if k > 0 {
      RunsAreProper(states[0], events[1..], states[1..], EventTime(events[0], t), k - 1, h);
    }
  }
}
