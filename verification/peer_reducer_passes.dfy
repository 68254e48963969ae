/** The loops of one reduction, each proved against its closed form. Hash tables are visited in an
    arbitrary order. */
module PeerReducerPasses {
  import opened Common
  import opened Iteration
  import opened Sums
  import opened PeerPolicy
  import opened PeerHistory
  import opened PeerHistoryLaws
  import Spec = PeerReducer

  // One history.

  method PruneReconnects(reconnects: seq<Time>, now: Time) returns (kept: seq<Time>)
    ensures kept == Prune(reconnects, now)
  {
    kept := [];
    for i := 0 to |reconnects|
      invariant kept == Prune(reconnects[..i], now)
    {
      assert reconnects[..i + 1][..i] == reconnects[..i];
      if now - reconnects[i] < RECONNECT_WINDOW {
        kept := kept + [reconnects[i]];
      }
    }
    assert reconnects[..|reconnects|] == reconnects;
  }

  ghost function GainsAlong(before: Endpoints, now: Endpoints, order: seq<string>): Totals {
    Totals(SumAlong(GainOf(before, now, Downloaded), order), SumAlong(GainOf(before, now, Uploaded), order),
           SumAlong(GainOf(before, now, Connections), order), SumAlong(GainOf(before, now, Disconnects), order))
  }

  lemma GainsAlongStep(before: Endpoints, now: Endpoints, order: seq<string>, i: nat, x: Totals)
    requires i < |order| && order[i] in now
    ensures
      var t := now[order[i]];
      var p := At(before, order[i]);
      SatAddTotals(x, GainsAlong(before, now, order[..i + 1])) ==
      SatAddTotals(SatAddTotals(x, GainsAlong(before, now, order[..i])),
                   Totals(Delta(t.downloaded, p.downloaded), Delta(t.uploaded, p.uploaded),
                          Delta(t.connections, p.connections), Delta(t.disconnects, p.disconnects)))
  {
    SumAlongStep(GainOf(before, now, Downloaded), order, i);
    SumAlongStep(GainOf(before, now, Uploaded), order, i);
    SumAlongStep(GainOf(before, now, Connections), order, i);
    SumAlongStep(GainOf(before, now, Disconnects), order, i);
  }

  lemma GainsAlongIs(before: Endpoints, now: Endpoints, order: seq<string>)
    requires IsOrderOf(order, now.Keys)
    ensures GainsAlong(before, now, order) == AllGains(before, now)
  {
    SumAlongIs(GainOf(before, now, Downloaded), order, now.Keys);
    SumAlongIs(GainOf(before, now, Uploaded), order, now.Keys);
    SumAlongIs(GainOf(before, now, Connections), order, now.Keys);
    SumAlongIs(GainOf(before, now, Disconnects), order, now.Keys);
  }

  /** The counters of all listed endpoints added up, endpoint by endpoint, in 64-bit arithmetic. */
  method AddGains(base: Totals, before: Endpoints, now: Endpoints) returns (sum: Totals)
    requires SatAddTotals(base, NO_TOTALS) == base
    ensures sum == SatAddTotals(base, AllGains(before, now))
  {
    sum := base;
    var order := Enumerate(now.Keys);
    for i := 0 to |order|
      invariant sum == SatAddTotals(base, GainsAlong(before, now, order[..i]))
    {
      var totals := now[order[i]];
      var previous := At(before, order[i]);
      GainsAlongStep(before, now, order, i, base);
      sum := Totals(
        SatAdd(sum.downloaded, Delta(totals.downloaded, previous.downloaded)),
        SatAdd(sum.uploaded, Delta(totals.uploaded, previous.uploaded)),
        SatAdd(sum.connections, Delta(totals.connections, previous.connections)),
        SatAdd(sum.disconnects, Delta(totals.disconnects, previous.disconnects)));
    }
    assert order[..|order|] == order;
    GainsAlongIs(before, now, order);
  }

  method ObserveSnapshot(h: History, endpoints: Endpoints, now: Time, infer: bool, isPresent: bool)
    returns (after: History)
    requires InRange(h)
    ensures after == ObservedSnapshot(h, endpoints, now, infer, isPresent)
    ensures InRange(after)
  {
    var replaced := h.present && h.endpoints != map[] && endpoints != map[] && h.endpoints.Keys !! endpoints.Keys;
    var reset := h.present && exists e :: e in endpoints && e in h.endpoints && !AtLeast(endpoints[e], h.endpoints[e]);
    var reconnects := h.reconnects;
    if isPresent && infer && h.seen && (!h.present || replaced || reset) {
      reconnects := reconnects + [now];
    } else {
      assert reconnects + [] == reconnects;
    }
    reconnects := PruneReconnects(reconnects, now);
    var lifetime := AddGains(h.lifetime, h.endpoints, endpoints);
    var evidence := AddGains(Totals(h.downloadedEvidence, h.uploadedEvidence, 0, 0), h.endpoints, endpoints);
    after := h.(
      seen := true,
      present := isPresent,
      lastSeen := Some(now),
      reconnects := reconnects,
      downloadedEvidence := evidence.downloaded,
      uploadedEvidence := evidence.uploaded,
      lifetime := lifetime,
      endpoints := endpoints);
  }

  method ObserveReconnectCount(h: History, cumulative: nat, now: Time) returns (after: History)
    ensures after == ObservedReconnects(h, cumulative, now)
  {
    var kept := PruneReconnects(h.reconnects, now);
    var added := if cumulative >= h.reconnectEventsSeen then cumulative - h.reconnectEventsSeen else cumulative;
    var available := SatSub(RECONNECT_LIMIT, |kept|);
    after := h.(reconnects := kept + Repeat(now, Min(added, available)), reconnectEventsSeen := cumulative);
    if added > 0 {
      after := after.(seen := true, lastSeen := Some(now));
    }
  }

  method ObserveAbsence(h: History, now: Time) returns (after: History)
    ensures after == ObservedAbsence(h, now)
  {
    var kept := PruneReconnects(h.reconnects, now);
    after := h.(present := false, endpoints := map[], reconnects := kept);
  }

  // Passes over one torrent's histories.

  /** What a reduction knows about all addresses, grouped by address. */
  datatype Facts = Facts(counts: map<IpAddr, nat>, observed: map<IpAddr, Endpoints>, active: set<IpAddr>, now: Time)

  function FactsOf(m: Spec.Metrics, now: Time): Facts {
    Facts(Spec.ReconnectTotals(m.reconnectCounts), Spec.Collect(m.peers + m.departed), Spec.ActiveIps(m.peers), now)
  }

  datatype Pass = Absences | Reconnects | Snapshots

  function AbsenceStep(f: Facts, ip: IpAddr, h: History): History {
    var baseline := if ip in f.counts then h else h.(reconnectEventsSeen := 0);
    if ip !in f.active && ip !in f.observed then ObservedAbsence(baseline, f.now) else baseline
  }

  function ReconnectStep(f: Facts, ip: IpAddr, h: History): History {
    if ip in f.counts then ObservedReconnects(h, f.counts[ip], f.now) else h
  }

  ghost function SnapshotStep(f: Facts, ip: IpAddr, h: History): History {
    if ip in f.observed then ObservedSnapshot(h, f.observed[ip], f.now, ip !in f.counts, ip in f.active) else h
  }

  ghost function PassStep(p: Pass, f: Facts, ip: IpAddr, h: History): History {
    match p
    case Absences => AbsenceStep(f, ip, h)
    case Reconnects => ReconnectStep(f, ip, h)
    case Snapshots => SnapshotStep(f, ip, h)
  }

  /** The addresses a pass visits. */
  function Visited(p: Pass, f: Facts, hs: Spec.Histories): set<IpAddr> {
    match p
    case Absences => hs.Keys
    case Reconnects => f.counts.Keys
    case Snapshots => f.observed.Keys
  }

  /** A pass over the addresses of `order`, adding a new history where there is none. */
  ghost function UpdateEach(hs: Spec.Histories, order: seq<IpAddr>, p: Pass, f: Facts): Spec.Histories {
    if order == [] then hs
    else
      var ip := order[|order| - 1];
      var before := UpdateEach(hs, order[..|order| - 1], p, f);
      before[ip := PassStep(p, f, ip, Spec.HistoryAt(before, ip))]
  }

  lemma {:induction false} UpdateEachKeys(hs: Spec.Histories, order: seq<IpAddr>, p: Pass, f: Facts)
    ensures forall ip :: ip in UpdateEach(hs, order, p, f) <==> ip in hs || ip in order
    decreases |order|
  {
    if order != [] {
      var front := order[..|order| - 1];
      UpdateEachKeys(hs, front, p, f);
      assert order == front + [order[|order| - 1]];
    }
  }

  lemma {:induction false} UpdateEachAt(hs: Spec.Histories, order: seq<IpAddr>, p: Pass, f: Facts, ip: IpAddr)
    requires forall i, j | 0 <= i < j < |order| :: order[i] != order[j]
    ensures Spec.HistoryAt(UpdateEach(hs, order, p, f), ip) ==
            if ip in order then PassStep(p, f, ip, Spec.HistoryAt(hs, ip)) else Spec.HistoryAt(hs, ip)
    decreases |order|
  {
    if order != [] {
      var front := order[..|order| - 1];
      UpdateEachAt(hs, front, p, f, ip);
      assert order == front + [order[|order| - 1]];
    }
  }

  lemma UpdateEachStep(hs: Spec.Histories, order: seq<IpAddr>, i: nat, p: Pass, f: Facts)
    requires i < |order|
    ensures
      var before := UpdateEach(hs, order[..i], p, f);
      UpdateEach(hs, order[..i + 1], p, f) ==
      before[order[i] := PassStep(p, f, order[i], Spec.HistoryAt(before, order[i]))]
  {
    assert order[..i + 1][..i] == order[..i];
  }

  predicate AllInRange(hs: Spec.Histories) {
    forall ip | ip in hs :: InRange(hs[ip])
  }

  method VisitOne(p: Pass, f: Facts, ip: IpAddr, h: History) returns (after: History)
    requires InRange(h)
    ensures after == PassStep(p, f, ip, h)
    ensures InRange(after)
  {
    after := h;
    match p
    case Absences =>
      if ip !in f.counts {
        after := after.(reconnectEventsSeen := 0);
      }
      if ip !in f.active && ip !in f.observed {
        after := ObserveAbsence(after, f.now);
      }
    case Reconnects =>
      if ip in f.counts {
        after := ObserveReconnectCount(h, f.counts[ip], f.now);
      }
    case Snapshots =>
      if ip in f.observed {
        after := ObserveSnapshot(h, f.observed[ip], f.now, ip !in f.counts, ip in f.active);
      }
  }

  method VisitEach(hs: Spec.Histories, p: Pass, f: Facts) returns (after: Spec.Histories, ghost order: seq<IpAddr>)
    requires AllInRange(hs)
    ensures IsOrderOf(order, Visited(p, f, hs))
    ensures after == UpdateEach(hs, order, p, f)
    ensures AllInRange(after)
  {
    var ips := Enumerate(Visited(p, f, hs));
    after := hs;
    for i := 0 to |ips|
      invariant after == UpdateEach(hs, ips[..i], p, f)
      invariant AllInRange(after)
    {
      UpdateEachStep(hs, ips, i, p, f);
      var h := VisitOne(p, f, ips[i], Spec.HistoryAt(after, ips[i]));
      after := after[ips[i] := h];
    }
    assert ips[..|ips|] == ips;
    order := ips;
  }

  /** The three steps of one address are its observation; each step leaves an address alone that
      its pass does not visit. */
  lemma ObservedInSteps(h: History, m: Spec.Metrics, now: Time, ip: IpAddr)
    ensures
      var f := FactsOf(m, now);
      SnapshotStep(f, ip, ReconnectStep(f, ip, AbsenceStep(f, ip, h))) == Observed(h, Spec.InputFor(m, ip), now)
    ensures AbsenceStep(FactsOf(m, now), ip, NEW_HISTORY) == NEW_HISTORY
  {
  }

  lemma ThreePasses(hs: Spec.Histories, m: Spec.Metrics, now: Time,
                    known: seq<IpAddr>, counted: seq<IpAddr>, listed: seq<IpAddr>)
    requires IsOrderOf(known, hs.Keys)
    requires IsOrderOf(counted, FactsOf(m, now).counts.Keys)
    requires IsOrderOf(listed, FactsOf(m, now).observed.Keys)
    ensures
      var f := FactsOf(m, now);
      UpdateEach(UpdateEach(UpdateEach(hs, known, Absences, f), counted, Reconnects, f), listed, Snapshots, f) ==
      Spec.ObservedAll(hs, m, now)
  {
    var f := FactsOf(m, now);
    var one := UpdateEach(hs, known, Absences, f);
    var two := UpdateEach(one, counted, Reconnects, f);
    var three := UpdateEach(two, listed, Snapshots, f);
    ThreePassesKeys(hs, m, now, known, counted, listed);
    forall ip | ip in three
      ensures three[ip] == Observed(Spec.HistoryAt(hs, ip), Spec.InputFor(m, ip), now)
    {
      ThreePassesAt(hs, m, now, known, counted, listed, ip);
      assert three[ip] == Spec.HistoryAt(three, ip);
    }
    SameAsObservedAll(three, hs, m, now);
  }

  lemma SameAsObservedAll(after: Spec.Histories, hs: Spec.Histories, m: Spec.Metrics, now: Time)
    requires after.Keys == Spec.Mentioned(hs, m)
    requires forall ip | ip in after :: after[ip] == Observed(Spec.HistoryAt(hs, ip), Spec.InputFor(m, ip), now)
    ensures after == Spec.ObservedAll(hs, m, now)
  {
  }

  lemma ThreePassesKeys(hs: Spec.Histories, m: Spec.Metrics, now: Time,
                        known: seq<IpAddr>, counted: seq<IpAddr>, listed: seq<IpAddr>)
    requires IsOrderOf(known, hs.Keys)
    requires IsOrderOf(counted, FactsOf(m, now).counts.Keys)
    requires IsOrderOf(listed, FactsOf(m, now).observed.Keys)
    ensures
      var f := FactsOf(m, now);
      UpdateEach(UpdateEach(UpdateEach(hs, known, Absences, f), counted, Reconnects, f), listed, Snapshots, f).Keys ==
      Spec.Mentioned(hs, m)
  {
    var f := FactsOf(m, now);
    var one := UpdateEach(hs, known, Absences, f);
    var two := UpdateEach(one, counted, Reconnects, f);
    var three := UpdateEach(two, listed, Snapshots, f);
    UpdateEachKeys(hs, known, Absences, f);
    UpdateEachKeys(one, counted, Reconnects, f);
    UpdateEachKeys(two, listed, Snapshots, f);
    assert forall ip :: ip in three <==> ip in Spec.Mentioned(hs, m);
  }

  lemma ThreePassesAt(hs: Spec.Histories, m: Spec.Metrics, now: Time,
                      known: seq<IpAddr>, counted: seq<IpAddr>, listed: seq<IpAddr>, ip: IpAddr)
    requires IsOrderOf(known, hs.Keys)
    requires IsOrderOf(counted, FactsOf(m, now).counts.Keys)
    requires IsOrderOf(listed, FactsOf(m, now).observed.Keys)
    ensures
      var f := FactsOf(m, now);
      Spec.HistoryAt(
        UpdateEach(UpdateEach(UpdateEach(hs, known, Absences, f), counted, Reconnects, f), listed, Snapshots, f), ip) ==
      Observed(Spec.HistoryAt(hs, ip), Spec.InputFor(m, ip), now)
  {
    var f := FactsOf(m, now);
    var one := UpdateEach(hs, known, Absences, f);
    var two := UpdateEach(one, counted, Reconnects, f);
    UpdateEachAt(hs, known, Absences, f, ip);
    UpdateEachAt(one, counted, Reconnects, f, ip);
    UpdateEachAt(two, listed, Snapshots, f, ip);
    ObservedInSteps(Spec.HistoryAt(hs, ip), m, now, ip);
    assert ip in known <==> ip in hs;
    assert ip in counted <==> ip in f.counts;
    assert ip in listed <==> ip in f.observed;
  }

  method ObserveAll(hs: Spec.Histories, f: Facts, ghost m: Spec.Metrics, ghost now: Time)
    returns (after: Spec.Histories)
    requires AllInRange(hs) && f == FactsOf(m, now)
    ensures after == Spec.ObservedAll(hs, m, now)
    ensures AllInRange(after)
  {
    ghost var known, counted, listed;
    after, known := VisitEach(hs, Absences, f);
    after, counted := VisitEach(after, Reconnects, f);
    after, listed := VisitEach(after, Snapshots, f);
    ThreePasses(hs, m, now, known, counted, listed);
  }

  // Grouping the metrics by address.

  lemma TotalsStep(counts: map<IpAddr, nat>, ip: IpAddr, n: nat)
    requires ip !in counts
    ensures
      var totals := Spec.ReconnectTotals(counts);
      var key := NormalizeIp(ip);
      Spec.ReconnectTotals(counts[ip := n]) == totals[key := SatAdd(Spec.CountAt(totals, key), n)]
  {
    var totals := Spec.ReconnectTotals(counts);
    var key := NormalizeIp(ip);
    var more := counts[ip := n];
    var after := Spec.ReconnectTotals(more);
    var expected := totals[key := SatAdd(Spec.CountAt(totals, key), n)];
    TotalsKeys(counts, ip, n);
    forall k | k in after
      ensures after[k] == expected[k]
    {
      if k == key {
        TotalsAtKey(counts, ip, n);
      } else {
        TotalsElsewhere(counts, ip, n, k);
      }
    }
  }

  lemma TotalsElsewhere(counts: map<IpAddr, nat>, ip: IpAddr, n: nat, k: IpAddr)
    requires k in Spec.ReconnectTotals(counts) && k != NormalizeIp(ip)
    ensures k in Spec.ReconnectTotals(counts[ip := n])
    ensures Spec.ReconnectTotals(counts[ip := n])[k] == Spec.ReconnectTotals(counts)[k]
  {
    TotalsKeys(counts, ip, n);
    assert k != ip;
    assert k.V4? && k.bits < V4_SPACE ==> Spec.MappedForm(k) != ip;
  }

  lemma TotalsKeys(counts: map<IpAddr, nat>, ip: IpAddr, n: nat)
    ensures Spec.ReconnectTotals(counts[ip := n]).Keys == Spec.ReconnectTotals(counts).Keys + {NormalizeIp(ip)}
  {
    var before := set i | i in counts :: NormalizeIp(i);
    var after := set i | i in counts[ip := n] :: NormalizeIp(i);
    forall k | k in before
      ensures k in after
    {
      var i :| i in counts && NormalizeIp(i) == k;
      assert i in counts[ip := n];
    }
    assert ip in counts[ip := n];
    assert after == before + {NormalizeIp(ip)};
  }

  lemma TotalForStep(counts: map<IpAddr, nat>, ip: IpAddr, n: nat)
    requires ip !in counts
    ensures Spec.TotalFor(counts[ip := n], NormalizeIp(ip)) == SatAdd(Spec.TotalFor(counts, NormalizeIp(ip)), n)
  {
  }

  lemma TotalForNone(counts: map<IpAddr, nat>, key: IpAddr)
    requires Normal(key) && key !in Spec.ReconnectTotals(counts)
    ensures Spec.TotalFor(counts, key) == 0
  {
    assert forall ip | ip in counts :: NormalizeIp(ip) in Spec.ReconnectTotals(counts);
    assert key !in counts;
    assert key.V4? && key.bits < V4_SPACE ==> NormalizeIp(Spec.MappedForm(key)) == key;
  }

  lemma TotalsAtKey(counts: map<IpAddr, nat>, ip: IpAddr, n: nat)
    requires ip !in counts
    ensures
      var key := NormalizeIp(ip);
      key in Spec.ReconnectTotals(counts[ip := n]) &&
      Spec.ReconnectTotals(counts[ip := n])[key] == SatAdd(Spec.CountAt(Spec.ReconnectTotals(counts), key), n)
  {
    var key := NormalizeIp(ip);
    TotalsKeys(counts, ip, n);
    TotalForStep(counts, ip, n);
    if key !in Spec.ReconnectTotals(counts) {
      TotalForNone(counts, key);
    }
  }

  /** The counts of the addresses of `order` alone. */
  ghost function Restricted(counts: map<IpAddr, nat>, order: seq<IpAddr>): map<IpAddr, nat>
    requires forall i | 0 <= i < |order| :: order[i] in counts
  {
    if order == [] then map[]
    else Restricted(counts, order[..|order| - 1])[order[|order| - 1] := counts[order[|order| - 1]]]
  }

  lemma {:induction false} RestrictedIs(counts: map<IpAddr, nat>, order: seq<IpAddr>)
    requires forall i | 0 <= i < |order| :: order[i] in counts
    ensures forall ip :: ip in Restricted(counts, order) <==> ip in order
    ensures forall ip | ip in Restricted(counts, order) :: Restricted(counts, order)[ip] == counts[ip]
    decreases |order|
  {
    if order != [] {
      var front := order[..|order| - 1];
      RestrictedIs(counts, front);
      assert order == front + [order[|order| - 1]];
    }
  }

  lemma RestrictedStep(counts: map<IpAddr, nat>, order: seq<IpAddr>, i: nat)
    requires IsOrderOf(order, counts.Keys) && i < |order|
    ensures order[i] !in Restricted(counts, order[..i])
    ensures Restricted(counts, order[..i + 1]) == Restricted(counts, order[..i])[order[i] := counts[order[i]]]
  {
    RestrictedIs(counts, order[..i]);
    assert order[..i + 1][..i] == order[..i];
  }

  lemma RestrictedAll(counts: map<IpAddr, nat>, order: seq<IpAddr>)
    requires IsOrderOf(order, counts.Keys)
    ensures Restricted(counts, order) == counts
  {
    RestrictedIs(counts, order);
  }

  method CollectReconnectCounts(counts: map<IpAddr, nat>) returns (totals: map<IpAddr, nat>)
    ensures totals == Spec.ReconnectTotals(counts)
  {
    totals := map[];
    var order := Enumerate(counts.Keys);
    for i := 0 to |order|
      invariant totals == Spec.ReconnectTotals(Restricted(counts, order[..i]))
    {
      var ip := order[i];
      RestrictedStep(counts, order, i);
      TotalsStep(Restricted(counts, order[..i]), ip, counts[ip]);
      totals := totals[NormalizeIp(ip) := SatAdd(Spec.CountAt(totals, NormalizeIp(ip)), counts[ip])];
    }
    assert order[..|order|] == order;
    RestrictedAll(counts, order);
  }

  method CollectPeers(peers: seq<Spec.PeerInfo>, departed: seq<Spec.PeerInfo>)
    returns (observed: map<IpAddr, Endpoints>, active: set<IpAddr>)
    ensures observed == Spec.Collect(peers + departed)
    ensures active == Spec.ActiveIps(peers)
  {
    observed, active := map[], {};
    var all := peers + departed;
    for i := 0 to |all|
      invariant observed == Spec.Collect(all[..i])
      invariant active == Spec.ActiveIps(peers[..Min(i, |peers|)])
    {
      var peer := all[i];
      assert all[..i + 1][..i] == all[..i];
      if i < |peers| {
        assert peers[..i + 1][..i] == peers[..i];
      }
      if peer.ip.Some? {
        var key := NormalizeIp(peer.ip.value);
        if i < |peers| {
          active := active + {key};
        }
        var endpoints := if key in observed then observed[key] else map[];
        var totals := At(endpoints, peer.address);
        totals := Totals(Max(totals.downloaded, peer.totals.downloaded), Max(totals.uploaded, peer.totals.uploaded),
                         Max(totals.connections, peer.totals.connections),
                         Max(totals.disconnects, peer.totals.disconnects));
        observed := observed[key := endpoints[peer.address := totals]];
      }
    }
    assert all[..|all|] == all && peers[..|peers|] == peers;
  }

  // Judging, and the earliest expiry.

  ghost function JudgeEach(hs: Spec.Histories, order: seq<IpAddr>, limit: nat): Spec.Histories
    requires forall i | 0 <= i < |order| :: order[i] in hs
    ensures JudgeEach(hs, order, limit).Keys == hs.Keys
  {
    if order == [] then hs
    else
      var ip := order[|order| - 1];
      JudgeEach(hs, order[..|order| - 1], limit)[ip := Judged(hs[ip], limit)]
  }

  lemma {:induction false} JudgeEachAt(hs: Spec.Histories, order: seq<IpAddr>, limit: nat, ip: IpAddr)
    requires forall i | 0 <= i < |order| :: order[i] in hs
    requires ip in hs
    ensures JudgeEach(hs, order, limit)[ip] == if ip in order then Judged(hs[ip], limit) else hs[ip]
    decreases |order|
  {
    if order != [] {
      var front := order[..|order| - 1];
      JudgeEachAt(hs, front, limit, ip);
      assert order == front + [order[|order| - 1]];
    }
  }

  lemma JudgeEachIs(hs: Spec.Histories, order: seq<IpAddr>, limit: nat)
    requires IsOrderOf(order, hs.Keys)
    ensures JudgeEach(hs, order, limit) == Spec.JudgedAll(hs, limit)
  {
    forall ip | ip in hs
      ensures JudgeEach(hs, order, limit)[ip] == Judged(hs[ip], limit)
    {
      JudgeEachAt(hs, order, limit, ip);
    }
  }

  lemma JudgeStep(hs: Spec.Histories, judged: Spec.Histories, order: seq<IpAddr>, limit: nat, i: nat)
    requires IsOrderOf(order, hs.Keys) && i < |order|
    requires order[i] in judged && judged[order[i]] == Judged(hs[order[i]], limit)
    ensures
      var ip := order[i];
      var rest := Spec.Sentences(hs, order[..i], limit);
      && JudgeEach(hs, order[..i + 1], limit) == JudgeEach(hs, order[..i], limit)[ip := Judged(hs[ip], limit)]
      && JudgeEach(hs, order[..i], limit)[ip] == hs[ip]
      && Spec.Sentences(hs, order[..i + 1], limit) ==
           (if Verdict(hs[ip], limit).Some? then rest + [Spec.Sentence(ip, Verdict(hs[ip], limit).value)] else rest)
      && Spec.ExpiryAlong(judged, order[..i + 1]) ==
           Spec.Sooner(Spec.ExpiryAlong(judged, order[..i]), Spec.FrontExpiry(Judged(hs[ip], limit)))
  {
    assert order[..i + 1][..i] == order[..i];
    JudgeEachAt(hs, order[..i], limit, order[i]);
  }

  method JudgeOne(h: History, limit: nat) returns (after: History, reason: Option<Reason>)
    ensures after == Judged(h, limit) && reason == Verdict(h, limit)
  {
    after, reason := h, None;
    if h.uploadedEvidence > limit {
      reason := Some(ExcessiveUpload(h.uploadedEvidence, limit));
    } else if h.downloadedEvidence > limit {
      reason := Some(ExcessiveDownload(h.downloadedEvidence, limit));
    } else if |h.reconnects| >= RECONNECT_LIMIT {
      reason := Some(ReconnectChurn(|h.reconnects|, RECONNECT_LIMIT, RECONNECT_WINDOW_SECS));
    }
    if reason.Some? {
      after := h.(downloadedEvidence := 0, uploadedEvidence := 0, reconnects := []);
    }
  }

  method JudgeAll(hs: Spec.Histories, limit: nat)
    returns (after: Spec.Histories, sentences: seq<Spec.Sentence>, next: Option<Time>, ghost order: seq<IpAddr>)
    ensures IsOrderOf(order, hs.Keys)
    ensures after == Spec.JudgedAll(hs, limit)
    ensures sentences == Spec.Sentences(hs, order, limit)
    ensures next == Spec.ExpiryAlong(after, order)
  {
    var ips := Enumerate(hs.Keys);
    order := ips;
    after, sentences, next := JudgeInOrder(hs, limit, ips, Spec.JudgedAll(hs, limit));
    JudgeEachIs(hs, ips, limit);
  }

  method JudgeInOrder(hs: Spec.Histories, limit: nat, ips: seq<IpAddr>, ghost judged: Spec.Histories)
    returns (after: Spec.Histories, sentences: seq<Spec.Sentence>, next: Option<Time>)
    requires IsOrderOf(ips, hs.Keys)
    requires forall ip | ip in hs :: ip in judged && judged[ip] == Judged(hs[ip], limit)
    ensures after == JudgeEach(hs, ips, limit)
    ensures sentences == Spec.Sentences(hs, ips, limit)
    ensures next == Spec.ExpiryAlong(judged, ips)
  {
    after, sentences, next := hs, [], None;
    for i := 0 to |ips|
      invariant after == JudgeEach(hs, ips[..i], limit)
      invariant sentences == Spec.Sentences(hs, ips[..i], limit)
      invariant next == Spec.ExpiryAlong(judged, ips[..i])
    {
      JudgeStep(hs, judged, ips, limit, i);
      var h, reason := JudgeOne(after[ips[i]], limit);
      after := after[ips[i] := h];
      if reason.Some? {
        sentences := sentences + [Spec.Sentence(ips[i], reason.value)];
      }
      next := SoonerExpiry(next, h);
    }
    assert ips[..|ips|] == ips;
  }

  method SoonerExpiry(next: Option<Time>, h: History) returns (sooner: Option<Time>)
    ensures sooner == Spec.Sooner(next, Spec.FrontExpiry(h))
  {
    sooner := next;
    if h.reconnects != [] {
      var expiresAt := h.reconnects[0] + RECONNECT_WINDOW;
      sooner := Some(if next.Some? then Min(next.value, expiresAt) else expiresAt);
    }
  }

  method EarliestReconnect(h: History) returns (next: Option<Time>, ghost at: int)
    ensures next.None? <==> h.reconnects == []
    ensures next.Some? ==> 0 <= at < |h.reconnects| && next.value == h.reconnects[at] + RECONNECT_WINDOW
    ensures forall i | 0 <= i < |h.reconnects| :: next.Some? && next.value <= h.reconnects[i] + RECONNECT_WINDOW
  {
    next, at := None, 0;
    for i := 0 to |h.reconnects|
      invariant next.None? <==> i == 0
      invariant next.Some? ==> 0 <= at < i && next.value == h.reconnects[at] + RECONNECT_WINDOW
      invariant forall j | 0 <= j < i :: next.Some? && next.value <= h.reconnects[j] + RECONNECT_WINDOW
    {
      var expiresAt := h.reconnects[i] + RECONNECT_WINDOW;
      if next.None? || expiresAt < next.value {
        next, at := Some(expiresAt), i;
      }
    }
  }

  /** `next` is attained at `at` if set, and is no later than any expiry of `h`. */
  ghost predicate NoLater(next: Option<Time>, h: History) {
    forall i | 0 <= i < |h.reconnects| :: next.Some? && next.value <= h.reconnects[i] + RECONNECT_WINDOW
  }

  method EarliestOfTorrent(hs: Spec.Histories) returns (next: Option<Time>, ghost ip: IpAddr, ghost at: int)
    ensures next.Some? ==> ip in hs && 0 <= at < |hs[ip].reconnects|
                           && next.value == hs[ip].reconnects[at] + RECONNECT_WINDOW
    ensures forall ip | ip in hs :: NoLater(next, hs[ip])
  {
    next, ip, at := None, V4(0), 0;
    var ips := Enumerate(hs.Keys);
    for i := 0 to |ips|
      invariant next.Some? ==> ip in hs && 0 <= at < |hs[ip].reconnects|
                               && next.value == hs[ip].reconnects[at] + RECONNECT_WINDOW
      invariant forall j | 0 <= j < i :: NoLater(next, hs[ips[j]])
    {
      var one, oneAt := EarliestReconnect(hs[ips[i]]);
      if one.Some? && (next.None? || one.value < next.value) {
        next, ip, at := one, ips[i], oneAt;
      }
    }
    forall ip | ip in hs
      ensures NoLater(next, hs[ip])
    {
      assert ip in ips;
    }
  }

  /** The minimum over every reconnect stored anywhere. */
  method EarliestExpiry(histories: map<InfoHash, Spec.Histories>) returns (next: Option<Time>)
    ensures Spec.IsEarliestExpiry(histories, next)
  {
    next := None;
    ghost var h: InfoHash, ip, at := [], V4(0), 0;
    var hashes := Enumerate(histories.Keys);
    for i := 0 to |hashes|
      invariant next.Some? ==> Spec.StoredAt(histories, h, ip, at)
                               && next.value == histories[h][ip].reconnects[at] + RECONNECT_WINDOW
      invariant forall j, ip | 0 <= j < i && ip in histories[hashes[j]] :: NoLater(next, histories[hashes[j]][ip])
    {
      var one, oneIp, oneAt := EarliestOfTorrent(histories[hashes[i]]);
      if one.Some? && (next.None? || one.value < next.value) {
        next := one;
        h, ip, at := hashes[i], oneIp, oneAt;
      }
    }
    forall h, ip, i | Spec.StoredAt(histories, h, ip, i)
      ensures next.Some? && next.value <= histories[h][ip].reconnects[i] + RECONNECT_WINDOW
    {
      var j :| 0 <= j < |hashes| && hashes[j] == h;
      assert NoLater(next, histories[hashes[j]][ip]);
      var r := histories[h][ip].reconnects;
      assert 0 <= i < |r| && next.Some? && next.value <= r[i] + RECONNECT_WINDOW;
    }
  }

  function PruneHistory(h: History, now: Time): History {
    h.(reconnects := Prune(h.reconnects, now))
  }

  ghost function PruneEach(hs: Spec.Histories, order: seq<IpAddr>, now: Time): Spec.Histories
    requires forall i | 0 <= i < |order| :: order[i] in hs
  {
    if order == [] then hs
    else
      var ip := order[|order| - 1];
      PruneEach(hs, order[..|order| - 1], now)[ip := PruneHistory(hs[ip], now)]
  }

  lemma {:induction false} PruneEachIs(hs: Spec.Histories, order: seq<IpAddr>, now: Time)
    requires forall i | 0 <= i < |order| :: order[i] in hs
    ensures PruneEach(hs, order, now).Keys == hs.Keys
    ensures forall ip | ip in hs ::
              PruneEach(hs, order, now)[ip] == if ip in order then PruneHistory(hs[ip], now) else hs[ip]
    decreases |order|
  {
    if order != [] {
      var front := order[..|order| - 1];
      PruneEachIs(hs, front, now);
      assert order == front + [order[|order| - 1]];
    }
  }

  lemma PruneEachStep(hs: Spec.Histories, order: seq<IpAddr>, i: nat, now: Time)
    requires IsOrderOf(order, hs.Keys) && i < |order|
    ensures
      var before := PruneEach(hs, order[..i], now);
      && order[i] in before && before[order[i]] == hs[order[i]]
      && PruneEach(hs, order[..i + 1], now) == before[order[i] := PruneHistory(hs[order[i]], now)]
  {
    assert order[..i + 1][..i] == order[..i];
    PruneEachIs(hs, order[..i], now);
  }

  /** Whether pruning makes some history of `order` shorter. */
  ghost predicate AnyShorter(hs: Spec.Histories, order: seq<IpAddr>, now: Time) {
    exists i :: 0 <= i < |order| && order[i] in hs && PruneHistory(hs[order[i]], now) != hs[order[i]]
  }

  lemma AnyShorterStep(hs: Spec.Histories, order: seq<IpAddr>, i: nat, now: Time)
    requires i < |order| && order[i] in hs
    ensures AnyShorter(hs, order[..i + 1], now) <==>
              AnyShorter(hs, order[..i], now) || PruneHistory(hs[order[i]], now) != hs[order[i]]
  {
    var front, more := order[..i], order[..i + 1];
    if AnyShorter(hs, front, now) {
      var k :| 0 <= k < |front| && front[k] in hs && PruneHistory(hs[front[k]], now) != hs[front[k]];
      assert more[k] == front[k];
    }
    if PruneHistory(hs[order[i]], now) != hs[order[i]] {
      assert more[i] == order[i];
    } else if AnyShorter(hs, more, now) {
      var k :| 0 <= k < |more| && more[k] in hs && PruneHistory(hs[more[k]], now) != hs[more[k]];
      assert front[k] == more[k];
    }
  }

  lemma AnyShorterIs(hs: Spec.Histories, order: seq<IpAddr>, now: Time)
    requires IsOrderOf(order, hs.Keys)
    ensures AnyShorter(hs, order, now) <==> Spec.PrunedHistories(hs, now) != hs
  {
    var pruned := Spec.PrunedHistories(hs, now);
    if pruned != hs {
      var ip :| ip in hs && pruned[ip] != hs[ip];
      var k :| 0 <= k < |order| && order[k] == ip;
      assert PruneHistory(hs[order[k]], now) != hs[order[k]];
    }
    if AnyShorter(hs, order, now) {
      var k :| 0 <= k < |order| && order[k] in hs && PruneHistory(hs[order[k]], now) != hs[order[k]];
      assert pruned[order[k]] != hs[order[k]];
    }
  }

  method PruneTorrent(hs: Spec.Histories, now: Time) returns (after: Spec.Histories, changed: bool)
    ensures after == Spec.PrunedHistories(hs, now)
    ensures changed <==> after != hs
  {
    after, changed := hs, false;
    var ips := Enumerate(hs.Keys);
    for i := 0 to |ips|
      invariant after == PruneEach(hs, ips[..i], now)
      invariant changed <==> AnyShorter(hs, ips[..i], now)
    {
      PruneEachStep(hs, ips, i, now);
      AnyShorterStep(hs, ips, i, now);
      var h := after[ips[i]];
      var kept := PruneReconnects(h.reconnects, now);
      PruneLength(h.reconnects, now);
      after := after[ips[i] := h.(reconnects := kept)];
      changed := changed || |kept| != |h.reconnects|;
    }
    assert ips[..|ips|] == ips;
    PruneEachAll(hs, ips, now);
    AnyShorterIs(hs, ips, now);
  }

  lemma PruneEachAll(hs: Spec.Histories, order: seq<IpAddr>, now: Time)
    requires IsOrderOf(order, hs.Keys)
    ensures PruneEach(hs, order, now) == Spec.PrunedHistories(hs, now)
  {
    PruneEachIs(hs, order, now);
  }

  lemma {:induction false} PruneLength(reconnects: seq<Time>, now: Time)
    ensures |Prune(reconnects, now)| <= |reconnects|
    ensures |Prune(reconnects, now)| == |reconnects| ==> Prune(reconnects, now) == reconnects
    decreases |reconnects|
  {
    if reconnects != [] {
      PruneLength(reconnects[..|reconnects| - 1], now);
      assert reconnects == reconnects[..|reconnects| - 1] + [reconnects[|reconnects| - 1]];
    }
  }
}
