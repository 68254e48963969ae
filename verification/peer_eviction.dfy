/** An eviction for any cap: one address, then as many younger ones as the cap allows. */
module PeerEviction {
  import opened Common
  import opened ByteStrings
  import opened Iteration
  import opened PeerPolicy
  import opened PeerHistory
  import opened PeerHistoryLaws
  import opened PeerReducer
  import opened PeerReducerLaws
  import opened PeerReplay

  function Ips(from: nat, n: nat): set<IpAddr> {
    set i | from <= i < from + n :: V4(i)
  }

  function IpsInOrder(from: nat, n: nat): seq<IpAddr> {
    seq(n, i requires 0 <= i < n => V4(from + i))
  }

  /** `n` addresses that reconnected ten times each. */
  function Churn(from: nat, n: nat): Metrics {
    Metrics(0, [], [], map ip | ip in Ips(from, n) :: 10)
  }

  lemma IpsOrdered(from: nat, n: nat)
    ensures IsOrderOf(IpsInOrder(from, n), Ips(from, n))
  {
    forall ip | ip in Ips(from, n)
      ensures ip in IpsInOrder(from, n)
    {
      assert IpsInOrder(from, n)[ip.bits - from] == ip;
    }
  }

  lemma {:induction false} IpsCount(from: nat, n: nat)
    ensures |Ips(from, n)| == n
  {
    if n > 0 {
      IpsCount(from, n - 1);
      assert Ips(from, n) == Ips(from, n - 1) + {V4(from + n - 1)};
    }
  }

  lemma ChurnTotals(from: nat, n: nat, ip: IpAddr)
    ensures
      var totals := ReconnectTotals(Churn(from, n).reconnectCounts);
      && (ip in totals <==> ip in Ips(from, n))
      && (ip in totals ==> totals[ip] == 10)
  {
    var counts := Churn(from, n).reconnectCounts;
    assert forall j | j in counts :: NormalizeIp(j) == j;
    if ip in Ips(from, n) {
      assert ip in counts && NormalizeIp(ip) == ip;
      assert ip in (set j | j in counts :: NormalizeIp(j));
      assert MappedForm(ip) !in counts;
    }
  }

  lemma ChurnInput(from: nat, n: nat, ip: IpAddr)
    ensures InputFor(Churn(from, n), ip) == Input(None, if ip in Ips(from, n) then Some(10) else None, false)
    ensures Mentioned(map[], Churn(from, n)) == Ips(from, n)
  {
    var m := Churn(from, n);
    assert m.peers + m.departed == [];
    ChurnTotals(from, n, ip);
    forall j: IpAddr
      ensures j in Mentioned(map[], m) <==> j in Ips(from, n)
    {
      ChurnTotals(from, n, j);
    }
  }

  lemma CountedIsSeen(count: nat, now: Time, limit: nat)
    requires count > 0
    ensures Reduced(NEW_HISTORY, Input(None, Some(count), false), now, limit).lastSeen == Some(now)
  {
  }

  predicate AllSeenAt(hs: Histories, t: Time) {
    forall ip | ip in hs :: hs[ip].lastSeen == Some(t)
  }

  lemma ChurnSeen(s: Reducer, h: InfoHash, from: nat, n: nat, now: Time) returns (after: Reducer, hs: Histories)
    requires h !in s.histories
    ensures after == Reduce(s, h, Churn(from, n), now, IpsInOrder(from, n))
    ensures StepsTo(s, ReduceEvent(h, Churn(from, n), now, IpsInOrder(from, n)), after)
    ensures after.histories == s.histories[h := hs] && hs.Keys == Ips(from, n) && AllSeenAt(hs, now)
  {
    var m := Churn(from, n);
    after := Reduce(s, h, m, now, IpsInOrder(from, n));
    hs := after.histories[h];
    IpsOrdered(from, n);
    ChurnInput(from, n, V4(from));
    ReduceHistories(s, h, m, now, IpsInOrder(from, n));
    CountedIsSeen(10, now, TransferAbuseLimit(m.totalSize));
    forall ip | ip in hs
      ensures hs[ip].lastSeen == Some(now)
    {
      ChurnInput(from, n, ip);
    }
  }

  function Tagged(g: InfoHash, ips: set<IpAddr>): set<(InfoHash, IpAddr)> {
    set ip | ip in ips :: (g, ip)
  }

  lemma {:induction false} TaggedCount(g: InfoHash, ips: set<IpAddr>)
    ensures |Tagged(g, ips)| == |ips|
    decreases ips
  {
    if ips != {} {
      var ip :| ip in ips;
      TaggedCount(g, ips - {ip});
      assert Tagged(g, ips) == Tagged(g, ips - {ip}) + {(g, ip)};
    }
  }

  lemma HeldBoth(
    histories: map<InfoHash, Histories>, h: InfoHash, hs: Histories, g: InfoHash, gs: Histories,
    now: Time, next: Time)
    requires g != h && now < next < now + HISTORY_RETENTION
    requires histories == map[h := hs, g := gs] && AllSeenAt(hs, now) && AllSeenAt(gs, next)
    ensures Held(histories, next) == Tagged(h, hs.Keys) + Tagged(g, gs.Keys)
  {
    assert histories[h] == hs && histories[g] == gs;
  }

  lemma BothCount(h: InfoHash, g: InfoHash, max: nat)
    requires g != h
    ensures |Tagged(h, Ips(1, 1)) + Tagged(g, Ips(2, max))| == max + 1
    ensures Tagged(h, Ips(1, 1)) == {(h, V4(1))}
  {
    assert Ips(1, 1) == {V4(1)};
    assert Tagged(h, Ips(1, 1)) == {(h, V4(1))};
    TaggedCount(g, Ips(2, max));
    IpsCount(2, max);
    assert (h, V4(1)) !in Tagged(g, Ips(2, max));
  }

  lemma OneOlder(
    histories: map<InfoHash, Histories>, h: InfoHash, hs: Histories, g: InfoHash, gs: Histories,
    now: Time, next: Time, max: nat)
    requires g != h && now < next < now + HISTORY_RETENTION
    requires histories == map[h := hs, g := gs]
    requires hs.Keys == Ips(1, 1) && AllSeenAt(hs, now) && gs.Keys == Ips(2, max) && AllSeenAt(gs, next)
    ensures |Held(histories, next)| == max + 1 && EvictsOldest(histories, next, max, {(h, V4(1))})
    ensures IsOldest(histories, next, (h, V4(1)))
  {
    HeldBoth(histories, h, hs, g, gs, now, next);
    BothCount(h, g, max);
    forall b | b in Held(histories, next) && b != (h, V4(1))
      ensures SeenBefore(histories, (h, V4(1)), b) && !SeenBefore(histories, b, (h, V4(1)))
    {
      assert b.0 == g && histories[g] == gs && histories[h] == hs;
      assert LastSeen(gs[b.1]) == next && LastSeen(hs[V4(1)]) == now;
    }
  }

  /** For every cap: an address is restricted, as many others as the cap are seen a moment later,
      maintenance evicts the first, and the same metrics restrict it again at once. */
  lemma EvictionInstance(h: InfoHash, g: InfoHash, max: nat, now: Time, next: Time, later: Time)
    returns (once: Reducer, full: Reducer, cleaned: Reducer)
    requires g != h && now < next < now + HISTORY_RETENTION
    ensures StepsTo(Reducer(map[], map[], None), ReduceEvent(h, Churn(1, 1), now, [V4(1)]), once)
    ensures StepsTo(once, ReduceEvent(g, Churn(2, max), next, IpsInOrder(2, max)), full)
    ensures EvictsOldest(full.histories, next, max, {(h, V4(1))})
    ensures StepsTo(full, MaintainEvent(next, {(h, V4(1))}), cleaned)
    ensures VisitsAll(cleaned, h, Churn(1, 1), [V4(1)])
    ensures Sentenced(ObservedAll(HistoriesOf(cleaned, h), Churn(1, 1), later), [V4(1)], TransferAbuseLimit(0), V4(1))
  {
    assert IpsInOrder(1, 1) == [V4(1)];
    var hs, gs;
    once, hs := ChurnSeen(Reducer(map[], map[], None), h, 1, 1, now);
    full, gs := ChurnSeen(once, g, 2, max, next);
    OneOlder(full.histories, h, hs, g, gs, now, next, max);
    cleaned := Maintain(full, next, {(h, V4(1))});
    FirstVisited(cleaned, h, hs);
    ChurnInput(1, 1, V4(1));
    EvictedIsRestrictedAgain(full, h, Churn(1, 1), next, max, {(h, V4(1))}, later, [V4(1)], V4(1));
  }

  lemma FirstVisited(s: Reducer, h: InfoHash, hs: Histories)
    requires HistoriesOf(s, h).Keys <= hs.Keys == Ips(1, 1)
    ensures VisitsAll(s, h, Churn(1, 1), [V4(1)])
  {
    ChurnInput(1, 1, V4(1));
    assert Mentioned(HistoriesOf(s, h), Churn(1, 1)) == Mentioned(map[], Churn(1, 1)) + HistoriesOf(s, h).Keys;
    assert V4(1) in Ips(1, 1) && [V4(1)][0] == V4(1);
  }
}
