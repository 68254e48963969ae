/** The reducer as it runs: histories, restrictions and cached expiry updated in place. */
module PeerPolicyReducer {
  import opened Common
  import opened Iteration
  import opened PeerPolicy
  import opened PeerHistory
  import opened PeerHistoryLaws
  import opened PeerReducerPasses
  import Spec = PeerReducer

  lemma JudgedInRange(hs: Spec.Histories, limit: nat)
    requires AllInRange(hs)
    ensures AllInRange(Spec.JudgedAll(hs, limit))
  {
  }

  predicate TorrentsInRange(histories: map<InfoHash, Spec.Histories>) {
    forall h | h in histories :: AllInRange(histories[h])
  }

  lemma UpdatedInRange(histories: map<InfoHash, Spec.Histories>, h: InfoHash, hs: Spec.Histories)
    requires TorrentsInRange(histories) && AllInRange(hs)
    ensures TorrentsInRange(histories[h := hs])
  {
  }

  lemma PrunedInRange(hs: Spec.Histories, now: Time)
    requires AllInRange(hs)
    ensures AllInRange(Spec.PrunedHistories(hs, now))
  {
  }

  ghost function PruneTorrents(histories: map<InfoHash, Spec.Histories>, order: seq<InfoHash>, now: Time)
    : map<InfoHash, Spec.Histories>
    requires forall i | 0 <= i < |order| :: order[i] in histories
  {
    if order == [] then histories
    else
      var h := order[|order| - 1];
      PruneTorrents(histories, order[..|order| - 1], now)[h := Spec.PrunedHistories(histories[h], now)]
  }

  lemma {:induction false} PruneTorrentsAt(histories: map<InfoHash, Spec.Histories>, order: seq<InfoHash>, now: Time)
    requires forall i | 0 <= i < |order| :: order[i] in histories
    ensures PruneTorrents(histories, order, now).Keys == histories.Keys
    ensures forall h | h in histories ::
              PruneTorrents(histories, order, now)[h] ==
              if h in order then Spec.PrunedHistories(histories[h], now) else histories[h]
    decreases |order|
  {
    if order != [] {
      var front := order[..|order| - 1];
      PruneTorrentsAt(histories, front, now);
      assert order == front + [order[|order| - 1]];
    }
  }

  lemma PruneTorrentsStep(histories: map<InfoHash, Spec.Histories>, order: seq<InfoHash>, i: nat, now: Time)
    requires IsOrderOf(order, histories.Keys) && i < |order|
    ensures
      var before := PruneTorrents(histories, order[..i], now);
      && order[i] in before && before[order[i]] == histories[order[i]]
      && PruneTorrents(histories, order[..i + 1], now) ==
         before[order[i] := Spec.PrunedHistories(histories[order[i]], now)]
  {
    assert order[..i + 1][..i] == order[..i];
    PruneTorrentsAt(histories, order[..i], now);
  }

  lemma PruneTorrentsAll(histories: map<InfoHash, Spec.Histories>, order: seq<InfoHash>, now: Time)
    requires IsOrderOf(order, histories.Keys)
    ensures PruneTorrents(histories, order, now) == map h | h in histories :: Spec.PrunedHistories(histories[h], now)
  {
    PruneTorrentsAt(histories, order, now);
  }

  method PruneAll(histories: map<InfoHash, Spec.Histories>, now: Time)
    returns (after: map<InfoHash, Spec.Histories>, changed: bool)
    ensures after == map h | h in histories :: Spec.PrunedHistories(histories[h], now)
    ensures changed <==> after != histories
  {
    after, changed := histories, false;
    var hashes := Enumerate(histories.Keys);
    ghost var shorter := 0;
    for i := 0 to |hashes|
      invariant after == PruneTorrents(histories, hashes[..i], now)
      invariant !changed ==> after == histories
      invariant changed ==> 0 <= shorter < |hashes|
                            && Spec.PrunedHistories(histories[hashes[shorter]], now) != histories[hashes[shorter]]
    {
      PruneTorrentsStep(histories, hashes, i, now);
      var pruned, more := PruneTorrent(after[hashes[i]], now);
      after := after[hashes[i] := pruned];
      if more {
        changed := true;
        shorter := i;
      }
    }
    assert hashes[..|hashes|] == hashes;
    PruneTorrentsAll(histories, hashes, now);
    if changed {
      assert after[hashes[shorter]] != histories[hashes[shorter]];
    }
  }

  /** Observing and judging one torrent. */
  method ReduceTorrent(before: Spec.Histories, m: Spec.Metrics, now: Time)
    returns (after: Spec.Histories, sentences: seq<Spec.Sentence>, next: Option<Time>, ghost order: seq<IpAddr>)
    requires AllInRange(before)
    ensures IsOrderOf(order, Spec.Mentioned(before, m))
    ensures after == Spec.JudgedAll(Spec.ObservedAll(before, m, now), TransferAbuseLimit(m.totalSize))
    ensures AllInRange(after)
    ensures sentences == Spec.Sentences(Spec.ObservedAll(before, m, now), order, TransferAbuseLimit(m.totalSize))
    ensures next == Spec.ExpiryAlong(after, order)
  {
    var counts := CollectReconnectCounts(m.reconnectCounts);
    var observed, active := CollectPeers(m.peers, m.departed);
    var limit := TransferAbuseLimit(m.totalSize);
    var seen := ObserveAll(before, Facts(counts, observed, active, now), m, now);
    after, sentences, next, order := JudgeAll(seen, limit);
    JudgedInRange(seen, limit);
  }

  lemma ReduceIs(s: Spec.Reducer, h: InfoHash, m: Spec.Metrics, now: Time, order: seq<IpAddr>,
                 after: Spec.Histories, sentences: seq<Spec.Sentence>, next: Option<Time>)
    requires
      var observed := Spec.ObservedAll(if h in s.histories then s.histories[h] else map[], m, now);
      && after == Spec.JudgedAll(observed, TransferAbuseLimit(m.totalSize))
      && sentences == Spec.Sentences(observed, order, TransferAbuseLimit(m.totalSize))
      && next == Spec.ExpiryAlong(after, order)
    ensures Spec.Reduce(s, h, m, now, order) ==
            Spec.Reducer(s.histories[h := after], Spec.RestrictEach(s.policy, sentences, h, now),
                         Spec.Sooner(s.nextExpiry, next))
  {
  }

  class PeerPolicyReducer {
    var histories: map<InfoHash, Spec.Histories>
    const policy: PeerPolicyTable
    var nextReconnectExpiry: Option<Time>

    /** Counters fit their 64-bit fields. */
    ghost predicate Valid()
      reads this
    {
      TorrentsInRange(histories)
    }

    ghost function State(): Spec.Reducer
      reads this, policy
    {
      Spec.Reducer(histories, policy.restrictions, nextReconnectExpiry)
    }

    constructor (policy: PeerPolicyTable)
      ensures this.policy == policy && Valid()
      ensures State() == Spec.Reducer(map[], policy.restrictions, None)
    {
      this.policy := policy;
      histories := map[];
      nextReconnectExpiry := None;
    }

    method ReduceMetrics(h: InfoHash, m: Spec.Metrics, now: Time) returns (changed: bool, ghost order: seq<IpAddr>)
      requires Valid()
      modifies this, policy
      ensures Valid()
      ensures Spec.VisitsAll(old(State()), h, m, order)
      ensures State() == Spec.Reduce(old(State()), h, m, now, order)
      ensures !changed ==> policy.restrictions == old(policy.restrictions)
    {
      var before := if h in histories then histories[h] else map[];
      var after, sentences, next;
      after, sentences, next, order := ReduceTorrent(before, m, now);
      ReduceIs(State(), h, m, now, order, after, sentences, next);
      UpdatedInRange(histories, h, after);
      histories := histories[h := after];
      changed := RestrictAll(sentences, h, now);
      if next.Some? {
        nextReconnectExpiry := Some(
          if nextReconnectExpiry.Some? then Min(nextReconnectExpiry.value, next.value) else next.value);
      }
    }

    method RestrictAll(sentences: seq<Spec.Sentence>, h: InfoHash, now: Time) returns (changed: bool)
      modifies policy
      ensures policy.restrictions == Spec.RestrictEach(old(policy.restrictions), sentences, h, now)
      ensures !changed ==> policy.restrictions == old(policy.restrictions)
    {
      changed := false;
      for i := 0 to |sentences|
        invariant policy.restrictions == Spec.RestrictEach(old(policy.restrictions), sentences[..i], h, now)
        invariant !changed ==> policy.restrictions == old(policy.restrictions)
      {
        assert sentences[..i + 1][..i] == sentences[..i];
        var reason := sentences[i].reason;
        var duration :=
          if reason.ReconnectChurn? then Spec.RECONNECT_BLOCK_DURATION else Spec.EXCESSIVE_TRANSFER_BLOCK_DURATION;
        var more := policy.RestrictIp(sentences[i].ip, Restriction(now, now + duration, Some(h), reason),
                                      MAX_POLICY_RESTRICTIONS);
        changed := changed || more;
      }
      assert sentences[..|sentences|] == sentences;
    }

    method PruneReconnectEvidence(now: Time) returns (changed: bool)
      requires Valid()
      modifies this
      ensures Valid()
      ensures histories == map h | h in old(histories) :: Spec.PrunedHistories(old(histories)[h], now)
      ensures Spec.IsEarliestExpiry(histories, nextReconnectExpiry)
      ensures changed <==> histories != old(histories)
    {
      ghost var before := histories;
      histories, changed := PruneAll(histories, now);
      forall h | h in histories
        ensures AllInRange(histories[h])
      {
        PrunedInRange(before[h], now);
      }
      RefreshNextReconnectExpiry();
    }

    method RefreshNextReconnectExpiry()
      modifies this`nextReconnectExpiry
      ensures Spec.IsEarliestExpiry(histories, nextReconnectExpiry)
    {
      nextReconnectExpiry := EarliestExpiry(histories);
    }

    method RemoveTorrent(h: InfoHash)
      requires Valid()
      modifies this
      ensures Valid()
      ensures histories == old(histories) - {h}
      ensures Spec.IsEarliestExpiry(histories, nextReconnectExpiry)
    {
      histories := histories - {h};
      RefreshNextReconnectExpiry();
    }
  }
}
