/** Replaying a torrent's metrics after maintenance: when an address is restricted a second time. */
module PeerReplay {
  import opened Common
  import opened ByteStrings
  import opened Iteration
  import opened PeerPolicy
  import opened PeerHistory
  import opened PeerHistoryLaws
  import opened PeerReducer
  import opened PeerReducerLaws

  /** Maintenance drops a stale history, and any that it evicts. */
  predicate Dropped(s: Reducer, h: InfoHash, ip: IpAddr, now: Time, evicted: set<(InfoHash, IpAddr)>) {
    ip in HistoriesOf(s, h) && (IsStale(HistoriesOf(s, h)[ip], now) || (h, ip) in evicted)
  }

  lemma MaintainedAt(s: Reducer, now: Time, evicted: set<(InfoHash, IpAddr)>, h: InfoHash, ip: IpAddr)
    ensures HistoryAt(HistoriesOf(Maintain(s, now, evicted), h), ip) ==
            if Dropped(s, h, ip, now, evicted) then NEW_HISTORY else HistoryAt(HistoriesOf(s, h), ip)
  {
    if h in s.histories {
      var kept := map ip | ip in s.histories[h] && !IsStale(s.histories[h][ip], now) && (h, ip) !in evicted ::
        s.histories[h][ip];
      assert HistoriesOf(Maintain(s, now, evicted), h) == kept;
    }
  }

  /** A reduction restricts `ip`. */
  predicate Sentenced(hs: Histories, order: seq<IpAddr>, limit: nat, ip: IpAddr) {
    exists i :: 0 <= i < |Sentences(hs, order, limit)| && Sentences(hs, order, limit)[i].ip == ip
  }

  lemma {:induction false} SentencedIff(hs: Histories, order: seq<IpAddr>, limit: nat, ip: IpAddr)
    ensures Sentenced(hs, order, limit, ip) <==> ip in order && ip in hs && Verdict(hs[ip], limit).Some?
    decreases |order|
  {
    if order != [] {
      var front := order[..|order| - 1];
      var last := order[|order| - 1];
      var rest, all := Sentences(hs, front, limit), Sentences(hs, order, limit);
      assert order == front + [last];
      SentencedIff(hs, front, limit, ip);
      if Sentenced(hs, front, limit, ip) {
        var i :| 0 <= i < |rest| && rest[i].ip == ip;
        assert all[i] == rest[i];
      }
      if last in hs && Verdict(hs[last], limit).Some? {
        assert all[|rest|].ip == last;
      }
      if Sentenced(hs, order, limit, ip) && !Sentenced(hs, front, limit, ip) {
        var i :| 0 <= i < |all| && all[i].ip == ip;
        assert i == |rest|;
      }
    }
  }

  /** The same metrics reduced, maintained and reduced again: an address is restricted by the second
      reduction if and only if maintenance dropped its history and its listing alone exceeds a limit. */
  lemma ReplayRestrictsExactly(
    s: Reducer, h: InfoHash, m: Metrics, now: Time, order: seq<IpAddr>,
    middle: Time, evicted: set<(InfoHash, IpAddr)>, later: Time, again: seq<IpAddr>, ip: IpAddr)
    requires now <= middle <= later
    requires
      var once := Reduce(s, h, m, now, order);
      VisitsAll(Maintain(once, middle, evicted), h, m, again)
    ensures
      var once := Reduce(s, h, m, now, order);
      var kept := HistoriesOf(Maintain(once, middle, evicted), h);
      var limit := TransferAbuseLimit(m.totalSize);
      Sentenced(ObservedAll(kept, m, later), again, limit, ip) <==>
        Dropped(once, h, ip, middle, evicted) && ListingExceeds(InputFor(m, ip), limit)
  {
    var once := Reduce(s, h, m, now, order);
    ReplayAt(s, h, m, now, order, middle, evicted, later, ip);
    VerdictSentences(Maintain(once, middle, evicted), h, m, later, again, ip);
  }

  /** A reduction restricts an address it knows exactly on a verdict, and knows every listed one. */
  lemma VerdictSentences(s: Reducer, h: InfoHash, m: Metrics, later: Time, again: seq<IpAddr>, ip: IpAddr)
    requires VisitsAll(s, h, m, again)
    ensures
      var hs, limit := HistoriesOf(s, h), TransferAbuseLimit(m.totalSize);
      && (Sentenced(ObservedAll(hs, m, later), again, limit, ip) <==>
            ip in Mentioned(hs, m) && Verdict(Observed(HistoryAt(hs, ip), InputFor(m, ip), later), limit).Some?)
      && (ListingExceeds(InputFor(m, ip), limit) ==> ip in Mentioned(hs, m))
  {
    var hs, limit := HistoriesOf(s, h), TransferAbuseLimit(m.totalSize);
    SentencedIff(ObservedAll(hs, m, later), again, limit, ip);
    assert ip in again <==> ip in Mentioned(hs, m);
    ExceedingIsMentioned(hs, m, ip, limit);
  }

  lemma ExceedingIsMentioned(hs: Histories, m: Metrics, ip: IpAddr, limit: nat)
    ensures ListingExceeds(InputFor(m, ip), limit) ==> ip in Mentioned(hs, m)
  {
  }

  lemma ReplayAt(
    s: Reducer, h: InfoHash, m: Metrics, now: Time, order: seq<IpAddr>,
    middle: Time, evicted: set<(InfoHash, IpAddr)>, later: Time, ip: IpAddr)
    requires now <= middle <= later
    ensures
      var once := Reduce(s, h, m, now, order);
      var kept := HistoriesOf(Maintain(once, middle, evicted), h);
      var limit := TransferAbuseLimit(m.totalSize);
      Verdict(Observed(HistoryAt(kept, ip), InputFor(m, ip), later), limit).Some? <==>
        Dropped(once, h, ip, middle, evicted) && ListingExceeds(InputFor(m, ip), limit)
  {
    var once := Reduce(s, h, m, now, order);
    var limit := TransferAbuseLimit(m.totalSize);
    var r := Reduction(InputFor(m, ip), now, limit);
    var dropped := Dropped(once, h, ip, middle, evicted);
    InputsWellFormed(m, ip);
    MaintainedAt(once, middle, evicted, h, ip);
    ReduceHistories(s, h, m, now, order);
    ReplayExactly(HistoryAt(HistoriesOf(s, h), ip), r, dropped, later);
    if ip !in HistoriesOf(once, h) {
      NewHistoryVerdict(r.input, later, limit);
      ExceedingIsMentioned(HistoriesOf(s, h), m, ip, limit);
    }
  }

  lemma ListedIsSeen(h: History, input: Input, now: Time, limit: nat)
    requires input.endpoints.Some?
    ensures Reduced(h, input, now, limit).present == input.active
    ensures Reduced(h, input, now, limit).lastSeen == Some(now)
  {
  }

  /** For a listed address, in terms of the listing alone: it is restricted again if and only if it
      exceeds a limit and its history was evicted, or it has no connected endpoint and an hour had
      passed at maintenance. */
  lemma ListedReplayExactly(
    s: Reducer, h: InfoHash, m: Metrics, now: Time, order: seq<IpAddr>,
    middle: Time, evicted: set<(InfoHash, IpAddr)>, later: Time, again: seq<IpAddr>, ip: IpAddr)
    requires now <= middle <= later && InputFor(m, ip).endpoints.Some?
    requires VisitsAll(Maintain(Reduce(s, h, m, now, order), middle, evicted), h, m, again)
    ensures
      var kept := HistoriesOf(Maintain(Reduce(s, h, m, now, order), middle, evicted), h);
      var limit := TransferAbuseLimit(m.totalSize);
      Sentenced(ObservedAll(kept, m, later), again, limit, ip) <==>
        && ListingExceeds(InputFor(m, ip), limit)
        && ((h, ip) in evicted || (!InputFor(m, ip).active && middle - now >= HISTORY_RETENTION))
  {
    ReplayRestrictsExactly(s, h, m, now, order, middle, evicted, later, again, ip);
    ReduceHistories(s, h, m, now, order);
    ListedIsSeen(HistoryAt(HistoriesOf(s, h), ip), InputFor(m, ip), now, TransferAbuseLimit(m.totalSize));
    assert ip in HistoriesOf(Reduce(s, h, m, now, order), h);
  }

  // Which histories are evicted.

  /** The histories that are not stale. */
  function Held(histories: map<InfoHash, Histories>, now: Time): set<(InfoHash, IpAddr)> {
    set h, ip | h in histories && ip in histories[h] && !IsStale(histories[h][ip], now) :: (h, ip)
  }

  /** The order of eviction: who was seen longest ago, ties by torrent and address. A history never
      seen counts as seen at the epoch. */
  predicate SeenBefore(histories: map<InfoHash, Histories>, a: (InfoHash, IpAddr), b: (InfoHash, IpAddr))
    requires a.0 in histories && a.1 in histories[a.0] && b.0 in histories && b.1 in histories[b.0]
  {
    var x, y := LastSeen(histories[a.0][a.1]), LastSeen(histories[b.0][b.1]);
    || x < y
    || (x == y && Less(a.0, b.0))
    || (x == y && a.0 == b.0 && IpLess(a.1, b.1))
  }

  function LastSeen(h: History): Time {
    if h.lastSeen.Some? then h.lastSeen.value else 0
  }

  /** The oldest beyond `max` of the histories that are not stale. */
  predicate EvictsOldest(
    histories: map<InfoHash, Histories>, now: Time, max: nat, evicted: set<(InfoHash, IpAddr)>) {
    && evicted <= Held(histories, now)
    && |evicted| == SatSub(|Held(histories, now)|, max)
    && forall a, b | a in evicted && b in Held(histories, now) - evicted :: SeenBefore(histories, a, b)
  }

  predicate IsOldest(histories: map<InfoHash, Histories>, now: Time, oldest: (InfoHash, IpAddr)) {
    oldest in Held(histories, now)
    && forall b | b in Held(histories, now) && b != oldest :: !SeenBefore(histories, b, oldest)
  }

  lemma OldestIsEvicted(
    histories: map<InfoHash, Histories>, now: Time, max: nat, evicted: set<(InfoHash, IpAddr)>,
    oldest: (InfoHash, IpAddr))
    requires EvictsOldest(histories, now, max, evicted) && |Held(histories, now)| > max
    requires IsOldest(histories, now, oldest)
    ensures oldest in evicted
  {
    assert evicted != {};
    var a :| a in evicted;
    assert SeenBefore(histories, a, oldest) ==> a == oldest;
  }

  lemma ForgottenVerdict(s: Reducer, h: InfoHash, m: Metrics, later: Time, again: seq<IpAddr>, ip: IpAddr)
    requires HistoryAt(HistoriesOf(s, h), ip) == NEW_HISTORY && VisitsAll(s, h, m, again)
    ensures
      var limit := TransferAbuseLimit(m.totalSize);
      Sentenced(ObservedAll(HistoriesOf(s, h), m, later), again, limit, ip) <==> ListingExceeds(InputFor(m, ip), limit)
  {
    var limit := TransferAbuseLimit(m.totalSize);
    NewHistoryVerdict(InputFor(m, ip), later, limit);
    VerdictSentences(s, h, m, later, again, ip);
  }

  /** Eviction needs no hour: in whatever state, and whatever happened before, when maintenance finds
      more histories than the cap, the one seen longest ago is forgotten, and the next reduction
      restricts its address if and only if the listing alone exceeds a limit. */
  lemma EvictedIsRestrictedAgain(
    s: Reducer, h: InfoHash, m: Metrics, now: Time, max: nat, evicted: set<(InfoHash, IpAddr)>,
    later: Time, again: seq<IpAddr>, ip: IpAddr)
    requires EvictsOldest(s.histories, now, max, evicted) && |Held(s.histories, now)| > max
    requires IsOldest(s.histories, now, (h, ip)) && VisitsAll(Maintain(s, now, evicted), h, m, again)
    ensures
      var kept := HistoriesOf(Maintain(s, now, evicted), h);
      var limit := TransferAbuseLimit(m.totalSize);
      Sentenced(ObservedAll(kept, m, later), again, limit, ip) <==> ListingExceeds(InputFor(m, ip), limit)
  {
    OldestIsEvicted(s.histories, now, max, evicted, (h, ip));
    MaintainedAt(s, now, evicted, h, ip);
    assert HistoriesOf(s, h) == s.histories[h];
    ForgottenVerdict(Maintain(s, now, evicted), h, m, later, again, ip);
  }
}
