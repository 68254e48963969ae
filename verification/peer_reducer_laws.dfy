/** The reducer over whole runs: the cached expiry is never late, a replay changes no policy, and
    a reduction that reports no change made none. */
module PeerReducerLaws {
  import opened Common
  import opened Iteration
  import opened PeerPolicy
  import opened PeerHistory
  import opened PeerHistoryLaws
  import opened PeerReducer

  // Reconnects are stored oldest first.

  predicate Ordered(reconnects: seq<Time>, t: Time) {
    && (forall i, j | 0 <= i < j < |reconnects| :: reconnects[i] <= reconnects[j])
    && (forall i | 0 <= i < |reconnects| :: reconnects[i] <= t)
  }

  lemma {:induction false} PruneOrdered(reconnects: seq<Time>, t: Time, now: Time)
    requires Ordered(reconnects, t)
    ensures Ordered(Prune(reconnects, now), t)
    decreases |reconnects|
  {
    if reconnects != [] {
      var front := reconnects[..|reconnects| - 1];
      PruneOrdered(front, t, now);
      PruneFresh(front, now);
      forall i | 0 <= i < |Prune(front, now)|
        ensures Prune(front, now)[i] <= reconnects[|reconnects| - 1]
      {
        assert Prune(front, now)[i] in front;
      }
    }
  }

  lemma AppendOrdered(reconnects: seq<Time>, t: Time, now: Time, n: nat)
    requires Ordered(reconnects, t) && t <= now
    ensures Ordered(reconnects + Repeat(now, n), now)
  {
  }

  lemma ObservedOrdered(h: History, input: Input, t: Time, now: Time)
    requires Ordered(h.reconnects, t) && t <= now
    ensures Ordered(Observed(h, input, now).reconnects, now)
  {
    PruneOrdered(h.reconnects, t, now);
    var absent := if !input.active && input.endpoints.None? then ObservedAbsence(h, now) else h;
    PruneOrdered(absent.reconnects, t, now);
    var kept := Prune(absent.reconnects, now);
    var counted := if input.reconnects.Some? then ObservedReconnects(absent, input.reconnects.value, now) else absent;
    if input.reconnects.Some? {
      var n := Min(NewReconnects(absent, input.reconnects.value), SatSub(RECONNECT_LIMIT, |kept|));
      AppendOrdered(kept, t, now, n);
    }
    assert Ordered(counted.reconnects, now);
    if input.endpoints.Some? {
      AppendOrdered(counted.reconnects, now, now, 1);
      AppendOrdered(counted.reconnects, now, now, 0);
      assert Repeat(now, 1) == [now] && Repeat(now, 0) == [];
      PruneOrdered(counted.reconnects + [now], now, now);
      PruneOrdered(counted.reconnects + [], now, now);
    }
  }

  predicate HistoriesOrdered(hs: Histories, t: Time) {
    forall ip | ip in hs :: Ordered(hs[ip].reconnects, t)
  }

  predicate AllOrdered(s: Reducer, t: Time) {
    forall h | h in s.histories :: HistoriesOrdered(s.histories[h], t)
  }

  // The cache.

  /** No history of this torrent holds a reconnect that expires before `next`. */
  predicate Covers(next: Option<Time>, hs: Histories) {
    forall ip | ip in hs && hs[ip].reconnects != [] ::
      next.Some? && next.value <= hs[ip].reconnects[0] + RECONNECT_WINDOW
  }

  predicate CacheCovers(s: Reducer) {
    forall h | h in s.histories :: Covers(s.nextExpiry, s.histories[h])
  }

  lemma {:induction false} ExpiryAlongCovers(hs: Histories, order: seq<IpAddr>)
    ensures forall ip | ip in order && ip in hs && hs[ip].reconnects != [] ::
              ExpiryAlong(hs, order).Some?
              && ExpiryAlong(hs, order).value <= hs[ip].reconnects[0] + RECONNECT_WINDOW
    decreases |order|
  {
    if order != [] {
      var front := order[..|order| - 1];
      ExpiryAlongCovers(hs, front);
      assert order == front + [order[|order| - 1]];
    }
  }

  lemma CoversSooner(a: Option<Time>, b: Option<Time>, hs: Histories)
    requires Covers(a, hs) || Covers(b, hs)
    ensures Covers(PeerReducer.Sooner(a, b), hs)
  {
  }

  datatype ReducerEvent =
    | ReduceEvent(h: InfoHash, m: Metrics, at: Time, order: seq<IpAddr>)
    | MaintainEvent(maintainedAt: Time, evicted: set<(InfoHash, IpAddr)>)
    | PruneEvent(prunedAt: Time)
    | RemoveEvent(removed: InfoHash)

  /** One step; pruning and removal recompute the cache from all stored reconnects. */
  ghost predicate StepsTo(s: Reducer, e: ReducerEvent, after: Reducer) {
    match e
    case ReduceEvent(h, m, now, order) => VisitsAll(s, h, m, order) && after == Reduce(s, h, m, now, order)
    case MaintainEvent(now, evicted) => after == Maintain(s, now, evicted)
    case PruneEvent(now) =>
      && after.histories == (map h | h in s.histories :: PrunedHistories(s.histories[h], now))
      && after.policy == s.policy
      && IsEarliestExpiry(after.histories, after.nextExpiry)
    case RemoveEvent(h) =>
      && after.histories == s.histories - {h}
      && after.policy == s.policy
      && IsEarliestExpiry(after.histories, after.nextExpiry)
  }

  function EventTime(e: ReducerEvent, t: Time): Time {
    match e
    case ReduceEvent(_, _, now, _) => now
    case MaintainEvent(now, _) => now
    case PruneEvent(now) => now
    case RemoveEvent(_) => t
  }

  lemma EarliestCovers(histories: map<InfoHash, Histories>, next: Option<Time>, h: InfoHash)
    requires IsEarliestExpiry(histories, next) && h in histories
    ensures Covers(next, histories[h])
  {
    forall ip | ip in histories[h] && histories[h][ip].reconnects != []
      ensures next.Some? && next.value <= histories[h][ip].reconnects[0] + RECONNECT_WINDOW
    {
      assert StoredAt(histories, h, ip, 0);
    }
  }

  lemma JudgedOrdered(before: Histories, m: Metrics, limit: nat, t: Time, now: Time)
    requires HistoriesOrdered(before, t) && t <= now
    ensures HistoriesOrdered(JudgedAll(ObservedAll(before, m, now), limit), now)
  {
    var judged := JudgedAll(ObservedAll(before, m, now), limit);
    forall ip | ip in judged
      ensures Ordered(judged[ip].reconnects, now)
    {
      ObservedOrdered(HistoryAt(before, ip), InputFor(m, ip), t, now);
    }
  }

  /** Replacing one torrent's histories and taking its earliest expiry into account. */
  lemma UpdateStep(s: Reducer, h: InfoHash, judged: Histories, order: seq<IpAddr>, policy: Policy, t: Time, now: Time)
    requires AllOrdered(s, t) && CacheCovers(s) && t <= now
    requires HistoriesOrdered(judged, now) && forall ip | ip in judged :: ip in order
    ensures var next := PeerReducer.Sooner(s.nextExpiry, ExpiryAlong(judged, order));
            var after := Reducer(s.histories[h := judged], policy, next);
            AllOrdered(after, now) && CacheCovers(after)
  {
    ExpiryAlongCovers(judged, order);
    assert Covers(ExpiryAlong(judged, order), judged);
    var all := s.histories[h := judged];
    forall g | g in all
      ensures Covers(PeerReducer.Sooner(s.nextExpiry, ExpiryAlong(judged, order)), all[g])
    {
      CoversSooner(s.nextExpiry, ExpiryAlong(judged, order), all[g]);
    }
  }

  lemma ReduceStep(s: Reducer, h: InfoHash, m: Metrics, now: Time, order: seq<IpAddr>, t: Time)
    requires AllOrdered(s, t) && CacheCovers(s) && t <= now && VisitsAll(s, h, m, order)
    ensures AllOrdered(Reduce(s, h, m, now, order), now) && CacheCovers(Reduce(s, h, m, now, order))
  {
    var before := if h in s.histories then s.histories[h] else map[];
    var limit := TransferAbuseLimit(m.totalSize);
    JudgedOrdered(before, m, limit, t, now);
    UpdateStep(s, h, JudgedAll(ObservedAll(before, m, now), limit), order, Reduce(s, h, m, now, order).policy, t, now);
  }

  lemma PruneStep(s: Reducer, now: Time, after: Reducer, t: Time)
    requires AllOrdered(s, t) && t <= now && StepsTo(s, PruneEvent(now), after)
    ensures AllOrdered(after, now) && CacheCovers(after)
  {
    forall h | h in after.histories
      ensures HistoriesOrdered(after.histories[h], now) && Covers(after.nextExpiry, after.histories[h])
    {
      EarliestCovers(after.histories, after.nextExpiry, h);
      forall ip | ip in after.histories[h]
        ensures Ordered(after.histories[h][ip].reconnects, now)
      {
        PruneOrdered(s.histories[h][ip].reconnects, t, now);
      }
    }
  }

  lemma StepKeepsCache(s: Reducer, e: ReducerEvent, after: Reducer, t: Time)
    requires AllOrdered(s, t) && CacheCovers(s) && t <= EventTime(e, t) && StepsTo(s, e, after)
    ensures AllOrdered(after, EventTime(e, t)) && CacheCovers(after)
  {
    match e {
      case ReduceEvent(h, m, now, order) => ReduceStep(s, h, m, now, order, t);
      case MaintainEvent(now, evicted) => MaintainStep(s, now, evicted, t);
      case PruneEvent(now) => PruneStep(s, now, after, t);
      case RemoveEvent(h) =>
        forall g | g in after.histories
          ensures Covers(after.nextExpiry, after.histories[g])
        {
          EarliestCovers(after.histories, after.nextExpiry, g);
        }
    }
  }

  lemma MaintainStep(s: Reducer, now: Time, evicted: set<(InfoHash, IpAddr)>, t: Time)
    requires AllOrdered(s, t) && CacheCovers(s) && t <= now
    ensures AllOrdered(Maintain(s, now, evicted), now) && CacheCovers(Maintain(s, now, evicted))
  {
    var after := Maintain(s, now, evicted);
    forall h | h in after.histories
      ensures HistoriesOrdered(after.histories[h], now) && Covers(after.nextExpiry, after.histories[h])
    {
      assert h in s.histories && HistoriesOrdered(s.histories[h], t) && Covers(s.nextExpiry, s.histories[h]);
      forall ip | ip in after.histories[h]
        ensures ip in s.histories[h] && after.histories[h][ip] == s.histories[h][ip]
      {
      }
    }
  }

  /** A run: the states after each event, under a clock that never runs backwards. */
  ghost predicate IsRun(s: Reducer, events: seq<ReducerEvent>, states: seq<Reducer>, t: Time)
    decreases |events|
  {
    && |states| == |events|
    && (events != [] ==>
          && t <= EventTime(events[0], t)
          && StepsTo(s, events[0], states[0])
          && IsRun(states[0], events[1..], states[1..], EventTime(events[0], t)))
  }

  lemma {:induction false} RunKeepsCache(s: Reducer, events: seq<ReducerEvent>, states: seq<Reducer>, t: Time, k: nat)
    requires AllOrdered(s, t) && CacheCovers(s) && IsRun(s, events, states, t) && k < |states|
    ensures CacheCovers(states[k])
    ensures exists u :: AllOrdered(states[k], u)
    decreases |events|
  {
    StepKeepsCache(s, events[0], states[0], t);
    if k > 0 {
      RunKeepsCache(states[0], events[1..], states[1..], EventTime(events[0], t), k - 1);
    }
  }

  /** From an empty reducer, after every reduction, maintenance, pruning and removal: if any
      torrent holds any reconnect, the cache is set, and no later than when the first of them
      leaves the window. */
  lemma CacheNeverLate(
    policy: Policy, events: seq<ReducerEvent>, states: seq<Reducer>, t: Time, k: nat, h: InfoHash, ip: IpAddr, i: nat)
    requires IsRun(Reducer(map[], policy, None), events, states, t) && k < |states|
    requires StoredAt(states[k].histories, h, ip, i)
    ensures states[k].nextExpiry.Some?
    ensures states[k].nextExpiry.value <= states[k].histories[h][ip].reconnects[i] + RECONNECT_WINDOW
  {
    RunKeepsCache(Reducer(map[], policy, None), events, states, t, k);
    var u :| AllOrdered(states[k], u);
    assert HistoriesOrdered(states[k].histories[h], u);
    assert Covers(states[k].nextExpiry, states[k].histories[h]);
  }

  /** Right after a prune the cached time lies in the future, so a timer armed with it cannot spin. */
  lemma PruneLeavesFuture(s: Reducer, now: Time, after: Reducer)
    requires StepsTo(s, PruneEvent(now), after)
    ensures after.nextExpiry.Some? ==> after.nextExpiry.value > now
  {
    if after.nextExpiry.Some? {
      var h, ip, i :| StoredAt(after.histories, h, ip, i)
        && after.nextExpiry.value == after.histories[h][ip].reconnects[i] + RECONNECT_WINDOW;
      PruneFresh(s.histories[h][ip].reconnects, now);
      assert Fresh(after.histories[h][ip].reconnects[i], now);
    }
  }

  // Replay.

  lemma {:induction false} NoSentences(hs: Histories, order: seq<IpAddr>, limit: nat)
    requires forall ip | ip in hs :: Verdict(hs[ip], limit) == None
    ensures Sentences(hs, order, limit) == []
    decreases |order|
  {
    if order != [] {
      NoSentences(hs, order[..|order| - 1], limit);
    }
  }

  function HistoriesOf(s: Reducer, h: InfoHash): Histories {
    if h in s.histories then s.histories[h] else map[]
  }

  /** What a reduction stores for its torrent. */
  lemma ReduceHistories(s: Reducer, h: InfoHash, m: Metrics, now: Time, order: seq<IpAddr>)
    ensures
      var before := HistoriesOf(s, h);
      var after := HistoriesOf(Reduce(s, h, m, now, order), h);
      && after.Keys == Mentioned(before, m) == Mentioned(after, m)
      && forall ip | ip in after ::
           after[ip] == Reduced(HistoryAt(before, ip), InputFor(m, ip), now, TransferAbuseLimit(m.totalSize))
  {
    var after := HistoriesOf(Reduce(s, h, m, now, order), h);
    assert after.Keys == Mentioned(HistoriesOf(s, h), m);
  }

  lemma ReplayVerdicts(before: Histories, hs: Histories, m: Metrics, now: Time, later: Time)
    requires now <= later && hs.Keys == Mentioned(hs, m)
    requires forall ip | ip in hs ::
               hs[ip] == Reduced(HistoryAt(before, ip), InputFor(m, ip), now, TransferAbuseLimit(m.totalSize))
    ensures forall ip | ip in ObservedAll(hs, m, later) ::
              Verdict(ObservedAll(hs, m, later)[ip], TransferAbuseLimit(m.totalSize)) == None
  {
    forall ip | ip in ObservedAll(hs, m, later)
      ensures Verdict(ObservedAll(hs, m, later)[ip], TransferAbuseLimit(m.totalSize)) == None
    {
      ReplayOne(before, hs, m, now, later, ip);
    }
  }

  /** Reducing the same metrics of a torrent again later changes no restriction, ... */
  lemma ReplayKeepsPolicy(
    s: Reducer, h: InfoHash, m: Metrics, now: Time, later: Time, order: seq<IpAddr>, again: seq<IpAddr>)
    requires now <= later
    ensures
      var once := Reduce(s, h, m, now, order);
      Reduce(once, h, m, later, again).policy == once.policy
  {
    var once := Reduce(s, h, m, now, order);
    ReduceHistories(s, h, m, now, order);
    var hs := HistoriesOf(once, h);
    ReplayVerdicts(HistoriesOf(s, h), hs, m, now, later);
    NoSentences(ObservedAll(hs, m, later), again, TransferAbuseLimit(m.totalSize));
  }

  /** ... and no counter of any address; reconnects only age. */
  lemma ReplayKeepsCounters(
    s: Reducer, h: InfoHash, m: Metrics, now: Time, later: Time, order: seq<IpAddr>, again: seq<IpAddr>, ip: IpAddr)
    requires now <= later
    requires ip in HistoriesOf(Reduce(s, h, m, now, order), h)
    ensures
      var once := Reduce(s, h, m, now, order);
      var twice := Reduce(once, h, m, later, again);
      && HistoriesOf(twice, h).Keys == HistoriesOf(once, h).Keys
      && var (a, b) := (HistoriesOf(once, h)[ip], HistoriesOf(twice, h)[ip]);
         b == a.(seen := b.seen, lastSeen := b.lastSeen, reconnects := Prune(a.reconnects, later))
  {
    var once := Reduce(s, h, m, now, order);
    ReduceHistories(s, h, m, now, order);
    ReduceHistories(once, h, m, later, again);
    ReplayOne(HistoriesOf(s, h), HistoriesOf(once, h), m, now, later, ip);
  }

  lemma ReplayOne(before: Histories, hs: Histories, m: Metrics, now: Time, later: Time, ip: IpAddr)
    requires now <= later && ip in hs
    requires hs[ip] == Reduced(HistoryAt(before, ip), InputFor(m, ip), now, TransferAbuseLimit(m.totalSize))
    ensures
      var again := Observed(hs[ip], InputFor(m, ip), later);
      && Verdict(again, TransferAbuseLimit(m.totalSize)) == None
      && again == hs[ip].(seen := again.seen, lastSeen := again.lastSeen, reconnects := Prune(hs[ip].reconnects, later))
  {
    InputsWellFormed(m, ip);
    var r := Reduction(InputFor(m, ip), now, TransferAbuseLimit(m.totalSize));
    ReducedSettles(HistoryAt(before, ip), r);
    ObserveAgain(hs[ip], r.input, later);
    PruneFresh(hs[ip].reconnects, later);
  }
}
