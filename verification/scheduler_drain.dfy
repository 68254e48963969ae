/** What a drain dispatches: the first due torrents in dispatch order. */
module SchedulerDrain {
  import opened Common
  import opened Iteration
  import opened FileProbe
  import opened TorrentIntegrity
  import opened SchedulerSpec
  import opened SchedulerSlots

  /** `hs` lists the first `|hs|` members of `due` in dispatch order. */
  predicate IsPrefix(torrents: Torrents, due: set<InfoHash>, hs: seq<InfoHash>)
    requires due <= torrents.Keys
  {
    && (forall i | 0 <= i < |hs| :: hs[i] in due)
    && (forall i, j | 0 <= i < j < |hs| :: Before(torrents, hs[i], hs[j]))
    && (forall i, h | 0 <= i < |hs| && h in due && h !in hs :: Before(torrents, hs[i], h))
  }

  /** Every picked torrent is asked for its own next range of files under its own epoch. */
  predicate AreRequestsFor(torrents: Torrents, hs: seq<InfoHash>, requests: seq<ProbeBatchRequest>)
    requires forall i | 0 <= i < |hs| :: hs[i] in torrents
  {
    |requests| == |hs| && forall i | 0 <= i < |hs| :: requests[i] == RequestFor(hs[i], torrents[hs[i]])
  }

  function Picked(requests: seq<ProbeBatchRequest>): seq<InfoHash> {
    seq(|requests|, i requires 0 <= i < |requests| => requests[i].infoHash)
  }

  /** The torrents after dispatching: the picked ones started, the rest untouched. */
  function Dispatched(s: Scheduler, picked: seq<InfoHash>): Torrents {
    map h | h in s.torrents :: if h in picked then Started(s.torrents[h], s.now) else s.torrents[h]
  }

  /** Two tables that dispatch in the same order. */
  predicate SameOrder(a: Torrents, b: Torrents) {
    && a.Keys == b.Keys
    && forall h | h in a :: a[h].Rank() == b[h].Rank() && a[h].nextDueAt == b[h].nextDueAt
  }

  lemma PrefixCons(torrents: Torrents, due: set<InfoHash>, h: InfoHash, rest: seq<InfoHash>)
    requires due <= torrents.Keys && h in due
    requires forall g | g in due && g != h :: Before(torrents, h, g)
    requires IsPrefix(torrents, due - {h}, rest)
    ensures IsPrefix(torrents, due, [h] + rest)
  {
    var hs := [h] + rest;
    forall i | 0 <= i < |hs|
      ensures hs[i] in due
      ensures i > 0 ==> Before(torrents, h, hs[i])
    {
      assert i > 0 ==> hs[i] == rest[i - 1];
    }
    forall i, g | 0 <= i < |hs| && g in due && g !in hs
      ensures Before(torrents, hs[i], g)
    {
      assert hs[0] == h && g != h;
    }
  }

  lemma PrefixTail(torrents: Torrents, due: set<InfoHash>, hs: seq<InfoHash>)
    requires due <= torrents.Keys && IsPrefix(torrents, due, hs) && hs != []
    ensures IsPrefix(torrents, due - {hs[0]}, hs[1..])
    ensures forall g | g in due && g != hs[0] :: Before(torrents, hs[0], g)
  {
    var rest := hs[1..];
    forall i | 0 <= i < |rest|
      ensures rest[i] in due - {hs[0]}
    {
      BeforeAsymmetric(torrents, hs[0], hs[i + 1]);
    }
  }

  /** A list with these properties is unique for its length, so the order in which the
      table is scanned cannot matter. */
  lemma {:induction false} PrefixUnique(torrents: Torrents, due: set<InfoHash>, a: seq<InfoHash>, b: seq<InfoHash>)
    requires due <= torrents.Keys
    requires IsPrefix(torrents, due, a) && IsPrefix(torrents, due, b) && |a| == |b|
    ensures a == b
    decreases |a|
  {
    if a != [] {
      PrefixTail(torrents, due, a);
      PrefixTail(torrents, due, b);
      if a[0] != b[0] {
        BeforeAsymmetric(torrents, a[0], b[0]);
      }
      PrefixUnique(torrents, due - {a[0]}, a[1..], b[1..]);
      assert a == [a[0]] + a[1..] && b == [b[0]] + b[1..];
    }
  }

  lemma {:induction false} PrefixDistinct(torrents: Torrents, due: set<InfoHash>, hs: seq<InfoHash>)
    requires due <= torrents.Keys && IsPrefix(torrents, due, hs)
    ensures |set h | h in hs| == |hs| <= |due|
    decreases |hs|
  {
    if hs == [] {
      assert (set h | h in hs) == {};
    } else {
      PrefixTail(torrents, due, hs);
      PrefixDistinct(torrents, due - {hs[0]}, hs[1..]);
      assert hs == [hs[0]] + hs[1..];
      assert (set h | h in hs) == {hs[0]} + (set h | h in hs[1..]);
      assert hs[0] !in hs[1..];
    }
  }

  lemma StartKeepsOrder(s: Scheduler, h: InfoHash)
    requires h in Due(s)
    ensures Due(StartProbe(s, h)) == Due(s) - {h}
    ensures SameOrder(s.torrents, StartProbe(s, h).torrents)
  {
  }

  lemma DispatchedCons(s: Scheduler, h: InfoHash, rest: seq<InfoHash>)
    requires h in s.torrents && h !in rest
    ensures Dispatched(StartProbe(s, h), rest) == Dispatched(s, [h] + rest)
  {
  }

  ghost predicate Selects(torrents: Torrents, s: Scheduler, after: Scheduler, requests: seq<ProbeBatchRequest>)
    requires SameOrder(torrents, s.torrents)
  {
    && IsPrefix(torrents, Due(s), Picked(requests))
    && AreRequestsFor(s.torrents, Picked(requests), requests)
    && after.now == s.now
    && after.torrents == Dispatched(s, Picked(requests))
    && after.inFlightBatches == s.inFlightBatches + |requests|
    && (after.inFlightBatches >= MAX_IN_FLIGHT_PROBE_BATCHES || Due(after) == {})
    && (s.inFlightBatches <= MAX_IN_FLIGHT_PROBE_BATCHES ==> after.inFlightBatches <= MAX_IN_FLIGHT_PROBE_BATCHES)
  }

  lemma SelectsCons(torrents: Torrents, s: Scheduler, h: InfoHash, after: Scheduler, rest: seq<ProbeBatchRequest>)
    requires SameOrder(torrents, s.torrents) && IsNext(s, h)
    requires s.inFlightBatches < MAX_IN_FLIGHT_PROBE_BATCHES
    requires SameOrder(torrents, StartProbe(s, h).torrents) && Due(StartProbe(s, h)) == Due(s) - {h}
    requires Selects(torrents, StartProbe(s, h), after, rest)
    ensures Selects(torrents, s, after, [RequestFor(h, s.torrents[h])] + rest)
  {
    var requests := [RequestFor(h, s.torrents[h])] + rest;
    var hs := Picked(rest);
    assert Picked(requests) == [h] + hs;
    PrefixCons(torrents, Due(s), h, hs);
    assert h !in hs;
    DispatchedCons(s, h, hs);
    RequestsCons(s, h, hs, rest);
  }

  lemma RequestsCons(s: Scheduler, h: InfoHash, hs: seq<InfoHash>, rest: seq<ProbeBatchRequest>)
    requires h in s.torrents && h !in hs && forall i | 0 <= i < |hs| :: hs[i] in s.torrents
    requires AreRequestsFor(StartProbe(s, h).torrents, hs, rest)
    ensures AreRequestsFor(s.torrents, [h] + hs, [RequestFor(h, s.torrents[h])] + rest)
  {
  }

  lemma DrainLoopSelects(torrents: Torrents, s: Scheduler)
    requires SameOrder(torrents, s.torrents)
    ensures Selects(torrents, s, DrainLoop(s).0, DrainLoop(s).1)
    decreases MAX_IN_FLIGHT_PROBE_BATCHES - s.inFlightBatches
  {
    NextExists(s);
    if s.inFlightBatches < MAX_IN_FLIGHT_PROBE_BATCHES && exists h :: IsNext(s, h) {
      var h :| IsNext(s, h);
      DrainUnfolds(s, h);
      StartKeepsOrder(s, h);
      var started := StartProbe(s, h);
      DrainLoopSelects(torrents, started);
      SelectsCons(torrents, s, h, DrainLoop(started).0, DrainLoop(started).1);
    } else {
      assert DrainLoop(s) == (s, []);
      assert s.torrents == Dispatched(s, Picked([]));
    }
  }

  function FreeSlots(s: Scheduler): nat {
    SatSub(MAX_IN_FLIGHT_PROBE_BATCHES, s.inFlightBatches)
  }

  /** A drain returns exactly the first free-slots-many due torrents in (class, deadline,
      hash) order once timeouts are reclaimed, and ends with both slots used or nothing due. */
  lemma DrainSelectsSortedPrefix(s: Scheduler)
    requires Accounted(s)
    ensures
      var ready := Reclaim(s);
      var (after, requests) := Drain(s);
      && IsPrefix(ready.torrents, Due(ready), Picked(requests))
      && AreRequestsFor(ready.torrents, Picked(requests), requests)
      && |requests| == Min(FreeSlots(ready), |Due(ready)|)
      && after.torrents == Dispatched(ready, Picked(requests))
      && (after.inFlightBatches == MAX_IN_FLIGHT_PROBE_BATCHES || Due(after) == {})
  {
    ReclaimAccounted(s);
    var ready := Reclaim(s);
    DrainLoopSelects(ready.torrents, ready);
    var (after, requests) := DrainLoop(ready);
    PrefixDistinct(ready.torrents, Due(ready), Picked(requests));
    if Due(after) == {} {
      AllPicked(ready, after, Picked(requests));
    }
  }

  lemma AllPicked(s: Scheduler, after: Scheduler, hs: seq<InfoHash>)
    requires after.now == s.now && after.torrents == Dispatched(s, hs) && Due(after) == {}
    requires IsPrefix(s.torrents, Due(s), hs)
    ensures |Due(s)| == |hs|
  {
    PrefixDistinct(s.torrents, Due(s), hs);
    forall h | h in Due(s)
      ensures h in hs
    {
      assert h !in Due(after);
    }
    assert Due(s) == set h | h in hs;
  }

  /** Draining a scheduler that knows one torrent, which is due. */
  lemma SoloDrain(now: Time, h: InfoHash, st: TorrentState)
    requires st.Eligible(now)
    ensures Drain(Scheduler(now, map[h := st], 0)) ==
            (Scheduler(now, map[h := Started(st, now)], 1), [RequestFor(h, st)])
  {
    var s := Scheduler(now, map[h := st], 0);
    assert Reclaim(s) == s by {
      assert ReclaimedTorrents(s.torrents, now) == s.torrents;
    }
    assert IsNext(s, h);
    DrainUnfolds(s, h);
    var started := StartProbe(s, h);
    assert started == Scheduler(now, map[h := Started(st, now)], 1);
    assert Due(started) == {};
    assert DrainLoop(started) == (started, []);
    assert [RequestFor(h, st)] + [] == [RequestFor(h, st)];
  }
}
