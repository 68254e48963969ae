/** Passes over the torrent table, one entry at a time in the table's iteration order,
    and why that order does not matter. */
module SchedulerPasses {
  import opened Common
  import opened Iteration
  import opened TorrentIntegrity
  import opened SchedulerSpec

  function ReclaimOne(s: Scheduler, g: InfoHash): Scheduler
    requires g in s.torrents
  {
    Scheduler(s.now, s.torrents[g := ReclaimedIfLate(s.torrents[g], s.now)],
              SatSub(s.inFlightBatches, if s.torrents[g].TimedOut(s.now) then 1 else 0))
  }

  function ReclaimEach(s: Scheduler, order: seq<InfoHash>): Scheduler {
    if order == [] then s
    else
      var last := |order| - 1;
      var before := ReclaimEach(s, order[..last]);
      if order[last] in before.torrents then ReclaimOne(before, order[last]) else before
  }

  lemma ReclaimEachFrame(s: Scheduler, order: seq<InfoHash>)
    ensures ReclaimEach(s, order).torrents.Keys == s.torrents.Keys && ReclaimEach(s, order).now == s.now
    decreases |order|
  {
  }

  lemma {:induction false} ReclaimEachAt(s: Scheduler, order: seq<InfoHash>, i: nat, k: nat)
    requires IsOrderOf(order, s.torrents.Keys) && i <= |order| && k < |order|
    ensures
      var after := ReclaimEach(s, order[..i]);
      order[k] in after.torrents &&
      after.torrents[order[k]] ==
        if k < i then ReclaimedIfLate(s.torrents[order[k]], s.now) else s.torrents[order[k]]
    decreases i
  {
    ReclaimEachFrame(s, order[..i]);
    if i > 0 {
      assert order[..i][..i - 1] == order[..i - 1];
      ReclaimEachFrame(s, order[..i - 1]);
      ReclaimEachAt(s, order, i - 1, k);
    }
  }

  lemma {:induction false} ReclaimEachCount(s: Scheduler, late: set<InfoHash>, order: seq<InfoHash>, i: nat)
    requires IsOrderOf(order, s.torrents.Keys) && i <= |order|
    requires late == set g | g in s.torrents && s.torrents[g].TimedOut(s.now)
    ensures ReclaimEach(s, order[..i]).inFlightBatches == SatSub(s.inFlightBatches, CountIn(order[..i], late))
    decreases i
  {
    if i > 0 {
      assert order[..i][..i - 1] == order[..i - 1];
      ReclaimEachFrame(s, order[..i - 1]);
      ReclaimEachAt(s, order, i - 1, i - 1);
      ReclaimEachCount(s, late, order, i - 1);
    }
  }

  lemma ReclaimInAnyOrder(s: Scheduler, order: seq<InfoHash>)
    requires IsOrderOf(order, s.torrents.Keys)
    ensures ReclaimEach(s, order) == Reclaim(s)
  {
    var late := set g | g in s.torrents && s.torrents[g].TimedOut(s.now);
    assert order[..|order|] == order;
    ReclaimEachCount(s, late, order, |order|);
    CountInAll(order, s.torrents.Keys, late);
    ReclaimEachFrame(s, order);
    forall g | g in s.torrents
      ensures ReclaimEach(s, order).torrents[g] == ReclaimedTorrents(s.torrents, s.now)[g]
    {
      var k :| 0 <= k < |order| && order[k] == g;
      ReclaimEachAt(s, order, |order|, k);
    }
    assert ReclaimEach(s, order).torrents == ReclaimedTorrents(s.torrents, s.now);
  }

  function FaultOne(s: Scheduler, shares: bool, g: InfoHash, same: bool): Scheduler
    requires g in s.torrents
  {
    Scheduler(s.now, s.torrents[g := FaultedIf(shares, s.torrents[g], same, s.now)],
              SatSub(s.inFlightBatches, if shares && s.torrents[g].inFlight then 1 else 0))
  }

  function FaultEach(s: Scheduler, h: InfoHash, location: Option<string>, order: seq<InfoHash>): Scheduler {
    if order == [] then s
    else
      var g := order[|order| - 1];
      var before := FaultEach(s, h, location, order[..|order| - 1]);
      if g !in before.torrents then before
      else
        FaultOne(before, g == h || (location.Some? && before.torrents[g].savedLocation == location), g, g == h)
  }

  lemma FaultEachFrame(s: Scheduler, h: InfoHash, location: Option<string>, order: seq<InfoHash>)
    ensures FaultEach(s, h, location, order).torrents.Keys == s.torrents.Keys
    ensures FaultEach(s, h, location, order).now == s.now
    decreases |order|
  {
  }

  lemma {:induction false} FaultEachAt(
    s: Scheduler, h: InfoHash, location: Option<string>, order: seq<InfoHash>, i: nat, k: nat)
    requires IsOrderOf(order, s.torrents.Keys) && i <= |order| && k < |order|
    requires location == if h in s.torrents then s.torrents[h].savedLocation else None
    ensures
      var after := FaultEach(s, h, location, order[..i]);
      order[k] in after.torrents &&
      after.torrents[order[k]] ==
        FaultedIf(k < i && SharesFault(s.torrents, h, order[k]), s.torrents[order[k]], order[k] == h, s.now)
    decreases i
  {
    FaultEachFrame(s, h, location, order[..i]);
    if i > 0 {
      assert order[..i][..i - 1] == order[..i - 1];
      FaultEachFrame(s, h, location, order[..i - 1]);
      FaultEachAt(s, h, location, order, i - 1, k);
    }
  }

  lemma {:induction false} FaultEachCount(
    s: Scheduler, h: InfoHash, location: Option<string>, hit: set<InfoHash>, order: seq<InfoHash>, i: nat)
    requires IsOrderOf(order, s.torrents.Keys) && i <= |order|
    requires location == if h in s.torrents then s.torrents[h].savedLocation else None
    requires hit == set g | g in s.torrents && SharesFault(s.torrents, h, g) && s.torrents[g].inFlight
    ensures FaultEach(s, h, location, order[..i]).inFlightBatches == SatSub(s.inFlightBatches, CountIn(order[..i], hit))
    decreases i
  {
    if i > 0 {
      assert order[..i][..i - 1] == order[..i - 1];
      FaultEachFrame(s, h, location, order[..i - 1]);
      FaultEachAt(s, h, location, order, i - 1, i - 1);
      FaultEachCount(s, h, location, hit, order, i - 1);
    }
  }

  lemma FaultInAnyOrder(s: Scheduler, h: InfoHash, location: Option<string>, order: seq<InfoHash>)
    requires IsOrderOf(order, s.torrents.Keys)
    requires location == if h in s.torrents then s.torrents[h].savedLocation else None
    ensures FaultEach(s, h, location, order) == Fault(s, h)
  {
    var hit := set g | g in s.torrents && SharesFault(s.torrents, h, g) && s.torrents[g].inFlight;
    assert order[..|order|] == order;
    FaultEachCount(s, h, location, hit, order, |order|);
    CountInAll(order, s.torrents.Keys, hit);
    FaultEachFrame(s, h, location, order);
    forall g | g in s.torrents
      ensures FaultEach(s, h, location, order).torrents[g] == FaultedTorrents(s.torrents, h, s.now)[g]
    {
      var k :| 0 <= k < |order| && order[k] == g;
      FaultEachAt(s, h, location, order, |order|, k);
    }
    assert FaultEach(s, h, location, order).torrents == FaultedTorrents(s.torrents, h, s.now);
  }
}
