/** What the evidence means: lifetime counters depend on the last listing only, replaying a
    listing adds nothing, and the stored reconnects are a window on an event log. */
module PeerHistoryLaws {
  import opened Common
  import opened Sums
  import opened PeerPolicy
  import opened PeerHistory

  // Coalescing.

  /** Every endpoint stays listed and no counter drops. */
  predicate Grows(a: Endpoints, b: Endpoints) {
    a.Keys <= b.Keys && forall e | e in a :: AtLeast(b[e], a[e])
  }

  lemma GainAdditive(a: Endpoints, b: Endpoints, c: Endpoints, counter: Counter, e: string)
    requires Grows(a, b) && Grows(b, c)
    ensures Gain(a, c, counter, e) == Gain(a, b, counter, e) + Gain(b, c, counter, e)
  {
    if e in a {
      assert AtLeast(b[e], a[e]);
    }
    if e in b {
      assert AtLeast(c[e], b[e]);
    }
  }

  lemma GainsAdditive(a: Endpoints, b: Endpoints, c: Endpoints, counter: Counter)
    requires Grows(a, b) && Grows(b, c)
    ensures Gains(a, c, counter) == Gains(a, b, counter) + Gains(b, c, counter)
  {
    forall e | e in c.Keys
      ensures GainOf(a, c, counter)(e) == GainOf(a, b, counter)(e) + GainOf(b, c, counter)(e)
    {
      GainAdditive(a, b, c, counter, e);
    }
    SumAdditive(GainOf(a, c, counter), GainOf(a, b, counter), GainOf(b, c, counter), c.Keys);
    SumExtra(GainOf(a, b, counter), b.Keys, c.Keys);
  }

  lemma GainsSame(a: Endpoints)
    ensures AllGains(a, a) == NO_TOTALS
  {
    forall c: Counter
      ensures Gains(a, a, c) == 0
    {
      SumNothing(GainOf(a, a, c), a.Keys);
    }
  }

  /** Adding up in two steps, saturating or not, is adding up at once. */
  lemma GainsInTwoSteps(lifetime: Totals, a: Endpoints, b: Endpoints, c: Endpoints)
    requires Grows(a, b) && Grows(b, c)
    ensures SatAddTotals(SatAddTotals(lifetime, AllGains(a, b)), AllGains(b, c))
         == SatAddTotals(lifetime, AllGains(a, c))
  {
    GainsAdditive(a, b, c, Downloaded);
    GainsAdditive(a, b, c, Uploaded);
    GainsAdditive(a, b, c, Connections);
    GainsAdditive(a, b, c, Disconnects);
  }

  lemma GrowsTransitive(a: Endpoints, b: Endpoints, c: Endpoints)
    requires Grows(a, b) && Grows(b, c)
    ensures Grows(a, c)
  {
    forall e | e in a
      ensures AtLeast(c[e], a[e])
    {
      assert AtLeast(b[e], a[e]) && AtLeast(c[e], b[e]);
    }
  }

  /** A reduction of an address at some time against some transfer limit. */
  datatype Reduction = Reduction(input: Input, now: Time, limit: nat)

  ghost function ReduceEach(h: History, reductions: seq<Reduction>): History
    decreases |reductions|
  {
    if reductions == [] then h
    else
      var r := reductions[0];
      ReduceEach(Reduced(h, r.input, r.now, r.limit), reductions[1..])
  }

  /** Listings that grow from one reduction to the next. */
  ghost predicate GrowingFrom(endpoints: Endpoints, reductions: seq<Reduction>)
    decreases |reductions|
  {
    reductions != [] ==>
      && reductions[0].input.endpoints.Some?
      && Grows(endpoints, reductions[0].input.endpoints.value)
      && GrowingFrom(reductions[0].input.endpoints.value, reductions[1..])
  }

  lemma ReducedListing(h: History, r: Reduction)
    requires r.input.endpoints.Some?
    ensures
      var after := Reduced(h, r.input, r.now, r.limit);
      && after.endpoints == r.input.endpoints.value
      && after.lifetime == SatAddTotals(h.lifetime, AllGains(h.endpoints, r.input.endpoints.value))
  {
  }

  /** While every endpoint stays listed and its counters never drop, the lifetime counters after
      any number of reductions are those of reducing the last listing alone: skipped
      intermediate listings lose nothing, whatever was restricted in between. */
  lemma {:induction false} OnlyLastListingCounts(h: History, reductions: seq<Reduction>)
    requires reductions != [] && GrowingFrom(h.endpoints, reductions)
    ensures
      var last := reductions[|reductions| - 1];
      && last.input.endpoints.Some?
      && Grows(h.endpoints, last.input.endpoints.value)
      && ReduceEach(h, reductions).lifetime ==
         SatAddTotals(h.lifetime, AllGains(h.endpoints, last.input.endpoints.value))
      && ReduceEach(h, reductions).lifetime == Reduced(h, last.input, last.now, last.limit).lifetime
    decreases |reductions|
  {
    var r := reductions[0];
    var next := Reduced(h, r.input, r.now, r.limit);
    ReducedListing(h, r);
    var last := reductions[|reductions| - 1];
    if |reductions| == 1 {
      assert reductions[1..] == [];
    } else {
      var rest := reductions[1..];
      assert rest[|rest| - 1] == last;
      OnlyLastListingCounts(next, rest);
      var (a, b, c) := (h.endpoints, r.input.endpoints.value, last.input.endpoints.value);
      GrowsTransitive(a, b, c);
      GainsInTwoSteps(h.lifetime, a, b, c);
      ReducedListing(h, last);
    }
  }

  // Replay.

  /** A cumulative reconnect count and a connected endpoint come from listed peers. */
  predicate WellFormed(input: Input) {
    input.active ==> input.endpoints.Some?
  }

  predicate InRange(h: History) {
    && h.downloadedEvidence <= U64_MAX && h.uploadedEvidence <= U64_MAX
    && SatAddTotals(h.lifetime, NO_TOTALS) == h.lifetime
  }

  /** A history that already reflects everything the input says. */
  predicate Settled(h: History, input: Input) {
    && h.endpoints == (if input.endpoints.Some? then input.endpoints.value else map[])
    && h.reconnectEventsSeen == (if input.reconnects.Some? then input.reconnects.value else 0)
    && h.present == input.active
    && (input.endpoints.Some? ==> InRange(h))
  }

  lemma ReducedSettles(h: History, r: Reduction)
    requires WellFormed(r.input)
    ensures Settled(Reduced(h, r.input, r.now, r.limit), r.input)
    ensures Verdict(Reduced(h, r.input, r.now, r.limit), r.limit) == None
  {
  }

  lemma CountAgain(h: History, later: Time)
    ensures ObservedReconnects(h, h.reconnectEventsSeen, later) == h.(reconnects := Prune(h.reconnects, later))
  {
    assert Repeat(later, 0) == [];
    assert Prune(h.reconnects, later) + [] == Prune(h.reconnects, later);
  }

  lemma ListAgain(h: History, later: Time, infer: bool)
    requires InRange(h)
    ensures ObservedSnapshot(h, h.endpoints, later, infer, h.present) ==
            h.(seen := true, lastSeen := Some(later), reconnects := Prune(h.reconnects, later))
  {
    GainsSame(h.endpoints);
    assert h.reconnects + [] == h.reconnects;
    assert !EndpointsReplaced(h, h.endpoints) by {
      if h.endpoints != map[] {
        var e :| e in h.endpoints;
      }
    }
    assert !CounterReset(h, h.endpoints);
  }

  lemma ObserveAgain(h: History, input: Input, later: Time)
    requires WellFormed(input) && Settled(h, input)
    ensures
      var again := Observed(h, input, later);
      again == h.(seen := again.seen, lastSeen := again.lastSeen, reconnects := Prune(h.reconnects, later))
  {
    PruneTwice(h.reconnects, later, later);
    var pruned := h.(reconnects := Prune(h.reconnects, later));
    if input.reconnects.Some? {
      CountAgain(h, later);
      CountAgain(pruned, later);
    }
    if input.endpoints.Some? {
      ListAgain(h, later, input.reconnects.None?);
      ListAgain(pruned, later, input.reconnects.None?);
    }
  }

  /** Reducing the same listing again later, reconnects pruned or not in between, adds no bytes,
      no connections, no reconnects and no restriction. */
  lemma ReplayAddsNothing(h: History, r: Reduction, middle: Time, later: Time)
    requires WellFormed(r.input) && r.now <= middle <= later
    ensures
      var first := Reduced(h, r.input, r.now, r.limit);
      var between := first.(reconnects := Prune(first.reconnects, middle));
      var again := Observed(between, r.input, later);
      && Verdict(again, r.limit) == None
      && again == first.(seen := again.seen, lastSeen := again.lastSeen, reconnects := Prune(first.reconnects, later))
  {
    var first := Reduced(h, r.input, r.now, r.limit);
    ReducedSettles(h, r);
    var between := first.(reconnects := Prune(first.reconnects, middle));
    ObserveAgain(between, r.input, later);
    PruneTwice(first.reconnects, middle, later);
    PruneFresh(first.reconnects, later);
  }

  /** A listing that alone deserves a restriction: more uploads or downloads than the limit, or a
      cumulative count of ten reconnects. */
  ghost predicate ListingExceeds(input: Input, limit: nat) {
    || (input.endpoints.Some?
        && (|| SatAdd(0, Gains(map[], input.endpoints.value, Uploaded)) > limit
            || SatAdd(0, Gains(map[], input.endpoints.value, Downloaded)) > limit))
    || (input.reconnects.Some? && input.reconnects.value >= RECONNECT_LIMIT)
  }

  lemma NewHistoryReconnects(input: Input, now: Time)
    ensures |Observed(NEW_HISTORY, input, now).reconnects| ==
            if input.reconnects.Some? then Min(input.reconnects.value, RECONNECT_LIMIT) else 0
  {
    if input.reconnects.Some? {
      var n := Min(input.reconnects.value, RECONNECT_LIMIT);
      assert [] + Repeat(now, n) == Repeat(now, n);
      assert Repeat(now, n) + [] == Repeat(now, n);
      PruneNow(now, n);
    }
  }

  /** What a history without a past is judged by. */
  lemma NewHistoryVerdict(input: Input, now: Time, limit: nat)
    ensures Verdict(Observed(NEW_HISTORY, input, now), limit).Some? <==> ListingExceeds(input, limit)
  {
    NewHistoryReconnects(input, now);
  }

  /** Reducing the same listing again, the history kept or dropped in between, finds a reason to
      restrict if and only if the history was dropped and the listing alone exceeds a limit. */
  lemma ReplayExactly(h: History, r: Reduction, dropped: bool, later: Time)
    requires WellFormed(r.input) && r.now <= later
    ensures
      var first := Reduced(h, r.input, r.now, r.limit);
      var kept := if dropped then NEW_HISTORY else first;
      Verdict(Observed(kept, r.input, later), r.limit).Some? <==> dropped && ListingExceeds(r.input, r.limit)
  {
    if dropped {
      NewHistoryVerdict(r.input, later, r.limit);
    } else {
      var first := Reduced(h, r.input, r.now, r.limit);
      ReducedSettles(h, r);
      ObserveAgain(first, r.input, later);
      PruneFresh(first.reconnects, later);
    }
  }

  // The reconnect window.

  /** What can happen to a history: a reduction, pruning by the timer, or being dropped by
      maintenance or with its torrent. */
  datatype Happening = Reducing(r: Reduction) | Pruning(at: Time) | Dropping(droppedAt: Time)

  function When(x: Happening): Time {
    match x
    case Reducing(r) => r.now
    case Pruning(at) => at
    case Dropping(at) => at
  }

  ghost function Happens(h: History, x: Happening): History {
    match x
    case Reducing(r) => Reduced(h, r.input, r.now, r.limit)
    case Pruning(at) => h.(reconnects := Prune(h.reconnects, at))
    case Dropping(_) => NEW_HISTORY
  }

  /** How many reconnects a reduction learns of: the rise of the cumulative count if there is
      one, else at most one inferred from the listing. */
  ghost function Learned(h: History, input: Input): nat {
    match input.reconnects
    case Some(cumulative) => NewReconnects(h, cumulative)
    case None =>
      if input.endpoints.Some? && InfersReconnect(h, input.endpoints.value, true, input.active) then 1 else 0
  }

  /** The log of reconnects since evidence was last consumed or dropped, nothing pruned, nothing
      cut off. */
  ghost function Log(log: seq<Time>, h: History, x: Happening): seq<Time> {
    match x
    case Reducing(r) =>
      if Verdict(Observed(h, r.input, r.now), r.limit).Some? then []
      else log + Repeat(r.now, Learned(h, r.input))
    case Pruning(_) => log
    case Dropping(_) => []
  }

  function Truncate(s: seq<Time>, n: nat): seq<Time> {
    if |s| <= n then s else s[..n]
  }

  /** The stored reconnects are the log's entries younger than the window as of `t`. */
  predicate Windows(h: History, log: seq<Time>, t: Time) {
    h.reconnects == Prune(log, t) && |h.reconnects| < RECONNECT_LIMIT
  }

  lemma CountedWindow(h: History, log: seq<Time>, t: Time, cumulative: nat, now: Time)
    requires Windows(h, log, t) && t <= now
    ensures ObservedReconnects(h, cumulative, now).reconnects ==
            Truncate(Prune(log + Repeat(now, NewReconnects(h, cumulative)), now), RECONNECT_LIMIT)
  {
    var n := NewReconnects(h, cumulative);
    PruneTwice(log, t, now);
    PruneConcat(log, Repeat(now, n), now);
    PruneNow(now, n);
    PruneFresh(h.reconnects, now);
    var kept := Prune(log, now);
    assert Truncate(kept + Repeat(now, n), RECONNECT_LIMIT) == kept + Repeat(now, Min(n, RECONNECT_LIMIT - |kept|));
  }

  lemma InferredWindow(h: History, log: seq<Time>, t: Time, n: nat, now: Time)
    requires Windows(h, log, t) && t <= now && n <= 1
    ensures Prune(h.reconnects + Repeat(now, n), now) == Truncate(Prune(log + Repeat(now, n), now), RECONNECT_LIMIT)
  {
    PruneTwice(log, t, now);
    PruneConcat(log, Repeat(now, n), now);
    PruneConcat(h.reconnects, Repeat(now, n), now);
    PruneNow(now, n);
    PruneFresh(h.reconnects, now);
  }

  ghost function WindowAfter(h: History, log: seq<Time>, input: Input, now: Time): seq<Time> {
    Truncate(Prune(log + Repeat(now, Learned(h, input)), now), RECONNECT_LIMIT)
  }

  lemma AbsentWindow(h: History, log: seq<Time>, t: Time, now: Time)
    requires Windows(h, log, t) && t <= now
    ensures Windows(ObservedAbsence(h, now), log, now)
  {
    PruneTwice(log, t, now);
    PruneFresh(h.reconnects, now);
  }

  lemma ObservedCounted(h: History, log: seq<Time>, t: Time, input: Input, now: Time)
    requires Windows(h, log, t) && t <= now && WellFormed(input) && input.reconnects.Some?
    ensures Observed(h, input, now).reconnects == WindowAfter(h, log, input, now)
  {
    var cumulative := input.reconnects.value;
    if input.endpoints.None? {
      AbsentWindow(h, log, t, now);
      CountedWindow(ObservedAbsence(h, now), log, now, cumulative, now);
    } else {
      CountedWindow(h, log, t, cumulative, now);
      var counted := ObservedReconnects(h, cumulative, now);
      assert counted.reconnects + [] == counted.reconnects;
      TruncatedFresh(log + Repeat(now, Learned(h, input)), now);
    }
  }

  lemma ObservedUncounted(h: History, log: seq<Time>, t: Time, input: Input, now: Time)
    requires Windows(h, log, t) && t <= now && WellFormed(input) && input.reconnects.None?
    ensures Observed(h, input, now).reconnects == WindowAfter(h, log, input, now)
  {
    if input.endpoints.Some? {
      var n := Learned(h, input);
      InferredWindow(h, log, t, n, now);
      assert Repeat(now, n) == if n == 1 then [now] else [];
    } else {
      AbsentWindow(h, log, t, now);
      assert log + Repeat(now, 0) == log;
    }
  }

  /** While a reduction is under way the stored reconnects are the log's window cut off at ten. */
  lemma ObservedWindow(h: History, log: seq<Time>, t: Time, input: Input, now: Time)
    requires Windows(h, log, t) && t <= now && WellFormed(input)
    ensures Observed(h, input, now).reconnects == WindowAfter(h, log, input, now)
    ensures |Observed(h, input, now).reconnects| <= RECONNECT_LIMIT
  {
    if input.reconnects.Some? {
      ObservedCounted(h, log, t, input, now);
    } else {
      ObservedUncounted(h, log, t, input, now);
    }
  }

  lemma TruncatedFresh(log: seq<Time>, now: Time)
    ensures Prune(Truncate(Prune(log, now), RECONNECT_LIMIT), now) == Truncate(Prune(log, now), RECONNECT_LIMIT)
  {
    PruneFresh(log, now);
    AllFresh(Truncate(Prune(log, now), RECONNECT_LIMIT), now);
  }

  lemma {:induction false} AllFresh(s: seq<Time>, now: Time)
    requires forall i | 0 <= i < |s| :: Fresh(s[i], now)
    ensures Prune(s, now) == s
    decreases |s|
  {
    if s != [] {
      AllFresh(s[..|s| - 1], now);
    }
  }

  lemma HappensWindows(h: History, log: seq<Time>, t: Time, x: Happening)
    requires Windows(h, log, t) && t <= When(x) && (x.Reducing? ==> WellFormed(x.r.input))
    ensures Windows(Happens(h, x), Log(log, h, x), When(x))
  {
    match x {
      case Reducing(r) =>
        ObservedWindow(h, log, t, r.input, r.now);
        assert Prune([], r.now) == [];
      case Pruning(at) =>
        PruneTwice(log, t, at);
        PruneFresh(h.reconnects, at);
      case Dropping(at) =>
        assert Prune([], at) == [];
    }
  }

  ghost predicate InOrder(happenings: seq<Happening>, t: Time)
    decreases |happenings|
  {
    happenings != [] ==>
      && t <= When(happenings[0])
      && (happenings[0].Reducing? ==> WellFormed(happenings[0].r.input))
      && InOrder(happenings[1..], When(happenings[0]))
  }

  ghost function HappenAll(h: History, happenings: seq<Happening>): History
    decreases |happenings|
  {
    if happenings == [] then h else HappenAll(Happens(h, happenings[0]), happenings[1..])
  }

  ghost function LogAll(log: seq<Time>, h: History, happenings: seq<Happening>): seq<Time>
    decreases |happenings|
  {
    if happenings == [] then log
    else LogAll(Log(log, h, happenings[0]), Happens(h, happenings[0]), happenings[1..])
  }

  function LastTime(happenings: seq<Happening>, t: Time): Time {
    if happenings == [] then t else When(happenings[|happenings| - 1])
  }

  lemma {:induction false} RunWindows(h: History, log: seq<Time>, happenings: seq<Happening>, t: Time)
    requires Windows(h, log, t) && InOrder(happenings, t)
    ensures Windows(HappenAll(h, happenings), LogAll(log, h, happenings), LastTime(happenings, t))
    decreases |happenings|
  {
    if happenings != [] {
      var x := happenings[0];
      HappensWindows(h, log, t, x);
      RunWindows(Happens(h, x), Log(log, h, x), happenings[1..], When(x));
    }
  }

  /** From a new history, under a clock that never runs backwards: between reductions the stored
      reconnects are exactly the log entries since the last consumption or drop that are younger
      than ten seconds, fewer than ten of them. The next reduction restricts for churn if and only if
      neither transfer is above the limit and ten logged reconnects fall into the window. */
  lemma WindowRefinesLog(happenings: seq<Happening>, t: Time, r: Reduction)
    requires InOrder(happenings, t) && LastTime(happenings, t) <= r.now && WellFormed(r.input)
    ensures
      var h := HappenAll(NEW_HISTORY, happenings);
      var log := LogAll([], NEW_HISTORY, happenings);
      var seen := Observed(h, r.input, r.now);
      var recent := Prune(log + Repeat(r.now, Learned(h, r.input)), r.now);
      && h.reconnects == Prune(log, LastTime(happenings, t)) && |h.reconnects| < RECONNECT_LIMIT
      && (Verdict(seen, r.limit) == Some(ReconnectChurn(RECONNECT_LIMIT, RECONNECT_LIMIT, RECONNECT_WINDOW_SECS)) <==>
            seen.uploadedEvidence <= r.limit && seen.downloadedEvidence <= r.limit && |recent| >= RECONNECT_LIMIT)
  {
    assert Prune([], t) == [];
    RunWindows(NEW_HISTORY, [], happenings, t);
    ObservedWindow(HappenAll(NEW_HISTORY, happenings), LogAll([], NEW_HISTORY, happenings),
                   LastTime(happenings, t), r.input, r.now);
  }
}
