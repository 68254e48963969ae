/** The reconnect window over whole runs of the reducer. */
module PeerWindow {
  import opened Common
  import opened Iteration
  import opened PeerPolicy
  import opened PeerHistory
  import opened PeerHistoryLaws
  import opened PeerReducer
  import opened PeerReducerLaws
  import opened PeerReplay

  /** What an event of the reducer does to the history of one address in one torrent. */
  ghost function Touches(s: Reducer, e: ReducerEvent, t: Time, h: InfoHash, ip: IpAddr): Option<Happening> {
    match e
    case ReduceEvent(g, m, now, _) =>
      if g == h then Some(Reducing(Reduction(InputFor(m, ip), now, TransferAbuseLimit(m.totalSize)))) else None
    case MaintainEvent(now, evicted) => if Dropped(s, h, ip, now, evicted) then Some(Dropping(now)) else None
    case PruneEvent(now) => Some(Pruning(now))
    case RemoveEvent(g) => if g == h then Some(Dropping(t)) else None
  }

  ghost function HistoryIn(s: Reducer, h: InfoHash, ip: IpAddr): History {
    HistoryAt(HistoriesOf(s, h), ip)
  }

  lemma ReduceTouches(s: Reducer, g: InfoHash, m: Metrics, now: Time, order: seq<IpAddr>, h: InfoHash, ip: IpAddr)
    ensures
      HistoryIn(Reduce(s, g, m, now, order), h, ip) ==
        if g == h then Reduced(HistoryIn(s, h, ip), InputFor(m, ip), now, TransferAbuseLimit(m.totalSize))
        else HistoryIn(s, h, ip)
  {
    if g == h {
      ReduceHistories(s, h, m, now, order);
      if ip !in Mentioned(HistoriesOf(s, h), m) {
        assert Observed(NEW_HISTORY, InputFor(m, ip), now) == NEW_HISTORY;
      }
    }
  }

  /** A step changes the history exactly as its happening says, and not at all without one. */
  lemma StepTouches(s: Reducer, e: ReducerEvent, after: Reducer, t: Time, h: InfoHash, ip: IpAddr)
    requires StepsTo(s, e, after)
    ensures
      var x := Touches(s, e, t, h, ip);
      HistoryIn(after, h, ip) == if x.Some? then Happens(HistoryIn(s, h, ip), x.value) else HistoryIn(s, h, ip)
  {
    match e {
      case ReduceEvent(g, m, now, order) => ReduceTouches(s, g, m, now, order, h, ip);
      case MaintainEvent(now, evicted) => MaintainedAt(s, now, evicted, h, ip);
      case PruneEvent(now) => assert Prune([], now) == [];
      case RemoveEvent(g) =>
    }
  }

  /** The log of one address along a run. */
  ghost function LogAlong(
    s: Reducer, events: seq<ReducerEvent>, states: seq<Reducer>, t: Time, h: InfoHash, ip: IpAddr, log: seq<Time>)
    : seq<Time>
    requires |states| == |events|
    decreases |events|
  {
    if events == [] then log
    else
      var x := Touches(s, events[0], t, h, ip);
      LogAlong(states[0], events[1..], states[1..], EventTime(events[0], t), h, ip,
               if x.Some? then Log(log, HistoryIn(s, h, ip), x.value) else log)
  }

  /** When the history was last touched along a run. */
  ghost function TouchedAlong(
    s: Reducer, events: seq<ReducerEvent>, states: seq<Reducer>, t: Time, h: InfoHash, ip: IpAddr, touched: Time): Time
    requires |states| == |events|
    decreases |events|
  {
    if events == [] then touched
    else
      var x := Touches(s, events[0], t, h, ip);
      TouchedAlong(states[0], events[1..], states[1..], EventTime(events[0], t), h, ip,
                   if x.Some? then When(x.value) else touched)
  }

  function Last(s: Reducer, states: seq<Reducer>): Reducer {
    if states == [] then s else states[|states| - 1]
  }

  function LastEventTime(events: seq<ReducerEvent>, t: Time): Time
    decreases |events|
  {
    if events == [] then t else LastEventTime(events[1..], EventTime(events[0], t))
  }

  lemma StepWindows(
    s: Reducer, e: ReducerEvent, after: Reducer, t: Time, h: InfoHash, ip: IpAddr, log: seq<Time>, touched: Time)
    requires StepsTo(s, e, after) && touched <= t <= EventTime(e, t)
    requires Windows(HistoryIn(s, h, ip), log, touched)
    ensures
      var x := Touches(s, e, t, h, ip);
      && touched <= (if x.Some? then When(x.value) else touched) <= EventTime(e, t)
      && Windows(HistoryIn(after, h, ip), if x.Some? then Log(log, HistoryIn(s, h, ip), x.value) else log,
                 if x.Some? then When(x.value) else touched)
  {
    StepTouches(s, e, after, t, h, ip);
    var x := Touches(s, e, t, h, ip);
    if x.Some? {
      if e.ReduceEvent? {
        InputsWellFormed(e.m, ip);
      }
      HappensWindows(HistoryIn(s, h, ip), log, touched, x.value);
    }
  }

  lemma {:induction false} RunWindow(
    s: Reducer, events: seq<ReducerEvent>, states: seq<Reducer>, t: Time, h: InfoHash, ip: IpAddr,
    log: seq<Time>, touched: Time)
    requires IsRun(s, events, states, t) && touched <= t && Windows(HistoryIn(s, h, ip), log, touched)
    ensures TouchedAlong(s, events, states, t, h, ip, touched) <= LastEventTime(events, t)
    ensures Windows(HistoryIn(Last(s, states), h, ip), LogAlong(s, events, states, t, h, ip, log),
                    TouchedAlong(s, events, states, t, h, ip, touched))
    decreases |events|
  {
    if events != [] {
      var x := Touches(s, events[0], t, h, ip);
      StepWindows(s, events[0], states[0], t, h, ip, log, touched);
      RunWindow(states[0], events[1..], states[1..], EventTime(events[0], t), h, ip,
                if x.Some? then Log(log, HistoryIn(s, h, ip), x.value) else log,
                if x.Some? then When(x.value) else touched);
      assert Last(s, states) == Last(states[0], states[1..]);
    }
  }

  /** Neither transfer is above the limit and ten logged reconnects fall into the window: exactly
      then the next reduction finds churn. */
  ghost predicate FindsChurnExactly(kept: History, log: seq<Time>, input: Input, limit: nat, now: Time) {
    var seen := Observed(kept, input, now);
    var recent := Prune(log + Repeat(now, Learned(kept, input)), now);
    Verdict(seen, limit) == Some(ReconnectChurn(RECONNECT_LIMIT, RECONNECT_LIMIT, RECONNECT_WINDOW_SECS)) <==>
      seen.uploadedEvidence <= limit && seen.downloadedEvidence <= limit && |recent| >= RECONNECT_LIMIT
  }

  lemma WindowFindsChurn(
    kept: History, log: seq<Time>, touched: Time, m: Metrics, ip: IpAddr, limit: nat, now: Time)
    requires Windows(kept, log, touched) && touched <= now
    ensures FindsChurnExactly(kept, log, InputFor(m, ip), limit, now)
  {
    InputsWellFormed(m, ip);
    ObservedWindow(kept, log, touched, InputFor(m, ip), now);
  }

  /** From an empty reducer, along any run of reductions, maintenance, pruning and removals: the
      reconnects stored for an address in a torrent are those logged since they were last consumed
      or dropped and younger than ten seconds when last touched, fewer than ten. The next
      reduction finds churn exactly on ten of them. */
  lemma WindowOverRuns(
    policy: Policy, events: seq<ReducerEvent>, states: seq<Reducer>, t: Time, h: InfoHash, ip: IpAddr,
    m: Metrics, now: Time)
    requires IsRun(Reducer(map[], policy, None), events, states, t) && LastEventTime(events, t) <= now
    ensures
      var start := Reducer(map[], policy, None);
      var kept := HistoryIn(Last(start, states), h, ip);
      var log := LogAlong(start, events, states, t, h, ip, []);
      && kept.reconnects == Prune(log, TouchedAlong(start, events, states, t, h, ip, t))
      && |kept.reconnects| < RECONNECT_LIMIT
      && FindsChurnExactly(kept, log, InputFor(m, ip), TransferAbuseLimit(m.totalSize), now)
  {
    var start := Reducer(map[], policy, None);
    assert Prune([], t) == [];
    RunWindow(start, events, states, t, h, ip, [], t);
    WindowFindsChurn(
      HistoryIn(Last(start, states), h, ip), LogAlong(start, events, states, t, h, ip, []),
      TouchedAlong(start, events, states, t, h, ip, t), m, ip, TransferAbuseLimit(m.totalSize), now);
  }
}
