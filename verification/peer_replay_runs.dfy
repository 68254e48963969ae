/** Replaying a torrent's metrics after any run of the reducer. */
module PeerReplayRuns {
  import opened Common
  import opened Iteration
  import opened PeerPolicy
  import opened PeerHistory
  import opened PeerHistoryLaws
  import opened PeerReducer
  import opened PeerReducerLaws
  import opened PeerReplay
  import opened PeerWindow

  /** How an address stands to a listing it was reduced with: everything counted, forgotten since, or
      listed in another way since. */
  datatype Standing = Counted | Forgotten | Relisted

  function Stands(st: Standing, x: Option<Happening>, input: Input, limit: nat): Standing {
    match x
    case None => st
    case Some(Reducing(r)) => if r.input == input && r.limit == limit then Counted else Relisted
    case Some(Pruning(_)) => st
    case Some(Dropping(_)) => Forgotten
  }

  /** The standing after a run: the last reduction of the torrent or drop of the history decides. */
  ghost function StandingAlong(
    s: Reducer, events: seq<ReducerEvent>, states: seq<Reducer>, t: Time, h: InfoHash, ip: IpAddr,
    input: Input, limit: nat, st: Standing): Standing
    requires |states| == |events|
    decreases |events|
  {
    if events == [] then st
    else
      StandingAlong(states[0], events[1..], states[1..], EventTime(events[0], t), h, ip, input, limit,
                    Stands(st, Touches(s, events[0], t, h, ip), input, limit))
  }

  ghost predicate Reflects(st: Standing, h: History, input: Input, limit: nat) {
    match st
    case Counted => Settled(h, input) && Verdict(h, limit) == None
    case Forgotten => h == NEW_HISTORY
    case Relisted => true
  }

  lemma HappensReflects(st: Standing, h: History, x: Happening, input: Input, limit: nat)
    requires WellFormed(input) && Reflects(st, h, input, limit)
    ensures Reflects(Stands(st, Some(x), input, limit), Happens(h, x), input, limit)
  {
    match x {
      case Reducing(r) =>
        if r.input == input {
          ReducedSettles(h, r);
        }
      case Pruning(at) =>
        PruneFresh(h.reconnects, at);
        assert Prune([], at) == [];
      case Dropping(_) =>
    }
  }

  lemma {:induction false} RunReflects(
    s: Reducer, events: seq<ReducerEvent>, states: seq<Reducer>, t: Time, h: InfoHash, ip: IpAddr,
    input: Input, limit: nat, st: Standing)
    requires IsRun(s, events, states, t) && WellFormed(input) && Reflects(st, HistoryIn(s, h, ip), input, limit)
    ensures Reflects(StandingAlong(s, events, states, t, h, ip, input, limit, st),
                     HistoryIn(Last(s, states), h, ip), input, limit)
    decreases |events|
  {
    if events != [] {
      var x := Touches(s, events[0], t, h, ip);
      StepTouches(s, events[0], states[0], t, h, ip);
      if x.Some? {
        HappensReflects(st, HistoryIn(s, h, ip), x.value, input, limit);
      }
      RunReflects(states[0], events[1..], states[1..], EventTime(events[0], t), h, ip, input, limit,
                  Stands(st, x, input, limit));
      assert Last(s, states) == Last(states[0], states[1..]);
    }
  }

  lemma ReplayVerdict(st: Standing, h: History, input: Input, limit: nat, later: Time)
    requires WellFormed(input) && Reflects(st, h, input, limit) && !st.Relisted?
    ensures Verdict(Observed(h, input, later), limit).Some? <==> st.Forgotten? && ListingExceeds(input, limit)
  {
    if st.Forgotten? {
      NewHistoryVerdict(input, later, limit);
    } else {
      ObserveAgain(h, input, later);
      PruneFresh(h.reconnects, later);
    }
  }

  /** The same metrics reduced twice, with any run in between - reductions of this and of other
      torrents, maintenance, pruning, removal and registration anew: unless the address was last
      listed in another way, the second reduction restricts it if and only if its history was dropped
      since it was last counted, and the listing alone exceeds a limit. */
  lemma ReplayOverRuns(
    s: Reducer, h: InfoHash, m: Metrics, now: Time, order: seq<IpAddr>,
    events: seq<ReducerEvent>, states: seq<Reducer>, later: Time, again: seq<IpAddr>, ip: IpAddr)
    requires IsRun(Reduce(s, h, m, now, order), events, states, now)
    requires VisitsAll(Last(Reduce(s, h, m, now, order), states), h, m, again)
    ensures
      var once := Reduce(s, h, m, now, order);
      var input, limit := InputFor(m, ip), TransferAbuseLimit(m.totalSize);
      var standing := StandingAlong(once, events, states, now, h, ip, input, limit, Counted);
      !standing.Relisted? ==>
        (Sentenced(ObservedAll(HistoriesOf(Last(once, states), h), m, later), again, limit, ip) <==>
           standing.Forgotten? && ListingExceeds(input, limit))
  {
    var once := Reduce(s, h, m, now, order);
    var input, limit := InputFor(m, ip), TransferAbuseLimit(m.totalSize);
    var standing := StandingAlong(once, events, states, now, h, ip, input, limit, Counted);
    InputsWellFormed(m, ip);
    ReduceTouches(s, h, m, now, order, h, ip);
    ReducedSettles(HistoryIn(s, h, ip), Reduction(input, now, limit));
    RunReflects(once, events, states, now, h, ip, input, limit, Counted);
    if !standing.Relisted? {
      ReplayVerdict(standing, HistoryIn(Last(once, states), h, ip), input, limit, later);
      VerdictSentences(Last(once, states), h, m, later, again, ip);
    }
  }
}
