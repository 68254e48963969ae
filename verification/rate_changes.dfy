/** What the bucket guarantees while its rate and capacity change. */
module RateChanges {
  import opened RateLimit

  /** A bucket with a finite capacity. */
  predicate Bounded(b: Bucket) {
    Sane(b) && b.capacity.Finite?
  }

  /** Any turn, and any change to a finite rate and capacity. */
  predicate Tame(e: Event) {
    match e
    case Refill(_) => true
    case SetRate(rate, _) => rate.Finite?
    case SetRateAndCapacity(rate, capacity, _) => rate.Finite? && capacity.Finite?
    case Take(amount, _) => amount > 0.0
  }

  predicate AllTame(events: seq<Event>) {
    forall e | e in events :: Tame(e)
  }

  function At(e: Event): real {
    match e
    case Refill(now) => now
    case SetRate(_, now) => now
    case SetRateAndCapacity(_, _, now) => now
    case Take(_, now) => now
  }

  function Above(x: real, limit: real): real {
    if x > limit then x - limit else 0.0
  }

  /** What flows in before the event, at the rate set until then. */
  function Brought(b: Bucket, e: Event): real
    requires Bounded(b)
  {
    Inflow(Elapsed(b.lastRefill, At(e)), b.fillRate.value)
  }

  /** What a full bucket cannot hold, and what a smaller capacity cuts off. */
  function Spilled(b: Bucket, e: Event): real
    requires Bounded(b) && Tame(e)
  {
    var over := Above(b.tokens.value + Brought(b, e), b.capacity.value);
    if e.SetRateAndCapacity? then
      var size := WithRateAndCapacity(b, e.newRate, e.capacity, At(e)).capacity.value;
      over + Above(b.tokens.value + Brought(b, e) - over, size)
    else over
  }

  /** What setting a rate without preserving the tokens gives away: the bucket is full afterwards,
      whatever was in it. */
  function Burst(b: Bucket, e: Event): real
    requires Bounded(b) && Tame(e)
  {
    if e.SetRate? then
      Upper(e.rate, ZERO).value - (b.tokens.value + Brought(b, e) - Spilled(b, e))
    else 0.0
  }

  function Granted(b: Bucket, e: Event): real {
    if e.Take? && TakeTurn(b, e.amount, e.takenAt).granted then e.amount else 0.0
  }

  datatype Books = Books(granted: real, brought: real, spilled: real, burst: real)

  lemma RefillExactly(b: Bucket, now: real)
    requires Bounded(b)
    ensures
      var flow := Inflow(Elapsed(b.lastRefill, now), b.fillRate.value);
      && Bounded(Refilled(b, now)) && flow >= 0.0
      && Refilled(b, now).capacity == b.capacity
      && Refilled(b, now).tokens.value == b.tokens.value + flow - Above(b.tokens.value + flow, b.capacity.value)
  {
    RefillKeepsSane(b, now);
    InflowNonNegative(Elapsed(b.lastRefill, now), b.fillRate.value);
    if b.fillRate.value == 0.0 {
      NoRateNoInflow(Elapsed(b.lastRefill, now));
    }
  }

  lemma NoRateNoInflow(time: real)
    ensures Inflow(time, 0.0) == 0.0
  {
  }

  /** The books balance at every step. */
  lemma StepBalances(b: Bucket, e: Event)
    requires Bounded(b) && Tame(e)
    ensures Bounded(Step(b, e)) && Spilled(b, e) >= 0.0
    ensures Granted(b, e) + Step(b, e).tokens.value + Spilled(b, e) == b.tokens.value + Brought(b, e) + Burst(b, e)
  {
    RefillExactly(b, At(e));
    StepKeepsSane(b, e);
  }

  lemma {:induction false} RunBounded(b: Bucket, events: seq<Event>)
    requires Bounded(b) && AllTame(events)
    ensures Bounded(Run(b, events))
    decreases |events|
  {
    if events != [] {
      RunBounded(b, events[..|events| - 1]);
      StepBalances(Run(b, events[..|events| - 1]), events[|events| - 1]);
    }
  }

  ghost function BooksOf(b: Bucket, events: seq<Event>): Books
    requires Bounded(b) && AllTame(events)
    decreases |events|
  {
    if events == [] then Books(0.0, 0.0, 0.0, 0.0)
    else
      var front, last := events[..|events| - 1], events[|events| - 1];
      RunBounded(b, front);
      var books, there := BooksOf(b, front), Run(b, front);
      Books(books.granted + Granted(there, last), books.brought + Brought(there, last),
            books.spilled + Spilled(there, last), books.burst + Burst(there, last))
  }

  /** Conservation through any rate changes: what was granted, what is left and what was spilled is
      what was there, what time brought in, and what unpreserved changes gave away. */
  lemma {:induction false} BooksBalance(b: Bucket, events: seq<Event>)
    requires Bounded(b) && AllTame(events)
    ensures Bounded(Run(b, events)) && BooksOf(b, events).spilled >= 0.0
    ensures
      var books := BooksOf(b, events);
      books.granted + Run(b, events).tokens.value + books.spilled == b.tokens.value + books.brought + books.burst
    decreases |events|
  {
    if events != [] {
      var front := events[..|events| - 1];
      BooksBalance(b, front);
      StepBalances(Run(b, front), events[|events| - 1]);
    }
  }

  predicate Preserving(events: seq<Event>) {
    forall i | 0 <= i < |events| :: !events[i].SetRate?
  }

  lemma {:induction false} BooksGrow(b: Bucket, events: seq<Event>, i: nat)
    requires Bounded(b) && AllTame(events) && i <= |events|
    ensures BooksOf(b, events[..i]).spilled <= BooksOf(b, events).spilled
    ensures Preserving(events[i..]) ==> BooksOf(b, events[..i]).burst == BooksOf(b, events).burst
    decreases |events|
  {
    if i == |events| {
      assert events[..i] == events;
    } else {
      var front, last := events[..|events| - 1], events[|events| - 1];
      BooksGrow(b, front, i);
      assert front[..i] == events[..i];
      RunBounded(b, front);
      StepBalances(Run(b, front), last);
      if Preserving(events[i..]) {
        assert forall k | 0 <= k < |front[i..]| :: front[i..][k] == events[i..][k];
        assert events[i..][|events| - 1 - i] == last;
      }
    }
  }

  /** The rate bound through rate changes: from any point of any history on, at most the capacity at
      that point is obtained, plus what each rate brought in its time, plus the bursts of unpreserved
      changes. If all changes preserve the tokens there are no bursts. */
  lemma ChangingRateBound(b: Bucket, events: seq<Event>, i: nat)
    requires Bounded(b) && AllTame(events) && i <= |events|
    ensures AllTame(events[..i]) && Bounded(Run(b, events[..i]))
    ensures
      var before, all := BooksOf(b, events[..i]), BooksOf(b, events);
      var capacity := Run(b, events[..i]).capacity.value;
      && all.granted - before.granted <= capacity + (all.brought - before.brought) + (all.burst - before.burst)
      && (Preserving(events[i..]) ==> all.granted - before.granted <= capacity + (all.brought - before.brought))
  {
    BooksBalance(b, events);
    BooksBalance(b, events[..i]);
    BooksGrow(b, events, i);
  }

  // Bursts are real.

  function Times(n: nat, x: real): real {
    if n == 0 then 0.0 else Times(n - 1, x) + x
  }

  /** The same rate set and used up, `n` times in one instant. */
  function Resets(n: nat, rate: real, now: real): seq<Event> {
    if n == 0 then [] else Resets(n - 1, rate, now) + [SetRate(Finite(rate), now), Take(rate, now)]
  }

  lemma {:induction false} ResetsTame(n: nat, rate: real, now: real)
    requires rate > 0.0
    ensures AllTame(Resets(n, rate, now))
  {
    if n > 0 {
      ResetsTame(n - 1, rate, now);
    }
  }

  lemma TwoSteps(b: Bucket, front: seq<Event>, e: Event, f: Event)
    requires Bounded(b) && AllTame(front + [e, f])
    ensures AllTame(front) && Bounded(Run(b, front)) && Tame(e) && Tame(f) && Bounded(Step(Run(b, front), e))
    ensures Run(b, front + [e, f]) == Step(Step(Run(b, front), e), f)
    ensures
      var books, there := BooksOf(b, front), Run(b, front);
      var all := BooksOf(b, front + [e, f]);
      && all.granted == books.granted + Granted(there, e) + Granted(Step(there, e), f)
      && all.brought == books.brought + Brought(there, e) + Brought(Step(there, e), f)
  {
    var all := front + [e, f];
    assert all[..|all| - 1] == front + [e] && all[|all| - 1] == f;
    assert (front + [e])[..|front + [e]| - 1] == front && (front + [e])[|front + [e]| - 1] == e;
    assert forall x | x in front + [e] :: x in all;
    assert forall x | x in front :: x in all;
    assert e in all && f in all;
    RunBounded(b, front);
    RunBounded(b, front + [e]);
  }

  lemma NoTimeNoInflow(rate: real)
    ensures Inflow(0.0, rate) == 0.0
  {
  }

  /** Setting a rate that does not preserve the tokens breaks the bound by any amount: `n` times the
      rate is obtained while nothing flows in. */
  lemma {:induction false} ResetsObtain(b: Bucket, n: nat, rate: real, now: real)
    requires Bounded(b) && rate > 0.0 && b.lastRefill == now
    ensures AllTame(Resets(n, rate, now))
    ensures Bounded(Run(b, Resets(n, rate, now))) && Run(b, Resets(n, rate, now)).lastRefill == now
    ensures BooksOf(b, Resets(n, rate, now)).granted == Times(n, rate)
    ensures BooksOf(b, Resets(n, rate, now)).brought == 0.0
    decreases n
  {
    ResetsTame(n, rate, now);
    if n > 0 {
      var front := Resets(n - 1, rate, now);
      ResetsObtain(b, n - 1, rate, now);
      ResetStep(b, front, rate, now);
    }
  }

  lemma ResetStep(b: Bucket, front: seq<Event>, rate: real, now: real)
    requires Bounded(b) && AllTame(front) && rate > 0.0
    requires Run(b, front).lastRefill == now
    ensures
      var all := front + [SetRate(Finite(rate), now), Take(rate, now)];
      && AllTame(all) && Bounded(Run(b, all)) && Run(b, all).lastRefill == now
      && BooksOf(b, all).granted == BooksOf(b, front).granted + rate
      && BooksOf(b, all).brought == BooksOf(b, front).brought
  {
    RunBounded(b, front);
    ResetGrants(Run(b, front), rate, now);
    TwoSteps(b, front, SetRate(Finite(rate), now), Take(rate, now));
  }

  lemma ResetGrants(b: Bucket, rate: real, now: real)
    requires Bounded(b) && rate > 0.0 && b.lastRefill == now
    ensures
      var full := Step(b, SetRate(Finite(rate), now));
      && Bounded(full) && Granted(full, Take(rate, now)) == rate
      && Brought(b, SetRate(Finite(rate), now)) == 0.0 && Brought(full, Take(rate, now)) == 0.0
      && Bounded(Step(full, Take(rate, now))) && Step(full, Take(rate, now)).lastRefill == now
  {
    NoTimeNoInflow(b.fillRate.value);
    NoTimeNoInflow(rate);
    StepBalances(b, SetRate(Finite(rate), now));
    StepBalances(Step(b, SetRate(Finite(rate), now)), Take(rate, now));
  }
}
