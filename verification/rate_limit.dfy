/** The rate limiter: a bucket of tokens that refills with time. Numbers are reals extended by
    infinity; times are seconds on a monotonic clock. */
module RateLimit {

  datatype Number = Finite(value: real) | Infinite

  const ZERO := Finite(0.0)
  const MIN_WAIT: real := 0.001
  const MAX_OVERSIZE_SLEEP: real := 300.0

  predicate AtMost(a: Number, b: Number) {
    b.Infinite? || (a.Finite? && a.value <= b.value)
  }

  function Lower(a: Number, b: Number): Number {
    if AtMost(a, b) then a else b
  }

  function Upper(a: Number, b: Number): Number {
    if AtMost(a, b) then b else a
  }

  datatype Bucket = Bucket(
    isInfinite: bool,
    lastRefill: real,
    tokens: Number,
    fillRate: Number,
    capacity: Number)

  predicate Sane(b: Bucket) {
    && AtMost(ZERO, b.tokens) && AtMost(b.tokens, b.capacity) && AtMost(ZERO, b.fillRate)
    && (b.isInfinite ==> b.capacity.Infinite?)
    && (b.capacity.Finite? ==> b.fillRate.Finite?)
  }

  function New(capacity: Number, fillRate: Number, now: real): (b: Bucket)
    ensures Sane(b)
  {
    var rate := Upper(fillRate, ZERO);
    var size := if rate.Infinite? then Infinite else Upper(capacity, ZERO);
    Bucket(rate.Infinite?, now, size, rate, size)
  }

  function Elapsed(since: real, now: real): (e: real)
    ensures e >= 0.0
  {
    if now < since then 0.0 else now - since
  }

  function Plus(a: Number, x: real): Number {
    if a.Infinite? then Infinite else Finite(a.value + x)
  }

  /** What flows in during `time` seconds. */
  function Inflow(time: real, rate: real): real {
    time * rate
  }

  function Refilled(b: Bucket, now: real): Bucket {
    if b.capacity.Infinite? then b.(tokens := Infinite, lastRefill := now)
    else if b.fillRate.Finite? && b.fillRate.value > 0.0 then
      b.(tokens := Lower(Plus(b.tokens, Inflow(Elapsed(b.lastRefill, now), b.fillRate.value)), b.capacity),
         lastRefill := now)
    else b.(lastRefill := now)
  }

  /** A new rate with a full bucket of one second. */
  function WithRate(b: Bucket, fillRate: Number, now: real): Bucket {
    var rate := Upper(fillRate, ZERO);
    if rate.Infinite? then Bucket(true, now, Infinite, ZERO, Infinite)
    else Bucket(false, now, rate, rate, rate)
  }

  /** A new rate and capacity; tokens beyond the capacity are lost. */
  function WithRateAndCapacity(b: Bucket, fillRate: Number, capacity: Number, now: real): Bucket {
    var rate := Upper(fillRate, ZERO);
    var full := Refilled(b, now);
    if rate.Infinite? then Bucket(true, now, Infinite, ZERO, Infinite)
    else
      var size := Upper(Upper(capacity, Lower(rate, Finite(1.0))), ZERO);
      Bucket(false, now, Lower(full.tokens, size), rate, size)
  }

  // Consuming.

  /** What a request does before its first turn at the bucket. */
  datatype Entry = PassFree | WaitForever | Oversize(sleep: real) | TakeTurns(rate: real)

  function Enter(b: Bucket, amount: Number): Entry {
    if b.isInfinite || amount.Infinite? || amount.value <= 0.0 || b.capacity.Infinite? then PassFree
    else if b.fillRate.Infinite? || b.fillRate.value <= 0.0 then WaitForever
    else if amount.value > b.capacity.value then Oversize(OversizeSleep(amount.value, b.fillRate.value))
    else TakeTurns(b.fillRate.value)
  }

  /** A request beyond the capacity sleeps for its share of time, but not for minutes. */
  function OversizeSleep(amount: real, rate: real): real
    requires rate > 0.0
  {
    if amount / rate < MAX_OVERSIZE_SLEEP then amount / rate else 0.0
  }

  datatype Turn = Turn(bucket: Bucket, granted: bool)

  /** One turn: refill, then take the amount if it is there. */
  function TakeTurn(b: Bucket, amount: real, now: real): Turn {
    var full := Refilled(b, now);
    if AtMost(Finite(amount), full.tokens) then Turn(full.(tokens := Plus(full.tokens, -amount)), true)
    else Turn(full, false)
  }

  /** How long a refused request sleeps; `rate` is the rate it saw on entry. */
  function SleepTime(full: Bucket, amount: real, rate: real): real
    requires rate > 0.0 && full.tokens.Finite?
  {
    var needed := (amount - full.tokens.value) / rate;
    if needed < MIN_WAIT then MIN_WAIT else needed
  }

  // Any history of the bucket.

  datatype Event =
    | Refill(at: real)
    | SetRate(rate: Number, setAt: real)
    | SetRateAndCapacity(newRate: Number, capacity: Number, changedAt: real)
    | Take(amount: real, takenAt: real)

  predicate WellFormed(e: Event) {
    e.Take? ==> e.amount > 0.0
  }

  function Step(b: Bucket, e: Event): Bucket
    requires WellFormed(e)
  {
    match e
    case Refill(now) => Refilled(b, now)
    case SetRate(rate, now) => WithRate(b, rate, now)
    case SetRateAndCapacity(rate, capacity, now) => WithRateAndCapacity(b, rate, capacity, now)
    case Take(amount, now) => TakeTurn(b, amount, now).bucket
  }

  function Run(b: Bucket, events: seq<Event>): Bucket
    requires forall e | e in events :: WellFormed(e)
    decreases |events|
  {
    if events == [] then b else Step(Run(b, events[..|events| - 1]), events[|events| - 1])
  }

  lemma InflowNonNegative(time: real, rate: real)
    requires time >= 0.0 && rate >= 0.0
    ensures Inflow(time, rate) >= 0.0
  {
  }

  lemma InflowSplit(a: real, b: real, rate: real)
    ensures Inflow(b - a, rate) == Inflow(b, rate) - Inflow(a, rate)
  {
  }

  lemma RefillKeepsSane(b: Bucket, now: real)
    requires Sane(b)
    ensures Sane(Refilled(b, now))
  {
    if b.fillRate.Finite? {
      InflowNonNegative(Elapsed(b.lastRefill, now), b.fillRate.value);
    }
  }

  lemma StepKeepsSane(b: Bucket, e: Event)
    requires Sane(b) && WellFormed(e)
    ensures Sane(Step(b, e))
  {
    match e
    case Refill(now) => RefillKeepsSane(b, now);
    case SetRate(_, _) =>
    case SetRateAndCapacity(_, _, now) => RefillKeepsSane(b, now);
    case Take(_, now) => RefillKeepsSane(b, now);
  }

  /** Tokens stay between zero and the capacity, through any history, whatever the rates set. */
  lemma {:induction false} RunKeepsSane(b: Bucket, events: seq<Event>)
    requires Sane(b) && forall e | e in events :: WellFormed(e)
    ensures Sane(Run(b, events))
    decreases |events|
  {
    if events != [] {
      RunKeepsSane(b, events[..|events| - 1]);
      StepKeepsSane(Run(b, events[..|events| - 1]), events[|events| - 1]);
    }
  }
}
