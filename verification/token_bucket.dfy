/** The bucket as it runs. Each method is one section under the lock. */
module TokenBucket {
  import opened RateLimit
  import opened RateLimitBound

  class TokenBucket {
    var isInfinite: bool
    var lastRefill: real
    var tokens: Number
    var fillRate: Number
    var capacity: Number

    ghost function State(): Bucket
      reads this
    {
      Bucket(isInfinite, lastRefill, tokens, fillRate, capacity)
    }

    constructor (capacity: Number, fillRate: Number, now: real)
      ensures State() == New(capacity, fillRate, now) && Sane(State())
    {
      var rate := Upper(fillRate, ZERO);
      this.isInfinite := rate.Infinite?;
      this.lastRefill := now;
      this.fillRate := rate;
      this.capacity := if rate.Infinite? then Infinite else Upper(capacity, ZERO);
      this.tokens := if rate.Infinite? then Infinite else Upper(capacity, ZERO);
    }

    method Refill(now: real)
      modifies this
      ensures State() == Refilled(old(State()), now)
    {
      if capacity.Infinite? {
        tokens := Infinite;
        lastRefill := now;
        return;
      }
      var elapsed := if now < lastRefill then 0.0 else now - lastRefill;
      lastRefill := now;
      if fillRate.Finite? && fillRate.value > 0.0 {
        tokens := Lower(Plus(tokens, Inflow(elapsed, fillRate.value)), capacity);
      }
    }

    method SetRate(newFillRate: Number, now: real)
      modifies this
      ensures State() == WithRate(old(State()), newFillRate, now)
    {
      var rate := Upper(newFillRate, ZERO);
      isInfinite := rate.Infinite?;
      if rate.Infinite? {
        fillRate, capacity, tokens := ZERO, Infinite, Infinite;
      } else {
        fillRate, capacity, tokens := rate, rate, rate;
      }
      lastRefill := now;
    }

    method SetRateWithCapacityPreservingTokens(newFillRate: Number, newCapacity: Number, now: real)
      modifies this
      ensures State() == WithRateAndCapacity(old(State()), newFillRate, newCapacity, now)
    {
      var rate := Upper(newFillRate, ZERO);
      isInfinite := rate.Infinite?;
      Refill(now);
      if rate.Infinite? {
        fillRate, capacity, tokens := ZERO, Infinite, Infinite;
      } else {
        fillRate := rate;
        capacity := Upper(Upper(newCapacity, Lower(rate, Finite(1.0))), ZERO);
        tokens := Lower(tokens, capacity);
      }
      lastRefill := now;
    }

    /** One turn of the waiting loop. */
    method TryTake(amount: real, rate: real, now: real) returns (granted: bool, wait: real)
      requires rate > 0.0
      modifies this
      ensures Turn(State(), granted) == TakeTurn(old(State()), amount, now)
      ensures !granted ==> tokens.Finite? && wait == SleepTime(State(), amount, rate)
    {
      Refill(now);
      wait := 0.0;
      if AtMost(Finite(amount), tokens) {
        tokens := Plus(tokens, -amount);
        granted := true;
      } else {
        granted := false;
        var needed := (amount - tokens.value) / rate;
        wait := if needed < MIN_WAIT then MIN_WAIT else needed;
      }
    }

    /** A request that nobody else disturbs; the sleep may last `late` seconds longer than asked.
        It sleeps at most once, and takes its amount out of the bucket exactly once. */
    method ConsumeAlone(amount: real, now: real, late: real) returns (sleeps: nat, end: real)
      requires Sane(State()) && lastRefill <= now && late >= 0.0
      requires Enter(State(), Finite(amount)).TakeTurns?
      modifies this
      ensures sleeps <= 1 && end >= now
      ensures sleeps == 0 ==> State() == TakeTurn(old(State()), amount, now).bucket && end == now
      ensures sleeps == 1 ==>
                var first := TakeTurn(old(State()), amount, now);
                && !first.granted
                && end == now + SleepTime(first.bucket, amount, old(fillRate.value)) + late
                && TakeTurn(first.bucket, amount, end) == Turn(State(), true)
    {
      var rate := fillRate.value;
      ghost var before := State();
      end, sleeps := now, 0;
      var granted, wait := TryTake(amount, rate, end);
      while !granted
        invariant sleeps <= 1 && (sleeps == 1 ==> granted)
        invariant sleeps == 0 ==>
                    && Turn(State(), granted) == TakeTurn(before, amount, now) && end == now
                    && (!granted ==> tokens.Finite? && wait == SleepTime(State(), amount, rate))
        invariant sleeps == 1 ==>
                    var first := TakeTurn(before, amount, now);
                    && !first.granted
                    && first.bucket.tokens.Finite? && end == now + SleepTime(first.bucket, amount, rate) + late
                    && TakeTurn(first.bucket, amount, end) == Turn(State(), true)
        decreases 1 - sleeps
      {
        end := end + wait + late;
        sleeps := sleeps + 1;
        OneSleepIsEnough(before, amount, rate, before.capacity.value, now, end);
        granted, wait := TryTake(amount, rate, end);
      }
    }
  }
}
