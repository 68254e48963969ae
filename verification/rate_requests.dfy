/** How a request fares at the bucket, and what a new bucket or a changed rate means for it. */
module RateRequests {
  import opened RateLimit
  import opened RateLimitBound
  import opened RateChanges

  function Smaller(x: real, y: real): real {
    if x < y then x else y
  }

  function Larger(x: real, y: real): real {
    if x < y then y else x
  }

  /** Tokens after `time` seconds at `rate`, in a bucket of `size`. */
  function Filled(tokens: real, time: real, rate: real, size: real): real {
    Smaller(tokens + time * rate, size)
  }

  lemma RefillFills(b: Bucket, rate: real, size: real, later: real)
    requires Bounded(b) && b.fillRate == Finite(rate) && b.capacity == Finite(size) && b.lastRefill <= later
    ensures Refilled(b, later).tokens == Finite(Filled(b.tokens.value, later - b.lastRefill, rate, size))
    ensures Refilled(b, later).lastRefill == later
  {
    if rate == 0.0 {
      NoRateNoInflow(later - b.lastRefill);
      assert (later - b.lastRefill) * rate == 0.0;
    }
  }

  /** A new bucket is full; from then on tokens come in at its rate up to its capacity. A negative rate
      or capacity counts as none. */
  lemma NewBucketFills(capacity: real, rate: real, now: real, amount: real, later: real)
    requires 0.0 < amount && now <= later
    ensures
      var b := New(Finite(capacity), Finite(rate), now);
      var size := Larger(capacity, 0.0);
      && b.tokens == Finite(size) && b.capacity == Finite(size) && !b.isInfinite
      && Refilled(b, later).tokens == Finite(size)
      && (amount <= size ==>
            Refilled(TakeTurn(b, amount, now).bucket, later).tokens ==
            Finite(Filled(size - amount, later - now, Larger(rate, 0.0), size)))
  {
    var b := New(Finite(capacity), Finite(rate), now);
    InflowNonNegative(later - now, Larger(rate, 0.0));
    NoTimeNoInflow(Larger(rate, 0.0));
    RefillFills(b, Larger(rate, 0.0), Larger(capacity, 0.0), later);
    RefillFills(b, Larger(rate, 0.0), Larger(capacity, 0.0), now);
    StepKeepsSane(b, Take(amount, now));
    if amount <= Larger(capacity, 0.0) {
      RefillFills(TakeTurn(b, amount, now).bucket, Larger(rate, 0.0), Larger(capacity, 0.0), later);
    }
  }

  /** After a change that preserves the tokens, what was there comes along, cut to the capacity asked
      for - at least one token or one second's worth - and tokens come in at the rate asked for. */
  lemma ChangeTakesEffect(b: Bucket, rate: real, capacity: real, now: real, later: real)
    requires Bounded(b) && b.lastRefill <= now <= later
    ensures
      var inflow := Larger(rate, 0.0);
      var size := Larger(capacity, Smaller(inflow, 1.0));
      var there := Filled(b.tokens.value, now - b.lastRefill, b.fillRate.value, b.capacity.value);
      var changed := WithRateAndCapacity(b, Finite(rate), Finite(capacity), now);
      && Bounded(changed) && changed.capacity == Finite(size) && !changed.isInfinite
      && changed.tokens == Finite(Smaller(there, size))
      && Refilled(changed, later).tokens == Finite(Filled(Smaller(there, size), later - now, inflow, size))
  {
    var changed := WithRateAndCapacity(b, Finite(rate), Finite(capacity), now);
    RefillFills(b, b.fillRate.value, b.capacity.value, now);
    StepBalances(b, SetRateAndCapacity(Finite(rate), Finite(capacity), now));
    RefillFills(changed, Larger(rate, 0.0), Larger(capacity, Smaller(Larger(rate, 0.0), 1.0)), later);
  }

  /** After a change that does not, the bucket holds one second's worth and no more, and what is taken
      comes back at the rate asked for. */
  lemma ResetTakesEffect(b: Bucket, rate: real, now: real, amount: real, later: real)
    requires rate >= 0.0 && now <= later && 0.0 < amount <= rate
    ensures
      var changed := WithRate(b, Finite(rate), now);
      && changed.tokens == Finite(rate) && changed.capacity == Finite(rate) && !changed.isInfinite
      && TakeTurn(changed, amount, now).granted
      && Refilled(TakeTurn(changed, amount, now).bucket, later).tokens ==
         Finite(Filled(rate - amount, later - now, rate, rate))
  {
    var changed := WithRate(b, Finite(rate), now);
    NoTimeNoInflow(rate);
    RefillFills(changed, rate, rate, now);
    StepKeepsSane(changed, Take(amount, now));
    RefillFills(TakeTurn(changed, amount, now).bucket, rate, rate, later);
  }

  /** An unlimited rate, however it is set, lets every request pass at once, also one that was waiting. */
  lemma UnlimitedPasses(b: Bucket, capacity: Number, now: real, amount: Number, waiting: real)
    ensures b.capacity.Infinite? ==> TakeTurn(b, waiting, now).granted
    ensures Enter(New(capacity, Infinite, now), amount) == PassFree
    ensures Enter(WithRate(b, Infinite, now), amount) == PassFree
    ensures Enter(WithRateAndCapacity(b, Infinite, capacity, now), amount) == PassFree
  {
  }

  /** At a limited bucket a request takes turns exactly if the bucket can hold its amount, else it is
      oversize, as the bound assumes. An oversize request sleeps for exactly its share of time, or,
      from five minutes on, not at all. Requests for nothing pass, and at rate zero all others wait. */
  lemma SortedAsAssumed(b: Bucket, rate: real, capacity: real, amount: real, at: real)
    requires Limited(b, rate, capacity)
    ensures amount <= 0.0 <==> Enter(b, Finite(amount)) == PassFree
    ensures Enter(b, Finite(amount)) == TakeTurns(rate) <==> Admissible(Turns(amount, at), capacity)
    ensures amount > 0.0 && Admissible(Large(amount, at), capacity) <==> Enter(b, Finite(amount)).Oversize?
    ensures Enter(b, Finite(amount)).Oversize? ==>
              var sleep := Enter(b, Finite(amount)).sleep;
              if amount < 300.0 * rate then sleep * rate == amount else sleep == 0.0
    ensures amount > 0.0 ==> Enter(b.(fillRate := Finite(0.0)), Finite(amount)) == WaitForever
  {
    ShareOfTime(amount, rate);
  }

  lemma ShareOfTime(amount: real, rate: real)
    requires rate > 0.0
    ensures (amount / rate) * rate == amount
    ensures amount / rate < 300.0 <==> amount < 300.0 * rate
  {
    DivideBack(amount, rate);
    var share := amount / rate;
    if share < 300.0 {
      Scale(share, 300.0, rate);
      StrictScale(share, 300.0, rate);
    } else {
      Scale(300.0, share, rate);
    }
  }

  lemma StrictScale(a: real, b: real, rate: real)
    requires a < b && rate > 0.0
    ensures a * rate < b * rate
  {
  }

  /** A refused request sleeps until it can be granted and no longer, but at least a millisecond:
      before that time it would be refused again. */
  lemma SleepIsShortest(b: Bucket, amount: real, rate: real, capacity: real, now: real, later: real)
    requires Limited(b, rate, capacity) && 0.0 < amount <= capacity && b.lastRefill <= now <= later
    requires !TakeTurn(b, amount, now).granted
    ensures
      var full := TakeTurn(b, amount, now).bucket;
      && full.tokens.Finite?
      && var sleep := SleepTime(full, amount, rate);
      && sleep >= 0.001
      && (later < now + sleep ==> !TakeTurn(full, amount, later).granted || later < now + 0.001)
  {
    RefillKeepsSane(b, now);
    var full := Refilled(b, now);
    var needed := (amount - full.tokens.value) / rate;
    ShareOfTime(amount - full.tokens.value, rate);
    if later - now < needed {
      StrictScale(later - now, needed, rate);
      assert full.tokens.value + (later - now) * rate < amount;
      RefillFills(full, rate, capacity, later);
    }
  }
}
