/** What the bucket guarantees while its rate and capacity stay fixed and positive. */
module RateLimitBound {
  import opened RateLimit

  /** A limited bucket. */
  predicate Limited(b: Bucket, rate: real, capacity: real) {
    && Sane(b) && !b.isInfinite
    && b.fillRate == Finite(rate) && rate > 0.0
    && b.capacity == Finite(capacity)
  }

  /** What consumers do: take turns, or come and go as oversize requests. */
  datatype Consumption =
    | Turns(amount: real, at: real)
    | Large(largeAmount: real, arrived: real)

  function Begins(c: Consumption): real {
    match c
    case Turns(_, at) => at
    case Large(_, arrived) => arrived
  }

  function Ends(c: Consumption, rate: real): real
    requires rate > 0.0
  {
    match c
    case Turns(_, at) => at
    case Large(amount, arrived) => arrived + OversizeSleep(amount, rate)
  }

  /** Requests as the entry check sorts them. */
  predicate Admissible(c: Consumption, capacity: real) {
    match c
    case Turns(amount, _) => 0.0 < amount <= capacity
    case Large(amount, _) => amount > capacity
  }

  function BucketAfter(b: Bucket, c: Consumption): Bucket {
    match c
    case Turns(amount, at) => TakeTurn(b, amount, at).bucket
    case Large(_, _) => b
  }

  function Obtained(b: Bucket, c: Consumption): real {
    match c
    case Turns(amount, at) => if TakeTurn(b, amount, at).granted then amount else 0.0
    case Large(amount, _) => amount
  }

  function After(b: Bucket, cs: seq<Consumption>): Bucket
    decreases |cs|
  {
    if cs == [] then b else BucketAfter(After(b, cs[..|cs| - 1]), cs[|cs| - 1])
  }

  /** All that was obtained, in any interleaving of consumers. */
  function Total(b: Bucket, cs: seq<Consumption>): real
    decreases |cs|
  {
    if cs == [] then 0.0
    else Total(b, cs[..|cs| - 1]) + Obtained(After(b, cs[..|cs| - 1]), cs[|cs| - 1])
  }

  /** The bucket is asked in the order of time. */
  predicate InOrder(cs: seq<Consumption>, from: real) {
    && (forall i | 0 <= i < |cs| :: from <= Begins(cs[i]))
    && (forall i, j | 0 <= i < j < |cs| :: Begins(cs[i]) <= Begins(cs[j]))
  }

  predicate Modest(cs: seq<Consumption>, capacity: real) {
    forall i | 0 <= i < |cs| :: cs[i].Turns? && Admissible(cs[i], capacity)
  }

  /** Tokens less what time has brought since time zero. */
  function Credit(b: Bucket, rate: real): real
    requires b.tokens.Finite?
  {
    b.tokens.value - Inflow(b.lastRefill, rate)
  }

  lemma TurnSpendsCredit(b: Bucket, c: Consumption, rate: real, capacity: real)
    requires Limited(b, rate, capacity) && c.Turns? && Admissible(c, capacity) && b.lastRefill <= c.at
    ensures Limited(BucketAfter(b, c), rate, capacity) && BucketAfter(b, c).lastRefill == c.at
    ensures Obtained(b, c) + Credit(BucketAfter(b, c), rate) <= Credit(b, rate)
    ensures Obtained(b, c) + BucketAfter(b, c).tokens.value <= capacity
  {
    RefillKeepsSane(b, c.at);
    InflowSplit(b.lastRefill, c.at, rate);
  }

  /** Conservation: what was obtained and what is left came in with time. */
  lemma {:induction false} Conserved(b: Bucket, cs: seq<Consumption>, rate: real, capacity: real)
    requires Limited(b, rate, capacity) && Modest(cs, capacity) && InOrder(cs, b.lastRefill)
    ensures Limited(After(b, cs), rate, capacity)
    ensures After(b, cs).lastRefill == if cs == [] then b.lastRefill else Begins(cs[|cs| - 1])
    ensures Total(b, cs) + Credit(After(b, cs), rate) <= Credit(b, rate)
    decreases |cs|
  {
    if cs != [] {
      var front := cs[..|cs| - 1];
      Conserved(b, front, rate, capacity);
      TurnSpendsCredit(After(b, front), cs[|cs| - 1], rate, capacity);
    }
  }

  lemma {:induction false} TotalSplit(b: Bucket, before: seq<Consumption>, cs: seq<Consumption>)
    ensures After(b, before + cs) == After(After(b, before), cs)
    ensures Total(b, before + cs) == Total(b, before) + Total(After(b, before), cs)
    decreases |cs|
  {
    if cs == [] {
      assert before + cs == before;
    } else {
      assert (before + cs)[..|before + cs| - 1] == before + cs[..|cs| - 1];
      TotalSplit(b, before, cs[..|cs| - 1]);
    }
  }

  /** What flows in between two times. */
  function Between(from: real, to: real, rate: real): real {
    Inflow(to - from, rate)
  }

  /** The rate bound: from the first to the last of any turns of any interleaving at most the
      capacity plus the rate times the time between them is obtained. */
  lemma RateBound(b: Bucket, cs: seq<Consumption>, rate: real, capacity: real)
    requires Limited(b, rate, capacity) && Modest(cs, capacity) && InOrder(cs, b.lastRefill) && cs != []
    ensures Total(b, cs) <= capacity + Between(Begins(cs[0]), Begins(cs[|cs| - 1]), rate)
  {
    var start, last := Begins(cs[0]), Begins(cs[|cs| - 1]);
    var first, rest, left := FirstAndRest(b, cs, rate, capacity);
    InflowSplit(start, last, rate);
    Combine(first, rest, left, Inflow(start, rate), Inflow(last, rate), capacity);
  }

  lemma Combine(first: real, rest: real, left: real, start: real, last: real, capacity: real)
    requires rest <= (capacity - first - start) - (left - last) && left >= 0.0
    ensures first + rest <= capacity + (last - start)
  {
  }

  /** The first turn takes out of a bucket that is at most full; the rest spend what it left. */
  lemma FirstAndRest(b: Bucket, cs: seq<Consumption>, rate: real, capacity: real)
    returns (first: real, rest: real, left: real)
    requires Limited(b, rate, capacity) && Modest(cs, capacity) && InOrder(cs, b.lastRefill) && cs != []
    ensures Total(b, cs) == first + rest && left >= 0.0
    ensures rest <= (capacity - first - Inflow(Begins(cs[0]), rate)) - (left - Inflow(Begins(cs[|cs| - 1]), rate))
  {
    var next := BucketAfter(b, cs[0]);
    TurnSpendsCredit(b, cs[0], rate, capacity);
    TotalFirst(b, cs);
    first := Obtained(b, cs[0]);
    rest := Total(next, cs[1..]);
    left := Spent(next, cs[1..], rate, capacity, Begins(cs[|cs| - 1]));
  }

  lemma Spent(b: Bucket, cs: seq<Consumption>, rate: real, capacity: real, last: real) returns (left: real)
    requires Limited(b, rate, capacity) && Modest(cs, capacity) && InOrder(cs, b.lastRefill)
    requires last == if cs == [] then b.lastRefill else Begins(cs[|cs| - 1])
    ensures left >= 0.0 && Total(b, cs) + (left - Inflow(last, rate)) <= b.tokens.value - Inflow(b.lastRefill, rate)
  {
    Conserved(b, cs, rate, capacity);
    left := After(b, cs).tokens.value;
  }

  lemma TotalFirst(b: Bucket, cs: seq<Consumption>)
    requires cs != []
    ensures After(b, cs) == After(BucketAfter(b, cs[0]), cs[1..])
    ensures Total(b, cs) == Obtained(b, cs[0]) + Total(BucketAfter(b, cs[0]), cs[1..])
  {
    assert cs == [cs[0]] + cs[1..];
    TotalSplit(b, [cs[0]], cs[1..]);
    assert [cs[0]][..0] == [];
  }

  /** In a whole run, what is obtained from turn `i` to turn `j` obeys the bound. */
  lemma WindowBound(b: Bucket, cs: seq<Consumption>, rate: real, capacity: real, i: nat, j: nat)
    requires Limited(b, rate, capacity) && Modest(cs, capacity) && InOrder(cs, b.lastRefill)
    requires i < j <= |cs|
    ensures Total(b, cs[..j]) - Total(b, cs[..i]) <= capacity + Between(Begins(cs[i]), Begins(cs[j - 1]), rate)
  {
    var middle := WindowTotal(b, cs, rate, capacity, i, j);
    BoundBetween(middle, cs[i..j], rate, capacity, Begins(cs[i]), Begins(cs[j - 1]));
  }

  lemma BoundBetween(b: Bucket, cs: seq<Consumption>, rate: real, capacity: real, start: real, last: real)
    requires Limited(b, rate, capacity) && Modest(cs, capacity) && InOrder(cs, b.lastRefill) && cs != []
    requires start == Begins(cs[0]) && last == Begins(cs[|cs| - 1])
    ensures Total(b, cs) <= capacity + Between(start, last, rate)
  {
    RateBound(b, cs, rate, capacity);
  }

  lemma WindowTotal(b: Bucket, cs: seq<Consumption>, rate: real, capacity: real, i: nat, j: nat)
    returns (middle: Bucket)
    requires Limited(b, rate, capacity) && Modest(cs, capacity) && InOrder(cs, b.lastRefill)
    requires i < j <= |cs|
    ensures Limited(middle, rate, capacity) && Modest(cs[i..j], capacity) && InOrder(cs[i..j], middle.lastRefill)
    ensures cs[i..j][0] == cs[i] && cs[i..j][|cs[i..j]| - 1] == cs[j - 1]
    ensures Total(b, cs[..j]) == Total(b, cs[..i]) + Total(middle, cs[i..j])
  {
    WindowSlices(cs, b.lastRefill, capacity, i, j);
    middle := Reached(b, cs[..i], cs[i..j], rate, capacity);
  }

  lemma WindowSlices(cs: seq<Consumption>, from: real, capacity: real, i: nat, j: nat)
    requires Modest(cs, capacity) && InOrder(cs, from) && i < j <= |cs|
    ensures cs[..j] == cs[..i] + cs[i..j] && InOrder(cs[..i] + cs[i..j], from)
    ensures Modest(cs[..i], capacity) && Modest(cs[i..j], capacity)
    ensures cs[i..j][0] == cs[i] && cs[i..j][|cs[i..j]| - 1] == cs[j - 1]
  {
    assert cs[..j] == cs[..i] + cs[i..j] && cs[0..i] == cs[..i];
    SliceModest(cs, capacity, 0, i);
    SliceModest(cs, capacity, i, j);
    SliceInOrder(cs, from, j);
  }

  lemma SliceModest(cs: seq<Consumption>, capacity: real, i: nat, j: nat)
    requires Modest(cs, capacity) && i <= j <= |cs|
    ensures Modest(cs[i..j], capacity)
  {
  }

  lemma SliceInOrder(cs: seq<Consumption>, from: real, j: nat)
    requires InOrder(cs, from) && j <= |cs|
    ensures InOrder(cs[..j], from)
  {
  }

  lemma Reached(b: Bucket, before: seq<Consumption>, cs: seq<Consumption>, rate: real, capacity: real)
    returns (middle: Bucket)
    requires Limited(b, rate, capacity) && Modest(before, capacity) && InOrder(before + cs, b.lastRefill)
    ensures Limited(middle, rate, capacity) && InOrder(cs, middle.lastRefill)
    ensures Total(b, before + cs) == Total(b, before) + Total(middle, cs)
  {
    var all := before + cs;
    SliceInOrder(all, b.lastRefill, |before|);
    assert all[..|before|] == before;
    Conserved(b, before, rate, capacity);
    TotalSplit(b, before, cs);
    middle := After(b, before);
    RestInOrder(before, cs, b.lastRefill, middle.lastRefill);
  }

  lemma RestInOrder(before: seq<Consumption>, cs: seq<Consumption>, from: real, last: real)
    requires InOrder(before + cs, from)
    requires last == if before == [] then from else Begins(before[|before| - 1])
    ensures InOrder(cs, last)
  {
    var all := before + cs;
    assert forall i | 0 <= i < |cs| :: all[|before| + i] == cs[i];
    assert before != [] ==> all[|before| - 1] == before[|before| - 1];
  }

  // Oversize requests.

  function Span(cs: seq<Consumption>, rate: real): real
    requires rate > 0.0 && cs != []
  {
    Ends(cs[|cs| - 1], rate) - Begins(cs[0])
  }

  ghost predicate AlwaysBounded(rate: real, capacity: real, largest: real)
    requires rate > 0.0
  {
    forall b, cs: seq<Consumption> |
      && Limited(b, rate, capacity) && InOrder(cs, b.lastRefill) && cs != []
      && (forall i | 0 <= i < |cs| :: Admissible(cs[i], capacity) && Amount(cs[i]) <= largest) ::
      Total(b, cs) <= capacity + Inflow(Span(cs, rate), rate)
  }

  function Amount(c: Consumption): real {
    if c.Turns? then c.amount else c.largeAmount
  }

  lemma DivideBack(x: real, rate: real)
    requires rate > 0.0
    ensures Inflow(x / rate, rate) == x
  {
  }

  /** Two requests beyond the capacity that arrive together obtain more than the bound, even counted
      from their arrival: they wait but take nothing out of the bucket. */
  lemma TwoOversize(b: Bucket, rate: real, capacity: real, amount: real)
    requires Limited(b, rate, capacity) && amount > capacity
    ensures
      var cs := [Large(amount, b.lastRefill), Large(amount, b.lastRefill)];
      Total(b, cs) == 2.0 * amount > capacity + Inflow(Span(cs, rate), rate)
  {
    var c := Large(amount, b.lastRefill);
    var cs := [c, c];
    assert cs[..1] == [c] && [c][..0] == [];
    assert Total(b, [c]) == amount;
    DivideBack(amount, rate);
    DivideBack(0.0, rate);
    assert Inflow(OversizeSleep(amount, rate), rate) <= amount;
  }

  /** The bound holds of all requests up to a size exactly if that size is no more than the
      capacity. */
  lemma BoundedExactlyWithinCapacity(rate: real, capacity: real, largest: real)
    requires rate > 0.0 && capacity >= 0.0
    ensures AlwaysBounded(rate, capacity, largest) <==> largest <= capacity
  {
    if largest <= capacity {
      forall b, cs: seq<Consumption> |
        && Limited(b, rate, capacity) && InOrder(cs, b.lastRefill) && cs != []
        && (forall i | 0 <= i < |cs| :: Admissible(cs[i], capacity) && Amount(cs[i]) <= largest)
        ensures Total(b, cs) <= capacity + Inflow(Span(cs, rate), rate)
      {
        RateBound(b, cs, rate, capacity);
      }
    } else {
      var b := New(Finite(capacity), Finite(rate), 0.0);
      TwoOversize(b, rate, capacity, largest);
      var cs := [Large(largest, b.lastRefill), Large(largest, b.lastRefill)];
      assert Limited(b, rate, capacity) && InOrder(cs, b.lastRefill) && cs != [];
      assert forall i | 0 <= i < |cs| :: Admissible(cs[i], capacity) && Amount(cs[i]) <= largest;
    }
  }

  // A lone waiter.

  /** After one sleep of at least the announced length, with nobody in between, the turn is
      granted. */
  lemma OneSleepIsEnough(b: Bucket, amount: real, rate: real, capacity: real, now: real, later: real)
    requires Limited(b, rate, capacity) && 0.0 < amount <= capacity && b.lastRefill <= now
    requires !TakeTurn(b, amount, now).granted
    requires later >= now + SleepTime(TakeTurn(b, amount, now).bucket, amount, rate)
    ensures TakeTurn(TakeTurn(b, amount, now).bucket, amount, later).granted
  {
    RefillKeepsSane(b, now);
    var full := Refilled(b, now);
    var needed := (amount - full.tokens.value) / rate;
    DivideBack(amount - full.tokens.value, rate);
    assert later - now >= needed;
    Scale(needed, later - now, rate);
  }

  lemma Scale(a: real, b: real, rate: real)
    requires a <= b && rate > 0.0
    ensures Inflow(a, rate) <= Inflow(b, rate)
  {
    InflowNonNegative(b - a, rate);
    InflowSplit(a, b, rate);
  }
}
