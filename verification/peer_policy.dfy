/** Peer restrictions: which addresses are blocked until when, kept in a bounded table.
    Times are nanoseconds on the system clock. */
module PeerPolicy {
  import opened Common
  import opened Iteration
  import opened ByteStrings

  type Time = int

  type InfoHash = Bytes

  /** An address as its bits read as a number: 32 of them, or 128. */
  datatype IpAddr = V4(bits: nat) | V6(bits: nat)

  const MAPPED_PREFIX: nat := 0xFFFF_0000_0000
  const V4_SPACE: nat := 0x1_0000_0000
  const MAX_POLICY_RESTRICTIONS: nat := 1_000_000

  /** An IPv4-mapped IPv6 address (section 2.5.5.2 of RFC 4291) stands for its IPv4 address. */
  function NormalizeIp(ip: IpAddr): IpAddr {
    match ip
    case V6(bits) =>
      if MAPPED_PREFIX <= bits < MAPPED_PREFIX + V4_SPACE then V4(bits - MAPPED_PREFIX) else ip
    case V4(_) => ip
  }

  predicate Normal(ip: IpAddr) {
    NormalizeIp(ip) == ip
  }

  /** The order of addresses: all of IPv4 first, then by number. */
  predicate IpLess(a: IpAddr, b: IpAddr) {
    (a.V4? && b.V6?) || (a.V4? == b.V4? && a.bits < b.bits)
  }

  datatype Reason =
    | ExcessiveUpload(uploadedBytes: nat, uploadThreshold: nat)
    | ExcessiveDownload(downloadedBytes: nat, downloadThreshold: nat)
    | ReconnectChurn(reconnects: nat, reconnectThreshold: nat, windowSecs: nat)
    | Manual

  datatype Restriction = Restriction(
    detectedAt: Time,
    blockedUntil: Time,
    torrent: Option<InfoHash>,
    reason: Reason)

  type Policy = map<IpAddr, Restriction>

  predicate Blocks(policy: Policy, ip: IpAddr, now: Time) {
    NormalizeIp(ip) in policy && policy[NormalizeIp(ip)].blockedUntil > now
  }

  /** Eviction order: the deadline that comes first, ties by address. */
  predicate Sooner(policy: Policy, a: IpAddr, b: IpAddr)
    requires a in policy && b in policy
  {
    || policy[a].blockedUntil < policy[b].blockedUntil
    || (policy[a].blockedUntil == policy[b].blockedUntil && IpLess(a, b))
  }

  predicate IsSoonest(policy: Policy, ip: IpAddr) {
    ip in policy && forall j | j in policy && j != ip :: Sooner(policy, ip, j)
  }

  lemma SoonestUnique(policy: Policy, a: IpAddr, b: IpAddr)
    requires IsSoonest(policy, a) && IsSoonest(policy, b)
    ensures a == b
  {
  }

  lemma SoonestExists(policy: Policy) returns (ip: IpAddr)
    requires policy != map[]
    ensures IsSoonest(policy, ip)
  {
    ip := SoonestAmong(policy, policy.Keys);
  }

  lemma SoonestAmong(policy: Policy, ips: set<IpAddr>) returns (ip: IpAddr)
    requires ips != {} && ips <= policy.Keys
    ensures ip in ips && forall j | j in ips && j != ip :: Sooner(policy, ip, j)
  {
    var i :| i in ips;
    ip := i;
    if other :| other in ips && other != i {
      assert other in ips - {i};
      var best := SoonestAmong(policy, ips - {i});
      if Sooner(policy, best, i) {
        ip := best;
      } else {
        assert Sooner(policy, i, best);
        assert forall j | j in ips && j != i && j != best :: Sooner(policy, best, j);
      }
    }
  }

  ghost function Soonest(policy: Policy): IpAddr
    requires policy != map[]
    ensures IsSoonest(policy, Soonest(policy))
  {
    SoonestExistsFact(policy);
    var ip :| IsSoonest(policy, ip);
    ip
  }

  lemma SoonestExistsFact(policy: Policy)
    requires policy != map[]
    ensures exists ip :: IsSoonest(policy, ip)
  {
    var ip := SoonestExists(policy);
  }

  // Adding a restriction.

  /** A restriction replaces a shorter one of the same address. In a full table it takes the
      place of the entry that ends first, if that one ends before it. */
  ghost function Restrict(policy: Policy, ip: IpAddr, restriction: Restriction, max: nat): Policy {
    var key := NormalizeIp(ip);
    if key in policy && policy[key].blockedUntil >= restriction.blockedUntil then policy
    else if key !in policy && |policy| >= max then
      if policy == map[] || policy[Soonest(policy)].blockedUntil >= restriction.blockedUntil then policy
      else (policy - {Soonest(policy)})[key := restriction]
    else policy[key := restriction]
  }

  // Expiry and the bound.

  function Live(policy: Policy, now: Time): Policy {
    map ip | ip in policy && policy[ip].blockedUntil > now :: policy[ip]
  }

  /** `kept` holds the `max` entries of `policy` that end last, or all of them. */
  predicate IsBounded(policy: Policy, kept: Policy, max: nat) {
    && |kept| == Min(|policy|, max)
    && (forall ip | ip in kept :: ip in policy && kept[ip] == policy[ip])
    && (forall ip, j | ip in policy && ip !in kept && j in kept :: Sooner(policy, ip, j))
  }

  lemma {:induction false} BoundedExists(policy: Policy, max: nat) returns (kept: Policy)
    ensures IsBounded(policy, kept, max)
    decreases |policy|
  {
    if |policy| <= max {
      kept := policy;
    } else {
      var first := Soonest(policy);
      RemoveOne(policy, first);
      kept := BoundedExists(policy - {first}, max);
    }
  }

  lemma BoundedUnique(policy: Policy, a: Policy, b: Policy, max: nat)
    requires IsBounded(policy, a, max) && IsBounded(policy, b, max)
    ensures a == b
  {
    if ip :| ip in a && ip !in b {
      BoundedOverlap(policy, a, b, ip);
      assert b.Keys < a.Keys;
      SubsetCard(b.Keys, a.Keys);
    }
    SubsetCard(a.Keys, b.Keys);
  }

  lemma BoundedOverlap(policy: Policy, a: Policy, b: Policy, ip: IpAddr)
    requires forall x | x in a :: x in policy
    requires forall x | x in b :: x in policy
    requires forall x, y | x in policy && x !in a && y in a :: Sooner(policy, x, y)
    requires forall x, y | x in policy && x !in b && y in b :: Sooner(policy, x, y)
    requires ip in a && ip !in b
    ensures b.Keys <= a.Keys
  {
    forall j | j in b
      ensures j in a
    {
      assert Sooner(policy, ip, j);
    }
  }

  ghost function Retained(policy: Policy, now: Time, max: nat): (kept: Policy)
    ensures IsBounded(Live(policy, now), kept, max)
  {
    RetainedExists(policy, now, max);
    var kept :| IsBounded(Live(policy, now), kept, max);
    kept
  }

  lemma RetainedExists(policy: Policy, now: Time, max: nat)
    ensures exists kept :: IsBounded(Live(policy, now), kept, max)
  {
    var kept := BoundedExists(Live(policy, now), max);
  }

  lemma RemoveOne(policy: Policy, ip: IpAddr)
    requires ip in policy
    ensures |policy - {ip}| == |policy| - 1
  {
    assert (policy - {ip}).Keys == policy.Keys - {ip};
  }

  class PeerPolicyTable {
    var restrictions: Policy

    constructor (restrictions: Policy)
      ensures this.restrictions == restrictions
    {
      this.restrictions := restrictions;
    }

    method BlocksIp(ip: IpAddr, now: Time) returns (blocked: bool)
      ensures blocked <==> Blocks(restrictions, ip, now)
    {
      var key := NormalizeIp(ip);
      blocked := key in restrictions && restrictions[key].blockedUntil > now;
    }

    /** `changed` is false only if the table is as before. */
    method RestrictIp(ip: IpAddr, restriction: Restriction, max: nat) returns (changed: bool)
      modifies this
      ensures restrictions == Restrict(old(restrictions), ip, restriction, max)
      ensures changed <==> restrictions != old(restrictions)
    {
      var key := NormalizeIp(ip);
      if key in restrictions && restrictions[key].blockedUntil >= restriction.blockedUntil {
        return false;
      }
      if key !in restrictions && |restrictions| >= max {
        var eviction := FindSoonest();
        if eviction.None? {
          return false;
        }
        SoonestUnique(restrictions, eviction.value, Soonest(restrictions));
        if restrictions[eviction.value].blockedUntil >= restriction.blockedUntil {
          return false;
        }
        restrictions := restrictions - {eviction.value};
      }
      restrictions := restrictions[key := restriction];
      assert key in restrictions;
      return true;
    }

    method FindSoonest() returns (found: Option<IpAddr>)
      ensures found.None? <==> restrictions == map[]
      ensures found.Some? ==> IsSoonest(restrictions, found.value)
    {
      found := None;
      var order := Enumerate(restrictions.Keys);
      for i := 0 to |order|
        invariant found.None? <==> i == 0
        invariant found.Some? ==> found.value in order[..i]
        invariant found.Some? ==> forall k | 0 <= k < i && order[k] != found.value ::
                                    Sooner(restrictions, found.value, order[k])
      {
        if found.None? || Sooner(restrictions, order[i], found.value) {
          found := Some(order[i]);
        }
      }
      assert forall ip | ip in restrictions :: ip in order;
    }

    /** Drops what has expired, then, above the limit, the entries that end first. */
    method RetainLiveAndBoundedTo(now: Time, max: nat)
      modifies this
      ensures restrictions == Retained(old(restrictions), now, max)
      ensures |restrictions| == |old(restrictions)| ==> restrictions == old(restrictions)
    {
      restrictions := map ip | ip in restrictions && restrictions[ip].blockedUntil > now :: restrictions[ip];
      ghost var live := Live(old(restrictions), now);
      assert restrictions == live;
      LiveSize(old(restrictions), now);
      if |restrictions| > max {
        RemoveSoonest(max);
      }
      BoundedUnique(live, restrictions, Retained(old(restrictions), now, max), max);
    }

    method RemoveSoonest(max: nat)
      requires |restrictions| > max
      modifies this
      ensures IsBounded(old(restrictions), restrictions, max)
    {
      ghost var live := restrictions;
      var byExpiry := SortByExpiry();
      var removeCount := |byExpiry| - max;
      for i := 0 to removeCount
        invariant restrictions == Without(live, byExpiry, i)
      {
        restrictions := restrictions - {byExpiry[i]};
      }
      WithoutFirst(live, byExpiry, removeCount, max);
    }

    method SortByExpiry() returns (sorted: seq<IpAddr>)
      ensures |sorted| == |restrictions|
      ensures IsOrderOf(sorted, restrictions.Keys)
      ensures forall i, j | 0 <= i < j < |sorted| :: Sooner(restrictions, sorted[i], sorted[j])
    {
      var order := Enumerate(restrictions.Keys);
      sorted := [];
      for n := 0 to |order|
        invariant |sorted| == n
        invariant forall i | 0 <= i < |sorted| :: sorted[i] in order[..n]
        invariant forall i | 0 <= i < n :: order[i] in sorted
        invariant forall i, j | 0 <= i < j < |sorted| :: Sooner(restrictions, sorted[i], sorted[j])
      {
        var at := 0;
        while at < |sorted| && Sooner(restrictions, sorted[at], order[n])
          invariant 0 <= at <= |sorted|
          invariant forall i | 0 <= i < at :: Sooner(restrictions, sorted[i], order[n])
        {
          at := at + 1;
        }
        sorted := Insert(restrictions, sorted, at, order[n], order[..n]);
        assert order[..n] + [order[n]] == order[..n + 1];
      }
      assert order[..|order|] == order;
      OrderSize(order, restrictions.Keys);
      SortedDistinct(restrictions, sorted);
    }
  }

  lemma LiveSize(policy: Policy, now: Time)
    ensures |Live(policy, now)| <= |policy|
    ensures |Live(policy, now)| == |policy| ==> Live(policy, now) == policy
  {
    var live := Live(policy, now);
    assert live.Keys <= policy.Keys;
    SubsetCard(live.Keys, policy.Keys);
  }

  /** The table without the first `n` addresses of an order. */
  function Without(policy: Policy, order: seq<IpAddr>, n: nat): Policy
    requires n <= |order|
  {
    if n == 0 then policy else Without(policy, order, n - 1) - {order[n - 1]}
  }

  lemma {:induction false} WithoutIs(policy: Policy, order: seq<IpAddr>, n: nat)
    requires IsOrderOf(order, policy.Keys) && n <= |order|
    ensures
      var rest := Without(policy, order, n);
      && (forall ip | ip in rest :: ip in policy && rest[ip] == policy[ip])
      && (forall k | 0 <= k < |order| :: order[k] in rest <==> k >= n)
  {
    if n > 0 {
      WithoutIs(policy, order, n - 1);
    }
  }

  lemma {:induction false} WithoutSize(policy: Policy, order: seq<IpAddr>, n: nat)
    requires IsOrderOf(order, policy.Keys) && n <= |order|
    ensures |Without(policy, order, n)| == |policy| - n
  {
    if n > 0 {
      WithoutSize(policy, order, n - 1);
      WithoutIs(policy, order, n - 1);
      RemoveOne(Without(policy, order, n - 1), order[n - 1]);
    }
  }

  /** Removing the entries that end first leaves the bounded table. */
  lemma WithoutFirst(live: Policy, order: seq<IpAddr>, n: nat, max: nat)
    requires IsOrderOf(order, live.Keys) && n <= |order| && |live| == n + max
    requires forall a, b | 0 <= a < b < |order| :: Sooner(live, order[a], order[b])
    ensures IsBounded(live, Without(live, order, n), max)
  {
    WithoutSize(live, order, n);
    WithoutSooner(live, order, n);
  }

  lemma WithoutSooner(live: Policy, order: seq<IpAddr>, n: nat)
    requires IsOrderOf(order, live.Keys) && n <= |order|
    requires forall a, b | 0 <= a < b < |order| :: Sooner(live, order[a], order[b])
    ensures
      var rest := Without(live, order, n);
      && (forall ip | ip in rest :: ip in live && rest[ip] == live[ip])
      && (forall ip, j | ip in live && ip !in rest && j in rest :: Sooner(live, ip, j))
  {
    WithoutIs(live, order, n);
    var rest := Without(live, order, n);
    forall ip, j | ip in live && ip !in rest && j in rest
      ensures Sooner(live, ip, j)
    {
      SplitSooner(live, rest, order, n, ip, j);
    }
  }

  lemma SplitSooner(live: Policy, rest: Policy, order: seq<IpAddr>, n: nat, ip: IpAddr, j: IpAddr)
    requires IsOrderOf(order, live.Keys)
    requires forall a, b | 0 <= a < b < |order| :: Sooner(live, order[a], order[b])
    requires forall k | 0 <= k < |order| :: order[k] in rest <==> k >= n
    requires ip in live && ip !in rest && j in live && j in rest
    ensures Sooner(live, ip, j)
  {
    var a :| 0 <= a < |order| && order[a] == ip;
    var b :| 0 <= b < |order| && order[b] == j;
    assert a < n <= b;
  }

  lemma OrderSize(order: seq<IpAddr>, keys: set<IpAddr>)
    requires IsOrderOf(order, keys)
    ensures |order| == |keys|
    decreases |order|
  {
    if order == [] {
      assert keys == {};
    } else {
      var last := |order| - 1;
      OrderFront(order, keys);
      OrderSize(order[..last], keys - {order[last]});
    }
  }

  lemma SortedDistinct(policy: Policy, sorted: seq<IpAddr>)
    requires forall i | 0 <= i < |sorted| :: sorted[i] in policy
    requires forall i, j | 0 <= i < j < |sorted| :: Sooner(policy, sorted[i], sorted[j])
    ensures forall i, j | 0 <= i < j < |sorted| :: sorted[i] != sorted[j]
  {
  }

  method Insert(policy: Policy, sorted: seq<IpAddr>, at: nat, ip: IpAddr, ghost seen: seq<IpAddr>)
    returns (after: seq<IpAddr>)
    requires at <= |sorted| && ip in policy && ip !in seen
    requires forall i | 0 <= i < |sorted| :: sorted[i] in policy && sorted[i] in seen
    requires forall i, j | 0 <= i < j < |sorted| :: Sooner(policy, sorted[i], sorted[j])
    requires forall i | 0 <= i < at :: Sooner(policy, sorted[i], ip)
    requires at < |sorted| ==> !Sooner(policy, sorted[at], ip)
    ensures |after| == |sorted| + 1
    ensures forall i | 0 <= i < |after| :: after[i] in policy && after[i] in seen + [ip]
    ensures ip in after && forall i | 0 <= i < |sorted| :: sorted[i] in after
    ensures forall i, j | 0 <= i < j < |after| :: Sooner(policy, after[i], after[j])
  {
    after := sorted[..at] + [ip] + sorted[at..];
    assert after[at] == ip;
    forall i | 0 <= i < |sorted|
      ensures sorted[i] in after
    {
      assert after[if i < at then i else i + 1] == sorted[i];
    }
    forall i | at <= i < |sorted|
      ensures Sooner(policy, ip, sorted[i])
    {
      assert sorted[at] != ip;
    }
  }
}
