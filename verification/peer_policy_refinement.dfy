/** The bounded restriction table against an unbounded one that remembers, for every address,
    the longest deadline ever asked for. */
module PeerPolicyRefinement {
  import opened Common
  import opened Iteration
  import opened PeerPolicy

  type Deadlines = map<IpAddr, Time>

  function Remember(deadlines: Deadlines, ip: IpAddr, until: Time): Deadlines {
    var key := NormalizeIp(ip);
    deadlines[key := if key in deadlines then Max(deadlines[key], until) else until]
  }

  predicate WouldBlock(deadlines: Deadlines, ip: IpAddr, now: Time) {
    NormalizeIp(ip) in deadlines && deadlines[NormalizeIp(ip)] > now
  }

  datatype PolicyEvent =
    | RestrictEvent(ip: IpAddr, restriction: Restriction)
    | MaintainEvent
    | TickEvent(dt: nat)

  /** Both tables, driven by the same events on a clock that never runs backwards. */
  datatype Ledger = Ledger(now: Time, policy: Policy, deadlines: Deadlines)

  ghost function Apply(l: Ledger, e: PolicyEvent, max: nat): Ledger {
    match e
    case RestrictEvent(ip, r) =>
      l.(policy := Restrict(l.policy, ip, r, max), deadlines := Remember(l.deadlines, ip, r.blockedUntil))
    case MaintainEvent => l.(policy := Retained(l.policy, l.now, max))
    case TickEvent(dt) => l.(now := l.now + dt)
  }

  ghost function ApplyAll(l: Ledger, events: seq<PolicyEvent>, max: nat): Ledger
    decreases |events|
  {
    if events == [] then l else ApplyAll(Apply(l, events[0], max), events[1..], max)
  }

  predicate Agree(policy: Policy, deadlines: Deadlines, ip: IpAddr) {
    ip in policy && ip in deadlines && policy[ip].blockedUntil == deadlines[ip]
  }

  /** A live deadline the bounded table has lost is outlasted by everything in a full table. */
  predicate LostOnlyWhenFull(l: Ledger, max: nat, ip: IpAddr)
    requires ip in l.deadlines
  {
    l.deadlines[ip] > l.now && !Agree(l.policy, l.deadlines, ip) ==>
      |l.policy| == max && forall k | k in l.policy :: l.policy[k].blockedUntil >= l.deadlines[ip]
  }

  predicate Refines(l: Ledger, max: nat) {
    && |l.policy| <= max
    && (forall ip | ip in l.policy :: ip in l.deadlines && l.policy[ip].blockedUntil <= l.deadlines[ip])
    && (forall ip | ip in l.deadlines :: LostOnlyWhenFull(l, max, ip))
  }

  lemma RestrictRefines(l: Ledger, ip: IpAddr, r: Restriction, max: nat)
    requires Refines(l, max)
    ensures Refines(Apply(l, RestrictEvent(ip, r), max), max)
  {
    var key := NormalizeIp(ip);
    var after := Apply(l, RestrictEvent(ip, r), max);
    if key in l.policy && l.policy[key].blockedUntil >= r.blockedUntil {
      KeptRefines(l, key, r, max);
    } else if key !in l.policy && |l.policy| >= max {
      FullRefines(l, key, r, max);
    } else {
      InsertedRefines(l, key, r, max);
    }
  }

  lemma KeptRefines(l: Ledger, key: IpAddr, r: Restriction, max: nat)
    requires Refines(l, max) && Normal(key) && key in l.policy && l.policy[key].blockedUntil >= r.blockedUntil
    ensures Refines(l.(deadlines := Remember(l.deadlines, key, r.blockedUntil)), max)
  {
    var after := l.(deadlines := Remember(l.deadlines, key, r.blockedUntil));
    forall ip | ip in after.deadlines
      ensures LostOnlyWhenFull(after, max, ip)
    {
      assert LostOnlyWhenFull(l, max, ip);
    }
  }

  lemma InsertedRefines(l: Ledger, key: IpAddr, r: Restriction, max: nat)
    requires Refines(l, max) && Normal(key)
    requires key in l.policy ==> l.policy[key].blockedUntil < r.blockedUntil
    requires key !in l.policy ==> |l.policy| < max
    ensures Refines(Ledger(l.now, l.policy[key := r], Remember(l.deadlines, key, r.blockedUntil)), max)
  {
    var after := Ledger(l.now, l.policy[key := r], Remember(l.deadlines, key, r.blockedUntil));
    InsertSize(l.policy, key, r);
    forall ip | ip in after.deadlines
      ensures LostOnlyWhenFull(after, max, ip)
    {
      if ip in l.deadlines {
        assert LostOnlyWhenFull(l, max, ip);
      }
    }
  }

  lemma InsertSize(policy: Policy, key: IpAddr, r: Restriction)
    ensures |policy[key := r]| == |policy| + if key in policy then 0 else 1
  {
    assert policy[key := r].Keys == policy.Keys + {key};
  }

  lemma FullRefines(l: Ledger, key: IpAddr, r: Restriction, max: nat)
    requires Refines(l, max) && Normal(key) && key !in l.policy && |l.policy| >= max
    ensures Refines(Apply(l, RestrictEvent(key, r), max), max)
  {
    if l.policy != map[] && l.policy[Soonest(l.policy)].blockedUntil < r.blockedUntil {
      EvictionRefines(l, key, r, max);
    } else {
      RefusalRefines(l, key, r, max);
    }
  }

  lemma EvictionRefines(l: Ledger, key: IpAddr, r: Restriction, max: nat)
    requires Refines(l, max) && Normal(key) && key !in l.policy && |l.policy| >= max
    requires l.policy != map[] && l.policy[Soonest(l.policy)].blockedUntil < r.blockedUntil
    ensures Refines(Apply(l, RestrictEvent(key, r), max), max)
  {
    var after := Apply(l, RestrictEvent(key, r), max);
    var gone := Soonest(l.policy);
    RemoveOne(l.policy, gone);
    InsertSize(l.policy - {gone}, key, r);
    forall ip | ip in after.deadlines
      ensures LostOnlyWhenFull(after, max, ip)
    {
      if ip in l.deadlines {
        assert LostOnlyWhenFull(l, max, ip);
      }
    }
  }

  lemma RefusalRefines(l: Ledger, key: IpAddr, r: Restriction, max: nat)
    requires Refines(l, max) && Normal(key) && key !in l.policy && |l.policy| >= max
    requires l.policy == map[] || l.policy[Soonest(l.policy)].blockedUntil >= r.blockedUntil
    ensures Refines(Apply(l, RestrictEvent(key, r), max), max)
  {
    var after := Apply(l, RestrictEvent(key, r), max);
    SoonestIsLeast(l.policy);
    forall ip | ip in after.deadlines
      ensures LostOnlyWhenFull(after, max, ip)
    {
      if ip in l.deadlines {
        assert LostOnlyWhenFull(l, max, ip);
      }
    }
  }

  lemma SoonestIsLeast(policy: Policy)
    ensures policy != map[] ==>
              forall k | k in policy :: policy[Soonest(policy)].blockedUntil <= policy[k].blockedUntil
    ensures |policy| == 0 <==> policy == map[]
  {
    if |policy| == 0 {
      assert policy.Keys == {};
    }
  }

  lemma MaintainRefines(l: Ledger, max: nat)
    requires Refines(l, max)
    ensures Refines(Apply(l, MaintainEvent, max), max)
  {
    LiveSize(l.policy, l.now);
    var after := Apply(l, MaintainEvent, max);
    var live := Live(l.policy, l.now);
    assert after.policy == live by {
      SubsetCard(after.policy.Keys, live.Keys);
    }
    forall ip | ip in after.deadlines
      ensures LostOnlyWhenFull(after, max, ip)
    {
      assert LostOnlyWhenFull(l, max, ip);
      if l.deadlines[ip] > l.now && !Agree(l.policy, l.deadlines, ip) {
        assert live == l.policy;
      }
    }
  }

  lemma ApplyRefines(l: Ledger, e: PolicyEvent, max: nat)
    requires Refines(l, max)
    ensures Refines(Apply(l, e, max), max)
  {
    match e {
      case RestrictEvent(ip, r) => RestrictRefines(l, ip, r, max);
      case MaintainEvent => MaintainRefines(l, max);
      case TickEvent(dt) =>
        forall ip | ip in l.deadlines
          ensures LostOnlyWhenFull(Apply(l, e, max), max, ip)
        {
          assert LostOnlyWhenFull(l, max, ip);
        }
    }
  }

  lemma {:induction false} ApplyAllRefines(l: Ledger, events: seq<PolicyEvent>, max: nat)
    requires Refines(l, max)
    ensures Refines(ApplyAll(l, events, max), max)
    decreases |events|
  {
    if events != [] {
      ApplyRefines(l, events[0], max);
      ApplyAllRefines(Apply(l, events[0], max), events[1..], max);
    }
  }

  function DeadlinesOf(policy: Policy): Deadlines {
    map ip | ip in policy :: policy[ip].blockedUntil
  }

  /** Over any run from a table within its bound: what the bounded table blocks, the unbounded
      one blocks; and if the unbounded one blocks an address the bounded one does not, the
      bounded table is full and every entry in it lasts at least as long as the lost one. */
  lemma BoundedRefinesUnbounded(now: Time, policy: Policy, events: seq<PolicyEvent>, max: nat, ip: IpAddr)
    requires |policy| <= max
    ensures
      var l := ApplyAll(Ledger(now, policy, DeadlinesOf(policy)), events, max);
      && |l.policy| <= max
      && (Blocks(l.policy, ip, l.now) ==> WouldBlock(l.deadlines, ip, l.now))
      && (WouldBlock(l.deadlines, ip, l.now) && !Blocks(l.policy, ip, l.now) ==>
            && |l.policy| == max
            && forall k | k in l.policy :: l.policy[k].blockedUntil >= l.deadlines[NormalizeIp(ip)])
  {
    var start := Ledger(now, policy, DeadlinesOf(policy));
    ApplyAllRefines(start, events, max);
    var l := ApplyAll(start, events, max);
    if NormalizeIp(ip) in l.deadlines {
      assert LostOnlyWhenFull(l, max, NormalizeIp(ip));
    }
  }

  /** As long as no more than `max` addresses deserve blocking, nothing is lost at all. */
  lemma ExactWhileSmall(now: Time, policy: Policy, events: seq<PolicyEvent>, max: nat, ip: IpAddr)
    requires |policy| <= max
    requires
      var l := ApplyAll(Ledger(now, policy, DeadlinesOf(policy)), events, max);
      |set k | k in l.deadlines && l.deadlines[k] > l.now| <= max
    ensures
      var l := ApplyAll(Ledger(now, policy, DeadlinesOf(policy)), events, max);
      Blocks(l.policy, ip, l.now) <==> WouldBlock(l.deadlines, ip, l.now)
  {
    var start := Ledger(now, policy, DeadlinesOf(policy));
    ApplyAllRefines(start, events, max);
    BoundedRefinesUnbounded(now, policy, events, max, ip);
    var l := ApplyAll(start, events, max);
    if WouldBlock(l.deadlines, ip, l.now) && !Blocks(l.policy, ip, l.now) {
      var wanted := set k | k in l.deadlines && l.deadlines[k] > l.now;
      var key := NormalizeIp(ip);
      assert l.policy.Keys <= wanted - {key};
      SubsetCard(l.policy.Keys, wanted - {key});
    }
  }
}
