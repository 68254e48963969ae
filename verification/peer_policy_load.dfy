/** Loading the persisted restrictions: one entry per normalized address, live entries only,
    within the bound, and a flag that tells whether the file needs rewriting. */
module PeerPolicyLoad {
  import opened Common
  import opened Iteration
  import opened PeerPolicy

  ghost predicate ComesFrom(original: Policy, key: IpAddr, restriction: Restriction) {
    exists ip :: ip in original && NormalizeIp(ip) == key && restriction == original[ip]
  }

  predicate LastsIn(normal: Policy, key: IpAddr, until: Time) {
    key in normal && normal[key].blockedUntil >= until
  }

  /** `normal` keeps, under each normalized address, the longest of the entries that share it. */
  ghost predicate IsNormalForm(original: Policy, normal: Policy) {
    && (forall k | k in normal :: ComesFrom(original, k, normal[k]))
    && (forall ip | ip in original :: LastsIn(normal, NormalizeIp(ip), original[ip].blockedUntil))
  }

  ghost predicate AllNormal(policy: Policy) {
    forall ip | ip in policy :: Normal(ip)
  }

  /** Takes in one more entry, unless a longer one of the same normalized address is there. */
  function TakeIn(normal: Policy, ip: IpAddr, restriction: Restriction): Policy {
    var key := NormalizeIp(ip);
    if key in normal && restriction.blockedUntil <= normal[key].blockedUntil then normal
    else normal[key := restriction]
  }

  lemma ComesFromMore(part: Policy, ip: IpAddr, restriction: Restriction, key: IpAddr, r: Restriction)
    requires ComesFrom(part, key, r) && ip !in part
    ensures ComesFrom(part[ip := restriction], key, r)
  {
    var j :| j in part && NormalizeIp(j) == key && r == part[j];
    assert j in part[ip := restriction];
  }

  lemma TakeInNormal(part: Policy, normal: Policy, ip: IpAddr, restriction: Restriction)
    requires IsNormalForm(part, normal) && ip !in part
    ensures IsNormalForm(part[ip := restriction], TakeIn(normal, ip, restriction))
  {
    forall k | k in TakeIn(normal, ip, restriction)
      ensures ComesFrom(part[ip := restriction], k, TakeIn(normal, ip, restriction)[k])
    {
      TakenComesFrom(part, normal, ip, restriction, k);
    }
    forall j | j in part[ip := restriction]
      ensures LastsIn(TakeIn(normal, ip, restriction), NormalizeIp(j), part[ip := restriction][j].blockedUntil)
    {
      TakenLasts(part, normal, ip, restriction, j);
    }
  }

  lemma TakenLasts(part: Policy, normal: Policy, ip: IpAddr, restriction: Restriction, j: IpAddr)
    requires forall i | i in part :: LastsIn(normal, NormalizeIp(i), part[i].blockedUntil)
    requires j == ip || j in part
    ensures LastsIn(TakeIn(normal, ip, restriction), NormalizeIp(j), part[ip := restriction][j].blockedUntil)
  {
  }

  lemma TakenComesFrom(part: Policy, normal: Policy, ip: IpAddr, restriction: Restriction, k: IpAddr)
    requires forall j | j in normal :: ComesFrom(part, j, normal[j])
    requires ip !in part && k in TakeIn(normal, ip, restriction)
    ensures ComesFrom(part[ip := restriction], k, TakeIn(normal, ip, restriction)[k])
  {
    if k in normal && TakeIn(normal, ip, restriction)[k] == normal[k] {
      ComesFromMore(part, ip, restriction, k, normal[k]);
    } else {
      assert ip in part[ip := restriction];
    }
  }

  /** Two addresses with one normal form are not both normal. */
  lemma CollisionNotNormal(part: Policy, normal: Policy, ip: IpAddr)
    requires IsNormalForm(part, normal) && ip !in part && NormalizeIp(ip) in normal
    ensures !(AllNormal(part) && Normal(ip))
  {
    var key := NormalizeIp(ip);
    assert ComesFrom(part, key, normal[key]);
    var j :| j in part && NormalizeIp(j) == key && normal[key] == part[j];
  }

  lemma TakeInAllNormal(part: Policy, ip: IpAddr, restriction: Restriction)
    requires ip !in part
    ensures AllNormal(part[ip := restriction]) <==> AllNormal(part) && Normal(ip)
  {
    var after := part[ip := restriction];
    assert after.Keys == part.Keys + {ip};
    assert ip in after && forall j | j in part :: j in after;
  }

  /** The part of `original` that a pass has seen, what it has built from it, and its flag. */
  ghost predicate Merged(part: Policy, normal: Policy, changed: bool) {
    && IsNormalForm(part, normal)
    && (changed <==> !AllNormal(part))
    && (!changed ==> normal == part)
  }

  lemma MergedStep(part: Policy, normal: Policy, changed: bool, ip: IpAddr, restriction: Restriction)
    requires Merged(part, normal, changed) && ip !in part
    ensures Merged(part[ip := restriction], TakeIn(normal, ip, restriction),
                   changed || NormalizeIp(ip) != ip || NormalizeIp(ip) in normal)
  {
    TakeInNormal(part, normal, ip, restriction);
    TakeInAllNormal(part, ip, restriction);
    if NormalizeIp(ip) in normal {
      CollisionNotNormal(part, normal, ip);
    }
  }

  function Part(original: Policy, order: seq<IpAddr>): Policy
    requires forall ip | ip in order :: ip in original
  {
    map ip | ip in order :: original[ip]
  }

  function MergeEach(original: Policy, order: seq<IpAddr>): (Policy, bool)
    requires forall ip | ip in order :: ip in original
  {
    if order == [] then (map[], false)
    else
      var ip := order[|order| - 1];
      var (normal, changed) := MergeEach(original, order[..|order| - 1]);
      (TakeIn(normal, ip, original[ip]), changed || NormalizeIp(ip) != ip || NormalizeIp(ip) in normal)
  }

  lemma {:induction false} MergeEachMerges(original: Policy, order: seq<IpAddr>)
    requires forall ip | ip in order :: ip in original
    requires forall i, j | 0 <= i < j < |order| :: order[i] != order[j]
    ensures Merged(Part(original, order), MergeEach(original, order).0, MergeEach(original, order).1)
    decreases |order|
  {
    if order != [] {
      var front := order[..|order| - 1];
      var ip := order[|order| - 1];
      var (normal, changed) := MergeEach(original, front);
      assert Part(original, order) == Part(original, front)[ip := original[ip]] by {
        assert order == front + [ip];
      }
      assert Merged(Part(original, front), normal, changed) by {
        MergeEachMerges(original, front);
      }
      MergedStep(Part(original, front), normal, changed, ip, original[ip]);
    }
  }

  lemma MergesAll(original: Policy, order: seq<IpAddr>)
    requires IsOrderOf(order, original.Keys)
    ensures Merged(original, MergeEach(original, order).0, MergeEach(original, order).1)
  {
    MergeEachMerges(original, order);
    assert Part(original, order) == original;
  }

  method MergeInOrder(original: Policy, order: seq<IpAddr>) returns (normal: Policy, changed: bool)
    requires IsOrderOf(order, original.Keys)
    ensures (normal, changed) == MergeEach(original, order)
  {
    normal := map[];
    changed := false;
    for i := 0 to |order|
      invariant (normal, changed) == MergeEach(original, order[..i])
    {
      assert order[..i + 1][..i] == order[..i];
      var ip := order[i];
      var restriction := original[ip];
      var key := NormalizeIp(ip);
      changed := changed || key != ip;
      if key !in normal {
        normal := normal[key := restriction];
      } else {
        changed := true;
        if restriction.blockedUntil > normal[key].blockedUntil {
          normal := normal[key := restriction];
        }
      }
    }
    assert order[..|order|] == order;
  }

  method NormalizeRestrictions(original: Policy) returns (normal: Policy, changed: bool)
    ensures IsNormalForm(original, normal)
    ensures changed <==> !AllNormal(original)
    ensures !changed ==> normal == original
  {
    var order := Enumerate(original.Keys);
    normal, changed := MergeInOrder(original, order);
    MergesAll(original, order);
  }

  lemma NormalFormIsNormal(original: Policy, normal: Policy)
    requires IsNormalForm(original, normal)
    ensures AllNormal(normal)
  {
  }

  /** The table holds the longest entry per address, live ones only, within the bound. The flag is
      raised exactly when it is not what the file holds. */
  method LoadPolicy(content: Policy, now: Time, max: nat)
    returns (table: PeerPolicyTable, requiresReconciliation: bool)
    ensures fresh(table)
    ensures requiresReconciliation <==> table.restrictions != content
    ensures exists normal :: IsNormalForm(content, normal) && table.restrictions == Retained(normal, now, max)
    ensures AllNormal(content) && |content| <= max && (forall ip | ip in content :: content[ip].blockedUntil > now) ==>
              table.restrictions == content
    ensures |table.restrictions| <= max && AllNormal(table.restrictions)
    ensures forall ip | ip in table.restrictions :: table.restrictions[ip].blockedUntil > now
  {
    var normal, renamed := NormalizeRestrictions(content);
    NormalFormIsNormal(content, normal);
    var expired := exists ip :: ip in normal && normal[ip].blockedUntil <= now;
    requiresReconciliation := renamed || |normal| > max || expired;
    table := new PeerPolicyTable(normal);
    table.RetainLiveAndBoundedTo(now, max);
    RetainedSame(normal, now, max);
    assert IsNormalForm(content, normal);
    if renamed {
      var ip :| ip in content && !Normal(ip);
      assert ip !in table.restrictions;
    }
  }

  lemma RetainedSame(policy: Policy, now: Time, max: nat)
    ensures Retained(policy, now, max) == policy <==>
            |policy| <= max && forall ip | ip in policy :: policy[ip].blockedUntil > now
    ensures |Retained(policy, now, max)| <= max
    ensures forall ip | ip in Retained(policy, now, max) ::
              ip in policy && Retained(policy, now, max)[ip].blockedUntil > now
  {
    var kept := Retained(policy, now, max);
    var live := Live(policy, now);
    if |policy| <= max && forall ip | ip in policy :: policy[ip].blockedUntil > now {
      assert live == policy;
      assert kept.Keys <= policy.Keys;
      SubsetCard(kept.Keys, policy.Keys);
    }
  }
}
