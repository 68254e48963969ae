/** Files that a move has no business with, and when it leaves them alone. */
module OfflineMoveBystanders {
  import opened Common
  import opened ByteStrings
  import opened OfflineMove
  import opened OfflineMoveSafety
  import opened OfflineMoveOutcome

  /** The paths in use once the entries before `n` are staged, each if its source is there by its turn. */
  function Occupied(used: set<Path>, plan: Plan, n: nat): set<Path>
    requires n <= |plan|
  {
    if n == 0 then used
    else
      var m, now := plan[n - 1], Occupied(used, plan, n - 1);
      if m.source in now && m.source != m.destination then now + {m.destination} else now
  }

  /** Entry `k` has something to move when its turn comes. */
  predicate Moves(before: Disk, plan: Plan, k: int) {
    0 <= k < |plan| && plan[k].source != plan[k].destination && plan[k].source in Occupied(before.Keys, plan, k)
  }

  /** A file that no entry moves away. */
  predicate Bystander(before: Disk, plan: Plan, p: Path) {
    p in before && forall k | 0 <= k < |plan| && Moves(before, plan, k) :: plan[k].source != p
  }

  function Bystanders(before: Disk, plan: Plan): Disk {
    map p | p in before && Bystander(before, plan, p) :: before[p]
  }

  /** Every instant of the run has every bystander as it was. */
  predicate LeftAlone(before: Disk, plan: Plan, run: Run) {
    forall i | 0 <= i < |run.trace| :: Keeps(Bystanders(before, plan), run.trace[i].disk)
  }

  /** Entry `k` moves something onto a bystander. */
  predicate Hits(before: Disk, plan: Plan, k: int) {
    Moves(before, plan, k) && Bystander(before, plan, plan[k].destination)
  }

  predicate NoHits(before: Disk, plan: Plan) {
    forall k | 0 <= k < |plan| :: !Hits(before, plan, k)
  }

  lemma {:induction false} OccupiedGrows(used: set<Path>, plan: Plan, n: nat)
    requires n <= |plan|
    ensures used <= Occupied(used, plan, n)
    decreases n
  {
    if n > 0 {
      OccupiedGrows(used, plan, n - 1);
    }
  }

  lemma {:induction false} RunningOccupies(before: Disk, plan: Plan, env: Environment, n: nat)
    requires n <= |plan| && StageUpTo(before, plan, env, n).status == Running
    ensures StageUpTo(before, plan, env, n).disk.Keys == Occupied(before.Keys, plan, n)
    decreases n
  {
    if n > 0 {
      RunningOccupies(before, plan, env, n - 1);
    }
  }

  lemma {:induction false} StagedMoves(before: Disk, plan: Plan, env: Environment, n: nat, m: Move)
    requires n <= |plan| && m in StageUpTo(before, plan, env, n).staged
    ensures exists k :: Moves(before, plan, k) && plan[k] == m
    decreases n
  {
    if m in StageUpTo(before, plan, env, n - 1).staged {
      StagedMoves(before, plan, env, n - 1, m);
    } else {
      RunningOccupies(before, plan, env, n - 1);
      assert Moves(before, plan, n - 1);
    }
  }

  lemma {:induction false} StagingLeavesAlone(before: Disk, plan: Plan, env: Environment, n: nat)
    requires n <= |plan| && NoHits(before, plan)
    ensures
      var s, others := StageUpTo(before, plan, env, n), Bystanders(before, plan);
      AllKeep(others, s.trace) && Keeps(others, s.disk)
    decreases n
  {
    if n > 0 {
      StagingLeavesAlone(before, plan, env, n - 1);
      var s, m := StageUpTo(before, plan, env, n - 1), plan[n - 1];
      if s.status == Running && Movable(s.disk, m) && env.attempts(n - 1).metadataRead {
        EntryLeavesAlone(before, plan, env, n - 1, s);
      }
    }
  }

  lemma EntryLeavesAlone(before: Disk, plan: Plan, env: Environment, n: nat, s: Stage)
    requires n < |plan| && NoHits(before, plan) && s == StageUpTo(before, plan, env, n)
    requires s.status == Running && Movable(s.disk, plan[n]) && env.attempts(n).metadataRead
    requires AllKeep(Bystanders(before, plan), s.trace) && Keeps(Bystanders(before, plan), s.disk)
    ensures
      var after, others := StageOne(s, plan[n], env.attempts(n), env), Bystanders(before, plan);
      AllKeep(others, after.trace) && Keeps(others, after.disk)
  {
    var others, a := Bystanders(before, plan), env.attempts(n);
    RunningOccupies(before, plan, env, n);
    assert Moves(before, plan, n) && !Hits(before, plan, n);
    forall m | m in s.staged
      ensures m.destination !in others
    {
      StagedMoves(before, plan, env, n, m);
      var k :| Moves(before, plan, k) && plan[k] == m;
      assert !Hits(before, plan, k);
    }
    if StageFile(s.disk, plan[n], a).ok {
      StagingKeeps(others, s.disk, plan[n], a);
    } else {
      FailedStepKeeps(others, s, plan[n], a, env);
    }
  }

  lemma CommitLeavesAlone(before: Disk, plan: Plan, env: Environment, s: Stage, n: nat)
    requires s == StageUpTo(before, plan, env, |plan|) && n <= |s.staged|
    requires Keeps(Bystanders(before, plan), s.disk)
    ensures Keeps(Bystanders(before, plan), Committed(s.disk, s.staged, n, env.commitRemoves))
  {
    var after := Committed(s.disk, s.staged, n, env.commitRemoves);
    forall p | p in Bystanders(before, plan)
      ensures p in after && after[p] == before[p]
    {
      CommittedAt(s.disk, s.staged, n, env.commitRemoves, p);
      forall i | 0 <= i < n
        ensures s.staged[i].source != p
      {
        StagedMoves(before, plan, env, |plan|, s.staged[i]);
      }
    }
  }

  lemma RunLeavesAlone(before: Disk, plan: Plan, env: Environment)
    requires NoHits(before, plan)
    ensures LeftAlone(before, plan, Execute(before, plan, env))
  {
    if env.admitted && Passes(before, plan) {
      var s := StageUpTo(before, plan, env, |plan|);
      StagingLeavesAlone(before, plan, env, |plan|);
      forall n | 0 <= n <= |s.staged|
        ensures Keeps(Bystanders(before, plan), Committed(s.disk, s.staged, n, env.commitRemoves))
      {
        CommitLeavesAlone(before, plan, env, s, n);
      }
    }
  }

  /** Every copy succeeds, and entry `k` finds its destination on its own mount. */
  function SameMountAt(k: nat): Environment {
    ALL_COPIES.(attempts := (i: nat) => ALL_COPIES.attempts(i).(sameMount := i == k))
  }

  lemma {:induction false} CopiedUntil(before: Disk, plan: Plan, k: nat, n: nat)
    requires n <= k <= |plan|
    ensures StageUpTo(before, plan, SameMountAt(k), n).status == Running
    decreases n
  {
    if n > 0 {
      CopiedUntil(before, plan, k, n - 1);
    }
  }

  lemma HitIsRemoved(before: Disk, plan: Plan, k: nat)
    requires Passes(before, plan) && Hits(before, plan, k)
    ensures !LeftAlone(before, plan, Execute(before, plan, SameMountAt(k)))
  {
    var env, p := SameMountAt(k), plan[k].destination;
    var s := StageUpTo(before, plan, env, k);
    CopiedUntil(before, plan, k, k);
    RunningOccupies(before, plan, env, k);
    OccupiedGrows(before.Keys, plan, k);
    var next, all := StageUpTo(before, plan, env, k + 1), StageUpTo(before, plan, env, |plan|);
    assert next.trace[|s.trace| + 1] == s.disk - {p};
    TraceGrows(before, plan, env, k + 1, |plan|);
    assert all.trace[|s.trace| + 1] == s.disk - {p};
    assert p in Bystanders(before, plan);
    assert Execute(before, plan, env).trace[|s.trace| + 1].disk == s.disk - {p};
  }

  /** A move leaves the files it does not move as they are, at every instant and whatever the
      environment, if and only if the plan is refused or no entry that has something to move by its
      turn leads to one of them. */
  lemma LeftAloneExactly(before: Disk, plan: Plan)
    ensures (forall env :: LeftAlone(before, plan, Execute(before, plan, env)))
            <==> (Passes(before, plan) ==> NoHits(before, plan))
  {
    if Passes(before, plan) && !NoHits(before, plan) {
      var k :| 0 <= k < |plan| && Hits(before, plan, k);
      HitIsRemoved(before, plan, k);
    } else {
      forall env: Environment
        ensures LeftAlone(before, plan, Execute(before, plan, env))
      {
        if Passes(before, plan) {
          RunLeavesAlone(before, plan, env);
        }
      }
    }
  }

  lemma {:induction false} OccupiedBy(before: Disk, plan: Plan, n: nat, p: Path) returns (i: nat)
    requires n <= |plan| && p in Occupied(before.Keys, plan, n) && p !in before
    ensures i < n && Moves(before, plan, i) && plan[i].destination == p
    decreases n
  {
    if p in Occupied(before.Keys, plan, n - 1) {
      i := OccupiedBy(before, plan, n - 1, p);
    } else {
      i := n - 1;
    }
  }

  lemma {:induction false} UnchainedSource(before: Disk, plan: Plan, k: nat)
    requires NoChains(before, plan) && Moves(before, plan, k)
    ensures plan[k].source in before
    decreases k
  {
    if plan[k].source !in before {
      var i := OccupiedBy(before, plan, k, plan[k].source);
      UnchainedSource(before, plan, i);
      assert Chained(before, plan, i, k);
    }
  }

  /** Without chains no entry does. */
  lemma NoChainsNoHits(before: Disk, plan: Plan)
    requires Passes(before, plan) && NoChains(before, plan)
    ensures NoHits(before, plan)
  {
    forall k | 0 <= k < |plan|
      ensures !Hits(before, plan, k)
    {
      if Moves(before, plan, k) {
        UnchainedSource(before, plan, k);
        assert Movable(before, plan[k]);
      }
    }
  }

  const CHAIN_DISK: Disk := map[["a"] := [1], ["c"] := [3]]
  const CHAIN: Plan := [Move(["a"], ["b"]), Move(["b"], ["c"])]
  const ONE_MOUNT := ALL_COPIES.(attempts := _ => Attempt(true, true, true, true, [], CopyComplete, true))

  lemma ChainPasses()
    ensures ["b"] !in CHAIN_DISK && ["b"] != ["c"] && Passes(CHAIN_DISK, CHAIN)
  {
    assert ["b"][0] != ["a"][0] && ["b"][0] != ["c"][0];
  }

  lemma ChainStarts()
    ensures
      var s := StageUpTo(CHAIN_DISK, CHAIN, ONE_MOUNT, 1);
      s.status == Running && s.disk == CHAIN_DISK[["b"] := [1]] && s.staged == [CHAIN[0]]
  {
    ChainPasses();
    assert ["a"][0] != ["b"][0];
    assert StageUpTo(CHAIN_DISK, CHAIN, ONE_MOUNT, 0) == Stage(CHAIN_DISK, [], [CHAIN_DISK], Running);
  }

  /** In a chain a -> b, b -> c where c exists, the checks pass, the link to c is refused, and the clean-up
      removes c although nothing of the move was ever there. */
  lemma RefusedLinkRemovesForeignFile()
    ensures
      var run := Execute(CHAIN_DISK, CHAIN, ONE_MOUNT);
      Passes(CHAIN_DISK, CHAIN) && run.outcome == StagingFailed(true) && ["c"] !in run.disk
  {
    ChainPasses();
    ChainStarts();
    assert |CHAIN| == 2;
    var one := StageUpTo(CHAIN_DISK, CHAIN, ONE_MOUNT, 1);
    assert StageUpTo(CHAIN_DISK, CHAIN, ONE_MOUNT, 2) == StageOne(one, CHAIN[1], ONE_MOUNT.attempts(1), ONE_MOUNT);
    var cleaned := one.disk - {["c"]};
    var undone := RolledBack(cleaned, one.staged, 1, ONE_MOUNT.rollbackRemoves);
    assert undone == Unstaged(cleaned, one.staged[0], true);
  }
}
