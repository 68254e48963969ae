/** The move keeps every payload file readable at every instant, undoes a failed staging exactly and
    moves exactly what it should, if and only if the plan is orderly. */
module OfflineMoveSafety {
  import opened Common
  import opened ByteStrings
  import opened OfflineMove

  // When a plan is orderly.

  /** The source of a later entry is the destination of an earlier one: after the earlier entry is
      staged the later one finds a source that was not there when the plan was checked. */
  predicate Chained(disk: Disk, plan: Plan, i: int, j: int) {
    && 0 <= i < j < |plan|
    && Movable(disk, plan[i])
    && plan[j].source == plan[i].destination
    && plan[j].source != plan[j].destination
  }

  /** An entry stays in place whose file another entry moves away. */
  predicate Contended(disk: Disk, plan: Plan, i: int, k: int) {
    && 0 <= i < |plan| && 0 <= k < |plan|
    && Movable(disk, plan[i])
    && plan[k].source == plan[k].destination == plan[i].source
  }

  predicate NoChains(disk: Disk, plan: Plan) {
    forall i, j | 0 <= i < |plan| && 0 <= j < |plan| :: !Chained(disk, plan, i, j)
  }

  predicate Orderly(disk: Disk, plan: Plan) {
    NoChains(disk, plan) && forall i, k | 0 <= i < |plan| && 0 <= k < |plan| :: !Contended(disk, plan, i, k)
  }

  // What must hold at every instant.

  /** Every file of `before` is there with the same bytes. */
  predicate Keeps(before: Disk, disk: Disk) {
    forall p | p in before :: p in disk && disk[p] == before[p]
  }

  predicate ReadableAtSources(before: Disk, plan: Plan, disk: Disk) {
    forall k | 0 <= k < |plan| && plan[k].source in before ::
      plan[k].source in disk && disk[plan[k].source] == before[plan[k].source]
  }

  predicate ReadableAtDestinations(before: Disk, plan: Plan, disk: Disk) {
    forall k | 0 <= k < |plan| && plan[k].source in before ::
      plan[k].destination in disk && disk[plan[k].destination] == before[plan[k].source]
  }

  /** Whichever catalog is on disk names a readable copy of every payload file; while neither is
      readable, both copies are there. */
  predicate Readable(before: Disk, plan: Plan, s: Snapshot) {
    && (s.catalog != NewCatalog ==> ReadableAtSources(before, plan, s.disk))
    && (s.catalog != OldCatalog ==> ReadableAtDestinations(before, plan, s.disk))
  }

  predicate CrashSafe(before: Disk, plan: Plan, run: Run) {
    forall i | 0 <= i < |run.trace| :: Readable(before, plan, run.trace[i])
  }

  // The disk after staging.

  function Movables(disk: Disk, plan: Plan): seq<Move>
    ensures forall m | m in Movables(disk, plan) :: Movable(disk, m) && m in plan
    ensures forall i | 0 <= i < |plan| && Movable(disk, plan[i]) :: plan[i] in Movables(disk, plan)
  {
    if plan == [] then []
    else
      var last := plan[|plan| - 1];
      Movables(disk, plan[..|plan| - 1]) + if Movable(disk, last) then [last] else []
  }

  /** The disk with a copy of every staged source. */
  function Overlay(before: Disk, staged: seq<Move>): Disk
    requires forall m | m in staged :: m.source in before
  {
    if staged == [] then before
    else
      var last := staged[|staged| - 1];
      Overlay(before, staged[..|staged| - 1])[last.destination := before[last.source]]
  }

  lemma {:induction false} OverlayKeys(before: Disk, staged: seq<Move>, p: Path)
    requires forall m | m in staged :: m.source in before
    ensures p in Overlay(before, staged) <==> p in before || exists m :: m in staged && m.destination == p
    decreases |staged|
  {
    if staged != [] {
      var front := staged[..|staged| - 1];
      var last := staged[|staged| - 1];
      OverlayKeys(before, front, p);
      assert staged == front + [last];
      if last.destination == p {
        assert last in staged;
      } else if m :| m in staged && m.destination == p {
        assert m in front;
      }
    }
  }

  lemma {:induction false} OverlayKeeps(before: Disk, staged: seq<Move>)
    requires forall m | m in staged :: m.source in before && m.destination !in before
    ensures Keeps(before, Overlay(before, staged))
    decreases |staged|
  {
    if staged != [] {
      assert staged == staged[..|staged| - 1] + [staged[|staged| - 1]];
      OverlayKeeps(before, staged[..|staged| - 1]);
    }
  }

  predicate DistinctDestinations(staged: seq<Move>) {
    forall i, j | 0 <= i < j < |staged| :: staged[i].destination != staged[j].destination
  }

  lemma {:induction false} OverlayAt(before: Disk, staged: seq<Move>, i: nat)
    requires forall m | m in staged :: m.source in before
    requires DistinctDestinations(staged) && i < |staged|
    ensures staged[i].destination in Overlay(before, staged)
    ensures Overlay(before, staged)[staged[i].destination] == before[staged[i].source]
    decreases |staged|
  {
    var front := staged[..|staged| - 1];
    if i < |front| {
      OverlayAt(before, front, i);
      assert front[i] == staged[i];
      assert staged[i].destination != staged[|staged| - 1].destination;
    }
  }

  lemma {:induction false} MovablesDistinct(disk: Disk, plan: Plan)
    requires Passes(disk, plan)
    ensures DistinctDestinations(Movables(disk, plan))
    decreases |plan|
  {
    if plan != [] {
      var front := plan[..|plan| - 1];
      assert Passes(disk, front);
      MovablesDistinct(disk, front);
      var rest := Movables(disk, front);
      var last := plan[|plan| - 1];
      if Movable(disk, last) {
        forall i | 0 <= i < |rest|
          ensures rest[i].destination != last.destination
        {
          assert rest[i] in rest && rest[i] in front;
          var k :| 0 <= k < |front| && front[k] == rest[i];
          assert plan[k] == rest[i];
        }
      }
    }
  }

  /** What the checks give: a planned destination is no file that exists. */
  lemma MovablesFresh(disk: Disk, plan: Plan, m: Move)
    requires Passes(disk, plan) && m in Movables(disk, plan)
    ensures m.source in disk && m.destination !in disk
  {
    var k :| 0 <= k < |plan| && plan[k] == m;
  }

  lemma PrefixMovables(disk: Disk, plan: Plan, n: nat)
    requires n < |plan|
    ensures Movables(disk, plan[..n + 1]) ==
            Movables(disk, plan[..n]) + if Movable(disk, plan[n]) then [plan[n]] else []
  {
    assert plan[..n + 1][..n] == plan[..n];
  }

  lemma PrefixFresh(disk: Disk, plan: Plan, n: nat)
    requires Passes(disk, plan) && n <= |plan|
    ensures DistinctDestinations(Movables(disk, plan[..n]))
    ensures forall m | m in Movables(disk, plan[..n]) :: m.source in disk && m.destination !in disk
  {
    assert Passes(disk, plan[..n]);
    MovablesDistinct(disk, plan[..n]);
    forall m | m in Movables(disk, plan[..n])
      ensures m.source in disk && m.destination !in disk
    {
      MovablesFresh(disk, plan[..n], m);
    }
  }

  // One step.

  /** Staging writes the destination only. */
  lemma StageFileWrites(disk: Disk, m: Move, a: Attempt)
    requires Movable(disk, m)
    ensures var r := StageFile(disk, m, a);
            && r.disk - {m.destination} == disk - {m.destination}
            && (forall i | 0 <= i < |r.between| :: r.between[i] - {m.destination} == disk - {m.destination})
            && (r.ok ==> r.disk == disk[m.destination := disk[m.source]])
  {
  }

  /** Without chains the entries staged are exactly those the checks saw. */
  lemma StagedEntry(before: Disk, plan: Plan, n: nat)
    requires Passes(before, plan) && NoChains(before, plan) && n < |plan|
    requires forall m | m in Movables(before, plan[..n]) :: m.source in before
    ensures Movable(Overlay(before, Movables(before, plan[..n])), plan[n]) <==> Movable(before, plan[n])
    ensures Movable(before, plan[n]) ==> plan[n].destination !in Overlay(before, Movables(before, plan[..n]))
  {
    var staged := Movables(before, plan[..n]);
    OverlayKeys(before, staged, plan[n].source);
    OverlayKeys(before, staged, plan[n].destination);
    forall m | m in staged
      ensures plan[n].source != plan[n].destination ==> m.destination != plan[n].source
      ensures Movable(before, plan[n]) ==> m.destination != plan[n].destination
    {
      assert m in plan[..n];
      var k :| 0 <= k < n && plan[k] == m;
      assert !Chained(before, plan, k, n);
    }
  }

  predicate AllKeep(before: Disk, trace: seq<Disk>) {
    forall i | 0 <= i < |trace| :: Keeps(before, trace[i])
  }

  lemma KeepsWithout(before: Disk, disk: Disk, other: Disk, p: Path)
    requires Keeps(before, disk) && p !in before && other - {p} == disk - {p}
    ensures Keeps(before, other)
  {
    forall q | q in before
      ensures q in other && other[q] == before[q]
    {
      assert q in disk - {p};
      assert q in other - {p} && (other - {p})[q] == (disk - {p})[q];
    }
  }

  lemma {:induction false} RollbackKeeps(before: Disk, disk: Disk, staged: seq<Move>, n: nat, removes: nat -> bool)
    requires n <= |staged| && Keeps(before, disk)
    requires forall m | m in staged :: m.destination !in before
    ensures Keeps(before, RolledBack(disk, staged, n, removes))
    ensures AllKeep(before, RollbackTrace(disk, staged, n, removes))
    decreases n
  {
    if n > 0 {
      var next := Unstaged(disk, staged[n - 1], removes(n - 1));
      assert staged[n - 1] in staged;
      RollbackKeeps(before, next, staged, n - 1, removes);
    }
  }

  /** Undoing every staged file gives back the disk as it was. */
  lemma {:induction false} RollbackRestores(before: Disk, staged: seq<Move>, n: nat, removes: nat -> bool)
    requires n <= |staged| && forall i | 0 <= i < n :: removes(i)
    requires DistinctDestinations(staged)
    requires forall m | m in staged :: m.source in before && m.destination !in before
    ensures RolledBack(Overlay(before, staged[..n]), staged, n, removes) == before
    decreases n
  {
    if n > 0 {
      var m := staged[n - 1];
      var disk := Overlay(before, staged[..n]);
      var less := Overlay(before, staged[..n - 1]);
      assert m in staged;
      assert staged[..n][..n - 1] == staged[..n - 1];
      assert disk == less[m.destination := before[m.source]];
      OverlayKeys(before, staged[..n - 1], m.destination);
      forall other | other in staged[..n - 1]
        ensures other.destination != m.destination
      {
        var i :| 0 <= i < n - 1 && staged[i] == other;
      }
      OverlayKeys(before, staged[..n], m.source);
      assert disk - {m.destination} == less;
      RollbackRestores(before, staged, n - 1, removes);
    }
  }

  predicate RemovesAll(removes: nat -> bool, n: nat) {
    forall i | 0 <= i < n :: removes(i)
  }

  /** Nothing that existed is touched while staging, whatever fails; `s` is the state after the
      first `n` entries. */
  predicate StageInvariant(before: Disk, plan: Plan, env: Environment, n: nat, s: Stage)
    requires n <= |plan|
  {
    && AllKeep(before, s.trace)
    && Keeps(before, s.disk)
    && (forall m | m in s.staged :: m.source in before && m.destination !in before)
    && DistinctDestinations(s.staged)
    && (s.status != Undone ==> s.disk == Overlay(before, s.staged))
    && (s.status == Running ==> s.staged == Movables(before, plan[..n]))
    && (s.status == Undone && env.cleanupRemoves && RemovesAll(env.rollbackRemoves, |s.staged|) ==> s.disk == before)
  }

  lemma StagingKeeps(before: Disk, disk: Disk, m: Move, a: Attempt)
    requires Movable(disk, m) && Keeps(before, disk) && m.destination !in before
    ensures Keeps(before, StageFile(disk, m, a).disk) && AllKeep(before, StageFile(disk, m, a).between)
  {
    var r := StageFile(disk, m, a);
    StageFileWrites(disk, m, a);
    KeepsWithout(before, disk, r.disk, m.destination);
    forall i | 0 <= i < |r.between|
      ensures Keeps(before, r.between[i])
    {
      KeepsWithout(before, disk, r.between[i], m.destination);
    }
  }

  lemma FailedStepKeeps(before: Disk, s: Stage, m: Move, a: Attempt, env: Environment)
    requires s.status == Running && Movable(s.disk, m) && a.metadataRead && !StageFile(s.disk, m, a).ok
    requires forall m | m in s.staged :: m.destination !in before
    requires m.destination !in before && AllKeep(before, s.trace) && Keeps(before, s.disk)
    ensures var after := StageOne(s, m, a, env);
            AllKeep(before, after.trace) && Keeps(before, after.disk)
  {
    var r := StageFile(s.disk, m, a);
    StagingKeeps(before, s.disk, m, a);
    var cleaned := CleanedUp(r.disk, m, env.cleanupRemoves);
    assert Keeps(before, cleaned);
    RollbackKeeps(before, cleaned, s.staged, |s.staged|, env.rollbackRemoves);
  }

  lemma FailedStepRestores(before: Disk, s: Stage, m: Move, a: Attempt, env: Environment)
    requires s.status == Running && Movable(s.disk, m) && a.metadataRead && !StageFile(s.disk, m, a).ok
    requires forall m | m in s.staged :: m.source in before && m.destination !in before
    requires DistinctDestinations(s.staged) && s.disk == Overlay(before, s.staged)
    requires m.destination !in s.disk
    requires env.cleanupRemoves && RemovesAll(env.rollbackRemoves, |s.staged|)
    ensures StageOne(s, m, a, env).disk == before
  {
    var r := StageFile(s.disk, m, a);
    StageFileWrites(s.disk, m, a);
    assert s.disk - {m.destination} == s.disk;
    assert m.source in s.disk - {m.destination};
    assert CleanedUp(r.disk, m, env.cleanupRemoves) == s.disk;
    assert s.staged[..|s.staged|] == s.staged;
    RollbackRestores(before, s.staged, |s.staged|, env.rollbackRemoves);
  }

  lemma StagedStep(before: Disk, s: Stage, m: Move, a: Attempt, env: Environment)
    requires s.status == Running && Movable(s.disk, m) && a.metadataRead && StageFile(s.disk, m, a).ok
    requires forall m | m in s.staged :: m.source in before && m.destination !in before
    requires s.disk == Overlay(before, s.staged)
    requires m.destination !in before && m.source in before
    requires AllKeep(before, s.trace) && Keeps(before, s.disk)
    ensures var after := StageOne(s, m, a, env);
            && AllKeep(before, after.trace) && Keeps(before, after.disk)
            && after.disk == Overlay(before, after.staged)
  {
    StageFileWrites(s.disk, m, a);
    StagingKeeps(before, s.disk, m, a);
    assert (s.staged + [m])[..|s.staged|] == s.staged;
  }

  lemma StageOneKeepsInvariant(before: Disk, plan: Plan, env: Environment, n: nat, s: Stage)
    requires Passes(before, plan) && NoChains(before, plan) && n < |plan|
    requires StageInvariant(before, plan, env, n, s)
    ensures StageInvariant(before, plan, env, n + 1, StageOne(s, plan[n], env.attempts(n), env))
  {
    var m := plan[n];
    var a := env.attempts(n);
    if s.status != Running {
      return;
    }
    PrefixMovables(before, plan, n);
    PrefixFresh(before, plan, n + 1);
    StagedEntry(before, plan, n);
    if Movable(s.disk, m) && a.metadataRead {
      if StageFile(s.disk, m, a).ok {
        StagedStep(before, s, m, a, env);
      } else {
        FailedStepKeeps(before, s, m, a, env);
        if env.cleanupRemoves && RemovesAll(env.rollbackRemoves, |s.staged|) {
          FailedStepRestores(before, s, m, a, env);
        }
      }
    }
  }

  lemma NothingStaged(before: Disk, plan: Plan, env: Environment) returns (s: Stage)
    ensures s == StageUpTo(before, plan, env, 0) && StageInvariant(before, plan, env, 0, s)
  {
    assert plan[..0] == [];
    s := Stage(before, [], [before], Running);
  }

  lemma NextStaged(before: Disk, plan: Plan, env: Environment, n: nat, previous: Stage) returns (s: Stage)
    requires Passes(before, plan) && NoChains(before, plan) && n < |plan|
    requires previous == StageUpTo(before, plan, env, n) && StageInvariant(before, plan, env, n, previous)
    ensures s == StageUpTo(before, plan, env, n + 1) && StageInvariant(before, plan, env, n + 1, s)
  {
    StageOneKeepsInvariant(before, plan, env, n, previous);
    s := StageOne(previous, plan[n], env.attempts(n), env);
  }

  lemma {:induction false} StagedWithInvariant(before: Disk, plan: Plan, env: Environment, n: nat) returns (s: Stage)
    requires Passes(before, plan) && NoChains(before, plan) && n <= |plan|
    ensures s == StageUpTo(before, plan, env, n) && StageInvariant(before, plan, env, n, s)
    decreases n
  {
    if n == 0 {
      s := NothingStaged(before, plan, env);
    } else {
      var previous := StagedWithInvariant(before, plan, env, n - 1);
      s := NextStaged(before, plan, env, n - 1, previous);
    }
  }

  lemma StagingInvariant(before: Disk, plan: Plan, env: Environment, n: nat)
    requires Passes(before, plan) && NoChains(before, plan) && n <= |plan|
    ensures StageInvariant(before, plan, env, n, StageUpTo(before, plan, env, n))
  {
    var s := StagedWithInvariant(before, plan, env, n);
  }

  // Saving and committing.

  lemma CompleteStaging(before: Disk, plan: Plan, env: Environment)
    requires Passes(before, plan) && NoChains(before, plan)
    requires StageUpTo(before, plan, env, |plan|).status == Running
    ensures StageUpTo(before, plan, env, |plan|).staged == Movables(before, plan)
    ensures StageUpTo(before, plan, env, |plan|).disk == Overlay(before, Movables(before, plan))
  {
    StagingInvariant(before, plan, env, |plan|);
    assert plan[..|plan|] == plan;
  }

  /** After staging, sources and destinations both hold every payload file. */
  lemma StagedReadable(before: Disk, plan: Plan)
    requires Passes(before, plan)
    requires forall m | m in Movables(before, plan) :: m.source in before
    ensures ReadableAtSources(before, plan, Overlay(before, Movables(before, plan)))
    ensures ReadableAtDestinations(before, plan, Overlay(before, Movables(before, plan)))
  {
    var staged := Movables(before, plan);
    MovablesDistinct(before, plan);
    forall m | m in staged
      ensures m.destination !in before
    {
      MovablesFresh(before, plan, m);
    }
    OverlayKeeps(before, staged);
    forall k | 0 <= k < |plan| && Movable(before, plan[k])
      ensures plan[k].destination in Overlay(before, staged)
      ensures Overlay(before, staged)[plan[k].destination] == before[plan[k].source]
    {
      var i :| 0 <= i < |staged| && staged[i] == plan[k];
      OverlayAt(before, staged, i);
    }
  }

  lemma {:induction false} CommittedAt(disk: Disk, staged: seq<Move>, n: nat, removes: nat -> bool, p: Path)
    requires n <= |staged|
    ensures p in Committed(disk, staged, n, removes) <==>
              p in disk && forall i | 0 <= i < n :: removes(i) ==> staged[i].source != p
    ensures p in Committed(disk, staged, n, removes) ==> Committed(disk, staged, n, removes)[p] == disk[p]
    decreases n
  {
    if n > 0 {
      CommittedAt(disk, staged, n - 1, removes, p);
    }
  }

  lemma CommitReadable(before: Disk, plan: Plan, disk: Disk, n: nat, removes: nat -> bool)
    requires Passes(before, plan) && Orderly(before, plan)
    requires n <= |Movables(before, plan)| && ReadableAtDestinations(before, plan, disk)
    ensures ReadableAtDestinations(before, plan, Committed(disk, Movables(before, plan), n, removes))
  {
    var staged := Movables(before, plan);
    forall k | 0 <= k < |plan| && plan[k].source in before
      ensures var after := Committed(disk, staged, n, removes);
              plan[k].destination in after && after[plan[k].destination] == before[plan[k].source]
    {
      CommittedAt(disk, staged, n, removes, plan[k].destination);
      forall i | 0 <= i < n
        ensures staged[i].source != plan[k].destination
      {
        assert staged[i] in staged && staged[i] in plan;
        var j :| 0 <= j < |plan| && plan[j] == staged[i];
        assert !Contended(before, plan, j, k);
      }
    }
  }

  lemma TraceReadable(before: Disk, plan: Plan, trace: seq<Disk>)
    requires AllKeep(before, trace)
    ensures forall i | 0 <= i < |trace| :: Readable(before, plan, Snapshot(trace[i], OldCatalog))
  {
    forall i | 0 <= i < |trace|
      ensures Readable(before, plan, Snapshot(trace[i], OldCatalog))
    {
      assert Keeps(before, trace[i]);
    }
  }

  /** Crash safety: in an orderly plan every instant of every run is readable. */
  lemma OrderlyIsCrashSafe(before: Disk, plan: Plan, env: Environment)
    requires Orderly(before, plan)
    ensures CrashSafe(before, plan, Execute(before, plan, env))
  {
    if env.admitted && Passes(before, plan) {
      var s := StageUpTo(before, plan, env, |plan|);
      StagingInvariant(before, plan, env, |plan|);
      TraceReadable(before, plan, s.trace);
      if s.status == Running {
        CompleteStaging(before, plan, env);
        StagedReadable(before, plan);
        forall i | 0 <= i <= |s.staged|
          ensures Readable(before, plan, Snapshot(Committed(s.disk, s.staged, i, env.commitRemoves), NewCatalog))
        {
          CommitReadable(before, plan, s.disk, i, env.commitRemoves);
        }
      }
    }
  }

  // Disorderly plans.

  const ALL_COPIES := Environment(
    true, _ => Attempt(true, false, false, true, [], CopyComplete, true), true, _ => true,
    SaveAnswers(true, true, true, false, true, true), _ => true)

  /** When every copy succeeds, an entry is staged if its source exists by its turn. */
  lemma {:induction false} AllCopied(before: Disk, plan: Plan, n: nat)
    requires n <= |plan|
    ensures
      var s := StageUpTo(before, plan, ALL_COPIES, n);
      && s.status == Running
      && before.Keys <= s.disk.Keys
      && (forall i | 0 <= i < n && Movable(before, plan[i]) :: plan[i] in s.staged && plan[i].destination in s.disk)
      && (forall i, j | 0 <= i < n && 0 <= j < n && Chained(before, plan, i, j) :: plan[j] in s.staged)
    decreases n
  {
    if n > 0 {
      AllCopied(before, plan, n - 1);
    }
  }

  lemma CommitRemoves(disk: Disk, staged: seq<Move>, m: Move)
    requires m in staged
    ensures m.source !in Committed(disk, staged, |staged|, ALL_COPIES.commitRemoves)
  {
    var i :| 0 <= i < |staged| && staged[i] == m;
    CommittedAt(disk, staged, |staged|, ALL_COPIES.commitRemoves, m.source);
    assert ALL_COPIES.commitRemoves(i);
  }

  /** A disorderly plan loses a file even when nothing fails. */
  lemma DisorderlyLoses(before: Disk, plan: Plan)
    requires Passes(before, plan) && !Orderly(before, plan)
    ensures Execute(before, plan, ALL_COPIES).outcome == Moved
    ensures !ReadableAtDestinations(before, plan, Execute(before, plan, ALL_COPIES).disk)
    ensures !CrashSafe(before, plan, Execute(before, plan, ALL_COPIES))
  {
    AllCopied(before, plan, |plan|);
    var s := StageUpTo(before, plan, ALL_COPIES, |plan|);
    var run := Execute(before, plan, ALL_COPIES);
    if i, j :| 0 <= i < |plan| && 0 <= j < |plan| && Chained(before, plan, i, j) {
      CommitRemoves(s.disk, s.staged, plan[j]);
      assert plan[i].source in before && plan[i].destination !in run.disk;
    } else {
      var i, k :| 0 <= i < |plan| && 0 <= k < |plan| && Contended(before, plan, i, k);
      CommitRemoves(s.disk, s.staged, plan[i]);
      assert plan[k].source in before && plan[k].destination !in run.disk;
    }
    var last := run.trace[|run.trace| - 1];
    assert last == Snapshot(run.disk, NewCatalog);
    assert !Readable(before, plan, last);
  }

  // The main results.

  /** A staging that was undone, with every removal succeeding, left no trace. */
  ghost predicate UndoneCompletely(before: Disk, run: Run, env: Environment) {
    run.outcome == StagingFailed(true) && env.cleanupRemoves && (forall i: nat :: env.rollbackRemoves(i)) ==>
      run.disk == before
  }

  lemma OrderlyIsUndone(before: Disk, plan: Plan, env: Environment)
    requires NoChains(before, plan)
    ensures UndoneCompletely(before, Execute(before, plan, env), env)
  {
    if env.admitted && Passes(before, plan) {
      StagingInvariant(before, plan, env, |plan|);
    }
  }

  /** Every run is crash-safe, and undone completely if undone, exactly when the plan is refused or
      orderly. */
  lemma SafeExactlyWhenOrderly(before: Disk, plan: Plan)
    ensures (forall env :: CrashSafe(before, plan, Execute(before, plan, env))
                           && UndoneCompletely(before, Execute(before, plan, env), env))
            <==> (Passes(before, plan) ==> Orderly(before, plan))
  {
    if Passes(before, plan) && !Orderly(before, plan) {
      DisorderlyLoses(before, plan);
    } else {
      forall env
        ensures CrashSafe(before, plan, Execute(before, plan, env))
        ensures UndoneCompletely(before, Execute(before, plan, env), env)
      {
        if Passes(before, plan) {
          OrderlyIsCrashSafe(before, plan, env);
          OrderlyIsUndone(before, plan, env);
        }
      }
    }
  }

  // Abandoned staging: the return on an unreadable source skips the rollback.

  lemma {:induction false} AbandonedStays(before: Disk, plan: Plan, env: Environment, k: nat, n: nat)
    requires k <= n <= |plan| && StageUpTo(before, plan, env, k).status == Abandoned
    ensures StageUpTo(before, plan, env, n) == StageUpTo(before, plan, env, k)
    decreases n
  {
    if n > k {
      AbandonedStays(before, plan, env, k, n - 1);
    }
  }

  predicate NoneMovable(disk: Disk, plan: Plan, n: nat)
    requires n <= |plan|
  {
    forall i | 0 <= i < n :: !Movable(disk, plan[i])
  }

  /** While staging goes on nothing is lost from the disk, it is as before as long as no entry was
      worth moving, and the first that was has its copy. */
  lemma {:induction false} RunningStage(before: Disk, plan: Plan, env: Environment, n: nat)
    requires n <= |plan| && StageUpTo(before, plan, env, n).status == Running
    ensures before.Keys <= StageUpTo(before, plan, env, n).disk.Keys
    ensures NoneMovable(before, plan, n) ==> StageUpTo(before, plan, env, n).disk == before
    ensures forall i | 0 <= i < n && Movable(before, plan[i]) && NoneMovable(before, plan, i) ::
              plan[i].destination in StageUpTo(before, plan, env, n).disk
    decreases n
  {
    if n > 0 {
      RunningStage(before, plan, env, n - 1);
      assert NoneMovable(before, plan, n) ==> NoneMovable(before, plan, n - 1);
    }
  }

  lemma {:induction false} FirstMovable(disk: Disk, plan: Plan, n: nat) returns (first: nat)
    requires n <= |plan| && !NoneMovable(disk, plan, n)
    ensures first < n && Movable(disk, plan[first]) && NoneMovable(disk, plan, first)
  {
    if NoneMovable(disk, plan, n - 1) {
      first := n - 1;
    } else {
      first := FirstMovable(disk, plan, n - 1);
    }
  }

  /** Staging that reaches entry `k` and cannot read its length is abandoned there. The disk is then
      as before if and only if no earlier entry was worth moving. */
  lemma AbandonedAt(before: Disk, plan: Plan, env: Environment, k: nat)
    requires Passes(before, plan) && env.admitted && k < |plan|
    requires StageUpTo(before, plan, env, k).status == Running
    requires Movable(StageUpTo(before, plan, env, k).disk, plan[k]) && !env.attempts(k).metadataRead
    ensures
      var run := Execute(before, plan, env);
      && run.outcome == StagingFailed(false)
      && before.Keys <= run.disk.Keys && (NoChains(before, plan) ==> Keeps(before, run.disk))
      && (run.disk == before <==> NoneMovable(before, plan, k))
  {
    AbandonedStays(before, plan, env, k + 1, |plan|);
    RunningStage(before, plan, env, k);
    if NoChains(before, plan) {
      StagingInvariant(before, plan, env, k);
    }
    if !NoneMovable(before, plan, k) {
      var first := FirstMovable(before, plan, k);
      assert plan[first].destination !in before;
    }
  }

  /** Every copy succeeds and the length of entry `k` cannot be read. */
  function UnreadableAt(k: nat): Environment {
    ALL_COPIES.(attempts := (i: nat) => ALL_COPIES.attempts(i).(metadataRead := i != k))
  }

  lemma {:induction false} RunsUntil(before: Disk, plan: Plan, k: nat, n: nat)
    requires n <= k <= |plan|
    ensures StageUpTo(before, plan, UnreadableAt(k), n).status == Running
    decreases n
  {
    if n > 0 {
      RunsUntil(before, plan, k, n - 1);
    }
  }

  function Copied(disk: Disk, m: Move): Disk
    requires m.source in disk
  {
    disk[m.destination := disk[m.source]]
  }

  /** A second entry is worth moving, or becomes so by the copy of an earlier one. */
  predicate SecondMovable(disk: Disk, plan: Plan, i: nat, k: nat) {
    i < k < |plan| && Movable(disk, plan[i]) && Movable(Copied(disk, plan[i]), plan[k])
  }

  predicate AtMostOneMovable(disk: Disk, plan: Plan) {
    forall i, k | 0 <= i < k < |plan| :: !SecondMovable(disk, plan, i, k)
  }

  /** With one entry worth moving at most, one copy is made at most. */
  lemma {:induction false} OneCopy(before: Disk, plan: Plan, env: Environment, first: nat, n: nat)
    requires AtMostOneMovable(before, plan) && first < n <= |plan|
    requires Movable(before, plan[first]) && NoneMovable(before, plan, first)
    requires StageUpTo(before, plan, env, n).status == Running
    ensures StageUpTo(before, plan, env, n).disk.Keys == Copied(before, plan[first]).Keys
    decreases n
  {
    if n == first + 1 {
      RunningStage(before, plan, env, first);
    } else {
      OneCopy(before, plan, env, first, n - 1);
      assert !SecondMovable(before, plan, first, n - 1);
    }
  }

  lemma NoSecondTry(before: Disk, plan: Plan, env: Environment, first: nat, n: nat)
    requires AtMostOneMovable(before, plan) && first < n < |plan|
    requires Movable(before, plan[first]) && NoneMovable(before, plan, first)
    requires StageUpTo(before, plan, env, n).status == Running
    ensures !Movable(StageUpTo(before, plan, env, n).disk, plan[n])
  {
    OneCopy(before, plan, env, first, n);
    assert !SecondMovable(before, plan, first, n);
  }

  /** An environment in which a second attempt is abandoned. */
  lemma SecondAbandoned(before: Disk, plan: Plan, i: nat, k: nat) returns (at: nat)
    requires Passes(before, plan) && SecondMovable(before, plan, i, k)
    ensures
      var run := Execute(before, plan, UnreadableAt(at));
      run.outcome == StagingFailed(false) && run.disk != before
  {
    at := if NoneMovable(before, plan, i) then k else i;
    RunsUntil(before, plan, at, at);
    RunningStage(before, plan, UnreadableAt(at), at);
    AbandonedAt(before, plan, UnreadableAt(at), at);
  }

  lemma {:induction false} WhereAbandoned(before: Disk, plan: Plan, env: Environment, n: nat) returns (k: nat)
    requires n <= |plan| && StageUpTo(before, plan, env, n).status == Abandoned
    ensures k < n && StageUpTo(before, plan, env, k).status == Running
    ensures Movable(StageUpTo(before, plan, env, k).disk, plan[k]) && !env.attempts(k).metadataRead
    decreases n
  {
    if StageUpTo(before, plan, env, n - 1).status == Abandoned {
      k := WhereAbandoned(before, plan, env, n - 1);
    } else {
      k := n - 1;
    }
  }

  lemma AbandonedEarly(before: Disk, plan: Plan, env: Environment)
    requires AtMostOneMovable(before, plan)
    requires Execute(before, plan, env).outcome == StagingFailed(false)
    ensures Execute(before, plan, env).disk == before
  {
    var k := WhereAbandoned(before, plan, env, |plan|);
    AbandonedAt(before, plan, env, k);
    if !NoneMovable(before, plan, k) {
      var first := FirstMovable(before, plan, k);
      NoSecondTry(before, plan, env, first, k);
    }
  }

  /** An abandoned move is as if it had never begun, whatever the environment, if and only if the
      plan is refused or at most one of its entries is worth moving. */
  lemma AbandonedLeavesCopies(before: Disk, plan: Plan)
    ensures (forall env :: Execute(before, plan, env).outcome == StagingFailed(false) ==>
                             Execute(before, plan, env).disk == before)
            <==> (Passes(before, plan) ==> AtMostOneMovable(before, plan))
  {
    if Passes(before, plan) && !AtMostOneMovable(before, plan) {
      var i, k :| 0 <= i < k < |plan| && SecondMovable(before, plan, i, k);
      var at := SecondAbandoned(before, plan, i, k);
    } else {
      forall env | Execute(before, plan, env).outcome == StagingFailed(false)
        ensures Execute(before, plan, env).disk == before
      {
        AbandonedEarly(before, plan, env);
      }
    }
  }

  /** Two files between separate folders, the second unreadable: a copy of the first stays behind. */
  lemma AbandonedInstance()
    ensures
      var before: Disk := map[["a", "f"] := [1], ["a", "g"] := [2]];
      var plan := RootedPlan(["a"], ["b"], [["f"], ["g"]]);
      var run := Execute(before, plan, UnreadableAt(1));
      run.outcome == StagingFailed(false) && before.Keys <= run.disk.Keys && run.disk != before
  {
    var before: Disk := map[["a", "f"] := [1], ["a", "g"] := [2]];
    var plan := RootedPlan(["a"], ["b"], [["f"], ["g"]]);
    assert plan[0] == Move(["a", "f"], ["b", "f"]) && plan[1] == Move(["a", "g"], ["b", "g"]);
    assert ["b", "f"][0] == "b" && ["b", "g"][0] == "b" && ["b", "f"][1] != ["b", "g"][1];
    assert forall p | p in before :: p[0] == "a";
    assert Movable(before, plan[0]) && Movable(before, plan[1]) && Passes(before, plan);
    RunsUntil(before, plan, 1, 1);
    RunningStage(before, plan, UnreadableAt(1), 1);
    AbandonedAt(before, plan, UnreadableAt(1), 1);
  }

  /** A failed save keeps every file at its source and at its destination. */
  lemma FailedSaveKeepsBoth(before: Disk, plan: Plan, env: Environment)
    requires NoChains(before, plan)
    requires Execute(before, plan, env).outcome == SaveFailed
    ensures var disk := Execute(before, plan, env).disk;
            Keeps(before, disk) && ReadableAtSources(before, plan, disk) && ReadableAtDestinations(before, plan, disk)
  {
    StagingInvariant(before, plan, env, |plan|);
    CompleteStaging(before, plan, env);
    StagedReadable(before, plan);
  }

  predicate IsSource(before: Disk, plan: Plan, p: Path) {
    exists i :: 0 <= i < |plan| && Movable(before, plan[i]) && plan[i].source == p
  }

  predicate IsDestination(before: Disk, plan: Plan, p: Path) {
    exists i :: 0 <= i < |plan| && Movable(before, plan[i]) && plan[i].destination == p
  }

  /** A completed move leaves the moved files at their destinations, no source of a moved file, and
      everything else alone. */
  lemma MovedExactly(before: Disk, plan: Plan, env: Environment, p: Path)
    requires Orderly(before, plan)
    requires Execute(before, plan, env).outcome == Moved && forall i: nat :: env.commitRemoves(i)
    ensures var disk := Execute(before, plan, env).disk;
            && ReadableAtDestinations(before, plan, disk)
            && (p in disk <==> IsDestination(before, plan, p) || (p in before && !IsSource(before, plan, p)))
            && (p in disk && p in before ==> disk[p] == before[p])
  {
    var staged := Movables(before, plan);
    CompleteStaging(before, plan, env);
    StagedReadable(before, plan);
    var disk := Overlay(before, staged);
    CommitReadable(before, plan, disk, |staged|, env.commitRemoves);
    CommittedAt(disk, staged, |staged|, env.commitRemoves, p);
    OverlayKeys(before, staged, p);
    StagedDestinations(before, plan, p);
    StagedSources(before, plan, staged, p);
    StagingInvariant(before, plan, env, |plan|);
    if IsDestination(before, plan, p) {
      var k :| 0 <= k < |plan| && Movable(before, plan[k]) && plan[k].destination == p;
      assert p in Execute(before, plan, env).disk;
    }
  }

  lemma StagedDestinations(before: Disk, plan: Plan, p: Path)
    ensures (exists m :: m in Movables(before, plan) && m.destination == p) <==> IsDestination(before, plan, p)
  {
    var staged := Movables(before, plan);
    if m :| m in staged && m.destination == p {
      var k :| 0 <= k < |plan| && plan[k] == m;
      assert IsDestination(before, plan, p);
    }
    if IsDestination(before, plan, p) {
      var k :| 0 <= k < |plan| && Movable(before, plan[k]) && plan[k].destination == p;
      assert plan[k] in staged;
    }
  }

  lemma StagedSources(before: Disk, plan: Plan, staged: seq<Move>, p: Path)
    requires staged == Movables(before, plan)
    ensures (exists i :: 0 <= i < |staged| && staged[i].source == p) <==> IsSource(before, plan, p)
  {
    forall i | 0 <= i < |staged| && staged[i].source == p
      ensures IsSource(before, plan, p)
    {
      assert staged[i] in staged;
      var k :| 0 <= k < |plan| && plan[k] == staged[i];
      assert Movable(before, plan[k]);
    }
    if IsSource(before, plan, p) {
      var k :| 0 <= k < |plan| && Movable(before, plan[k]) && plan[k].source == p;
      assert plan[k] in staged;
      var i :| 0 <= i < |staged| && staged[i] == plan[k];
      assert staged[i].source == p;
    }
  }

  // Plans as they are built: the same relative paths under two roots.

  function RootedPlan(source: Path, destination: Path, relative: seq<Path>): Plan {
    seq(|relative|, i requires 0 <= i < |relative| => Move(source + relative[i], destination + relative[i]))
  }

  predicate Nested(a: Path, b: Path) {
    a <= b || b <= a
  }

  lemma PrefixesNest(a: Path, x: Path, b: Path, y: Path)
    requires a + x == b + y
    ensures Nested(a, b)
  {
    if |a| <= |b| {
      assert b == (b + y)[..|b|] && a == (a + x)[..|a|];
      assert b[..|a|] == a;
    } else {
      assert b == (b + y)[..|b|] && a == (a + x)[..|a|];
      assert a[..|b|] == b;
    }
  }

  /** Moving a torrent between two folders, neither inside the other, is always orderly. */
  lemma SeparateRootsAreOrderly(before: Disk, source: Path, destination: Path, relative: seq<Path>)
    requires source == destination || !Nested(source, destination)
    ensures Orderly(before, RootedPlan(source, destination, relative))
  {
    var plan := RootedPlan(source, destination, relative);
    if source != destination {
      forall i, j | 0 <= i < |plan| && 0 <= j < |plan|
        ensures plan[j].source != plan[i].destination
      {
        if plan[j].source == plan[i].destination {
          PrefixesNest(source, relative[j], destination, relative[i]);
        }
      }
    }
  }

  /** A folder inside the other: the file at `x/f` is not there yet, `f` moves into `x`, and the
      move ends without it. */
  lemma NestedRootsCanLose()
    ensures
      var before: Disk := map[["a", "f"] := [1]];
      var plan := RootedPlan(["a"], ["a", "x"], [["f"], ["x", "f"]]);
      && Passes(before, plan)
      && Execute(before, plan, ALL_COPIES).outcome == Moved
      && !ReadableAtDestinations(before, plan, Execute(before, plan, ALL_COPIES).disk)
  {
    var before: Disk := map[["a", "f"] := [1]];
    var plan := RootedPlan(["a"], ["a", "x"], [["f"], ["x", "f"]]);
    assert plan[0] == Move(["a", "f"], ["a", "x", "f"]);
    assert plan[1] == Move(["a", "x", "f"], ["a", "x", "x", "f"]);
    assert ["a", "f"] != ["a", "x", "f"] && |["a", "x", "f"]| != |["a", "x", "x", "f"]|;
    assert Chained(before, plan, 0, 1);
    DisorderlyLoses(before, plan);
  }
}
