/** How a move ends, told from what the operating system answers, and what can be seen on the way. */
module OfflineMoveOutcome {
  import opened Common
  import opened ByteStrings
  import opened OfflineMove
  import opened OfflineMoveSafety

  /** A file gets staged: its length is read, a link is made within a mount or else it is copied
      completely - within a mount only with space left - and the destination is verified. */
  predicate Succeeds(a: Attempt) {
    && a.metadataRead && a.verified
    && ((a.sameMount && a.linkMade) || ((!a.sameMount || a.spaceLeft) && a.copy == CopyComplete))
  }

  /** The catalog gets saved: there is space, the temporary file is written and renamed, the length is
      read back, and an empty file is rewritten. */
  predicate Saves(w: SaveAnswers) {
    w.spaceLeft && w.temporaryWritten && w.renamed && w.lengthRead && (w.renameLeftEmpty ==> w.rewritten)
  }

  /** Every entry before `n` that is worth moving gets staged. */
  predicate AllSucceed(before: Disk, plan: Plan, env: Environment, n: nat)
    requires n <= |plan|
  {
    forall i | 0 <= i < n && Movable(before, plan[i]) :: Succeeds(env.attempts(i))
  }

  /** Entry `k` is the first that does not get staged. */
  predicate FirstFailure(before: Disk, plan: Plan, env: Environment, k: nat) {
    k < |plan| && Movable(before, plan[k]) && !Succeeds(env.attempts(k)) && AllSucceed(before, plan, env, k)
  }

  lemma StageFileSucceeds(disk: Disk, m: Move, a: Attempt)
    requires m.source in disk && m.destination !in disk && a.metadataRead
    ensures StageFile(disk, m, a).ok <==> Succeeds(a)
  {
  }

  /** What one entry does to a staging under way. */
  lemma EntryDecides(before: Disk, plan: Plan, env: Environment, n: nat)
    requires Passes(before, plan) && NoChains(before, plan) && n < |plan|
    requires StageUpTo(before, plan, env, n).status == Running
    ensures
      var after := StageUpTo(before, plan, env, n + 1).status;
      if !Movable(before, plan[n]) || Succeeds(env.attempts(n)) then after == Running
      else after == if env.attempts(n).metadataRead then Undone else Abandoned
  {
    var s := StagedWithInvariant(before, plan, env, n);
    PrefixFresh(before, plan, n);
    StagedEntry(before, plan, n);
    if Movable(before, plan[n]) && env.attempts(n).metadataRead {
      StageFileSucceeds(s.disk, plan[n], env.attempts(n));
    }
  }

  lemma {:induction false} StagesExactly(before: Disk, plan: Plan, env: Environment, n: nat)
    requires Passes(before, plan) && NoChains(before, plan) && n <= |plan|
    ensures StageUpTo(before, plan, env, n).status == Running <==> AllSucceed(before, plan, env, n)
    decreases n
  {
    if n > 0 {
      StagesExactly(before, plan, env, n - 1);
      if AllSucceed(before, plan, env, n - 1) {
        EntryDecides(before, plan, env, n - 1);
      }
    }
  }

  lemma {:induction false} FailureDecides(before: Disk, plan: Plan, env: Environment, k: nat, n: nat)
    requires Passes(before, plan) && NoChains(before, plan) && k < n <= |plan| && FirstFailure(before, plan, env, k)
    ensures StageUpTo(before, plan, env, n).status == if env.attempts(k).metadataRead then Undone else Abandoned
    decreases n
  {
    if n == k + 1 {
      StagesExactly(before, plan, env, k);
      EntryDecides(before, plan, env, k);
    } else {
      FailureDecides(before, plan, env, k, n - 1);
    }
  }

  lemma OneFirstFailure(before: Disk, plan: Plan, env: Environment, j: nat, k: nat)
    requires FirstFailure(before, plan, env, j) && FirstFailure(before, plan, env, k)
    ensures j == k
  {
  }

  lemma {:induction false} FailureExists(before: Disk, plan: Plan, env: Environment, n: nat) returns (k: nat)
    requires n <= |plan| && !AllSucceed(before, plan, env, n)
    ensures k < n && FirstFailure(before, plan, env, k)
  {
    if AllSucceed(before, plan, env, n - 1) {
      k := n - 1;
    } else {
      k := FailureExists(before, plan, env, n - 1);
    }
  }

  /** Where a move ends. Whatever the environment: it is refused if the checks fail; without chains it
      goes through if and only if every entry worth moving gets staged and the catalog gets saved.
      The first entry that fails decides whether staging is undone, or abandoned because its length
      could not be read. */
  lemma OutcomeExactly(before: Disk, plan: Plan, env: Environment)
    ensures Execute(before, plan, env).outcome == Refused <==> !env.admitted || !Passes(before, plan)
    ensures
      env.admitted && Passes(before, plan) && NoChains(before, plan) ==>
        var outcome := Execute(before, plan, env).outcome;
        && (outcome == Moved <==> AllSucceed(before, plan, env, |plan|) && Saves(env.save))
        && (outcome == SaveFailed <==> AllSucceed(before, plan, env, |plan|) && !Saves(env.save))
        && (outcome == StagingFailed(true) <==>
              exists k: nat :: FirstFailure(before, plan, env, k) && env.attempts(k).metadataRead)
        && (outcome == StagingFailed(false) <==>
              exists k: nat :: FirstFailure(before, plan, env, k) && !env.attempts(k).metadataRead)
  {
    if env.admitted && Passes(before, plan) && NoChains(before, plan) {
      StagesExactly(before, plan, env, |plan|);
      if !AllSucceed(before, plan, env, |plan|) {
        var k := FailureExists(before, plan, env, |plan|);
        FailureDecides(before, plan, env, k, |plan|);
        forall j: nat | FirstFailure(before, plan, env, j)
          ensures j == k
        {
          OneFirstFailure(before, plan, env, j, k);
        }
      }
    }
  }

  // What is on disk in the end, and on the way.

  /** The catalog that a save leaves: the new one as soon as the rename has its contents, a torn one if
      the rename left it empty and it was not rewritten, else the old one. */
  function CatalogLeft(w: SaveAnswers): Catalog {
    if !(w.spaceLeft && w.temporaryWritten && w.renamed) then OldCatalog
    else if w.renameLeftEmpty && !(w.lengthRead && w.rewritten) then TornCatalog
    else NewCatalog
  }

  predicate LeavesEmpty(w: SaveAnswers) {
    w.spaceLeft && w.temporaryWritten && w.renamed && w.renameLeftEmpty
  }

  /** The last state of a run is its final disk with the catalog that the save left. The new catalog
      is never there before every file is staged. */
  lemma EndsWith(before: Disk, plan: Plan, env: Environment)
    requires env.admitted && Passes(before, plan) && NoChains(before, plan)
    ensures
      var run := Execute(before, plan, env);
      && |run.trace| > 0 && run.trace[0] == Snapshot(before, OldCatalog)
      && run.trace[|run.trace| - 1] ==
           Snapshot(run.disk, if AllSucceed(before, plan, env, |plan|) then CatalogLeft(env.save) else OldCatalog)
      && (AllSucceed(before, plan, env, |plan|) && LeavesEmpty(env.save) ==>
            exists i :: 0 <= i < |run.trace| && run.trace[i].catalog == TornCatalog)
  {
    var s := StageUpTo(before, plan, env, |plan|);
    StagesExactly(before, plan, env, |plan|);
    TraceEnds(before, plan, env, |plan|);
    var staging := WithCatalog(s.trace, OldCatalog);
    assert staging[0] == Snapshot(before, OldCatalog) && staging[|staging| - 1] == Snapshot(s.disk, OldCatalog);
    if s.status == Running {
      SaveShows(s.disk, env.save);
      var saving := WithDisk(s.disk, Save(env.save).catalogs);
      assert (staging + saving)[|staging + saving| - 1] == saving[|saving| - 1];
      if LeavesEmpty(env.save) {
        assert (staging + saving)[|staging| + 1] == saving[1];
        assert Execute(before, plan, env).trace[|staging| + 1].catalog == TornCatalog;
      }
      if Save(env.save).ok {
        var commit := CommitTrace(s.disk, s.staged, env.commitRemoves);
        assert commit[|commit| - 1] == Snapshot(Execute(before, plan, env).disk, NewCatalog);
      }
    }
  }

  lemma SaveShows(disk: Disk, w: SaveAnswers)
    ensures Save(w).ok <==> Saves(w)
    ensures
      var states := WithDisk(disk, Save(w).catalogs);
      && |states| > 0 && states[0] == Snapshot(disk, OldCatalog)
      && states[|states| - 1] == Snapshot(disk, CatalogLeft(w))
      && (LeavesEmpty(w) ==> |states| > 1 && states[1].catalog == TornCatalog)
  {
  }

  lemma {:induction false} RollbackEnds(disk: Disk, staged: seq<Move>, n: nat, removes: nat -> bool)
    requires n <= |staged|
    ensures
      var trace := RollbackTrace(disk, staged, n, removes);
      RolledBack(disk, staged, n, removes) == if trace == [] then disk else trace[|trace| - 1]
    decreases n
  {
    if n > 0 {
      RollbackEnds(Unstaged(disk, staged[n - 1], removes(n - 1)), staged, n - 1, removes);
    }
  }

  lemma {:induction false} TraceEnds(before: Disk, plan: Plan, env: Environment, n: nat)
    requires n <= |plan|
    ensures
      var s := StageUpTo(before, plan, env, n);
      |s.trace| > 0 && s.trace[0] == before && s.trace[|s.trace| - 1] == s.disk
    decreases n
  {
    if n > 0 {
      TraceEnds(before, plan, env, n - 1);
      var s := StageUpTo(before, plan, env, n - 1);
      var a := env.attempts(n - 1);
      if s.status == Running && Movable(s.disk, plan[n - 1]) && a.metadataRead {
        var r := StageFile(s.disk, plan[n - 1], a);
        RollbackEnds(CleanedUp(r.disk, plan[n - 1], env.cleanupRemoves), s.staged, |s.staged|, env.rollbackRemoves);
      }
    }
  }

  /** Undoing goes backwards: after `i` of `n` steps exactly the last `i` copies are gone. */
  lemma {:induction false} RollbackGoesBackwards(before: Disk, staged: seq<Move>, n: nat, removes: nat -> bool, i: nat)
    requires i < n <= |staged| && forall j | 0 <= j < n :: removes(j)
    requires DistinctDestinations(staged)
    requires forall m | m in staged :: m.source in before && m.destination !in before
    ensures
      var trace := RollbackTrace(Overlay(before, staged[..n]), staged, n, removes);
      |trace| == n && trace[i] == Overlay(before, staged[..n - 1 - i])
    decreases n
  {
    OneUndone(before, staged, n);
    if n > 1 {
      RollbackGoesBackwards(before, staged, n - 1, removes, if i > 0 then i - 1 else 0);
    }
  }

  lemma OneUndone(before: Disk, staged: seq<Move>, n: nat)
    requires 0 < n <= |staged| && DistinctDestinations(staged)
    requires forall m | m in staged :: m.source in before && m.destination !in before
    ensures Unstaged(Overlay(before, staged[..n]), staged[n - 1], true) == Overlay(before, staged[..n - 1])
  {
    var m := staged[n - 1];
    var less := Overlay(before, staged[..n - 1]);
    assert m in staged;
    assert staged[..n][..n - 1] == staged[..n - 1];
    OverlayKeys(before, staged[..n - 1], m.destination);
    forall other | other in staged[..n - 1]
      ensures other.destination != m.destination
    {
      var i :| 0 <= i < n - 1 && staged[i] == other;
    }
    OverlayKeys(before, staged[..n], m.source);
    assert Overlay(before, staged[..n]) - {m.destination} == less;
  }

  /** Removing goes forwards: after `i` removals the first `i` sources are gone and no others. */
  lemma CommitGoesForwards(disk: Disk, staged: seq<Move>, removes: nat -> bool, i: nat, p: Path)
    requires i <= |staged| && forall j | 0 <= j < i :: removes(j)
    ensures |CommitTrace(disk, staged, removes)| == |staged| + 1
    ensures CommitTrace(disk, staged, removes)[i].catalog == NewCatalog
    ensures p in CommitTrace(disk, staged, removes)[i].disk <==>
              p in disk && forall j | 0 <= j < i :: staged[j].source != p
  {
    CommittedAt(disk, staged, i, removes, p);
  }

  /** While a file is copied, the destination is seen with every content it passes through. */
  lemma CopyingIsSeen(before: Disk, plan: Plan, env: Environment, k: nat, j: nat)
    requires k < |plan| && StageUpTo(before, plan, env, k).status == Running
    requires Movable(StageUpTo(before, plan, env, k).disk, plan[k])
    requires
      var a := env.attempts(k);
      && a.metadataRead && j < |a.progress| && a.copy != CopyRefused
      && (!a.sameMount || (!a.linkMade && a.spaceLeft && plan[k].destination !in StageUpTo(before, plan, env, k).disk))
    ensures
      var trace := StageUpTo(before, plan, env, |plan|).trace;
      exists i :: 0 <= i < |trace| && plan[k].destination in trace[i]
                  && trace[i][plan[k].destination] == env.attempts(k).progress[j]
  {
    var s, t := StageUpTo(before, plan, env, k), StageUpTo(before, plan, env, k + 1);
    var r := StageFile(s.disk, plan[k], env.attempts(k));
    assert r.between[j][plan[k].destination] == env.attempts(k).progress[j];
    assert t.trace[|s.trace| + j] == r.between[j];
    TraceGrows(before, plan, env, k + 1, |plan|);
    var trace := StageUpTo(before, plan, env, |plan|).trace;
    assert trace[|s.trace| + j] == r.between[j];
  }

  lemma {:induction false} TraceGrows(before: Disk, plan: Plan, env: Environment, k: nat, n: nat)
    requires k <= n <= |plan|
    ensures StageUpTo(before, plan, env, k).trace <= StageUpTo(before, plan, env, n).trace
    decreases n
  {
    if k < n {
      TraceGrows(before, plan, env, k, n - 1);
    }
  }

  /** A copy that breaks off is seen with what it left. */
  lemma BrokenCopyIsSeen(before: Disk, plan: Plan, env: Environment, k: nat)
    requires k < |plan| && StageUpTo(before, plan, env, k).status == Running
    requires Movable(StageUpTo(before, plan, env, k).disk, plan[k])
    requires
      var a := env.attempts(k);
      && a.metadataRead && a.copy.CopyPartial?
      && (!a.sameMount || (!a.linkMade && a.spaceLeft && plan[k].destination !in StageUpTo(before, plan, env, k).disk))
    ensures
      var trace := StageUpTo(before, plan, env, |plan|).trace;
      exists i :: 0 <= i < |trace| && plan[k].destination in trace[i]
                  && trace[i][plan[k].destination] == env.attempts(k).copy.bytes
  {
    var s, t := StageUpTo(before, plan, env, k), StageUpTo(before, plan, env, k + 1);
    var r := StageFile(s.disk, plan[k], env.attempts(k));
    assert t.trace[|s.trace| + |r.between|] == r.disk;
    TraceGrows(before, plan, env, k + 1, |plan|);
    var trace := StageUpTo(before, plan, env, |plan|).trace;
    assert trace[|s.trace| + |r.between|] == r.disk;
  }

  /** Undoing never removes the only copy: a staged destination whose source is gone stays. */
  lemma {:induction false} OrphansStay(disk: Disk, staged: seq<Move>, n: nat, removes: nat -> bool, p: Path)
    requires n <= |staged| && p in disk
    requires forall i | 0 <= i < n && staged[i].destination == p :: staged[i].source !in disk
    ensures p in RolledBack(disk, staged, n, removes) && RolledBack(disk, staged, n, removes)[p] == disk[p]
    decreases n
  {
    if n > 0 {
      OrphansStay(Unstaged(disk, staged[n - 1], removes(n - 1)), staged, n - 1, removes, p);
    }
  }

  /** Within one mount staging never writes to a path that exists, whatever the plan. */
  lemma {:induction false} OneMountNeverOverwrites(before: Disk, plan: Plan, env: Environment, n: nat)
    requires n <= |plan| && (forall i | 0 <= i < n :: env.attempts(i).sameMount)
    requires StageUpTo(before, plan, env, n).status == Running
    ensures Keeps(before, StageUpTo(before, plan, env, n).disk)
    decreases n
  {
    if n > 0 {
      OneMountNeverOverwrites(before, plan, env, n - 1);
    }
  }
}
