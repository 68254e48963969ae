/** The move as it runs: the disk, the catalog file and the settings in memory, changed in place, with
    a log of every state on the way. */
module OfflineMoveTransaction {
  import opened Common
  import opened ByteStrings
  import opened OfflineMove
  import opened OfflineMoveOutcome

  lemma LogOne(log: seq<Snapshot>, passed: seq<Disk>, next: Disk, c: Catalog)
    ensures log + WithCatalog(passed + [next], c) == log + WithCatalog(passed, c) + [Snapshot(next, c)]
  {
  }

  lemma RollbackPassed(passed: seq<Disk>, disk: Disk, staged: seq<Move>, n: nat, removes: nat -> bool, next: Disk)
    requires n < |staged| && next == Unstaged(disk, staged[n], removes(n))
    ensures passed + RollbackTrace(disk, staged, n + 1, removes) ==
            (passed + [next]) + RollbackTrace(next, staged, n, removes)
  {
    Associate(passed, next, RollbackTrace(next, staged, n, removes));
  }

  lemma Associate(passed: seq<Disk>, next: Disk, rest: seq<Disk>)
    ensures passed + ([next] + rest) == (passed + [next]) + rest
  {
  }

  class OfflineMoveTransaction<Settings(==)> {
    var files: Disk
    var catalog: Catalog
    var settings: Settings
    ghost var log: seq<Snapshot>

    constructor (files: Disk, settings: Settings)
      ensures this.files == files && this.settings == settings && catalog == OldCatalog
      ensures log == [Snapshot(files, OldCatalog)]
    {
      this.files := files;
      this.catalog := OldCatalog;
      this.settings := settings;
      this.log := [Snapshot(files, OldCatalog)];
    }

    /** One change of the disk. */
    method Write(disk: Disk)
      modifies this`files, this`log
      ensures files == disk && log == old(log) + [Snapshot(disk, catalog)]
    {
      files := disk;
      log := log + [Snapshot(disk, catalog)];
    }

    method CopyForCrossDeviceMove(m: Move, a: Attempt) returns (ok: bool)
      requires m.source in files
      modifies this`files, this`log
      ensures var r := CopyFile(old(files), m, a);
              && files == r.disk && ok == r.ok
              && log == old(log) + WithCatalog(r.between, catalog) + [Snapshot(r.disk, catalog)]
    {
      var before := files;
      ok := false;
      if a.copy.CopyRefused? {
        Write(files);
        return;
      }
      for i := 0 to |a.progress|
        invariant log == old(log) + WithCatalog(While(before, m.destination, a.progress[..i]), catalog)
      {
        Write(before[m.destination := a.progress[i]]);
      }
      assert a.progress[..|a.progress|] == a.progress;
      if a.copy.CopyPartial? {
        Write(before[m.destination := a.copy.bytes]);
      } else {
        Write(before[m.destination := before[m.source]]);
        ok := a.verified;
      }
    }

    method StageMoveFile(m: Move, a: Attempt) returns (ok: bool)
      requires m.source in files
      modifies this`files, this`log
      ensures var r := StageFile(old(files), m, a);
              && files == r.disk && ok == r.ok
              && log == old(log) + WithCatalog(r.between, catalog) + [Snapshot(r.disk, catalog)]
      ensures m.destination !in old(files) && a.metadataRead ==>
                (ok <==> Succeeds(a)) && (ok ==> files == old(files)[m.destination := old(files)[m.source]])
    {
      if a.sameMount {
        if m.destination !in files && a.linkMade {
          Write(files[m.destination := files[m.source]]);
          return a.verified;
        }
        if m.destination in files || !a.spaceLeft {
          Write(files);
          return false;
        }
      }
      ok := CopyForCrossDeviceMove(m, a);
    }

    method RollbackStagedMoveFiles(staged: seq<Move>, removes: nat -> bool)
      modifies this`files, this`log
      ensures files == RolledBack(old(files), staged, |staged|, removes)
      ensures log == old(log) + WithCatalog(RollbackTrace(old(files), staged, |staged|, removes), catalog)
    {
      var n: nat := |staged|;
      ghost var passed: seq<Disk> := [];
      while n > 0
        invariant n <= |staged|
        invariant RolledBack(files, staged, n, removes) == RolledBack(old(files), staged, |staged|, removes)
        invariant passed + RollbackTrace(files, staged, n, removes) ==
                  RollbackTrace(old(files), staged, |staged|, removes)
        invariant log == old(log) + WithCatalog(passed, catalog)
      {
        n := n - 1;
        var m := staged[n];
        ghost var next := Unstaged(files, m, removes(n));
        RollbackPassed(passed, files, staged, n, removes, next);
        LogOne(old(log), passed, next, catalog);
        if m.source in files && removes(n) {
          Write(files - {m.destination});
        } else {
          Write(files);
        }
        passed := passed + [next];
      }
    }

    method UndoStaging(m: Move, staged: seq<Move>, env: Environment)
      modifies this`files, this`log
      ensures var cleaned := CleanedUp(old(files), m, env.cleanupRemoves);
              && files == RolledBack(cleaned, staged, |staged|, env.rollbackRemoves)
              && log == old(log) + [Snapshot(cleaned, catalog)]
                        + WithCatalog(RollbackTrace(cleaned, staged, |staged|, env.rollbackRemoves), catalog)
    {
      if m.source in files && m.destination in files && env.cleanupRemoves {
        Write(files - {m.destination});
      } else {
        Write(files);
      }
      RollbackStagedMoveFiles(staged, env.rollbackRemoves);
    }

    /** Staging stops at the first entry that fails. */
    method StageMovePayloadFiles(plan: Plan, env: Environment) returns (staged: seq<Move>, status: Status)
      requires log == [Snapshot(files, OldCatalog)] && catalog == OldCatalog
      modifies this`files, this`log
      ensures var s := StageUpTo(old(files), plan, env, |plan|);
              && files == s.disk && staged == s.staged && status == s.status
              && log == WithCatalog(s.trace, OldCatalog)
    {
      staged, status := [], Running;
      ghost var before := files;
      for i := 0 to |plan|
        invariant var s := StageUpTo(before, plan, env, i);
                  && files == s.disk && staged == s.staged && status == s.status
                  && log == WithCatalog(s.trace, OldCatalog)
      {
        ghost var s := StageUpTo(before, plan, env, i);
        staged, status := StageEntry(plan[i], env.attempts(i), env, staged, status, s);
      }
    }

    method StageEntry(m: Move, a: Attempt, env: Environment, staged: seq<Move>, status: Status, ghost s: Stage)
      returns (nowStaged: seq<Move>, now: Status)
      requires files == s.disk && staged == s.staged && status == s.status
      requires catalog == OldCatalog && log == WithCatalog(s.trace, OldCatalog)
      modifies this`files, this`log
      ensures var after := StageOne(s, m, a, env);
              && files == after.disk && nowStaged == after.staged && now == after.status
              && log == WithCatalog(after.trace, OldCatalog)
    {
      nowStaged, now := staged, status;
      if status != Running || m.source !in files || m.source == m.destination {
        return;
      }
      if !a.metadataRead {
        now := Abandoned;
        return;
      }
      ghost var r := StageFile(files, m, a);
      var ok := StageMoveFile(m, a);
      LogStaged(s.trace, r);
      if ok {
        nowStaged := staged + [m];
      } else {
        ghost var cleaned := CleanedUp(r.disk, m, env.cleanupRemoves);
        ghost var undone := RollbackTrace(cleaned, staged, |staged|, env.rollbackRemoves);
        UndoStaging(m, staged, env);
        now := Undone;
        LogUndone(s.trace + r.between, r.disk, cleaned, undone);
      }
    }

    method FinalizeStagedMoveFiles(staged: seq<Move>, removes: nat -> bool)
      requires catalog == NewCatalog
      modifies this`files, this`log
      ensures files == Committed(old(files), staged, |staged|, removes)
      ensures log == old(log) + CommitTrace(old(files), staged, removes)
    {
      ghost var before := files;
      Write(files);
      for i := 0 to |staged|
        invariant files == Committed(before, staged, i, removes)
        invariant log == old(log) + CommitTrace(before, staged, removes)[..i + 1]
      {
        ghost var trace := CommitTrace(before, staged, removes);
        if removes(i) {
          Write(files - {staged[i].source});
        } else {
          Write(files);
        }
        assert trace[..i + 2] == trace[..i + 1] + [trace[i + 1]];
      }
      assert CommitTrace(before, staged, removes)[..|staged| + 1] == CommitTrace(before, staged, removes);
    }

    method Replace(next: Catalog)
      modifies this`catalog, this`log
      ensures catalog == next && log == old(log) + [Snapshot(files, next)]
    {
      catalog := next;
      log := log + [Snapshot(files, next)];
    }

    /** Replacing the catalog file by way of a temporary one. */
    method WriteCatalogAtomically(w: SaveAnswers) returns (ok: bool)
      requires catalog == OldCatalog
      modifies this`catalog, this`log
      ensures ok == Save(w).ok && log == old(log) + WithDisk(files, Save(w).catalogs)
      ensures catalog == Save(w).catalogs[|Save(w).catalogs| - 1]
    {
      Replace(OldCatalog);
      if !w.spaceLeft || !w.temporaryWritten || !w.renamed {
        return false;
      }
      Replace(if w.renameLeftEmpty then TornCatalog else NewCatalog);
      if !w.lengthRead {
        return false;
      }
      if w.renameLeftEmpty {
        Replace(if w.rewritten then NewCatalog else TornCatalog);
        return w.rewritten;
      }
      ok := true;
    }

    /** The whole request. The settings in memory are the new ones only if the move went through. */
    method Apply(plan: Plan, next: Settings, env: Environment) returns (outcome: Outcome)
      requires log == [Snapshot(files, OldCatalog)] && catalog == OldCatalog
      modifies this
      ensures Run(log, outcome, files) == Execute(old(files), plan, env)
      ensures settings == if outcome == Moved then next else old(settings)
      ensures outcome == Moved ==> catalog == NewCatalog
      ensures outcome.Refused? || outcome.StagingFailed? ==> catalog == OldCatalog
    {
      var previous := settings;
      var ok := Preflight(files, plan);
      if !env.admitted || !ok {
        return Refused;
      }
      var staged, status := StageMovePayloadFiles(plan, env);
      if status != Running {
        return StagingFailed(status == Undone);
      }
      settings := next;
      ok := WriteCatalogAtomically(env.save);
      if !ok {
        settings := previous;
        return SaveFailed;
      }
      FinalizeStagedMoveFiles(staged, env.commitRemoves);
      outcome := Moved;
    }
  }

  lemma LogStaged(trace: seq<Disk>, r: Staging)
    ensures WithCatalog(trace + r.between + [r.disk], OldCatalog) ==
            WithCatalog(trace, OldCatalog) + WithCatalog(r.between, OldCatalog) + [Snapshot(r.disk, OldCatalog)]
  {
  }

  lemma LogUndone(trace: seq<Disk>, staged: Disk, cleaned: Disk, undone: seq<Disk>)
    ensures WithCatalog(trace + [staged, cleaned] + undone, OldCatalog) ==
            WithCatalog(trace + [staged], OldCatalog) + [Snapshot(cleaned, OldCatalog)] +
            WithCatalog(undone, OldCatalog)
  {
  }
}
