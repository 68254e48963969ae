/** The offline move of a torrent's payload: copy every file, save the catalog, remove the sources.
    Each operation on the disk is a step, so that a crash can fall between any two. */
module OfflineMove {
  import opened Common
  import opened ByteStrings

  type Path = seq<string>

  type Disk = map<Path, Bytes>

  datatype Move = Move(source: Path, destination: Path)

  type Plan = seq<Move>

  // What the operating system answers.

  datatype CopyResult =
    | CopyRefused
    | CopyPartial(bytes: Bytes)
    | CopyComplete

  /** The answers while one file is staged. `progress` lists contents the destination passes
      through while it is being copied. */
  datatype Attempt = Attempt(
    metadataRead: bool,
    sameMount: bool,
    linkMade: bool,
    spaceLeft: bool,
    progress: seq<Bytes>,
    copy: CopyResult,
    verified: bool)

  /** The catalog file: the old or the new one, or neither in a readable form. */
  datatype Catalog = OldCatalog | NewCatalog | TornCatalog

  /** Answers while the catalog file is replaced. */
  datatype SaveAnswers = SaveAnswers(
    spaceLeft: bool,
    temporaryWritten: bool,
    renamed: bool,
    renameLeftEmpty: bool,
    lengthRead: bool,
    rewritten: bool)

  /** `admitted`: there is enough space and the destination folders can be made. */
  datatype Environment = Environment(
    admitted: bool,
    attempts: nat -> Attempt,
    cleanupRemoves: bool,
    rollbackRemoves: nat -> bool,
    save: SaveAnswers,
    commitRemoves: nat -> bool)

  // Checking the plan.

  /** Worth moving: the source is there and is not the destination itself. */
  predicate Movable(disk: Disk, m: Move) {
    m.source in disk && m.source != m.destination
  }

  predicate Passes(disk: Disk, plan: Plan) {
    && (forall i | 0 <= i < |plan| && Movable(disk, plan[i]) :: plan[i].destination !in disk)
    && (forall i, j | 0 <= i < j < |plan| && Movable(disk, plan[i]) && Movable(disk, plan[j]) ::
          plan[i].destination != plan[j].destination)
  }

  method Preflight(disk: Disk, plan: Plan) returns (ok: bool)
    ensures ok <==> Passes(disk, plan)
  {
    var destinations: set<Path> := {};
    for i := 0 to |plan|
      invariant forall p :: p in destinations <==>
                  exists j :: 0 <= j < i && Movable(disk, plan[j]) && plan[j].destination == p
      invariant forall j | 0 <= j < i && Movable(disk, plan[j]) :: plan[j].destination !in disk
      invariant forall j, k | 0 <= j < k < i && Movable(disk, plan[j]) && Movable(disk, plan[k]) ::
                  plan[j].destination != plan[k].destination
    {
      var m := plan[i];
      if m.source in disk && m.source != m.destination {
        if m.destination in destinations {
          return false;
        }
        destinations := destinations + {m.destination};
        if m.destination in disk {
          return false;
        }
      }
    }
    ok := true;
  }

  // Staging one file.

  function While(disk: Disk, path: Path, contents: seq<Bytes>): seq<Disk> {
    seq(|contents|, i requires 0 <= i < |contents| => disk[path := contents[i]])
  }

  datatype Staging = Staging(disk: Disk, ok: bool, between: seq<Disk>)

  function CopyFile(disk: Disk, m: Move, a: Attempt): Staging
    requires m.source in disk
  {
    match a.copy
    case CopyRefused => Staging(disk, false, [])
    case CopyPartial(bytes) =>
      Staging(disk[m.destination := bytes], false, While(disk, m.destination, a.progress))
    case CopyComplete =>
      Staging(disk[m.destination := disk[m.source]], a.verified, While(disk, m.destination, a.progress))
  }

  /** Within a mount a hard link comes first; it fails if the destination is there. */
  function StageFile(disk: Disk, m: Move, a: Attempt): Staging
    requires m.source in disk
  {
    if !a.sameMount then CopyFile(disk, m, a)
    else if m.destination in disk then Staging(disk, false, [])
    else if a.linkMade then Staging(disk[m.destination := disk[m.source]], a.verified, [])
    else if !a.spaceLeft then Staging(disk, false, [])
    else CopyFile(disk, m, a)
  }

  // Staging the plan.

  /** Undoing the first `n` staged files, last first. */
  function RolledBack(disk: Disk, staged: seq<Move>, n: nat, removes: nat -> bool): Disk
    requires n <= |staged|
  {
    if n == 0 then disk
    else RolledBack(Unstaged(disk, staged[n - 1], removes(n - 1)), staged, n - 1, removes)
  }

  function Unstaged(disk: Disk, m: Move, removes: bool): Disk {
    if m.source in disk && removes then disk - {m.destination} else disk
  }

  function RollbackTrace(disk: Disk, staged: seq<Move>, n: nat, removes: nat -> bool): seq<Disk>
    requires n <= |staged|
  {
    if n == 0 then []
    else
      var next := Unstaged(disk, staged[n - 1], removes(n - 1));
      [next] + RollbackTrace(next, staged, n - 1, removes)
  }

  datatype Status = Running | Abandoned | Undone

  datatype Stage = Stage(disk: Disk, staged: seq<Move>, trace: seq<Disk>, status: Status)

  function CleanedUp(disk: Disk, m: Move, removes: bool): Disk {
    if m.source in disk && m.destination in disk && removes then disk - {m.destination} else disk
  }

  function StageOne(s: Stage, m: Move, a: Attempt, env: Environment): Stage {
    if s.status != Running || !Movable(s.disk, m) then s
    else if !a.metadataRead then s.(status := Abandoned)
    else
      var r := StageFile(s.disk, m, a);
      if r.ok then s.(disk := r.disk, staged := s.staged + [m], trace := s.trace + r.between + [r.disk])
      else
        var cleaned := CleanedUp(r.disk, m, env.cleanupRemoves);
        s.(disk := RolledBack(cleaned, s.staged, |s.staged|, env.rollbackRemoves),
           trace := s.trace + r.between + [r.disk, cleaned]
                    + RollbackTrace(cleaned, s.staged, |s.staged|, env.rollbackRemoves),
           status := Undone)
  }

  function StageUpTo(disk: Disk, plan: Plan, env: Environment, n: nat): Stage
    requires n <= |plan|
  {
    if n == 0 then Stage(disk, [], [disk], Running)
    else StageOne(StageUpTo(disk, plan, env, n - 1), plan[n - 1], env.attempts(n - 1), env)
  }

  // Saving the catalog: a temporary file renamed over the old one.

  datatype Saving = Saving(catalogs: seq<Catalog>, ok: bool)

  function Save(w: SaveAnswers): Saving {
    if !w.spaceLeft || !w.temporaryWritten || !w.renamed then Saving([OldCatalog], false)
    else if !w.renameLeftEmpty then Saving([OldCatalog, NewCatalog], w.lengthRead)
    else if !w.lengthRead then Saving([OldCatalog, TornCatalog], false)
    else if !w.rewritten then Saving([OldCatalog, TornCatalog, TornCatalog], false)
    else Saving([OldCatalog, TornCatalog, NewCatalog], true)
  }

  // Removing the sources.

  function Committed(disk: Disk, staged: seq<Move>, n: nat, removes: nat -> bool): Disk
    requires n <= |staged|
  {
    if n == 0 then disk
    else
      var before := Committed(disk, staged, n - 1, removes);
      if removes(n - 1) then before - {staged[n - 1].source} else before
  }

  // The whole move.

  datatype Snapshot = Snapshot(disk: Disk, catalog: Catalog)

  function WithCatalog(disks: seq<Disk>, catalog: Catalog): seq<Snapshot> {
    seq(|disks|, i requires 0 <= i < |disks| => Snapshot(disks[i], catalog))
  }

  function WithDisk(disk: Disk, catalogs: seq<Catalog>): seq<Snapshot> {
    seq(|catalogs|, i requires 0 <= i < |catalogs| => Snapshot(disk, catalogs[i]))
  }

  function CommitTrace(disk: Disk, staged: seq<Move>, removes: nat -> bool): seq<Snapshot> {
    seq(|staged| + 1, i requires 0 <= i <= |staged| => Snapshot(Committed(disk, staged, i, removes), NewCatalog))
  }

  datatype Outcome = Refused | StagingFailed(rolledBack: bool) | SaveFailed | Moved

  /** Every state the machine passes through, in order, and how the move ends. */
  datatype Run = Run(trace: seq<Snapshot>, outcome: Outcome, disk: Disk)

  function Execute(disk: Disk, plan: Plan, env: Environment): Run {
    if !env.admitted || !Passes(disk, plan) then Run([Snapshot(disk, OldCatalog)], Refused, disk)
    else
      var s := StageUpTo(disk, plan, env, |plan|);
      var staging := WithCatalog(s.trace, OldCatalog);
      if s.status != Running then Run(staging, StagingFailed(s.status == Undone), s.disk)
      else
        var save := Save(env.save);
        var saving := staging + WithDisk(s.disk, save.catalogs);
        if !save.ok then Run(saving, SaveFailed, s.disk)
        else Run(saving + CommitTrace(s.disk, s.staged, env.commitRemoves), Moved,
                 Committed(s.disk, s.staged, |s.staged|, env.commitRemoves))
  }
}
