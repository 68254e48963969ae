/** Where the checkpoint protocol starts: the policy and the dirty flag that loading the file gives. */
module CheckpointStart {
  import opened Common
  import opened PeerPolicy
  import opened PeerPolicyLoad
  import opened Checkpoint

  /** Whether loading tells the service the truth: the file is absent, or could be read, or holds
      nothing anyway. */
  predicate ReadTruly(file: FileContent, readable: bool) {
    match file
    case Absent => true
    case Stored(content) => readable || content == map[]
    case Unreadable => false
  }

  /** The service loads the file and starts. `readable` is false if the file is too large or reading
      it fails; the error is logged and the service starts empty and clean. */
  method StartService(file: FileContent, readable: bool, now: Time, max: nat) returns (start: System)
    ensures start == Start(start.policy, start.state.dirty, file)
    ensures start.state == Persistence(true, start.state.dirty, if start.state.dirty then 1 else 0, None)
    ensures file.Stored? && readable ==>
              && (start.state.dirty <==> start.policy != file.policy)
              && |start.policy| <= max && AllNormal(start.policy)
              && forall ip | ip in start.policy :: start.policy[ip].blockedUntil > now
    ensures !(file.Stored? && readable) ==> start.policy == map[] && !start.state.dirty
    ensures KeepsPromise(start) <==> ReadTruly(file, readable)
    ensures forall p: Policy | Holds(file, p) && readable && AllNormal(p) && |p| <= max &&
                       (forall ip | ip in p :: p[ip].blockedUntil > now) ::
              start.policy == p
  {
    var policy, dirty := map[], false;
    if file.Stored? && readable {
      var table, requiresReconciliation := LoadPolicy(file.policy, now, max);
      policy, dirty := table.restrictions, requiresReconciliation;
    }
    start := Start(policy, dirty, file);
    StartMustBeTrue(policy, dirty, file);
  }

  /** A file that could not be read: the service can run to its orderly end, clean all the way, and
      leave the file as it was. */
  lemma UnreadableStaysUnsaved(file: FileContent)
    requires !ReadTruly(file, false)
    ensures
      var start := Start(map[], false, file);
      && Runs(start, [Shutdown, WriterExits])
      && !After(start, [Shutdown, WriterExits]).state.dirty
      && After(start, [Shutdown, WriterExits]).file == file
      && !Holds(file, After(start, [Shutdown, WriterExits]).policy)
  {
    var start := Start(map[], false, file);
    var ended := Act(start, Shutdown);
    assert [Shutdown, WriterExits][1..] == [WriterExits] && [WriterExits][1..] == [];
    assert Runs(Act(ended, WriterExits), []);
    assert Runs(ended, [WriterExits]) && After(ended, [WriterExits]) == Act(ended, WriterExits);
  }
}
