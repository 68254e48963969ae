/** The checkpoint protocol gets things done: reports count, nothing is written twice, and a policy
    can always be made clean. */
module CheckpointProgress {
  import opened Common
  import opened PeerPolicy
  import opened Checkpoint

  /** The next report in line is about the revision the service has now. */
  predicate CurrentReport(s: System, succeeded: bool) {
    s.results != [] && s.results[0] == Result(s.state.revision, succeeded)
  }

  /** No changed policy along the run. */
  predicate Unchanged(actions: seq<Action>) {
    forall i | 0 <= i < |actions| :: actions[i].Reduce? ==> !actions[i].changed
  }

  // A successful report.

  lemma CleanStep(s: System, a: Action)
    requires Coherent(s) && Enabled(s, a) && !s.state.dirty && (a.Reduce? ==> !a.changed)
    ensures !Act(s, a).state.dirty && Act(s, a).state.revision == s.state.revision
    ensures Act(s, a).policy == s.policy
    ensures (a.Queue? || a.Shutdown?) ==> Act(s, a).slot == s.slot && Act(s, a).unseen == s.unseen
  {
    if a.Ack? && s.results[0].revision == s.state.revision {
      assert InResults(s);
    }
  }

  lemma {:induction false} CleanRun(s: System, actions: seq<Action>)
    requires Coherent(s) && Runs(s, actions) && !s.state.dirty && Unchanged(actions)
    ensures !After(s, actions).state.dirty && After(s, actions).policy == s.policy
    ensures After(s, actions).slot == s.slot
    decreases |actions|
  {
    if actions != [] {
      CleanStep(s, actions[0]);
      ActCoherent(s, actions[0]);
      CleanRun(Act(s, actions[0]), actions[1..]);
    }
  }

  /** In every run from a true start: once a successful report of the current revision is received,
      the policy is not dirty, and stays so until the next changed policy; nothing is sent meanwhile,
      and the file holds the policy. */
  lemma ReportCleans(policy: Policy, dirty: bool, file: FileContent, before: seq<Action>, later: seq<Action>)
    requires dirty || Holds(file, policy)
    requires Runs(Start(policy, dirty, file), before)
    requires
      var s := After(Start(policy, dirty, file), before);
      && s.serving && CurrentReport(s, true) && s.state.revision < U64_MAX
      && Runs(Act(s, Ack), later) && Unchanged(later)
    ensures
      var s := Act(After(Start(policy, dirty, file), before), Ack);
      && !s.state.dirty
      && !After(s, later).state.dirty && After(s, later).policy == s.policy && After(s, later).slot == s.slot
      && Holds(After(s, later).file, s.policy)
  {
    var start := Start(policy, dirty, file);
    RunCoherent(start, before);
    var s := After(start, before);
    AckCoherent(s);
    CleanRun(Act(s, Ack), later);
    RunCoherent(Act(s, Ack), later);
  }

  // A failed report.

  /** After a failed report of the current revision the policy is dirty and not queued, so the next
      checkpoint sends it again. */
  lemma FailureIsRetried(s: System)
    requires s.serving && s.state.tx && !s.writer.Gone? && CurrentReport(s, false)
    ensures
      var t := Act(Act(s, Ack), Queue);
      && t.slot == Some(Request(s.state.revision, s.policy)) && t.unseen
      && t.state.dirty && t.state.queued == Some(s.state.revision)
  {
  }

  /** A request sent to a writer that is gone does not count as queued: the next checkpoint tries again,
      until the service learns that there is no writer. */
  lemma GoneWriterIsTriedAgain(s: System)
    requires s.serving && s.state.tx && s.writer.Gone? && s.state.dirty && s.state.queued != Some(s.state.revision)
    ensures
      var t := Act(s, Queue);
      && t.slot == Some(Request(s.state.revision, s.policy))
      && t.state.queued == s.state.queued && t.state.dirty
      && (s.results == [] ==> Act(Act(t, ResultsClosed), Queue).slot == t.slot)
  {
  }

  /** Once the service has learnt that its writer is gone, no checkpoint of any run sends anything, and
      a policy that is or becomes unsaved stays so. */
  lemma ClosedForGood(s: System, later: seq<Action>)
    requires s.serving && s.writer.Gone? && s.results == [] && Runs(Act(s, ResultsClosed), later)
    ensures
      var end := After(Act(s, ResultsClosed), later);
      && end.slot == s.slot && end.unseen == s.unseen && end.writer.Gone? && end.results == []
      && (end.state.dirty <==> s.state.dirty || !Unchanged(later))
  {
    SilentRun(Act(s, ResultsClosed), later);
  }

  lemma {:induction false} SilentRun(s: System, actions: seq<Action>)
    requires !s.state.tx && s.writer.Gone? && s.results == [] && Runs(s, actions)
    ensures
      var end := After(s, actions);
      && end.slot == s.slot && end.unseen == s.unseen && end.writer.Gone? && end.results == []
      && (end.state.dirty <==> s.state.dirty || !Unchanged(actions))
    decreases |actions|
  {
    if actions != [] {
      var rest := actions[1..];
      SilentRun(Act(s, actions[0]), rest);
      assert forall i | 0 <= i < |rest| :: rest[i] == actions[i + 1];
      assert Unchanged(actions) <==> (actions[0].Reduce? ==> !actions[0].changed) && Unchanged(rest);
    }
  }

  // Each revision is taken once.

  /** How often the writer takes a request of `revision`. */
  function Taken(s: System, actions: seq<Action>, revision: nat): nat
    requires Runs(s, actions)
    decreases |actions|
  {
    if actions == [] then 0
    else
      (if actions[0].Take? && s.slot.value.revision == revision then 1 else 0)
      + Taken(Act(s, actions[0]), actions[1..], revision)
  }

  /** Every write that ends succeeds; the writer may still be slow or die. */
  predicate WritesSucceed(actions: seq<Action>) {
    forall i | 0 <= i < |actions| :: actions[i].WriteDone? ==> actions[i].succeeded
  }

  predicate NoFailedReports(s: System) {
    forall i | 0 <= i < |s.results| :: s.results[i].succeeded
  }

  /** `revision` will not be taken again: there is no writer, or it is not waiting in the slot and is
      old, or on its way, or done. */
  predicate DoneWith(s: System, revision: nat) {
    || s.writer.Gone?
    || (&& revision <= s.state.revision
        && !(s.unseen && s.slot.Some? && s.slot.value.revision == revision)
        && (revision == s.state.revision && s.state.dirty ==> s.state.queued == Some(revision)))
  }

  lemma ReportsStep(s: System, a: Action)
    requires Enabled(s, a) && NoFailedReports(s) && (a.WriteDone? ==> a.succeeded)
    ensures NoFailedReports(Act(s, a))
  {
    var t := Act(s, a);
    if a.WriteDone? {
      assert forall i | 0 <= i < |s.results| :: t.results[i] == s.results[i];
    } else if a.Ack? {
      assert forall i | 0 <= i < |t.results| :: t.results[i] == s.results[i + 1];
    }
  }

  lemma DoneStep(s: System, a: Action, revision: nat)
    requires Coherent(s) && Enabled(s, a) && s.state.revision < U64_MAX
    requires NoFailedReports(s) && DoneWith(s, revision)
    ensures DoneWith(Act(s, a), revision)
    ensures !(a.Take? && s.slot.value.revision == revision)
  {
    if a.Ack? {
      assert s.results[0].succeeded;
    }
  }

  lemma TakenStep(s: System, revision: nat)
    requires Coherent(s) && Enabled(s, Take) && s.slot.value.revision == revision
    ensures DoneWith(Act(s, Take), revision)
  {
  }

  lemma {:induction false} TakenFrom(s: System, actions: seq<Action>, revision: nat)
    requires Coherent(s) && Runs(s, actions) && NoFailedReports(s) && WritesSucceed(actions)
    ensures Taken(s, actions, revision) <= if DoneWith(s, revision) then 0 else 1
    decreases |actions|
  {
    if actions != [] {
      var a := actions[0];
      ActCoherent(s, a);
      ReportsStep(s, a);
      TakenFrom(Act(s, a), actions[1..], revision);
      if DoneWith(s, revision) {
        DoneStep(s, a, revision);
      } else if a.Take? && s.slot.value.revision == revision {
        TakenStep(s, revision);
      }
    }
  }

  /** In every run from a true start whose writes succeed, whatever changes and however often the
      service checks, the writer takes each revision at most once. */
  lemma TakenAtMostOnce(policy: Policy, dirty: bool, file: FileContent, actions: seq<Action>, revision: nat)
    requires dirty || Holds(file, policy)
    requires Runs(Start(policy, dirty, file), actions) && WritesSucceed(actions)
    ensures Taken(Start(policy, dirty, file), actions, revision) <= 1
  {
    TakenFrom(Start(policy, dirty, file), actions, revision);
  }

  // A policy can always be made clean.

  function Weight(results: seq<Result>, revision: nat): nat {
    if results == [] then 0
    else (if results[0] == Result(revision, false) then 6 else 1) + Weight(results[1..], revision)
  }

  lemma {:induction false} WeightSnoc(results: seq<Result>, r: Result, revision: nat)
    ensures Weight(results + [r], revision) ==
            Weight(results, revision) + if r == Result(revision, false) then 6 else 1
  {
    if results == [] {
      assert [r][1..] == [];
    } else {
      assert (results + [r])[1..] == results[1..] + [r];
      WeightSnoc(results[1..], r, revision);
    }
  }

  /** How far the policy is from being clean and everything from being done. */
  function Distance(s: System): nat {
    (if s.state.dirty && s.state.queued != Some(s.state.revision) then 4 else 0)
    + (if s.unseen then 3 else 0) + (if s.writer.Writing? then 2 else 0) + Weight(s.results, s.state.revision)
  }

  predicate Working(s: System) {
    Coherent(s) && Orderly(s) && s.serving && !s.writer.Gone? && s.state.revision < U64_MAX
  }

  /** What to do next. */
  function NextAction(s: System): Action
    requires Working(s) && Distance(s) > 0
  {
    if s.results != [] then Ack
    else if s.writer.Writing? then WriteDone(true, Stored(s.writer.request.policy))
    else if s.unseen then Take
    else Queue
  }

  lemma NextGetsCloser(s: System)
    requires Working(s) && Distance(s) > 0
    ensures
      var a := NextAction(s);
      && Enabled(s, a) && Working(Act(s, a)) && Distance(Act(s, a)) < Distance(s)
      && Act(s, a).policy == s.policy && !a.Reduce?
  {
    var a := NextAction(s);
    ActCoherent(s, a);
    ActOrderly(s, a);
    if a.WriteDone? {
      WeightSnoc(s.results, Result(s.writer.request.revision, true), s.state.revision);
    }
  }

  /** From every state the service can be in while it serves and its writer lives, some run without
      changes and with successful writes ends with a clean policy that the file holds. */
  lemma {:induction false} CanBecomeClean(s: System) returns (actions: seq<Action>)
    requires Working(s)
    ensures Runs(s, actions) && Unchanged(actions) && WritesSucceed(actions)
    ensures !After(s, actions).state.dirty && Holds(After(s, actions).file, s.policy)
    decreases Distance(s)
  {
    if Distance(s) == 0 {
      actions := [];
    } else {
      var a := NextAction(s);
      NextGetsCloser(s);
      var rest := CanBecomeClean(Act(s, a));
      actions := [a] + rest;
      assert actions[1..] == rest;
    }
  }
}
