/** The checkpoint protocol: the service marks its policy dirty, queues it through a slot that
    keeps only the newest request, and a writer task saves it and reports back. */
module Checkpoint {
  import opened Common
  import opened PeerPolicy

  datatype FileContent = Absent | Stored(policy: Policy) | Unreadable

  /** Reading the file back would give this policy; a missing file reads as no restrictions. */
  predicate Holds(file: FileContent, policy: Policy) {
    file == Stored(policy) || (file == Absent && policy == map[])
  }

  datatype Request = Request(revision: nat, policy: Policy)

  datatype Result = Result(revision: nat, succeeded: bool)

  /** The service's side: is there a writer to send to, is the policy unsaved, which revision it
      is, and which revision was queued last. */
  datatype Persistence = Persistence(tx: bool, dirty: bool, revision: nat, queued: Option<nat>)

  function Dirtied(p: Persistence): Persistence {
    p.(revision := SatAdd(p.revision, 1), dirty := true)
  }

  function Acknowledged(p: Persistence, result: Result): Persistence {
    if result.revision != p.revision then p else p.(queued := None, dirty := !result.succeeded)
  }

  predicate Sends(p: Persistence) {
    p.dirty && p.queued != Some(p.revision) && p.tx
  }

  function AfterQueue(p: Persistence, closed: bool): Persistence {
    if Sends(p) && !closed then p.(queued := Some(p.revision)) else p
  }

  /** The slot between service and writer. Sending replaces an unseen value. */
  class RequestSlot {
    var value: Option<Request>
    var unseen: bool
    var closed: bool

    constructor ()
      ensures value == None && !unseen && !closed
    {
      value := None;
      unseen := false;
      closed := false;
    }

    method SendReplace(request: Request)
      modifies this
      ensures value == Some(request) && unseen && closed == old(closed)
    {
      value := Some(request);
      unseen := true;
    }
  }

  class PolicyPersistenceState {
    var tx: Option<RequestSlot>
    var dirty: bool
    var revision: nat
    var queuedRevision: Option<nat>

    ghost function State(): Persistence
      reads this
    {
      Persistence(tx.Some?, dirty, revision, queuedRevision)
    }

    constructor (tx: Option<RequestSlot>, dirty: bool)
      ensures State() == Persistence(tx.Some?, dirty, if dirty then 1 else 0, None) && this.tx == tx
    {
      this.tx := tx;
      this.dirty := dirty;
      revision := if dirty then 1 else 0;
      queuedRevision := None;
    }

    method MarkDirty()
      modifies this
      ensures State() == Dirtied(old(State())) && tx == old(tx)
    {
      revision := SatAdd(revision, 1);
      dirty := true;
    }

    method ApplyResult(result: Result)
      modifies this
      ensures State() == Acknowledged(old(State()), result) && tx == old(tx)
      ensures result.revision == old(revision) ==> queuedRevision.None? && dirty == !result.succeeded
      ensures result.revision != old(revision) ==> State() == old(State())
    {
      if result.revision != revision {
        return;
      }
      queuedRevision := None;
      dirty := !result.succeeded;
    }

    method QueueIfDirty(policy: Policy)
      modifies this, match tx case Some(slot) => {slot} case None => {}
      ensures tx == old(tx)
      ensures State() == AfterQueue(old(State()), tx.Some? && tx.value.closed)
      ensures tx.Some? ==>
                var slot := tx.value;
                && slot.closed == old(slot.closed)
                && if Sends(old(State()))
                   then slot.value == Some(Request(old(revision), policy)) && slot.unseen
                   else slot.value == old(slot.value) && slot.unseen == old(slot.unseen)
    {
      if !dirty || queuedRevision == Some(revision) {
        return;
      }
      if tx.None? {
        return;
      }
      tx.value.SendReplace(Request(revision, policy));
      if !tx.value.closed {
        queuedRevision := Some(revision);
      }
    }
  }

  // The protocol.

  /** A writer that is gone may leave a blocking write behind that still runs. */
  datatype Writer = Idle | Writing(request: Request) | Gone(detached: Option<Request>)

  datatype System = System(
    policy: Policy,
    state: Persistence,
    slot: Option<Request>,
    unseen: bool,
    writer: Writer,
    results: seq<Result>,
    file: FileContent,
    serving: bool)

  datatype Action =
    | Reduce(next: Policy, changed: bool)
    | Queue
    | Ack
    | ResultsClosed
    | Take
    | WriteDone(succeeded: bool, left: FileContent)
    | WriterDies
    | DetachedDone(remains: FileContent)
    | Shutdown
    | WriterExits

  /** A failed write may leave anything behind. A reduction that reports no change made none. */
  predicate Enabled(s: System, a: Action) {
    match a
    case Reduce(next, changed) => s.serving && (!changed ==> next == s.policy)
    case Queue => s.serving
    case Ack => s.serving && s.results != []
    case ResultsClosed => s.serving && s.writer.Gone? && s.results == []
    case Take => s.writer.Idle? && s.unseen && s.slot.Some?
    case WriteDone(ok, left) => s.writer.Writing? && (ok ==> left == Stored(s.writer.request.policy))
    case WriterDies => !s.writer.Gone?
    case DetachedDone(_) => s.writer.Gone? && s.writer.detached.Some?
    case Shutdown => s.serving
    case WriterExits => s.writer.Idle? && !s.unseen && !s.serving
  }

  function Queued(s: System): System {
    var sends := Sends(s.state);
    s.(state := AfterQueue(s.state, s.writer.Gone?),
       slot := if sends then Some(Request(s.state.revision, s.policy)) else s.slot,
       unseen := sends || s.unseen)
  }

  function Act(s: System, a: Action): System
    requires Enabled(s, a)
  {
    match a
    case Reduce(next, changed) =>
      s.(policy := next, state := if changed then Dirtied(s.state) else s.state)
    case Queue => Queued(s)
    case Ack => s.(state := Acknowledged(s.state, s.results[0]), results := s.results[1..])
    case ResultsClosed => s.(state := s.state.(tx := false))
    case Take => s.(writer := Writing(s.slot.value), unseen := false)
    case WriteDone(ok, left) =>
      s.(writer := Idle, results := s.results + [Result(s.writer.request.revision, ok)], file := left)
    case WriterDies =>
      s.(writer := Gone(if s.writer.Writing? then Some(s.writer.request) else None))
    case DetachedDone(left) => s.(writer := Gone(None), file := left)
    case Shutdown => Queued(s).(serving := false)
    case WriterExits => s.(writer := Gone(None))
  }

  /** What the service starts from: a policy and dirty flag from loading the file. */
  function Start(policy: Policy, dirty: bool, file: FileContent): System {
    System(policy, Persistence(true, dirty, if dirty then 1 else 0, None), None, false, Idle, [], file, true)
  }

  // Where the request of the current revision is, if anywhere.

  function Active(w: Writer): Option<Request> {
    match w
    case Idle => None
    case Writing(r) => Some(r)
    case Gone(detached) => detached
  }

  predicate InSlot(s: System) {
    s.unseen && s.slot.Some? && s.slot.value.revision == s.state.revision
  }

  predicate InWriter(s: System) {
    Active(s.writer).Some? && Active(s.writer).value.revision == s.state.revision
  }

  predicate InResults(s: System) {
    exists i :: 0 <= i < |s.results| && s.results[i].revision == s.state.revision
  }

  /** The writer's task is over and there is nothing left for it to do. */
  predicate Quiet(s: System) {
    !s.unseen && Active(s.writer) == None
  }

  predicate RequestCurrent(s: System, r: Request) {
    r.revision <= s.state.revision && (r.revision == s.state.revision ==> r.policy == s.policy)
  }

  /** At most one copy of the current revision is under way, it carries the current policy, and a
      successful report of it means the file holds that policy. */
  predicate Coherent(s: System) {
    && (s.state.queued.Some? ==> s.state.queued.value <= s.state.revision)
    && (s.slot.Some? ==> RequestCurrent(s, s.slot.value))
    && (s.unseen ==> s.slot.Some?)
    && (Active(s.writer).Some? ==>
          && RequestCurrent(s, Active(s.writer).value)
          && s.slot.Some? && Active(s.writer).value.revision <= s.slot.value.revision)
    && (forall i | 0 <= i < |s.results| :: s.results[i].revision <= s.state.revision)
    && (InSlot(s) && !s.writer.Gone? ==> s.state.queued == Some(s.state.revision) && !InWriter(s) && !InResults(s))
    && (InWriter(s) ==> s.state.queued == Some(s.state.revision) && !InResults(s))
    && (InResults(s) ==> s.state.queued == Some(s.state.revision) && Active(s.writer) == None
                         && (s.writer.Gone? || !s.unseen))
    && (forall i, j | 0 <= i < j < |s.results| && s.results[j].revision == s.state.revision ::
          s.results[i].revision < s.state.revision)
    && (forall i | 0 <= i < |s.results| && s.results[i] == Result(s.state.revision, true) :: s.file == Stored(s.policy))
    && (!s.state.dirty ==>
          && Holds(s.file, s.policy) && Active(s.writer) == None && !InResults(s)
          && (s.writer.Gone? || !s.unseen))
  }

  lemma QueueCoherent(s: System)
    requires Coherent(s)
    ensures Coherent(Queued(s))
  {
    var q := Queued(s);
    assert InWriter(q) == InWriter(s) && q.results == s.results && q.policy == s.policy;
    assert InResults(q) == InResults(s);
  }

  lemma ReduceCoherent(s: System, next: Policy, changed: bool)
    requires Coherent(s) && Enabled(s, Reduce(next, changed)) && s.state.revision < U64_MAX
    ensures Coherent(Act(s, Reduce(next, changed)))
  {
    if changed {
      var t := Act(s, Reduce(next, changed));
      assert t.state.revision == s.state.revision + 1;
      assert !InResults(t) && !InWriter(t) && !InSlot(t);
    }
  }

  lemma AckCoherent(s: System)
    requires Coherent(s) && Enabled(s, Ack)
    ensures Coherent(Act(s, Ack))
  {
    var t := Act(s, Ack);
    assert forall i | 0 <= i < |t.results| :: t.results[i] == s.results[i + 1];
    if s.results[0].revision == s.state.revision {
      assert InResults(s);
      assert !InResults(t);
      assert s.results[0].succeeded ==> s.results[0] == Result(s.state.revision, true);
    } else if InResults(t) {
      var i :| 0 <= i < |t.results| && t.results[i].revision == t.state.revision;
      assert s.results[i + 1].revision == s.state.revision;
      assert InResults(s);
    }
  }

  lemma TakeCoherent(s: System)
    requires Coherent(s) && Enabled(s, Take)
    ensures Coherent(Act(s, Take))
  {
    var t := Act(s, Take);
    assert InResults(t) == InResults(s);
  }

  lemma WriteCoherent(s: System, ok: bool, left: FileContent)
    requires Coherent(s) && Enabled(s, WriteDone(ok, left))
    ensures Coherent(Act(s, WriteDone(ok, left)))
  {
    var t := Act(s, WriteDone(ok, left));
    var last := |s.results|;
    assert forall i | 0 <= i < last :: t.results[i] == s.results[i];
    assert t.results[last] == Result(s.writer.request.revision, ok);
    forall i | 0 <= i < last && s.results[i].revision == s.state.revision
      ensures InResults(s)
    {
    }
  }

  lemma WriterCoherent(s: System, a: Action)
    requires Coherent(s) && Enabled(s, a)
    requires a.WriterDies? || a.DetachedDone? || a.WriterExits? || a.ResultsClosed?
    ensures Coherent(Act(s, a))
  {
    var t := Act(s, a);
    assert t.results == s.results && InResults(t) == InResults(s);
    if a.DetachedDone? {
      assert Active(s.writer).Some?;
      forall i | 0 <= i < |s.results| && s.results[i] == Result(s.state.revision, true)
        ensures InResults(s)
      {
      }
    }
  }

  lemma ShutdownCoherent(s: System)
    requires Coherent(s) && Enabled(s, Shutdown)
    ensures Coherent(Act(s, Shutdown))
  {
    QueueCoherent(s);
    StoppedCoherent(Queued(s));
  }

  lemma StoppedCoherent(s: System)
    requires Coherent(s)
    ensures Coherent(s.(serving := false))
  {
    assert InResults(s.(serving := false)) == InResults(s);
  }

  lemma ActCoherent(s: System, a: Action)
    requires Coherent(s) && Enabled(s, a) && s.state.revision < U64_MAX
    ensures Coherent(Act(s, a))
  {
    match a {
      case Reduce(next, changed) => ReduceCoherent(s, next, changed);
      case Queue => QueueCoherent(s);
      case Shutdown => ShutdownCoherent(s);
      case Ack => AckCoherent(s);
      case Take => TakeCoherent(s);
      case WriteDone(ok, left) => WriteCoherent(s, ok, left);
      case _ => WriterCoherent(s, a);
    }
  }

  /** A run of enabled actions during which the revision counter has room. */
  predicate Runs(s: System, actions: seq<Action>)
    decreases |actions|
  {
    s.state.revision < U64_MAX
    && (actions != [] ==> Enabled(s, actions[0]) && Runs(Act(s, actions[0]), actions[1..]))
  }

  function After(s: System, actions: seq<Action>): System
    requires Runs(s, actions)
    decreases |actions|
  {
    if actions == [] then s else After(Act(s, actions[0]), actions[1..])
  }

  lemma {:induction false} RunCoherent(s: System, actions: seq<Action>)
    requires Coherent(s) && Runs(s, actions)
    ensures Coherent(After(s, actions))
    decreases |actions|
  {
    if actions != [] {
      ActCoherent(s, actions[0]);
      RunCoherent(Act(s, actions[0]), actions[1..]);
    }
  }

  /** From a start whose clean flag is true to the file, in every interleaving of policy changes,
      queueing, overwritten slots, slow, failing or orphaned writes and delayed reports: a policy
      that is not dirty is exactly what the file holds. */
  lemma CleanMeansSaved(policy: Policy, dirty: bool, file: FileContent, actions: seq<Action>)
    requires dirty || Holds(file, policy)
    requires Runs(Start(policy, dirty, file), actions)
    ensures
      var s := After(Start(policy, dirty, file), actions);
      !s.state.dirty ==> Holds(s.file, s.policy)
  {
    RunCoherent(Start(policy, dirty, file), actions);
  }

  /** Along every run from `start`, a policy that is not dirty is what the file holds. */
  ghost predicate KeepsPromise(start: System) {
    forall actions | Runs(start, actions) ::
      !After(start, actions).state.dirty ==> Holds(After(start, actions).file, After(start, actions).policy)
  }

  /** The condition on the start is exact: the promise holds along every run if and only if the
      loaded flag was true to the file. */
  lemma StartMustBeTrue(policy: Policy, dirty: bool, file: FileContent)
    ensures KeepsPromise(Start(policy, dirty, file)) <==> dirty || Holds(file, policy)
  {
    var start := Start(policy, dirty, file);
    var none: seq<Action> := [];
    assert Runs(start, none) && After(start, none) == start;
    if dirty || Holds(file, policy) {
      forall actions | Runs(start, actions)
        ensures !After(start, actions).state.dirty ==> Holds(After(start, actions).file, After(start, actions).policy)
      {
        CleanMeansSaved(policy, dirty, file, actions);
      }
    } else {
      assert !After(start, none).state.dirty && !Holds(After(start, none).file, After(start, none).policy);
    }
  }

  // Orderly shutdown.

  /** While the writer lives, a queued current revision is somewhere under way; once the service
      has ended, an unsaved policy has been queued. */
  predicate Orderly(s: System) {
    && s.state.tx
    && (s.writer.Gone? ==> !s.serving && Quiet(s))
    && (s.state.dirty && s.state.queued == Some(s.state.revision) ==> InSlot(s) || InWriter(s) || InResults(s))
    && (!s.serving && s.state.dirty ==> s.state.queued == Some(s.state.revision))
  }

  lemma ActOrderly(s: System, a: Action)
    requires Coherent(s) && Orderly(s) && Enabled(s, a) && !a.WriterDies? && s.state.revision < U64_MAX
    ensures Orderly(Act(s, a))
  {
    var t := Act(s, a);
    match a {
      case Ack =>
        assert forall i | 0 < i < |s.results| :: t.results[i - 1] == s.results[i];
      case WriteDone(ok, left) =>
        assert t.results[|s.results|] == Result(s.writer.request.revision, ok);
        assert forall i | 0 <= i < |s.results| :: t.results[i] == s.results[i];
      case Reduce(_, _) =>
        if !a.changed {
          assert InResults(t) == InResults(s);
        }
      case Queue => assert InResults(t) == InResults(s);
      case Shutdown => assert InResults(t) == InResults(s);
      case Take => assert InResults(t) == InResults(s);
      case WriterExits => assert InResults(t) == InResults(s);
      case _ =>
    }
  }

  lemma {:induction false} RunOrderly(s: System, actions: seq<Action>)
    requires Coherent(s) && Orderly(s) && Runs(s, actions) && forall a | a in actions :: !a.WriterDies?
    ensures Coherent(After(s, actions)) && Orderly(After(s, actions))
    decreases |actions|
  {
    if actions != [] {
      assert actions[0] in actions;
      ActCoherent(s, actions[0]);
      ActOrderly(s, actions[0]);
      RunOrderly(Act(s, actions[0]), actions[1..]);
    }
  }

  /** After an orderly shutdown, with the writer run to its end, the file holds the final policy
      unless the write of the final revision itself reported failure. */
  lemma ShutdownSaves(policy: Policy, dirty: bool, file: FileContent, actions: seq<Action>)
    requires dirty || Holds(file, policy)
    requires Runs(Start(policy, dirty, file), actions) && forall a | a in actions :: !a.WriterDies?
    requires
      var s := After(Start(policy, dirty, file), actions);
      !s.serving && s.writer.Gone?
    ensures
      var s := After(Start(policy, dirty, file), actions);
      Holds(s.file, s.policy) || Result(s.state.revision, false) in s.results
  {
    RunOrderly(Start(policy, dirty, file), actions);
    var s := After(Start(policy, dirty, file), actions);
    if s.state.dirty {
      assert InResults(s);
      var i :| 0 <= i < |s.results| && s.results[i].revision == s.state.revision;
      assert s.results[i] == Result(s.state.revision, s.results[i].succeeded);
    }
  }
}
