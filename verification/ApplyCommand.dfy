/**
 * One incremental shared-mode apply, in the order the command performs its steps: reconcile, save,
 * plan, announce, save, send, record, save.
 */
module ApplyCommand {
  import opened Wrappers
  import opened StateKeys
  import opened Ledger
  import opened Ordering
  import opened ApplyProtocol

  /**
   * The state file on disk. A save replaces it whole, or fails and leaves it alone: it refuses a
   * ledger that could not be loaded back, and the file may not be writable.
   */
  class StateDisk {
    var ledger: State

    constructor (s: State)
      ensures ledger == s
    {
      ledger := s;
    }

    method Save(s: State, writable: bool) returns (ok: bool)
      modifies this
      ensures ok <==> WellFormedKeys(s) && writable
      ensures ledger == if ok then s else old(ledger)
    {
      ok := WellFormedKeys(s) && writable;
      if ok {
        ledger := s;
      }
    }
  }

  /** What the gateway acknowledged: planned operations, then rows taken over unchanged. */
  datatype Replies = Replies(applied: seq<ResourceDiff>, adopted: seq<ResourceDiff>) {
    function Acked(): seq<ResourceDiff> { applied + adopted }
  }

  /** `Refused` sent nothing; `Unrecorded` sent its requests and could not save what came of them. */
  datatype Outcome = Completed(replies: Replies) | Unrecorded(replies: Replies) | Refused

  // ---- The large-prune guard ----

  predicate IsDelete(d: ResourceDiff) { d.action.DeleteRow? }

  function DeleteCount(diffs: seq<ResourceDiff>): nat { |Filter(diffs, IsDelete)| }

  /** The owned keys in the namespaces that were read. */
  function ManagedIn(resources: set<string>, namespaces: set<string>): set<string> {
    set k | k in resources && StateKeyNamespace(k).Some? && StateKeyNamespace(k).value in namespaces
  }

  /** An exact match of the threshold is allowed. */
  predicate ExceedsThreshold(deletes: nat, managed: nat, percent: nat) {
    managed > 0 && deletes * 100 > percent * managed
  }

  // ---- What one apply does, as a function of the ledger ----

  /**
   * `actual` is what was read of each namespace; `diff` is the diff for a given delete fence; `blocked`
   * are the refused namespaces; `send` performs the plan, given the ledger on disk at that moment, or
   * stops before the first request; `writable` says of each of the three saves whether the file can be
   * written.
   */
  datatype Job = Job(
    desired: GatewayConfig,
    actual: map<string, GatewayConfig>,
    diff: set<string> -> seq<ResourceDiff>,
    blocked: set<string>,
    prunePercent: nat,
    allowLargePrune: bool,
    send: (seq<ResourceDiff>, State) -> Option<Replies>,
    writable: nat -> bool)
  {
    function Settled(s: State): State { Reconciled(s, desired, actual) }

    predicate AllowsPrune(resources: set<string>) {
      var deletes := DeleteCount(diff(resources));
      var managed := |ManagedIn(resources, actual.Keys)|;
      !(deletes > 0 && managed > 0) || !ExceedsThreshold(deletes, managed, prunePercent) || allowLargePrune
    }

    /** What is left to do outside the refused namespaces. */
    function Plan(resources: set<string>): seq<ResourceDiff> {
      Filter(diff(resources), (d: ResourceDiff) => d.row.namespace !in blocked)
    }

    function Diffs(s: State): seq<ResourceDiff> { Plan(Settled(s).resources) }

    function Reserved(s: State): State { Announced(Settled(s), Diffs(s), |Diffs(s)|) }

    function Sent(s: State): Option<Replies> { send(Diffs(s), Reserved(s)) }

    function Final(s: State, replies: Replies): State {
      RecordedOps(Reserved(s), replies.Acked(), Keys(desired), |replies.Acked()|)
    }

    /** The `k`-th save, from `before` to `after`, is not needed or succeeds. */
    predicate Saves(k: nat, before: State, after: State) {
      after == before || (WellFormedKeys(after) && writable(k))
    }

    predicate Settles(s: State) { WellFormedKeys(s) && Saves(0, s, Settled(s)) }

    predicate Plans(s: State) {
      Settles(s) && AllowsPrune(Settled(s).resources) && forall d :: d in Diffs(s) ==> !Undeclared(d, Keys(desired))
    }

    predicate Reserves(s: State) { Plans(s) && Saves(1, Settled(s), Reserved(s)) }

    predicate Sends(s: State) { Reserves(s) && Sent(s).Some? }

    predicate Completes(s: State) {
      Sends(s) && WellFormedKeys(Final(s, Sent(s).value)) && writable(2)
    }

    function Outcome(s: State): Outcome {
      if Completes(s) then Completed(Sent(s).value)
      else if Sends(s) then Unrecorded(Sent(s).value)
      else Refused
    }

    /** The ledger on disk when the command ends. */
    function DiskAfter(s: State): State {
      if Completes(s) then Final(s, Sent(s).value)
      else if Reserves(s) then Reserved(s)
      else if Settles(s) then Settled(s)
      else s
    }
  }

  // ---- What that means ----

  /**
   * More of what is owned in the namespaces that were read would be deleted than the threshold allows,
   * counting every delete of the diff, and nothing permits it.
   */
  ghost predicate IsLargePrune(job: Job, s: State) {
    var settled := Reconciled(s, job.desired, job.actual);
    var all := job.diff(settled.resources);
    var deletes := |set i | 0 <= i < |all| && all[i].action.DeleteRow?|;
    var managed := |set k | k in settled.resources && StateKeyNamespace(k).Some? && StateKeyNamespace(k).value in job.actual|;
    deletes > 0 && managed > 0 && deletes * 100 > job.prunePercent * managed && !job.allowLargePrune
  }

  lemma LargePruneIsExact(job: Job, s: State)
    ensures job.AllowsPrune(Reconciled(s, job.desired, job.actual).resources) <==> !IsLargePrune(job, s)
  {
    var settled := Reconciled(s, job.desired, job.actual);
    var all := job.diff(settled.resources);
    FilterCounts(all, IsDelete, |all|);
    assert all[..|all|] == all;
    assert Positions(all, IsDelete, |all|) == set i | 0 <= i < |all| && all[i].action.DeleteRow?;
    assert ManagedIn(settled.resources, job.actual.Keys)
           == set k | k in settled.resources && StateKeyNamespace(k).Some? && StateKeyNamespace(k).value in job.actual;
  }

  /** What is done is what the diff lists outside the refused namespaces. */
  lemma PlanIsUnblocked(job: Job, s: State, d: ResourceDiff)
    ensures d in job.Diffs(s)
            <==> d in job.diff(Reconciled(s, job.desired, job.actual).resources) && d.row.namespace !in job.blocked
  {
    FilterMember(job.diff(job.Settled(s).resources), (d: ResourceDiff) => d.row.namespace !in job.blocked, d);
  }

  /** Requests go out exactly when nothing refuses, and both saves before them succeed or are not needed. */
  ghost predicate MaySendAnything(job: Job, s: State) {
    var settled := Reconciled(s, job.desired, job.actual);
    var announced := Announced(settled, job.Diffs(s), |job.Diffs(s)|);
    && WellFormedKeys(s)
    && (settled != s ==> WellFormedKeys(settled) && job.writable(0))
    && !IsLargePrune(job, s)
    && (forall d :: d in job.Diffs(s) && d.action.AddRow? ==> StateKey(d.row) in Keys(job.desired))
    && (announced != settled ==> WellFormedKeys(announced) && job.writable(1))
  }

  /** The outcome and the ledger left on disk that these circumstances lead to. */
  ghost predicate IsExactly(job: Job, s: State, outcome: Outcome, disk: State) {
    var settled := Reconciled(s, job.desired, job.actual);
    var announced := Announced(settled, job.Diffs(s), |job.Diffs(s)|);
    var sent := job.send(job.Diffs(s), announced);
    if !MaySendAnything(job, s) then
      && outcome == Refused && (disk == s || disk == settled)
      && (!WellFormedKeys(s) ==> disk == s)
      && (WellFormedKeys(settled) && job.writable(0) && WellFormedKeys(s) ==> disk == settled)
    else if sent.None? then outcome == Refused && disk == announced
    else
      var acked := sent.value.applied + sent.value.adopted;
      var final := RecordedOps(announced, acked, Keys(job.desired), |acked|);
      if WellFormedKeys(final) && job.writable(2) then outcome == Completed(sent.value) && disk == final
      else outcome == Unrecorded(sent.value) && disk == announced
  }

  lemma CommandExactly(job: Job, s: State)
    ensures IsExactly(job, s, job.Outcome(s), job.DiskAfter(s))
  {
    LargePruneIsExact(job, s);
  }

  // ---- The command ----

  /** Nothing forgotten and nothing dropped means the ledger in memory is the one on disk. */
  lemma NothingChanged(loaded: State, settled: State, after: State, forgotten: nat, dropped: nat)
    requires settled.resources == loaded.resources && settled.pending <= loaded.pending
    requires after.pending == settled.pending && after.resources <= settled.resources
    requires forgotten == |loaded.pending - settled.pending| && dropped == |settled.resources - after.resources|
    ensures forgotten == 0 && dropped == 0 <==> after == loaded
  {
    if forgotten == 0 && dropped == 0 {
      assert loaded.pending - settled.pending == {} && settled.resources - after.resources == {};
    }
  }

  method ReconcileAndSave(disk: StateDisk, state: StateFile, desired: GatewayConfig,
                          actual: map<string, GatewayConfig>, writable: bool)
    returns (ok: bool)
    requires state.Contents() == disk.ledger
    modifies disk, state
    ensures state.Contents() == Reconciled(old(disk.ledger), desired, actual)
    ensures ok <==> state.Contents() == old(disk.ledger) || (WellFormedKeys(state.Contents()) && writable)
    ensures disk.ledger == if ok then state.Contents() else old(disk.ledger)
  {
    ghost var loaded := state.Contents();
    var forgotten, _ := state.ReconcilePendingCreates(desired, actual, SharedScope);
    ghost var settled := state.Contents();
    var dropped := state.ReconcileAbsentManagedResources(desired, actual);
    NothingChanged(loaded, settled, state.Contents(), forgotten, dropped);
    ok := true;
    if forgotten > 0 || dropped > 0 {
      ok := disk.Save(State(state.resources, state.pendingCreates), writable);
    }
  }

  lemma NothingAnnounced(before: set<string>, after: set<string>)
    requires before <= after
    ensures |after| == |before| <==> before == after
  {
    SizeOfDifference(after, before);
    if |after| == |before| { assert after - before == {}; }
  }

  /** Refuses a create that is not declared. */
  method AnnounceAndSave(disk: StateDisk, state: StateFile, diffs: seq<ResourceDiff>, desired: set<string>, writable: bool)
    returns (ok: bool)
    requires state.Contents() == disk.ledger
    modifies disk, state
    ensures
      var announced := Announced(old(disk.ledger), diffs, |diffs|);
      && (ok <==> (forall d :: d in diffs && d.action.AddRow? ==> StateKey(d.row) in desired)
                  && (announced == old(disk.ledger) || (WellFormedKeys(announced) && writable)))
      && (ok ==> state.Contents() == announced)
      && disk.ledger == if ok then announced else old(disk.ledger)
  {
    ghost var before := state.Contents();
    var reserved := state.ReserveAdds(diffs, desired);
    if reserved.Err? {
      return false;
    }
    AnnouncingKeepsOwnership(before, diffs, |diffs|);
    NothingAnnounced(before.pending, state.pendingCreates);
    ok := true;
    if reserved.value > 0 {
      ok := disk.Save(State(state.resources, state.pendingCreates), writable);
    }
  }

  method RecordAndSave(disk: StateDisk, state: StateFile, acked: seq<ResourceDiff>, desired: set<string>, writable: bool)
    returns (ok: bool)
    modifies disk, state
    ensures state.Contents() == RecordedOps(old(state.Contents()), acked, desired, |acked|)
    ensures ok <==> WellFormedKeys(state.Contents()) && writable
    ensures disk.ledger == if ok then state.Contents() else old(disk.ledger)
  {
    for i := 0 to |acked|
      invariant state.Contents() == RecordedOps(old(state.Contents()), acked, desired, i)
      invariant disk.ledger == old(disk.ledger)
    {
      state.RecordOp(acked[i], desired);
    }
    ok := disk.Save(State(state.resources, state.pendingCreates), writable);
  }

  /** The guard looks at the whole diff, refused namespaces included. */
  method AskPruneGuard(job: Job, resources: set<string>) returns (allowed: bool)
    ensures allowed == job.AllowsPrune(resources)
  {
    var deletes := DeleteCount(job.diff(resources));
    var managed := |ManagedIn(resources, job.actual.Keys)|;
    if deletes > 0 && managed > 0 {
      if ExceedsThreshold(deletes, managed, job.prunePercent) && !job.allowLargePrune {
        return false;
      }
    }
    return true;
  }

  /** The stages of an apply against the admin API, each of which may end the command. */
  method ApplyInStages(disk: StateDisk, job: Job) returns (outcome: Outcome)
    modifies disk
    ensures outcome == job.Outcome(old(disk.ledger))
    ensures disk.ledger == job.DiskAfter(old(disk.ledger))
  {
    if !WellFormedKeys(disk.ledger) {
      return Refused;
    }
    ghost var loaded := disk.ledger;
    var state := new StateFile(disk.ledger);
    var ok := ReconcileAndSave(disk, state, job.desired, job.actual, job.writable(0));
    if !ok {
      return Refused;
    }
    ok := AskPruneGuard(job, state.resources);
    if !ok {
      return Refused;
    }
    var diffs := job.Plan(state.resources);
    ok := AnnounceAndSave(disk, state, diffs, Keys(job.desired), job.writable(1));
    if !ok {
      return Refused;
    }
    var sent := job.send(diffs, disk.ledger);
    if sent.None? {
      return Refused;
    }
    ok := RecordAndSave(disk, state, sent.value.Acked(), Keys(job.desired), job.writable(2));
    outcome := if ok then Completed(sent.value) else Unrecorded(sent.value);
  }

  /** The command: when it refuses, when it completes, and which ledger it leaves on disk. */
  method CmdApply(disk: StateDisk, job: Job) returns (outcome: Outcome)
    modifies disk
    ensures outcome == job.Outcome(old(disk.ledger)) && disk.ledger == job.DiskAfter(old(disk.ledger))
    ensures IsExactly(job, old(disk.ledger), outcome, disk.ledger)
  {
    CommandExactly(job, disk.ledger);
    outcome := ApplyInStages(disk, job);
  }

  /** Every create handed to the sender is on disk, announced or owned, when requests go out. */
  lemma SentCreatesAreOnDisk(job: Job, s: State, d: ResourceDiff)
    requires job.Reserves(s) && d in job.Diffs(s) && d.action.AddRow?
    ensures StateKey(d.row) in job.Reserved(s).pending + job.Reserved(s).resources
    ensures StateKey(d.row) in Keys(job.desired)
  {
    var diffs := job.Diffs(s);
    AnnouncingKeepsOwnership(job.Settled(s), diffs, |diffs|);
    var i :| 0 <= i < |diffs| && diffs[i] == d;
  }
}
