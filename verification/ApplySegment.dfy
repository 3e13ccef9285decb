/**
 * The command and the step relation are one protocol: whatever `CmdApply` does, its steps are a
 * stretch of a behaviour that ends with the same ledger on disk, so what holds of every behaviour
 * holds of every command.
 */
module ApplySegment {
  import opened Wrappers
  import opened StateKeys
  import opened Ledger
  import opened Ordering
  import opened ApplyProtocol
  import opened ApplyCommand

  // ---- Sequences of steps ----

  /** The steps `ls`, one after another, lead from `w` to `w'`. */
  ghost predicate Performs(w: World, ls: seq<Label>, w': World)
    decreases |ls|, 1
  {
    if ls == [] then w' == w else exists mid :: PerformsVia(w, ls, mid, w')
  }

  ghost predicate PerformsVia(w: World, ls: seq<Label>, mid: World, w': World)
    requires ls != []
    decreases |ls|, 0
  {
    Performs(w, ls[..|ls| - 1], mid) && Step(mid, ls[|ls| - 1], w')
  }

  lemma PerformsNext(w: World, ls: seq<Label>, mid: World, l: Label, w': World)
    requires Performs(w, ls, mid) && Step(mid, l, w')
    ensures Performs(w, ls + [l], w')
  {
    assert (ls + [l])[..|ls|] == ls;
    assert PerformsVia(w, ls + [l], mid, w');
  }

  lemma PerformsFurther(w: World, ls: seq<Label>, upto: nat, mid: World, w': World)
    requires 0 < upto <= |ls| && Performs(w, ls[..upto - 1], mid) && Step(mid, ls[upto - 1], w')
    ensures Performs(w, ls[..upto], w')
  {
    PerformsNext(w, ls[..upto - 1], mid, ls[upto - 1], w');
    assert ls[..upto] == ls[..upto - 1] + [ls[upto - 1]];
  }

  lemma LastOfMore<T>(s: seq<T>, more: seq<T>)
    requires more != []
    ensures s + more == s + more[..|more| - 1] + [more[|more| - 1]]
  {}

  lemma {:induction false} PerformsOn(w: World, ls: seq<Label>, mid: World, more: seq<Label>, w': World)
    requires Performs(w, ls, mid) && Performs(mid, more, w')
    ensures Performs(w, ls + more, w')
    decreases |more|
  {
    if more == [] {
      assert ls + more == ls;
    } else {
      var last := |more| - 1;
      var before :| PerformsVia(mid, more, before, w');
      PerformsOn(w, ls, mid, more[..last], before);
      LastOfMore(ls, more);
      PerformsNext(w, ls + more[..last], before, more[last], w');
    }
  }

  lemma BehaviorNext(ws: seq<World>, ls: seq<Label>, l: Label, w': World)
    requires Behavior(ws, ls) && Step(ws[|ls|], l, w')
    ensures Behavior(ws + [w'], ls + [l])
  {
    var longer, labels := ws + [w'], ls + [l];
    forall i | 0 <= i < |labels| ensures Step(longer[i], labels[i], longer[i + 1]) {
      if i < |ls| { assert Step(ws[i], ls[i], ws[i + 1]); }
    }
  }

  /** A behaviour goes on with any steps that its last state can perform. */
  lemma {:induction false} BehaviorGoesOn(ws: seq<World>, ls: seq<Label>, more: seq<Label>, w': World)
    returns (ws': seq<World>)
    requires Behavior(ws, ls) && Performs(ws[|ls|], more, w')
    ensures Behavior(ws', ls + more) && ws <= ws' && ws'[|ls| + |more|] == w'
    decreases |more|
  {
    if more == [] {
      ws' := ws;
      assert ls + more == ls;
    } else {
      var last := |more| - 1;
      var before :| PerformsVia(ws[|ls|], more, before, w');
      var shorter := BehaviorGoesOn(ws, ls, more[..last], before);
      ws' := shorter + [w'];
      BehaviorNext(shorter, ls + more[..last], more[last], w');
      assert ls + more == ls + more[..last] + [more[last]];
    }
  }

  // ---- Recording is about which operations were acknowledged, not their order ----

  ghost predicate Deletes(ops: seq<ResourceDiff>, upto: nat, key: string)
    requires upto <= |ops|
  {
    exists i :: 0 <= i < upto && ops[i].action.DeleteRow? && StateKey(ops[i].row) == key
  }

  ghost predicate Writes(ops: seq<ResourceDiff>, upto: nat, key: string)
    requires upto <= |ops|
  {
    exists i :: 0 <= i < upto && !ops[i].action.DeleteRow? && StateKey(ops[i].row) == key
  }

  /** Only undeclared rows are deleted. */
  ghost predicate DeletesUndeclared(ops: seq<ResourceDiff>, desired: set<string>) {
    forall d :: d in ops && d.action.DeleteRow? ==> StateKey(d.row) !in desired
  }

  /** What recording leaves of one key. */
  ghost predicate RecordedAt(s: State, after: State, desired: set<string>, deleted: bool, written: bool, key: string) {
    && (key in after.resources <==> (key in s.resources && !deleted) || (written && key in desired))
    && (key in after.pending <==> key in s.pending && !deleted && !(written && key in desired))
  }

  lemma RecordedOneMore(s: State, before: State, op: ResourceDiff, desired: set<string>, deleted: bool,
                        written: bool, key: string)
    requires RecordedAt(s, before, desired, deleted, written, key)
    requires op.action.DeleteRow? ==> StateKey(op.row) !in desired
    requires deleted ==> key !in desired
    ensures RecordedAt(s, OpRecorded(before, op, desired), desired,
                       deleted || (op.action.DeleteRow? && StateKey(op.row) == key),
                       written || (!op.action.DeleteRow? && StateKey(op.row) == key), key)
  {}

  lemma NextIsCounted(ops: seq<ResourceDiff>, upto: nat, key: string)
    requires 0 < upto <= |ops|
    ensures var op := ops[upto - 1];
            && (Deletes(ops, upto, key) <==>
                  Deletes(ops, upto - 1, key) || (op.action.DeleteRow? && StateKey(op.row) == key))
            && (Writes(ops, upto, key) <==>
                  Writes(ops, upto - 1, key) || (!op.action.DeleteRow? && StateKey(op.row) == key))
  {}

  lemma {:induction false} RecordedExactly(s: State, ops: seq<ResourceDiff>, desired: set<string>, upto: nat, key: string)
    requires upto <= |ops| && DeletesUndeclared(ops, desired)
    ensures RecordedAt(s, RecordedOps(s, ops, desired, upto), desired, Deletes(ops, upto, key), Writes(ops, upto, key), key)
    ensures Deletes(ops, upto, key) ==> key !in desired
    decreases upto
  {
    if upto > 0 {
      RecordedExactly(s, ops, desired, upto - 1, key);
      var op := ops[upto - 1];
      assert op in ops;
      RecordedOneMore(s, RecordedOps(s, ops, desired, upto - 1), op, desired,
                      Deletes(ops, upto - 1, key), Writes(ops, upto - 1, key), key);
      NextIsCounted(ops, upto, key);
    }
  }

  /** The two ledgers agree on one key. */
  ghost predicate AgreeAt(a: State, b: State, key: string) {
    (key in a.resources <==> key in b.resources) && (key in a.pending <==> key in b.pending)
  }

  lemma AgreeingLedgers(a: State, b: State)
    requires forall key :: AgreeAt(a, b, key)
    ensures a == b
  {
    assert forall key :: key in a.resources ==> AgreeAt(a, b, key);
    assert forall key :: key in b.resources ==> AgreeAt(a, b, key);
    assert forall key :: key in a.pending ==> AgreeAt(a, b, key);
    assert forall key :: key in b.pending ==> AgreeAt(a, b, key);
  }

  ghost predicate SameOps(a: seq<ResourceDiff>, b: seq<ResourceDiff>) { forall d :: d in a <==> d in b }

  lemma SameOpsCount(a: seq<ResourceDiff>, b: seq<ResourceDiff>, key: string)
    requires SameOps(a, b)
    ensures Deletes(a, |a|, key) ==> Deletes(b, |b|, key)
    ensures Writes(a, |a|, key) ==> Writes(b, |b|, key)
  {
    if i :| 0 <= i < |a| && a[i].action.DeleteRow? && StateKey(a[i].row) == key {
      assert a[i] in b;
      var j :| 0 <= j < |b| && b[j] == a[i];
    }
    if i :| 0 <= i < |a| && !a[i].action.DeleteRow? && StateKey(a[i].row) == key {
      assert a[i] in b;
      var j :| 0 <= j < |b| && b[j] == a[i];
    }
  }

  lemma RecordingAgrees(s: State, a: seq<ResourceDiff>, b: seq<ResourceDiff>, desired: set<string>, key: string)
    requires SameOps(a, b) && DeletesUndeclared(a, desired)
    ensures AgreeAt(RecordedOps(s, a, desired, |a|), RecordedOps(s, b, desired, |b|), key)
  {
    RecordedExactly(s, a, desired, |a|, key);
    RecordedExactly(s, b, desired, |b|, key);
    SameOpsCount(a, b, key);
    SameOpsCount(b, a, key);
  }

  /** What is recorded does not depend on the order in which operations were acknowledged. */
  lemma RecordingIgnoresOrder(s: State, a: seq<ResourceDiff>, b: seq<ResourceDiff>, desired: set<string>)
    requires SameOps(a, b) && DeletesUndeclared(a, desired)
    ensures RecordedOps(s, a, desired, |a|) == RecordedOps(s, b, desired, |b|)
  {
    var x, y := RecordedOps(s, a, desired, |a|), RecordedOps(s, b, desired, |b|);
    forall key ensures AgreeAt(x, y, key) { RecordingAgrees(s, a, b, desired, key); }
    AgreeingLedgers(x, y);
  }

  // ---- Reading ----

  /** One namespace after another is read; others may edit the gateway before each reading. */
  function Reads(order: seq<string>, upto: nat): seq<Label>
    requires upto <= |order|
  {
    if upto == 0 then [] else Reads(order, upto - 1) + [OutsideEdit] + [ReadNamespace(order[upto - 1])]
  }

  function LiveAfter(live: map<RowId, Row>, views: seq<map<RowId, Row>>, upto: nat): map<RowId, Row>
    requires upto <= |views|
  {
    if upto == 0 then live else views[upto - 1]
  }

  ghost function ReadSoFar(views: seq<map<RowId, Row>>, order: seq<string>, upto: nat): map<string, GatewayConfig>
    requires upto <= |order| == |views|
  {
    if upto == 0 then map[]
    else ReadSoFar(views, order, upto - 1)[order[upto - 1] := LiveIn(views[upto - 1], order[upto - 1])]
  }

  /** `actual` is what was live in each of the namespaces when it was read, in this order. */
  ghost predicate ReadAll(views: seq<map<RowId, Row>>, order: seq<string>, namespaces: set<string>,
                          actual: map<string, GatewayConfig>)
  {
    && |views| == |order| && (forall ns :: ns in order <==> ns in namespaces)
    && ReadSoFar(views, order, |order|) == actual
  }

  lemma {:induction false} ReadSoFarKeys(views: seq<map<RowId, Row>>, order: seq<string>, upto: nat, ns: string)
    requires upto <= |order| == |views|
    ensures ns in ReadSoFar(views, order, upto) <==> exists i :: 0 <= i < upto && order[i] == ns
    decreases upto
  {
    if upto > 0 { ReadSoFarKeys(views, order, upto - 1, ns); }
  }

  lemma EverythingIsRead(views: seq<map<RowId, Row>>, order: seq<string>, namespaces: set<string>,
                         actual: map<string, GatewayConfig>)
    requires ReadAll(views, order, namespaces, actual)
    ensures actual.Keys == namespaces
  {
    forall ns ensures ns in actual <==> ns in namespaces { ReadSoFarKeys(views, order, |order|, ns); }
  }

  ghost function ReadWorld(w: World, order: seq<string>, views: seq<map<RowId, Row>>, upto: nat): World
    requires w.run.Some? && upto <= |order| == |views|
  {
    World(w.disk, LiveAfter(w.live, views, upto), Some(w.run.value.(actual := ReadSoFar(views, order, upto))),
          w.clock + 2 * upto)
  }

  lemma ReadStep(w: World, order: seq<string>, views: seq<map<RowId, Row>>, k: nat) returns (mid: World)
    requires InPhase(w, Reading) && w.run.value.actual == map[] && k < |order| == |views|
    requires order[k] in w.run.value.namespaces
    ensures Step(ReadWorld(w, order, views, k), OutsideEdit, mid)
    ensures Step(mid, ReadNamespace(order[k]), ReadWorld(w, order, views, k + 1))
  {
    var before := ReadWorld(w, order, views, k);
    mid := World(before.disk, views[k], before.run, before.clock + 1);
  }

  lemma {:induction false} ReadsPerform(w: World, order: seq<string>, views: seq<map<RowId, Row>>, upto: nat)
    requires InPhase(w, Reading) && w.run.value.actual == map[] && upto <= |order| == |views|
    requires forall ns :: ns in order ==> ns in w.run.value.namespaces
    ensures Performs(w, Reads(order, upto), ReadWorld(w, order, views, upto))
    decreases upto
  {
    if upto > 0 {
      ReadsPerform(w, order, views, upto - 1);
      assert order[upto - 1] in order;
      var mid := ReadStep(w, order, views, upto - 1);
      PerformsNext(w, Reads(order, upto - 1), ReadWorld(w, order, views, upto - 1), OutsideEdit, mid);
      PerformsNext(w, Reads(order, upto - 1) + [OutsideEdit], mid, ReadNamespace(order[upto - 1]),
                   ReadWorld(w, order, views, upto));
    } else {
      assert w.run.value.(actual := map[]) == w.run.value;
    }
  }

  // ---- Sending ----

  ghost predicate ServedAt(run: Run, lives: seq<map<RowId, Row>>, requests: seq<Label>, k: nat)
    requires k < |requests| && |lives| == |requests| + 1
  {
    match requests[k]
    case Send(diff, ok) => MaySend(run, diff) && Requested(lives[k], lives[k + 1], diff, run.desired, ok)
    case Adopt(row, ok) =>
      MayAdopt(run, row) && Requested(lives[k], lives[k + 1], ResourceDiff(ModifyRow, row), run.desired, ok)
    case OutsideEdit => true
    case _ => false
  }

  /**
   * The run may make these requests, and `lives` is the gateway before, between and after them and the
   * edits of others.
   */
  ghost predicate Served(run: Run, lives: seq<map<RowId, Row>>, requests: seq<Label>) {
    |lives| == |requests| + 1 && forall k :: 0 <= k < |requests| ==> ServedAt(run, lives, requests, k)
  }

  /** The operation a request asks for, if it is acknowledged. */
  function AckOf(l: Label): Option<ResourceDiff> {
    match l
    case Send(diff, ok) => if ok then Some(diff) else None
    case Adopt(row, ok) => if ok then Some(ResourceDiff(ModifyRow, row)) else None
    case _ => None
  }

  function AckedBy(requests: seq<Label>, upto: nat): seq<ResourceDiff>
    requires upto <= |requests|
  {
    if upto == 0 then []
    else
      var ack := AckOf(requests[upto - 1]);
      if ack.Some? then AckedBy(requests, upto - 1) + [ack.value] else AckedBy(requests, upto - 1)
  }

  ghost function ServedWorld(w: World, lives: seq<map<RowId, Row>>, requests: seq<Label>, upto: nat): World
    requires w.run.Some? && |lives| == |requests| + 1 && upto <= |requests|
  {
    World(w.disk, lives[upto], Some(w.run.value.(acked := AckedBy(requests, upto))), w.clock + upto)
  }

  lemma ServedStep(w: World, lives: seq<map<RowId, Row>>, requests: seq<Label>, k: nat)
    requires InPhase(w, Applying) && Served(w.run.value, lives, requests) && k < |requests|
    ensures Step(ServedWorld(w, lives, requests, k), requests[k], ServedWorld(w, lives, requests, k + 1))
  {
    var run := w.run.value;
    var now := run.(acked := AckedBy(requests, k));
    assert ServedAt(run, lives, requests, k);
    match requests[k]
    case Send(diff, ok) => assert MaySend(now, diff);
    case Adopt(row, ok) => assert MayAdopt(now, row);
    case _ =>
  }

  lemma {:induction false} RequestsPerform(w: World, lives: seq<map<RowId, Row>>, requests: seq<Label>, upto: nat)
    requires InPhase(w, Applying) && w.run.value.acked == []
    requires Served(w.run.value, lives, requests) && lives[0] == w.live && upto <= |requests|
    ensures Performs(w, requests[..upto], ServedWorld(w, lives, requests, upto))
    decreases upto
  {
    if upto > 0 {
      RequestsPerform(w, lives, requests, upto - 1);
      ServedStep(w, lives, requests, upto - 1);
      PerformsFurther(w, requests, upto, ServedWorld(w, lives, requests, upto - 1), ServedWorld(w, lives, requests, upto));
    }
  }

  // ---- The command's steps ----

  /**
   * What happens around one command: the namespaces it reads and what is live at each reading, and its
   * requests and others' edits with the gateway around each.
   */
  datatype Scene = Scene(
    filter: Option<string>,
    order: seq<string>,
    views: seq<map<RowId, Row>>,
    requests: seq<Label>,
    lives: seq<map<RowId, Row>>)

  /** What is live when the reading is over. */
  function LiveRead(w: World, scene: Scene): map<RowId, Row> { LiveAfter(w.live, scene.views, |scene.views|) }

  function SaveIf(changed: bool, save: Label): seq<Label> { if changed then [save] else [] }

  function Opening(job: Job, scene: Scene): seq<Label> {
    [Start(job.desired, scene.filter)] + Reads(scene.order, |scene.order|) + [Reconcile]
  }

  /** Up to the plan. */
  function Planning(s: State, job: Job, scene: Scene): seq<Label> {
    Opening(job, scene) + SaveIf(job.Settled(s) != s, SaveReconciled) + [MakePlan(job.blocked)]
  }

  /** Up to the first request. */
  function Reserving(s: State, job: Job, scene: Scene): seq<Label> {
    Planning(s, job, scene) + [AnnounceCreates] + SaveIf(job.Reserved(s) != job.Settled(s), SaveAnnounced)
  }

  /** The steps of the whole command; giving up is what a crash is. */
  function Course(s: State, job: Job, scene: Scene): seq<Label> {
    if !WellFormedKeys(s) then []
    else if !job.Settles(s) then Opening(job, scene) + [Crash]
    else if !job.Plans(s) then Planning(s, job, scene) + [Crash]
    else if !job.Reserves(s) then Planning(s, job, scene) + [AnnounceCreates] + [Crash]
    else if !job.Sends(s) then Reserving(s, job, scene) + [Crash]
    else
      Reserving(s, job, scene) + scene.requests + [RecordResults]
      + [if job.Completes(s) then SaveResults else Crash]
  }

  /** The run of this command, begun in `w`. */
  ghost function RunOf(w: World, job: Job, scene: Scene, phase: Phase, mem: State, plan: seq<ResourceDiff>): Run {
    Run(w.clock, job.desired, ResolvedNamespaces(scene.filter, job.desired, w.disk), phase, mem, job.actual, plan, [],
        if phase in {Dropped, Settled} then {} else job.blocked)
  }

  /** What was read is what was live, of a configuration that the filter admits. */
  ghost predicate Starts(w: World, job: Job, scene: Scene) {
    && w.run.None?
    && (scene.filter.Some? ==> forall r :: r in job.desired ==> r.id.namespace == scene.filter.value)
    && ReadAll(scene.views, scene.order, ResolvedNamespaces(scene.filter, job.desired, w.disk), job.actual)
  }

  /** The plan is the shared-mode diff of what was read. */
  ghost predicate PlanIsDiff(s: State, job: Job) {
    var managed := Reconciled(s, job.desired, job.actual).resources;
    forall d :: d in job.diff(managed) ==> InDiff(d, job.desired, Snapshot(job.actual), managed)
  }

  lemma PlanIsPlanned(s: State, job: Job)
    requires PlanIsDiff(s, job)
    ensures forall d :: d in job.Diffs(s) ==>
              d.row.namespace !in job.blocked && InDiff(d, job.desired, Snapshot(job.actual), job.Settled(s).resources)
  {
    forall d | d in job.Diffs(s)
      ensures d.row.namespace !in job.blocked && InDiff(d, job.desired, Snapshot(job.actual), job.Settled(s).resources)
    {
      PlanIsUnblocked(job, s, d);
    }
  }

  /** The requests are ones the run may make, and exactly the acknowledged ones are recorded. */
  ghost predicate Answers(w: World, job: Job, scene: Scene) {
    && job.Sends(w.disk)
    && Served(RunOf(w, job, scene, Applying, job.Reserved(w.disk), job.Diffs(w.disk)), scene.lives, scene.requests)
    && scene.lives[0] == LiveRead(w, scene)
    && SameOps(AckedBy(scene.requests, |scene.requests|), job.Sent(w.disk).value.Acked())
  }

  lemma OpeningPerforms(w: World, job: Job, scene: Scene) returns (w': World)
    requires WellFormedKeys(w.disk) && Starts(w, job, scene)
    ensures Performs(w, Opening(job, scene), w')
    ensures var mem := job.Settled(w.disk);
            var phase := if mem == w.disk then Settled else Dropped;
            w' == World(w.disk, LiveRead(w, scene), Some(RunOf(w, job, scene, phase, mem, [])), w'.clock)
  {
    var namespaces := ResolvedNamespaces(scene.filter, job.desired, w.disk);
    var run := Run(w.clock, job.desired, namespaces, Reading, w.disk, map[], [], [], {});
    var started := World(w.disk, w.live, Some(run), w.clock + 1);
    assert Performs(w, [], w);
    PerformsNext(w, [], w, Start(job.desired, scene.filter), started);
    ReadsPerform(started, scene.order, scene.views, |scene.order|);
    EverythingIsRead(scene.views, scene.order, namespaces, job.actual);
    var read := ReadWorld(started, scene.order, scene.views, |scene.order|);
    PerformsOn(w, [Start(job.desired, scene.filter)], started, Reads(scene.order, |scene.order|), read);
    var mem := job.Settled(w.disk);
    var phase := if mem == w.disk then Settled else Dropped;
    w' := World(w.disk, LiveRead(w, scene), Some(RunOf(w, job, scene, phase, mem, [])), read.clock + 1);
    PerformsNext(w, [Start(job.desired, scene.filter)] + Reads(scene.order, |scene.order|), read, Reconcile, w');
  }

  lemma PlanningPerforms(w: World, job: Job, scene: Scene) returns (w': World)
    requires Starts(w, job, scene) && job.Settles(w.disk) && PlanIsDiff(w.disk, job)
    ensures Performs(w, Planning(w.disk, job, scene), w')
    ensures var mem := job.Settled(w.disk);
            w' == World(mem, LiveRead(w, scene), Some(RunOf(w, job, scene, Planned, mem, job.Diffs(w.disk))), w'.clock)
  {
    var begun := OpeningPerforms(w, job, scene);
    var s, mem, ls := w.disk, job.Settled(w.disk), Opening(job, scene);
    var clock := if mem == s then begun.clock else begun.clock + 1;
    var settled := World(mem, LiveRead(w, scene), Some(RunOf(w, job, scene, Settled, mem, [])), clock);
    if mem != s {
      PerformsNext(w, ls, begun, SaveReconciled, settled);
    } else {
      assert ls + SaveIf(false, SaveReconciled) == ls;
    }
    w' := World(mem, LiveRead(w, scene), Some(RunOf(w, job, scene, Planned, mem, job.Diffs(s))), settled.clock + 1);
    PlanIsPlanned(s, job);
    PerformsNext(w, ls + SaveIf(mem != s, SaveReconciled), settled, MakePlan(job.blocked), w');
  }

  lemma AnnouncingPerforms(w: World, job: Job, scene: Scene) returns (w': World)
    requires Starts(w, job, scene) && job.Settles(w.disk) && PlanIsDiff(w.disk, job)
    ensures Performs(w, Planning(w.disk, job, scene) + [AnnounceCreates], w')
    ensures
      var before, mem := job.Settled(w.disk), job.Reserved(w.disk);
      var phase := if mem == before then Applying else Announcing;
      w' == World(before, LiveRead(w, scene), Some(RunOf(w, job, scene, phase, mem, job.Diffs(w.disk))), w'.clock)
  {
    var planned := PlanningPerforms(w, job, scene);
    var before, mem := job.Settled(w.disk), job.Reserved(w.disk);
    var phase := if mem == before then Applying else Announcing;
    w' := World(before, LiveRead(w, scene), Some(RunOf(w, job, scene, phase, mem, job.Diffs(w.disk))), planned.clock + 1);
    PerformsNext(w, Planning(w.disk, job, scene), planned, AnnounceCreates, w');
  }

  lemma ReservingPerforms(w: World, job: Job, scene: Scene) returns (w': World)
    requires Starts(w, job, scene) && job.Reserves(w.disk) && PlanIsDiff(w.disk, job)
    ensures Performs(w, Reserving(w.disk, job, scene), w')
    ensures var mem := job.Reserved(w.disk);
            w' == World(mem, LiveRead(w, scene), Some(RunOf(w, job, scene, Applying, mem, job.Diffs(w.disk))), w'.clock)
  {
    var announced := AnnouncingPerforms(w, job, scene);
    var before, mem := job.Settled(w.disk), job.Reserved(w.disk);
    var ls := Planning(w.disk, job, scene) + [AnnounceCreates];
    if mem != before {
      w' := World(mem, LiveRead(w, scene), Some(RunOf(w, job, scene, Applying, mem, job.Diffs(w.disk))), announced.clock + 1);
      PerformsNext(w, ls, announced, SaveAnnounced, w');
    } else {
      w' := announced;
      assert ls + SaveIf(false, SaveAnnounced) == ls;
    }
  }

  lemma {:induction false} AckedFrom(requests: seq<Label>, upto: nat, d: ResourceDiff) returns (k: nat)
    requires upto <= |requests| && d in AckedBy(requests, upto)
    ensures k < upto && AckOf(requests[k]) == Some(d)
    decreases upto
  {
    if AckOf(requests[upto - 1]) == Some(d) {
      k := upto - 1;
    } else {
      k := AckedFrom(requests, upto - 1, d);
    }
  }

  /** The deletes a run may send are of rows it does not declare. */
  lemma AckedDeletesAreUndeclared(w: World, job: Job, scene: Scene)
    requires PlanIsDiff(w.disk, job) && Answers(w, job, scene)
    ensures DeletesUndeclared(AckedBy(scene.requests, |scene.requests|), Keys(job.desired))
  {
    var run := RunOf(w, job, scene, Applying, job.Reserved(w.disk), job.Diffs(w.disk));
    forall d | d in AckedBy(scene.requests, |scene.requests|) && d.action.DeleteRow?
      ensures StateKey(d.row) !in Keys(job.desired)
    {
      var k := AckedFrom(scene.requests, |scene.requests|, d);
      assert ServedAt(run, scene.lives, scene.requests, k);
      assert MaySend(run, d) && d in job.Diffs(w.disk);
      PlanIsPlanned(w.disk, job);
      DeclaredKeys(job.desired, d.row);
    }
  }

  lemma SendingPerforms(w: World, job: Job, scene: Scene)
    returns (w': World)
    requires Starts(w, job, scene) && PlanIsDiff(w.disk, job)
    requires Answers(w, job, scene)
    ensures Performs(w, Reserving(w.disk, job, scene) + scene.requests + [RecordResults], w')
    ensures w'.disk == job.Reserved(w.disk) && w'.live == scene.lives[|scene.requests|] && InPhase(w', Recorded)
    ensures w'.run.value.mem == job.Final(w.disk, job.Sent(w.disk).value)
  {
    var reserved := ReservingPerforms(w, job, scene);
    var ls := Reserving(w.disk, job, scene);
    RequestsPerform(reserved, scene.lives, scene.requests, |scene.requests|);
    assert scene.requests[..|scene.requests|] == scene.requests;
    var sent := ServedWorld(reserved, scene.lives, scene.requests, |scene.requests|);
    PerformsOn(w, ls, reserved, scene.requests, sent);
    var run := sent.run.value;
    AckedDeletesAreUndeclared(w, job, scene);
    RecordingIgnoresOrder(run.mem, run.acked, job.Sent(w.disk).value.Acked(), Keys(job.desired));
    var mem := RecordedOps(run.mem, run.acked, Keys(run.desired), |run.acked|);
    w' := World(sent.disk, sent.live, Some(run.(mem := mem, phase := Recorded)), sent.clock + 1);
    PerformsNext(w, ls + scene.requests, sent, RecordResults, w');
  }

  lemma GivingUp(w: World, ls: seq<Label>, mid: World) returns (w': World)
    requires Performs(w, ls, mid)
    ensures Performs(w, ls + [Crash], w') && w' == mid.(run := None, clock := w'.clock)
  {
    w' := mid.(run := None, clock := mid.clock + 1);
    PerformsNext(w, ls, mid, Crash, w');
  }

  /**
   * Whatever the command does, whether it completes, gives up or cannot save, its steps are steps of
   * the protocol, and they end with the ledger that the command leaves on disk.
   */
  lemma CommandIsSegment(w: World, job: Job, scene: Scene)
    returns (w': World)
    requires Starts(w, job, scene) && PlanIsDiff(w.disk, job)
    requires job.Sends(w.disk) ==> Answers(w, job, scene)
    ensures Performs(w, Course(w.disk, job, scene), w')
    ensures w'.disk == job.DiskAfter(w.disk) && w'.run.None?
    ensures w'.live == if job.Sends(w.disk) then scene.lives[|scene.requests|]
                       else if WellFormedKeys(w.disk) then LiveRead(w, scene)
                       else w.live
  {
    var s := w.disk;
    if !WellFormedKeys(s) {
      w' := w;
    } else if !job.Settles(s) {
      var mid := OpeningPerforms(w, job, scene);
      w' := GivingUp(w, Opening(job, scene), mid);
    } else if !job.Plans(s) {
      var mid := PlanningPerforms(w, job, scene);
      w' := GivingUp(w, Planning(s, job, scene), mid);
    } else if !job.Reserves(s) {
      var mid := AnnouncingPerforms(w, job, scene);
      w' := GivingUp(w, Planning(s, job, scene) + [AnnounceCreates], mid);
    } else if !job.Sends(s) {
      var mid := ReservingPerforms(w, job, scene);
      w' := GivingUp(w, Reserving(s, job, scene), mid);
    } else {
      var mid := SendingPerforms(w, job, scene);
      var ls := Reserving(s, job, scene) + scene.requests + [RecordResults];
      if job.Completes(s) {
        w' := World(mid.run.value.mem, mid.live, None, mid.clock + 1);
        PerformsNext(w, ls, mid, SaveResults, w');
      } else {
        w' := GivingUp(w, ls, mid);
      }
    }
  }

  // ---- What the command may delete ----

  /** Since its start, the run of this moment has been the only one. */
  ghost predicate SinceStart(ws: seq<World>, ls: seq<Label>, k: nat)
    requires |ws| == |ls| + 1 && k < |ws|
  {
    ws[k].run.Some? ==>
      var start := ws[k].run.value.startedAt;
      && start < k && ls[start].Start? && ls[start].desired == ws[k].run.value.desired
      && forall j :: start < j < k ==> !ls[j].Start?
  }

  lemma {:induction false} RunsStart(ws: seq<World>, ls: seq<Label>, k: nat)
    requires Behavior(ws, ls) && k < |ws|
    ensures SinceStart(ws, ls, k)
    decreases k
  {
    if k > 0 {
      RunsStart(ws, ls, k - 1);
      InvAlways(ws, ls, k - 1);
      assert Step(ws[k - 1], ls[k - 1], ws[k - 1 + 1]);
    }
  }

  predicate NoneStarts(ls: seq<Label>) { forall l :: l in ls ==> !l.Start? }

  lemma {:induction false} ReadsStartNothing(order: seq<string>, upto: nat)
    requires upto <= |order|
    ensures NoneStarts(Reads(order, upto))
    decreases upto
  {
    if upto > 0 { ReadsStartNothing(order, upto - 1); }
  }

  lemma ReservingStartsOnce(s: State, job: Job, scene: Scene)
    ensures var ls := Reserving(s, job, scene);
            ls != [] && ls[0] == Start(job.desired, scene.filter) && NoneStarts(ls[1..])
  {
    ReadsStartNothing(scene.order, |scene.order|);
    var rest := Reads(scene.order, |scene.order|) + [Reconcile] + SaveIf(job.Settled(s) != s, SaveReconciled)
                + [MakePlan(job.blocked)] + [AnnounceCreates] + SaveIf(job.Reserved(s) != job.Settled(s), SaveAnnounced);
    assert Reserving(s, job, scene)[1..] == rest;
  }

  /** Between the start of a command and one of its requests nothing else starts. */
  lemma StartsOnce(ls: seq<Label>, reserving: seq<Label>, requests: seq<Label>, ending: seq<Label>, start: nat, k: nat)
    requires reserving != [] && NoneStarts(reserving[1..]) && NoneStarts(requests) && k < |requests|
    requires |ls| < start < |ls| + |reserving| + k
    ensures !(ls + (reserving + requests + ending))[start].Start?
  {
    var p := start - |ls|;
    assert (ls + (reserving + requests + ending))[start] == (reserving + requests + ending)[p];
    if p < |reserving| {
      assert reserving[1..][p - 1] == reserving[p];
    } else {
      assert (reserving + requests + ending)[p] == requests[p - |reserving|];
    }
  }

  lemma ServedStartsNothing(run: Run, lives: seq<map<RowId, Row>>, requests: seq<Label>)
    requires Served(run, lives, requests)
    ensures NoneStarts(requests)
  {
    forall l | l in requests ensures !l.Start? {
      var k :| 0 <= k < |requests| && requests[k] == l;
      assert ServedAt(run, lives, requests, k);
    }
  }

  /** The run that a request at `at` belongs to is the one that started at `start`. */
  lemma StartedHere(ws: seq<World>, ls: seq<Label>, start: nat, at: nat)
    requires Behavior(ws, ls) && start < at < |ls| && ls[start].Start? && ws[at].run.Some?
    requires forall j :: start < j < at ==> !ls[j].Start?
    ensures ws[at].run.value.startedAt == start && ws[at].run.value.desired == ls[start].desired
  {
    RunsStart(ws, ls, at);
  }

  lemma EarnedBefore(ws: seq<World>, ls: seq<Label>, reserving: seq<Label>, requests: seq<Label>, ending: seq<Label>,
                     k: nat, row: RowId)
    returns (claim: nat)
    requires Behavior(ws, ls + (reserving + requests + ending))
    requires reserving != [] && reserving[0].Start? && NoneStarts(reserving[1..]) && NoneStarts(requests)
    requires k < |requests| && requests[k].Send? && requests[k].diff == ResourceDiff(DeleteRow, row)
    ensures claim < |ls| && Claims(ws[claim], ls[claim], row)
    ensures row !in Ids(reserving[0].desired)
  {
    var all, at := ls + (reserving + requests + ending), |ls| + |reserving| + k;
    assert all[at] == requests[k] && all[|ls|] == reserving[0];
    claim := DeletesAreEarned(ws, all, at, row);
    forall j | |ls| < j < at ensures !all[j].Start? { StartsOnce(ls, reserving, requests, ending, j, k); }
    StartedHere(ws, all, |ls|, at);
    assert all[claim] == ls[claim];
  }

  /**
   * After any history of applies, crashes and outside edits: a delete that the command sends is of a
   * row it does not declare, and that an earlier run claimed while declaring it.
   */
  lemma CommandDeletesAreEarned(ws: seq<World>, ls: seq<Label>, job: Job, scene: Scene, k: nat, row: RowId)
    returns (claim: nat)
    requires Behavior(ws, ls) && Starts(ws[|ls|], job, scene) && PlanIsDiff(ws[|ls|].disk, job)
    requires Answers(ws[|ls|], job, scene)
    requires k < |scene.requests| && scene.requests[k].Send? && scene.requests[k].diff == ResourceDiff(DeleteRow, row)
    ensures claim < |ls| && Claims(ws[claim], ls[claim], row)
    ensures row !in Ids(job.desired)
  {
    var s := ws[|ls|].disk;
    var w' := CommandIsSegment(ws[|ls|], job, scene);
    var reserving := Reserving(s, job, scene);
    var ending := [RecordResults] + [if job.Completes(s) then SaveResults else Crash];
    var course := reserving + scene.requests + ending;
    assert course == Course(s, job, scene);
    var ws' := BehaviorGoesOn(ws, ls, course, w');
    var at := |ls| + |reserving| + k;
    ReservingStartsOnce(s, job, scene);
    ServedStartsNothing(RunOf(ws[|ls|], job, scene, Applying, job.Reserved(s), job.Diffs(s)), scene.lives, scene.requests);
    claim := EarnedBefore(ws', ls, reserving, scene.requests, ending, k, row);
    assert ws'[claim] == ws[claim];
  }

  // ---- A delete that was earned ----

  /** An apply of one operation, which the gateway acknowledges. */
  function JobOfOne(desired: GatewayConfig, namespace: string, read: GatewayConfig, op: ResourceDiff): Job {
    Job(desired, map[namespace := read], _ => [op], {}, 100, false, (_, _) => Some(Replies([op], [])), _ => true)
  }

  lemma OpsOfOne(s: State, op: ResourceDiff, desired: set<string>)
    ensures Announced(s, [op], 1) == AnnouncedOne(s, op)
    ensures RecordedOps(s, [op], desired, 1) == OpRecorded(s, op, desired)
  {
    assert Announced(s, [op], 0) == s && RecordedOps(s, [op], desired, 0) == s;
  }

  lemma FilterOfOne<T>(x: T, keep: T -> bool)
    ensures Filter([x], keep) == if keep(x) then [x] else []
  {
    assert [x] + [] == [x];
    FilterCons(x, [], keep);
  }

  lemma PlanOfOne(job: Job, resources: set<string>, op: ResourceDiff)
    requires job.diff(resources) == [op] && job.blocked == {}
    ensures job.Plan(resources) == [op]
  {
    FilterOfOne(op, (d: ResourceDiff) => d.row.namespace !in job.blocked);
  }

  lemma PruningOneIsAllowed(desired: GatewayConfig, namespace: string, read: GatewayConfig, op: ResourceDiff, resources: set<string>)
    ensures JobOfOne(desired, namespace, read, op).AllowsPrune(resources)
  {
    FilterOfOne(op, IsDelete);
  }

  lemma JobOfOneIs(desired: GatewayConfig, namespace: string, read: GatewayConfig, op: ResourceDiff, s: State)
    requires Reconciled(s, desired, map[namespace := read]) == s
    ensures var job := JobOfOne(desired, namespace, read, op);
            && job.Settled(s) == s && job.Diffs(s) == [op] && job.Reserved(s) == AnnouncedOne(s, op)
            && job.Sent(s) == Some(Replies([op], []))
            && job.Final(s, Replies([op], [])) == OpRecorded(AnnouncedOne(s, op), op, Keys(desired))
  {
    PlanOfOne(JobOfOne(desired, namespace, read, op), s.resources, op);
    OpsOfOne(s, op, Keys(desired));
    OpsOfOne(AnnouncedOne(s, op), op, Keys(desired));
    assert Replies([op], []).Acked() == [op];
  }

  function SceneOfOne(live: map<RowId, Row>, namespace: string, op: ResourceDiff, after: map<RowId, Row>): Scene {
    Scene(None, [namespace], [live], [Send(op, true)], [live, after])
  }

  /** What one such apply needs of the ledger and of the gateway. */
  ghost predicate OneIsApplied(w: World, desired: GatewayConfig, namespace: string, op: ResourceDiff,
                               live: map<RowId, Row>) {
    var read := LiveIn(w.live, namespace);
    var reserved := AnnouncedOne(w.disk, op);
    && w.run.None? && ResolvedNamespaces(None, desired, w.disk) == {namespace}
    && Reconciled(w.disk, desired, map[namespace := read]) == w.disk
    && InDiff(op, desired, read, w.disk.resources) && !Undeclared(op, Keys(desired))
    && WellFormedKeys(w.disk) && WellFormedKeys(reserved) && WellFormedKeys(OpRecorded(reserved, op, Keys(desired)))
    && Requested(w.live, live, op, desired, true)
  }

  lemma OneCompletes(w: World, desired: GatewayConfig, namespace: string, op: ResourceDiff, live: map<RowId, Row>)
    requires OneIsApplied(w, desired, namespace, op, live)
    ensures var job := JobOfOne(desired, namespace, LiveIn(w.live, namespace), op);
            job.Completes(w.disk) && job.DiskAfter(w.disk) == OpRecorded(AnnouncedOne(w.disk, op), op, Keys(desired))
  {
    JobOfOneIs(desired, namespace, LiveIn(w.live, namespace), op, w.disk);
    PruningOneIsAllowed(desired, namespace, LiveIn(w.live, namespace), op, w.disk.resources);
  }

  lemma SnapshotOfOne(namespace: string, read: GatewayConfig)
    ensures Snapshot(map[namespace := read]) == read
  {
    var actual := map[namespace := read];
    forall r | r in read ensures r in Snapshot(actual) { assert namespace in actual && r in actual[namespace]; }
  }

  lemma OneStarts(w: World, desired: GatewayConfig, namespace: string, op: ResourceDiff, live: map<RowId, Row>)
    requires OneIsApplied(w, desired, namespace, op, live)
    ensures var job := JobOfOne(desired, namespace, LiveIn(w.live, namespace), op);
            var scene := SceneOfOne(w.live, namespace, op, live);
            Starts(w, job, scene) && PlanIsDiff(w.disk, job)
  {
    var read := LiveIn(w.live, namespace);
    var job := JobOfOne(desired, namespace, read, op);
    JobOfOneIs(desired, namespace, read, op, w.disk);
    SnapshotOfOne(namespace, read);
  }

  lemma OneIsAnswered(w: World, desired: GatewayConfig, namespace: string, op: ResourceDiff, live: map<RowId, Row>)
    requires OneIsApplied(w, desired, namespace, op, live)
    ensures var job := JobOfOne(desired, namespace, LiveIn(w.live, namespace), op);
            Answers(w, job, SceneOfOne(w.live, namespace, op, live))
  {
    var job := JobOfOne(desired, namespace, LiveIn(w.live, namespace), op);
    OneCompletes(w, desired, namespace, op, live);
    JobOfOneIs(desired, namespace, LiveIn(w.live, namespace), op, w.disk);
    var scene := SceneOfOne(w.live, namespace, op, live);
    assert AckedBy(scene.requests, 1) == [op] by { assert AckedBy(scene.requests, 0) == []; }
    assert Replies([op], []).Acked() == [op];
    assert ServedAt(RunOf(w, job, scene, Applying, job.Reserved(w.disk), [op]), scene.lives, scene.requests, 0);
  }

  lemma RunOfOne(w: World, desired: GatewayConfig, namespace: string, op: ResourceDiff, live: map<RowId, Row>)
    returns (w': World, ls: seq<Label>, k: nat)
    requires OneIsApplied(w, desired, namespace, op, live)
    ensures Performs(w, ls, w') && k < |ls| && ls[k] == Send(op, true)
    ensures w'.run.None? && w'.live == live && w'.disk == OpRecorded(AnnouncedOne(w.disk, op), op, Keys(desired))
  {
    var job := JobOfOne(desired, namespace, LiveIn(w.live, namespace), op);
    var scene := SceneOfOne(w.live, namespace, op, live);
    OneCompletes(w, desired, namespace, op, live);
    OneStarts(w, desired, namespace, op, live);
    OneIsAnswered(w, desired, namespace, op, live);
    w' := CommandIsSegment(w, job, scene);
    ls := Course(w.disk, job, scene);
    k := |Reserving(w.disk, job, scene)|;
  }

  /** Creating a row: nothing is owned or live before. */
  lemma CreatingIsApplied(w: World, row: Row)
    requires w.run.None? && w.disk == State({}, {}) && w.live == map[]
    requires StateKeyNamespace(StateKey(row.id)) == Some(row.id.namespace)
    ensures OneIsApplied(w, {row}, row.id.namespace, ResourceDiff(AddRow, row.id), map[row.id := row])
    ensures var add := ResourceDiff(AddRow, row.id);
            OpRecorded(AnnouncedOne(w.disk, add), add, Keys({row})) == State({StateKey(row.id)}, {})
  {
    assert Keys({row}) == {StateKey(row.id)};
    assert ResolvedNamespaces(None, {row}, w.disk) == {row.id.namespace};
    assert LiveIn(w.live, row.id.namespace) == {};
  }

  /** Deleting it: owned, live, and no longer declared. */
  lemma DeletingIsApplied(w: World, row: Row)
    requires w.run.None? && w.disk == State({StateKey(row.id)}, {}) && w.live == map[row.id := row]
    requires StateKeyNamespace(StateKey(row.id)) == Some(row.id.namespace) && !row.specOwned
    ensures OneIsApplied(w, {}, row.id.namespace, ResourceDiff(DeleteRow, row.id), map[])
    ensures var delete := ResourceDiff(DeleteRow, row.id);
            OpRecorded(AnnouncedOne(w.disk, delete), delete, Keys({})) == State({}, {})
  {
    assert Keys({row}) == {StateKey(row.id)};
    assert ResolvedNamespaces(None, {}, w.disk) == {row.id.namespace};
    assert LiveIn(w.live, row.id.namespace) == {row};
  }

  lemma StepsAreBehavior(w: World, ls: seq<Label>, w': World) returns (ws: seq<World>)
    requires Init(w) && Performs(w, ls, w')
    ensures Behavior(ws, ls) && ws[|ls|] == w'
  {
    assert Behavior([w], []);
    ws := BehaviorGoesOn([w], [], ls, w');
    assert [] + ls == ls;
  }

  lemma CreatedFrom(w: World, row: Row) returns (created: World, ls: seq<Label>)
    requires w == World(State({}, {}), map[], None, 0)
    requires StateKeyNamespace(StateKey(row.id)) == Some(row.id.namespace) && !row.specOwned
    ensures Performs(w, ls, created) && created.run.None?
    ensures created.disk == State({StateKey(row.id)}, {}) && created.live == map[row.id := row]
  {
    var k;
    CreatingIsApplied(w, row);
    created, ls, k := RunOfOne(w, {row}, row.id.namespace, ResourceDiff(AddRow, row.id), map[row.id := row]);
  }

  lemma DeletedFrom(created: World, row: Row) returns (deleted: World, ls: seq<Label>, k: nat)
    requires created.run.None? && created.disk == State({StateKey(row.id)}, {}) && created.live == map[row.id := row]
    requires StateKeyNamespace(StateKey(row.id)) == Some(row.id.namespace) && !row.specOwned
    ensures Performs(created, ls, deleted) && k < |ls| && ls[k] == Send(ResourceDiff(DeleteRow, row.id), true)
    ensures deleted.disk == State({}, {}) && deleted.live == map[]
  {
    DeletingIsApplied(created, row);
    deleted, ls, k := RunOfOne(created, {}, row.id.namespace, ResourceDiff(DeleteRow, row.id), map[]);
  }

  lemma CreatedThenDeleted(row: Row) returns (w: World, w': World, ls: seq<Label>, k: nat)
    requires StateKeyNamespace(StateKey(row.id)) == Some(row.id.namespace) && !row.specOwned
    ensures Init(w) && Performs(w, ls, w') && k < |ls| && ls[k] == Send(ResourceDiff(DeleteRow, row.id), true)
    ensures w'.disk == State({}, {}) && w'.live == map[]
  {
    w := World(State({}, {}), map[], None, 0);
    var created, first := CreatedFrom(w, row);
    var deleted, second, at := DeletedFrom(created, row);
    PerformsOn(w, first, created, second, deleted);
    w', ls, k := deleted, first + second, |first| + at;
  }

  /** Two commands, one creating a row and one that no longer declares it: the second deletes it. */
  lemma AnEarnedDeleteExists(row: Row) returns (ws: seq<World>, ls: seq<Label>, k: nat)
    requires row.id.namespace != "" && row.id.id != "" && !row.specOwned
    ensures Behavior(ws, ls) && k < |ls| && ls[k] == Send(ResourceDiff(DeleteRow, row.id), true)
    ensures ws[|ls|].disk == State({}, {}) && ws[|ls|].live == map[]
  {
    KeyNamespace(row.id);
    var w, w';
    w, w', ls, k := CreatedThenDeleted(row);
    ws := StepsAreBehavior(w, ls, w');
  }
}
