/**
 * Incremental applies with shared ownership, as a state machine: the ledger on disk, the ledger in
 * the memory of a run, a live gateway that others edit too, and a crash possible between any two
 * steps.
 */
module ApplyProtocol {
  import opened Wrappers
  import opened StateKeys
  import opened Ledger

  // ---- Planning ----

  function Ids(config: GatewayConfig): set<RowId> { set r | r in config :: r.id }

  /** The shared-mode diff, with its delete fence: only owned keys may be deleted. */
  ghost predicate InDiff(diff: ResourceDiff, desired: GatewayConfig, actual: GatewayConfig, managed: set<string>) {
    match diff.action
    case AddRow => diff.row in Ids(desired) && diff.row !in Ids(actual)
    case ModifyRow =>
      exists d, a :: d in desired && a in actual && d.id == a.id == diff.row && !a.specOwned && d.body != a.body
    case DeleteRow =>
      && diff.row !in Ids(desired) && StateKey(diff.row) in managed
      && exists a :: a in actual && a.id == diff.row && !a.specOwned
  }

  /** The namespaces a run reads: the filter's, or all the repository declares or ever recorded. */
  ghost function ResolvedNamespaces(filter: Option<string>, desired: GatewayConfig, s: State): set<string> {
    match filter
    case Some(ns) => {ns}
    case None =>
      (set r | r in desired :: r.id.namespace)
      + (set k | k in s.resources + s.pending && StateKeyNamespace(k).Some? :: StateKeyNamespace(k).value)
  }

  // ---- State ----

  datatype Phase = Reading | Dropped | Settled | Planned | Announcing | Applying | Recorded

  datatype Run = Run(
    startedAt: nat,
    desired: GatewayConfig,
    namespaces: set<string>,
    phase: Phase,
    mem: State,
    actual: map<string, GatewayConfig>,
    plan: seq<ResourceDiff>,
    acked: seq<ResourceDiff>,
    blocked: set<string>)

  /** `clock` counts the steps taken. */
  datatype World = World(disk: State, live: map<RowId, Row>, run: Option<Run>, clock: nat)

  datatype Label =
    | Start(desired: GatewayConfig, filter: Option<string>)
    | ReadNamespace(namespace: string)
    | Reconcile
    | SaveReconciled
    | MakePlan(blocked: set<string>)
    | AnnounceCreates
    | SaveAnnounced
    | Send(diff: ResourceDiff, ok: bool)
    | Adopt(row: RowId, ok: bool)
    | RecordResults
    | SaveResults
    | Crash
    | OutsideEdit

  ghost function LiveIn(live: map<RowId, Row>, namespace: string): GatewayConfig {
    set id | id in live && id.namespace == namespace :: live[id]
  }

  ghost function Snapshot(actual: map<string, GatewayConfig>): GatewayConfig {
    set ns, r | ns in actual && r in actual[ns] :: r
  }

  /** Recording the first `upto` acknowledged operations. */
  function RecordedOps(s: State, acked: seq<ResourceDiff>, desired: set<string>, upto: nat): State
    requires upto <= |acked|
  {
    if upto == 0 then s else OpRecorded(RecordedOps(s, acked, desired, upto - 1), acked[upto - 1], desired)
  }

  /** Recording the operation settles its key: it is owned or not, and no longer only announced. */
  predicate Settles(op: ResourceDiff, key: string, desired: set<string>) {
    StateKey(op.row) == key && (op.action.DeleteRow? || key in desired)
  }

  /** None of the operations from `from` on, up to `upto`, settles the key. */
  ghost predicate Unsettled(acked: seq<ResourceDiff>, from: nat, upto: nat, key: string, desired: set<string>)
    requires upto <= |acked|
  {
    forall i :: from <= i < upto ==> !Settles(acked[i], key, desired)
  }

  /** Two ledgers say the same of a key. */
  ghost predicate Agree(a: State, b: State, key: string) {
    (key in a.resources <==> key in b.resources) && (key in a.pending <==> key in b.pending)
  }

  lemma RecordsOne(s: State, op: ResourceDiff, desired: set<string>, key: string)
    ensures var after := OpRecorded(s, op, desired);
            if Settles(op, key, desired) then key !in after.pending && (key in after.resources <==> !op.action.DeleteRow?)
            else Agree(after, s, key)
  {}

  /** Recording acknowledged operations leaves a key that none of them settles as it was. */
  lemma {:induction false} RecordsNothing(s: State, acked: seq<ResourceDiff>, desired: set<string>, upto: nat, key: string)
    requires upto <= |acked| && Unsettled(acked, 0, upto, key, desired)
    ensures Agree(RecordedOps(s, acked, desired, upto), s, key)
    decreases upto
  {
    if upto > 0 {
      RecordsNothing(s, acked, desired, upto - 1, key);
      RecordsOne(RecordedOps(s, acked, desired, upto - 1), acked[upto - 1], desired, key);
    }
  }

  /** The last operation that settles a key decides it: forgotten after a delete, owned after a write. */
  lemma {:induction false} RecordsLast(s: State, acked: seq<ResourceDiff>, desired: set<string>, i: nat, upto: nat, key: string)
    requires i < upto <= |acked| && Settles(acked[i], key, desired) && Unsettled(acked, i + 1, upto, key, desired)
    ensures var after := RecordedOps(s, acked, desired, upto);
            key !in after.pending && (key in after.resources <==> !acked[i].action.DeleteRow?)
    decreases upto
  {
    RecordsOne(RecordedOps(s, acked, desired, upto - 1), acked[upto - 1], desired, key);
    if i < upto - 1 { RecordsLast(s, acked, desired, i, upto - 1, key); }
  }

  /**
   * A request for one row: whatever happens touches that row only, and an acknowledged write or
   * delete has taken effect.
   */
  ghost predicate Requested(live: map<RowId, Row>, live': map<RowId, Row>, diff: ResourceDiff, desired: GatewayConfig, ok: bool) {
    && (forall id :: id != diff.row ==> (id in live <==> id in live') && (id in live ==> live'[id] == live[id]))
    && (ok && diff.action.DeleteRow? ==> diff.row !in live')
    && (ok && !diff.action.DeleteRow? ==> diff.row in live' && live'[diff.row] in desired && live'[diff.row].id == diff.row)
  }

  /**
   * May the run send this operation? Its namespace is not refused, and it is planned or rewrites a
   * declared row: to assert an announced create, or because a credential allocated since the plan
   * changed the row's value.
   */
  ghost predicate MaySend(run: Run, diff: ResourceDiff) {
    && diff.row.namespace !in run.blocked
    && (diff in run.plan || (diff.action.ModifyRow? && diff.row in Ids(run.desired)))
  }

  ghost predicate MayAdopt(run: Run, row: RowId) {
    && row.namespace !in run.blocked
    && row in Ids(run.desired) && StateKey(row) !in run.mem.resources && StateKey(row) !in run.mem.pending
    && exists a :: a in Snapshot(run.actual) && a in run.desired && a.id == row && !a.specOwned
  }

  ghost predicate InPhase(w: World, phase: Phase) {
    w.run.Some? && w.run.value.phase == phase
  }

  ghost predicate Step(w: World, l: Label, w': World) {
    && w'.clock == w.clock + 1
    && (l.OutsideEdit? || l.Send? || l.Adopt? || w'.live == w.live)
    && match l
       case Start(desired, filter) =>
         && w.run.None? && WellFormedKeys(w.disk) && w'.disk == w.disk
         && (filter.Some? ==> forall r :: r in desired ==> r.id.namespace == filter.value)
         && w'.run == Some(Run(w.clock, desired, ResolvedNamespaces(filter, desired, w.disk), Reading, w.disk, map[], [], [], {}))
       case ReadNamespace(ns) =>
         && InPhase(w, Reading) && w'.disk == w.disk
         && var run := w.run.value;
            && ns in run.namespaces
            && w'.run == Some(run.(actual := run.actual[ns := LiveIn(w.live, ns)]))
       case Reconcile =>
         && InPhase(w, Reading) && w'.disk == w.disk
         && var run := w.run.value;
            var mem := Reconciled(run.mem, run.desired, run.actual);
            && run.actual.Keys == run.namespaces
            && w'.run == Some(run.(mem := mem, phase := if mem == run.mem then Settled else Dropped))
       case SaveReconciled =>
         && InPhase(w, Dropped) && WellFormedKeys(w.run.value.mem) && w'.disk == w.run.value.mem
         && w'.run == Some(w.run.value.(phase := Settled))
       case MakePlan(blocked) =>
         && InPhase(w, Settled) && w'.disk == w.disk
         && w'.run.Some? && w'.run == Some(w.run.value.(phase := Planned, plan := w'.run.value.plan, blocked := blocked))
         && forall d :: d in w'.run.value.plan ==>
              d.row.namespace !in blocked
              && InDiff(d, w.run.value.desired, Snapshot(w.run.value.actual), w.run.value.mem.resources)
       case AnnounceCreates =>
         && InPhase(w, Planned) && w'.disk == w.disk
         && var run := w.run.value;
            var mem := Announced(run.mem, run.plan, |run.plan|);
            w'.run == Some(run.(mem := mem, phase := if mem == run.mem then Applying else Announcing))
       case SaveAnnounced =>
         && InPhase(w, Announcing) && WellFormedKeys(w.run.value.mem) && w'.disk == w.run.value.mem
         && w'.run == Some(w.run.value.(phase := Applying))
       case Send(diff, ok) =>
         && InPhase(w, Applying) && w'.disk == w.disk
         && var run := w.run.value;
            && MaySend(run, diff) && Requested(w.live, w'.live, diff, run.desired, ok)
            && w'.run == Some(if ok then run.(acked := run.acked + [diff]) else run)
       case Adopt(row, ok) =>
         && InPhase(w, Applying) && w'.disk == w.disk
         && var run := w.run.value;
            var diff := ResourceDiff(ModifyRow, row);
            && MayAdopt(run, row) && Requested(w.live, w'.live, diff, run.desired, ok)
            && w'.run == Some(if ok then run.(acked := run.acked + [diff]) else run)
       case RecordResults =>
         && InPhase(w, Applying) && w'.disk == w.disk
         && var run := w.run.value;
            w'.run == Some(run.(mem := RecordedOps(run.mem, run.acked, Keys(run.desired), |run.acked|), phase := Recorded))
       case SaveResults =>
         InPhase(w, Recorded) && WellFormedKeys(w.run.value.mem) && w'.disk == w.run.value.mem && w'.run == None
       case Crash => w'.disk == w.disk && w'.run == None
       case OutsideEdit => w'.disk == w.disk && w'.run == w.run
  }

  /** The environment's first apply starts from an empty ledger. */
  ghost predicate Init(w: World) {
    w.disk == State({}, {}) && w.run == None && w.clock == 0
  }

  ghost predicate Behavior(ws: seq<World>, ls: seq<Label>) {
    && |ws| == |ls| + 1 && Init(ws[0])
    && forall i :: 0 <= i < |ls| ==> Step(ws[i], ls[i], ws[i + 1])
  }

  // ---- Invariants of one state ----

  ghost predicate PlanOk(run: Run) {
    forall d :: d in run.plan ==>
      && (d.action.DeleteRow? ==>
            && StateKey(d.row) in run.mem.resources && d.row !in Ids(run.desired)
            && exists a :: a in Snapshot(run.actual) && a.id == d.row && !a.specOwned)
      && (!d.action.DeleteRow? ==> d.row in Ids(run.desired))
      && (d.action.AddRow? ==> d.row !in Ids(Snapshot(run.actual)))
  }

  ghost predicate CreatesCovered(run: Run) {
    forall d :: d in run.plan && d.action.AddRow? ==> StateKey(d.row) in run.mem.pending + run.mem.resources
  }

  ghost predicate AckedOk(run: Run) {
    forall d :: d in run.acked && !d.action.DeleteRow? ==> d.row in Ids(run.desired)
  }

  ghost predicate RunOk(w: World)
    requires w.run.Some?
  {
    var run := w.run.value;
    && run.startedAt < w.clock && Disjoint(run.mem)
    && (run.phase in {Reading, Settled, Planned, Applying} ==> run.mem == w.disk)
    && (run.phase.Dropped? ==> run.mem.resources <= w.disk.resources)
    && (run.phase.Announcing? ==> run.mem.resources == w.disk.resources)
    && (run.phase in {Planned, Announcing, Applying} ==> PlanOk(run))
    && (run.phase in {Announcing, Applying} ==> CreatesCovered(run))
    && (!run.phase.Applying? && !run.phase.Recorded? ==> run.acked == [])
    && AckedOk(run)
  }

  ghost predicate Inv(w: World) {
    Disjoint(w.disk) && (w.run.Some? ==> RunOk(w))
  }

  lemma {:induction false} RecordingKeepsDisjoint(s: State, acked: seq<ResourceDiff>, desired: set<string>, upto: nat)
    requires upto <= |acked| && Disjoint(s)
    ensures Disjoint(RecordedOps(s, acked, desired, upto))
    decreases upto
  {
    if upto > 0 { RecordingKeepsDisjoint(s, acked, desired, upto - 1); }
  }

  lemma DeclaredKeys(desired: GatewayConfig, row: RowId)
    ensures StateKey(row) in Keys(desired) <==> row in Ids(desired)
  {
    if StateKey(row) in Keys(desired) {
      var r :| r in desired && StateKey(r.id) == StateKey(row);
      KeysAreInjective(r.id, row);
    }
  }

  lemma InvKept(w: World, l: Label, w': World)
    requires Inv(w) && Step(w, l, w')
    ensures Inv(w')
  {
    match l
    case Reconcile =>
      var run := w.run.value;
      assert Disjoint(Reconciled(run.mem, run.desired, run.actual));
    case AnnounceCreates =>
      var run := w.run.value;
      AnnouncingKeepsOwnership(run.mem, run.plan, |run.plan|);
    case RecordResults =>
      var run := w.run.value;
      RecordingKeepsDisjoint(run.mem, run.acked, Keys(run.desired), |run.acked|);
    case _ =>
  }

  // ---- Whole runs ----

  lemma {:induction false} InvAlways(ws: seq<World>, ls: seq<Label>, k: nat)
    requires Behavior(ws, ls) && k < |ws|
    ensures Inv(ws[k]) && ws[k].clock == k
    decreases k
  {
    if k > 0 {
      InvAlways(ws, ls, k - 1);
      assert Step(ws[k - 1], ls[k - 1], ws[k - 1 + 1]);
      InvKept(ws[k - 1], ls[k - 1], ws[k]);
    }
  }

  /** This step is the acknowledged write, adoption or replacement of `row` while it is declared. */
  ghost predicate Claims(w: World, l: Label, row: RowId) {
    && w.run.Some? && row in Ids(w.run.value.desired)
    && ((l.Send? && l.ok && !l.diff.action.DeleteRow? && l.diff.row == row) || (l.Adopt? && l.ok && l.row == row))
  }

  /** Some step before `bound` claimed the row that `key` names. */
  ghost predicate ClaimedBefore(ws: seq<World>, ls: seq<Label>, bound: nat, key: string)
    requires |ws| == |ls| + 1
  {
    exists j, row :: 0 <= j < bound && j < |ls| && Claims(ws[j], ls[j], row) && StateKey(row) == key
  }

  ghost predicate AllClaimed(ws: seq<World>, ls: seq<Label>, bound: nat, keys: set<string>)
    requires |ws| == |ls| + 1
  {
    forall key :: key in keys ==> ClaimedBefore(ws, ls, bound, key)
  }

  ghost predicate AckedClaimed(ws: seq<World>, ls: seq<Label>, bound: nat, run: Run)
    requires |ws| == |ls| + 1
  {
    forall d :: d in run.acked && !d.action.DeleteRow? ==> ClaimedBefore(ws, ls, bound, StateKey(d.row))
  }

  /** Where ownership comes from, at step `k`. */
  ghost predicate History(ws: seq<World>, ls: seq<Label>, k: nat)
    requires |ws| == |ls| + 1 && k < |ws|
  {
    var w := ws[k];
    if w.run.None? then AllClaimed(ws, ls, k, w.disk.resources)
    else
      var run := w.run.value;
      && AllClaimed(ws, ls, run.startedAt, w.disk.resources)
      && AllClaimed(ws, ls, if run.phase.Recorded? then k else run.startedAt, run.mem.resources)
      && AckedClaimed(ws, ls, k, run)
  }

  lemma ClaimsLast(ws: seq<World>, ls: seq<Label>, lo: nat, hi: nat, keys: set<string>)
    requires |ws| == |ls| + 1 && lo <= hi && AllClaimed(ws, ls, lo, keys)
    ensures AllClaimed(ws, ls, hi, keys)
  {
    forall key | key in keys ensures ClaimedBefore(ws, ls, hi, key) {
      assert ClaimedBefore(ws, ls, lo, key);
    }
  }

  lemma AckedClaimsLast(ws: seq<World>, ls: seq<Label>, lo: nat, hi: nat, run: Run)
    requires |ws| == |ls| + 1 && lo <= hi && AckedClaimed(ws, ls, lo, run)
    ensures AckedClaimed(ws, ls, hi, run)
  {
    forall d | d in run.acked && !d.action.DeleteRow? ensures ClaimedBefore(ws, ls, hi, StateKey(d.row)) {
      assert ClaimedBefore(ws, ls, lo, StateKey(d.row));
    }
  }

  lemma RecordingOneIsClaimed(ws: seq<World>, ls: seq<Label>, bound: nat, s: State, d: ResourceDiff, desired: set<string>)
    requires |ws| == |ls| + 1 && AllClaimed(ws, ls, bound, s.resources)
    requires !d.action.DeleteRow? ==> ClaimedBefore(ws, ls, bound, StateKey(d.row))
    ensures AllClaimed(ws, ls, bound, OpRecorded(s, d, desired).resources)
  {}

  lemma {:induction false} RecordingIsClaimed(ws: seq<World>, ls: seq<Label>, bound: nat, run: Run, upto: nat)
    requires |ws| == |ls| + 1 && upto <= |run.acked|
    requires AllClaimed(ws, ls, bound, run.mem.resources) && AckedClaimed(ws, ls, bound, run)
    ensures AllClaimed(ws, ls, bound, RecordedOps(run.mem, run.acked, Keys(run.desired), upto).resources)
    decreases upto
  {
    if upto > 0 {
      RecordingIsClaimed(ws, ls, bound, run, upto - 1);
      var d := run.acked[upto - 1];
      assert d in run.acked;
      RecordingOneIsClaimed(ws, ls, bound, RecordedOps(run.mem, run.acked, Keys(run.desired), upto - 1), d, Keys(run.desired));
    }
  }

  lemma NewAckIsClaimed(ws: seq<World>, ls: seq<Label>, k: nat, run: Run, diff: ResourceDiff)
    requires |ws| == |ls| + 1 && k < |ls| && AckedClaimed(ws, ls, k, run)
    requires !diff.action.DeleteRow? ==> Claims(ws[k], ls[k], diff.row)
    ensures AckedClaimed(ws, ls, k + 1, run.(acked := run.acked + [diff]))
  {
    AckedClaimsLast(ws, ls, k, k + 1, run);
    var next := k + 1;
    if !diff.action.DeleteRow? { assert ClaimedBefore(ws, ls, next, StateKey(diff.row)); }
  }

  lemma IdleHistoryKept(ws: seq<World>, ls: seq<Label>, k: nat)
    requires Behavior(ws, ls) && k < |ls| && History(ws, ls, k) && ws[k].run.None?
    ensures History(ws, ls, k + 1)
  {
    InvAlways(ws, ls, k);
    assert Step(ws[k], ls[k], ws[k + 1]);
    ClaimsLast(ws, ls, k, k + 1, ws[k].disk.resources);
  }

  lemma AckingHistoryKept(ws: seq<World>, ls: seq<Label>, k: nat)
    requires Behavior(ws, ls) && k < |ls| && History(ws, ls, k) && ws[k].run.Some?
    requires ls[k].Send? || ls[k].Adopt?
    ensures History(ws, ls, k + 1)
  {
    var run := ws[k].run.value;
    InvAlways(ws, ls, k);
    assert Step(ws[k], ls[k], ws[k + 1]);
    AckedClaimsLast(ws, ls, k, k + 1, run);
    if ls[k].ok {
      var diff := if ls[k].Send? then ls[k].diff else ResourceDiff(ModifyRow, ls[k].row);
      NewAckIsClaimed(ws, ls, k, run, diff);
    }
  }

  lemma WorkingHistoryKept(ws: seq<World>, ls: seq<Label>, k: nat)
    requires Behavior(ws, ls) && k < |ls| && History(ws, ls, k) && ws[k].run.Some?
    requires !ls[k].Send? && !ls[k].Adopt?
    ensures History(ws, ls, k + 1)
  {
    var w, l, run := ws[k], ls[k], ws[k].run.value;
    InvAlways(ws, ls, k);
    assert Step(w, l, ws[k + 1]);
    ClaimsLast(ws, ls, run.startedAt, k + 1, w.disk.resources);
    ClaimsLast(ws, ls, if run.phase.Recorded? then k else run.startedAt, k + 1, run.mem.resources);
    AckedClaimsLast(ws, ls, k, k + 1, run);
    match l
    case AnnounceCreates => AnnouncingKeepsOwnership(run.mem, run.plan, |run.plan|);
    case RecordResults => RecordingIsClaimed(ws, ls, k + 1, run, |run.acked|);
    case _ =>
  }

  lemma HistoryKept(ws: seq<World>, ls: seq<Label>, k: nat)
    requires Behavior(ws, ls) && k < |ls| && History(ws, ls, k)
    ensures History(ws, ls, k + 1)
  {
    if ws[k].run.None? {
      IdleHistoryKept(ws, ls, k);
    } else if ls[k].Send? || ls[k].Adopt? {
      AckingHistoryKept(ws, ls, k);
    } else {
      WorkingHistoryKept(ws, ls, k);
    }
  }

  lemma {:induction false} HistoryAlways(ws: seq<World>, ls: seq<Label>, k: nat)
    requires Behavior(ws, ls) && k < |ws|
    ensures History(ws, ls, k)
    decreases k
  {
    if k > 0 {
      HistoryAlways(ws, ls, k - 1);
      HistoryKept(ws, ls, k - 1);
    }
  }

  /**
   * Over every sequence of applies, crashes, failures and outside edits: a run deletes a row only
   * if an earlier run claimed that very row while declaring it, and not merely because its create
   * was announced; and the row is not declared now.
   */
  lemma DeletesAreEarned(ws: seq<World>, ls: seq<Label>, k: nat, row: RowId) returns (claim: nat)
    requires Behavior(ws, ls) && k < |ls| && ls[k].Send? && ls[k].diff == ResourceDiff(DeleteRow, row)
    ensures ws[k].run.Some? && claim < ws[k].run.value.startedAt < k && Claims(ws[claim], ls[claim], row)
    ensures row !in Ids(ws[k].run.value.desired)
    ensures StateKey(row) in ws[k].disk.resources && StateKey(row) !in ws[k].disk.pending
  {
    InvAlways(ws, ls, k);
    HistoryAlways(ws, ls, k);
    assert Step(ws[k], ls[k], ws[k + 1]);
    var run := ws[k].run.value;
    assert ClaimedBefore(ws, ls, run.startedAt, StateKey(row));
    var j, claimed :| 0 <= j < run.startedAt && j < |ls| && Claims(ws[j], ls[j], claimed) && StateKey(claimed) == StateKey(row);
    KeysAreInjective(claimed, row);
    claim := j;
  }

  /** Every create is sent only after its key is on disk, announced or owned. */
  lemma CreatesAreAnnounced(ws: seq<World>, ls: seq<Label>, k: nat, row: RowId)
    requires Behavior(ws, ls) && k < |ls| && ls[k].Send? && ls[k].diff == ResourceDiff(AddRow, row)
    ensures StateKey(row) in ws[k].disk.pending + ws[k].disk.resources
    ensures ws[k].run.Some? && row in Ids(ws[k].run.value.desired) && row !in Ids(Snapshot(ws[k].run.value.actual))
  {
    InvAlways(ws, ls, k);
    assert Step(ws[k], ls[k], ws[k + 1]);
  }

  // ---- What a run acts on ----

  ghost predicate ReadAt(ws: seq<World>, run: Run, ns: string, k: nat)
    requires ns in run.actual && k <= |ws|
  {
    exists j :: run.startedAt < j < k && run.actual[ns] == LiveIn(ws[j].live, ns)
  }

  ghost predicate PlannedAround(ls: seq<Label>, run: Run, k: nat)
    requires k <= |ls|
  {
    exists j :: run.startedAt < j < k && ls[j] == MakePlan(run.blocked)
  }

  /** Each namespace was read as it was live at some moment of the run, and the refused ones were planned around. */
  ghost predicate ActsOnWhatItSaw(ws: seq<World>, ls: seq<Label>, k: nat)
    requires |ws| == |ls| + 1 && k < |ws|
  {
    ws[k].run.Some? ==>
      var run := ws[k].run.value;
      && (forall ns :: ns in run.actual ==> ReadAt(ws, run, ns, k))
      && (run.phase in {Planned, Announcing, Applying, Recorded} ==> PlannedAround(ls, run, k))
  }

  lemma ReadsLast(ws: seq<World>, run: Run, k: nat)
    requires k < |ws| && forall ns :: ns in run.actual ==> ReadAt(ws, run, ns, k)
    ensures forall ns :: ns in run.actual ==> ReadAt(ws, run, ns, k + 1)
  {
    forall ns | ns in run.actual ensures ReadAt(ws, run, ns, k + 1) { assert ReadAt(ws, run, ns, k); }
  }

  lemma {:induction false} ActsOnWhatItSawAlways(ws: seq<World>, ls: seq<Label>, k: nat)
    requires Behavior(ws, ls) && k < |ws|
    ensures ActsOnWhatItSaw(ws, ls, k)
    decreases k
  {
    if k > 0 {
      var before, l, after := ws[k - 1], ls[k - 1], ws[k - 1 + 1];
      ActsOnWhatItSawAlways(ws, ls, k - 1);
      InvAlways(ws, ls, k - 1);
      assert Step(before, l, after);
      if before.run.Some? && after.run.Some? {
        ReadsLast(ws, before.run.value, k - 1);
        match l
        case ReadNamespace(ns) =>
          var run := after.run.value;
          assert ReadAt(ws, run, ns, k);
          forall other | other in run.actual ensures ReadAt(ws, run, other, k) {
            if other != ns { assert ReadAt(ws, before.run.value, other, k); }
          }
        case MakePlan(blocked) => assert PlannedAround(ls, after.run.value, k);
        case _ =>
      }
    }
  }

  /** A row that a run deletes was live when the run read it, and no API spec owned it. */
  lemma DeletedRowsWereSeen(ws: seq<World>, ls: seq<Label>, k: nat, row: RowId) returns (seen: nat)
    requires Behavior(ws, ls) && k < |ls| && ls[k].Send? && ls[k].diff == ResourceDiff(DeleteRow, row)
    ensures ws[k].run.Some? && ws[k].run.value.startedAt < seen < k
    ensures exists id :: id in ws[seen].live && ws[seen].live[id].id == row && !ws[seen].live[id].specOwned
  {
    InvAlways(ws, ls, k);
    ActsOnWhatItSawAlways(ws, ls, k);
    assert Step(ws[k], ls[k], ws[k + 1]);
    var run := ws[k].run.value;
    var a :| a in Snapshot(run.actual) && a.id == row && !a.specOwned;
    var ns :| ns in run.actual && a in run.actual[ns];
    assert ReadAt(ws, run, ns, k);
    seen :| run.startedAt < seen < k && run.actual[ns] == LiveIn(ws[seen].live, ns);
    var id :| id in ws[seen].live && id.namespace == ns && ws[seen].live[id] == a;
  }

  /** A row that a run takes over unchanged was live as it is declared, and was neither owned nor announced. */
  lemma AdoptedRowsMatched(ws: seq<World>, ls: seq<Label>, k: nat, row: RowId) returns (seen: nat)
    requires Behavior(ws, ls) && k < |ls| && ls[k].Adopt? && ls[k].row == row
    ensures ws[k].run.Some? && ws[k].run.value.startedAt < seen < k
    ensures exists id :: id in ws[seen].live && ws[seen].live[id].id == row && !ws[seen].live[id].specOwned
                         && ws[seen].live[id] in ws[k].run.value.desired
    ensures StateKey(row) !in ws[k].disk.resources + ws[k].disk.pending
  {
    InvAlways(ws, ls, k);
    ActsOnWhatItSawAlways(ws, ls, k);
    assert Step(ws[k], ls[k], ws[k + 1]);
    var run := ws[k].run.value;
    var a :| a in Snapshot(run.actual) && a in run.desired && a.id == row && !a.specOwned;
    var ns :| ns in run.actual && a in run.actual[ns];
    assert ReadAt(ws, run, ns, k);
    seen :| run.startedAt < seen < k && run.actual[ns] == LiveIn(ws[seen].live, ns);
    var id :| id in ws[seen].live && id.namespace == ns && ws[seen].live[id] == a;
  }

  /** A run that acts on a row has planned, and has not refused the row's namespace. */
  lemma RefusedNamespacesAreLeftAlone(ws: seq<World>, ls: seq<Label>, k: nat) returns (planned: nat)
    requires Behavior(ws, ls) && k < |ls| && (ls[k].Send? || ls[k].Adopt?)
    ensures ws[k].run.Some? && ws[k].run.value.startedAt < planned < k && ls[planned].MakePlan?
    ensures (if ls[k].Send? then ls[k].diff.row else ls[k].row).namespace !in ls[planned].blocked
  {
    ActsOnWhatItSawAlways(ws, ls, k);
    assert Step(ws[k], ls[k], ws[k + 1]);
    var run := ws[k].run.value;
    planned :| run.startedAt < planned < k && ls[planned] == MakePlan(run.blocked);
  }

  /** A row whose create was announced but never claimed is never deleted, in any run. */
  lemma AnnouncedOnlyIsNeverDeleted(ws: seq<World>, ls: seq<Label>, row: RowId)
    requires Behavior(ws, ls)
    requires forall j :: 0 <= j < |ls| ==> !Claims(ws[j], ls[j], row)
    ensures forall k :: 0 <= k < |ls| ==> !(ls[k].Send? && ls[k].diff == ResourceDiff(DeleteRow, row))
  {
    forall k | 0 <= k < |ls| && ls[k].Send? && ls[k].diff == ResourceDiff(DeleteRow, row) ensures false {
      var claim := DeletesAreEarned(ws, ls, k, row);
    }
  }

  /** At every moment the ledger on disk keeps owned and announced keys apart. */
  lemma DiskStaysDisjoint(ws: seq<World>, ls: seq<Label>, k: nat)
    requires Behavior(ws, ls) && k < |ws|
    ensures Disjoint(ws[k].disk)
  {
    InvAlways(ws, ls, k);
  }
}
