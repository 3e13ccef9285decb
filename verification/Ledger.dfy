/**
 * The ownership ledger kept in `.state/<env>.json`: the rows this repository owns, and the creates
 * it announced before sending them.
 *
 * Every `resources` entry carries the same marker value, so the map is modelled by its keys.
 */
module Ledger {
  import opened Wrappers
  import opened StateKeys

  /** One resource of a gateway document: who it is and what it says. */
  datatype Row = Row(id: RowId, body: string, specOwned: bool)

  /** A gateway document. The four per-kind lists are one set of rows tagged by kind. */
  type GatewayConfig = set<Row>

  datatype DiffAction = AddRow | ModifyRow | DeleteRow
  datatype ResourceDiff = ResourceDiff(action: DiffAction, row: RowId)
  datatype PendingCreateScope = SharedScope | ExclusiveScope | FullReplaceScope

  datatype State = State(resources: set<string>, pending: set<string>)

  function Keys(config: GatewayConfig): set<string> {
    set r | r in config :: StateKey(r.id)
  }

  /** The ledger's key sets never overlap: a key is owned, or announced, or neither. */
  predicate Disjoint(s: State) { s.resources !! s.pending }

  /** Loading and saving refuse a ledger holding a key nothing can parse. */
  predicate WellFormedKeys(s: State) {
    && (forall k | k in s.resources :: StateKeyNamespace(k).Some?)
    && (forall k | k in s.pending :: StateKeyNamespace(k).Some?)
  }

  // ---- Ledger steps as functions of the ledger ----

  /** Does reconciliation keep this announced create? */
  predicate KeepsPending(key: string, resources: set<string>, desired: set<string>,
                         actual: map<string, GatewayConfig>, scope: PendingCreateScope)
  {
    && key !in resources
    && StateKeyNamespace(key).Some?
    && (StateKeyNamespace(key).value in actual ==> !scope.FullReplaceScope? && key in desired)
  }

  function KeptPending(keys: set<string>, resources: set<string>, desired: set<string>,
                       actual: map<string, GatewayConfig>, scope: PendingCreateScope): set<string>
  {
    set k | k in keys && KeepsPending(k, resources, desired, actual, scope)
  }

  function PendingReconciled(s: State, desired: set<string>, actual: map<string, GatewayConfig>,
                             scope: PendingCreateScope): State
  {
    s.(pending := KeptPending(s.pending, s.resources, desired, actual, scope))
  }

  /** Is the forgotten create one an operator must be told about? */
  predicate Warns(key: string, resources: set<string>, desired: set<string>,
                  actual: map<string, GatewayConfig>, scope: PendingCreateScope)
  {
    && key !in resources
    && (StateKeyNamespace(key).Some? ==>
          var ns := StateKeyNamespace(key).value;
          ns in actual && !scope.FullReplaceScope? && key !in desired && key in Keys(actual[ns]))
  }

  datatype PendingFate = Kept | Forgotten | ForgottenWithWarning

  /** The decision for one announced create, case by case. */
  function Fate(key: string, resources: set<string>, desired: set<string>,
                actual: map<string, GatewayConfig>, scope: PendingCreateScope): (fate: PendingFate)
    ensures fate.Kept? <==> KeepsPending(key, resources, desired, actual, scope)
    ensures fate.ForgottenWithWarning? <==> Warns(key, resources, desired, actual, scope)
  {
    if key in resources then Forgotten
    else
      match StateKeyNamespace(key)
      case None => ForgottenWithWarning
      case Some(namespace) =>
        if namespace !in actual then Kept
        else if scope.FullReplaceScope? then Forgotten
        else if key in desired then Kept
        else if key in Keys(actual[namespace]) then ForgottenWithWarning
        else Forgotten
  }

  function Warned(keys: set<string>, resources: set<string>, desired: set<string>,
                  actual: map<string, GatewayConfig>, scope: PendingCreateScope): set<string>
  {
    set k | k in keys && Warns(k, resources, desired, actual, scope)
  }

  /** Does garbage collection keep this owned key? */
  predicate KeepsManaged(key: string, desired: set<string>, actual: map<string, GatewayConfig>) {
    StateKeyNamespace(key).Some? && StateKeyNamespace(key).value in actual ==>
      key in desired || key in Keys(actual[StateKeyNamespace(key).value])
  }

  function AbsentReconciled(s: State, desired: set<string>, actual: map<string, GatewayConfig>): State {
    s.(resources := set k | k in s.resources && KeepsManaged(k, desired, actual))
  }

  /** What a shared-mode run settles before it plans: its announcements, then what is provably gone. */
  function Reconciled(s: State, desired: GatewayConfig, actual: map<string, GatewayConfig>): State {
    AbsentReconciled(PendingReconciled(s, Keys(desired), actual, SharedScope), Keys(desired), actual)
  }

  function OpRecorded(s: State, op: ResourceDiff, desired: set<string>): State {
    var key := StateKey(op.row);
    match op.action
    case DeleteRow => State(s.resources - {key}, s.pending - {key})
    case AddRow => if key in desired then State(s.resources + {key}, s.pending - {key}) else s
    case ModifyRow => if key in desired then State(s.resources + {key}, s.pending - {key}) else s
  }

  function AnnouncedOne(s: State, diff: ResourceDiff): State {
    if diff.action.AddRow? && StateKey(diff.row) !in s.resources
    then s.(pending := s.pending + {StateKey(diff.row)})
    else s
  }

  /** The creates announced for the first `upto` diffs. */
  function Announced(s: State, diffs: seq<ResourceDiff>, upto: nat): State
    requires upto <= |diffs|
  {
    if upto == 0 then s else AnnouncedOne(Announced(s, diffs, upto - 1), diffs[upto - 1])
  }

  predicate Undeclared(diff: ResourceDiff, desired: set<string>) {
    diff.action.AddRow? && StateKey(diff.row) !in desired
  }

  /** Keys whose namespace lies outside `scope`; an unparseable key never does. */
  function Outside(keys: set<string>, scope: set<string>): set<string> {
    set k | k in keys && StateKeyNamespace(k).Some? && StateKeyNamespace(k).value !in scope
  }

  function DeclaredIn(config: GatewayConfig, scope: set<string>): set<string> {
    set r | r in config && r.id.namespace in scope :: StateKey(r.id)
  }

  /** Rewriting every namespace of `scope` from `config`. */
  function Rewritten(s: State, config: GatewayConfig, scope: set<string>): State {
    State(Outside(s.resources, scope) + DeclaredIn(config, scope), Outside(s.pending, scope))
  }

  // ---- The state file ----

  lemma DeclaredNext(config: GatewayConfig, todo: GatewayConfig, row: Row, scope: set<string>)
    requires todo <= config && row in todo
    ensures DeclaredIn(config - (todo - {row}), scope)
         == DeclaredIn(config - todo, scope) + (if row.id.namespace in scope then {StateKey(row.id)} else {})
  {
    assert config - (todo - {row}) == (config - todo) + {row};
  }

  lemma SizeOfDifference<T>(a: set<T>, b: set<T>)
    requires b <= a
    ensures |a| - |b| == |a - b|
  {
    assert a == b + (a - b);
  }

  class StateFile {
    var resources: set<string>
    var pendingCreates: set<string>

    ghost function Contents(): State reads this { State(resources, pendingCreates) }

    constructor (s: State)
      ensures Contents() == s
    {
      resources, pendingCreates := s.resources, s.pending;
    }

    method Record(config: GatewayConfig, scope: set<string>)
      modifies this
      ensures Contents() == Rewritten(old(Contents()), config, scope)
    {
      resources := Outside(resources, scope);
      pendingCreates := Outside(pendingCreates, scope);
      ghost var kept := resources;
      var todo := config;
      while todo != {}
        invariant todo <= config && pendingCreates == old(Outside(pendingCreates, scope))
        invariant kept == old(Outside(resources, scope))
        invariant resources == kept + DeclaredIn(config - todo, scope)
        decreases todo
      {
        var row :| row in todo;
        DeclaredNext(config, todo, row, scope);
        if row.id.namespace in scope {
          resources := resources + {StateKey(row.id)};
        }
        todo := todo - {row};
      }
      assert config - todo == config;
    }

    /** After an atomic restore of `namespace`, its entries are exactly what was declared there. */
    method RecordFullReplace(namespace: string, desired: GatewayConfig)
      modifies this
      ensures Contents() == Rewritten(old(Contents()), desired, {namespace})
    {
      Record(desired, {namespace});
    }

    method RecordOp(op: ResourceDiff, desired: set<string>)
      modifies this
      ensures Contents() == OpRecorded(old(Contents()), op, desired)
    {
      var key := StateKey(op.row);
      match op.action
      case DeleteRow =>
        resources := resources - {key};
        pendingCreates := pendingCreates - {key};
      case AddRow =>
        if key in desired {
          resources := resources + {key};
          pendingCreates := pendingCreates - {key};
        }
      case ModifyRow =>
        if key in desired {
          resources := resources + {key};
          pendingCreates := pendingCreates - {key};
        }
    }

    method AnnounceOne(diff: ResourceDiff) returns (isNew: bool)
      modifies this`pendingCreates
      ensures Contents() == AnnouncedOne(old(Contents()), diff)
      ensures |pendingCreates| == |old(pendingCreates)| + if isNew then 1 else 0
    {
      var key := StateKey(diff.row);
      isNew := diff.action.AddRow? && key !in resources && key !in pendingCreates;
      if isNew {
        pendingCreates := pendingCreates + {key};
      } else {
        assert key in pendingCreates ==> pendingCreates + {key} == pendingCreates;
      }
    }

    /** Announce every create; stops with an error at a create that is not declared. */
    method ReserveAdds(diffs: seq<ResourceDiff>, desired: set<string>) returns (reserved: Result<nat, nat>)
      modifies this
      ensures
        var upto := if reserved.Ok? then |diffs| else reserved.error;
        && upto <= |diffs| && Contents() == Announced(old(Contents()), diffs, upto)
        && (forall i :: 0 <= i < upto && diffs[i].action.AddRow? ==> StateKey(diffs[i].row) in desired)
      ensures reserved.Ok? ==> |pendingCreates| == |old(pendingCreates)| + reserved.value
      ensures reserved.Err? ==>
                && reserved.error < |diffs| && diffs[reserved.error].action.AddRow?
                && StateKey(diffs[reserved.error].row) !in desired
    {
      var count: nat := 0;
      var i := 0;
      while i < |diffs| && !Undeclared(diffs[i], desired)
        invariant i <= |diffs| && Contents() == Announced(old(Contents()), diffs, i)
        invariant forall j :: 0 <= j < i ==> !Undeclared(diffs[j], desired)
        invariant |pendingCreates| == |old(pendingCreates)| + count
      {
        var isNew := AnnounceOne(diffs[i]);
        count := if isNew then count + 1 else count;
        i := i + 1;
      }
      reserved := if i == |diffs| then Ok(count) else Err(i);
    }

    method SettlePending(fate: string -> PendingFate) returns (forgotten: nat, warned: set<string>)
      modifies this`pendingCreates
      ensures pendingCreates == set k | k in old(pendingCreates) && fate(k).Kept?
      ensures forgotten == |old(pendingCreates) - pendingCreates|
      ensures warned == set k | k in old(pendingCreates) && fate(k).ForgottenWithWarning?
    {
      var todo := pendingCreates;
      forgotten, warned := 0, {};
      while todo != {}
        invariant todo <= pendingCreates <= old(pendingCreates)
        invariant forall k :: k in old(pendingCreates) && k !in todo ==> (k in pendingCreates <==> fate(k).Kept?)
        invariant forgotten + |pendingCreates| == |old(pendingCreates)|
        invariant warned <= old(pendingCreates) - todo
        invariant forall k :: k in old(pendingCreates) && k !in todo ==> (k in warned <==> fate(k).ForgottenWithWarning?)
        decreases todo
      {
        var key :| key in todo;
        todo := todo - {key};
        var outcome := fate(key);
        if !outcome.Kept? {
          pendingCreates := pendingCreates - {key};
          forgotten := forgotten + 1;
        }
        if outcome.ForgottenWithWarning? {
          warned := warned + {key};
        }
      }
      SizeOfDifference(old(pendingCreates), pendingCreates);
    }

    /** Returns how many announcements were dropped, and those whose row may be orphaned. */
    method ReconcilePendingCreates(desired: GatewayConfig, actual: map<string, GatewayConfig>, scope: PendingCreateScope)
      returns (forgotten: nat, warned: set<string>)
      modifies this
      ensures Contents() == PendingReconciled(old(Contents()), Keys(desired), actual, scope)
      ensures forgotten == |old(pendingCreates) - pendingCreates|
      ensures warned == Warned(old(pendingCreates), resources, Keys(desired), actual, scope)
    {
      var owned, desiredKeys := resources, Keys(desired);
      forgotten, warned := SettlePending(k => Fate(k, owned, desiredKeys, actual, scope));
    }

    /** Returns how many owned keys were dropped as provably gone. */
    method ReconcileAbsentManagedResources(desired: GatewayConfig, actual: map<string, GatewayConfig>)
      returns (dropped: nat)
      modifies this
      ensures Contents() == AbsentReconciled(old(Contents()), Keys(desired), actual)
      ensures dropped == |old(resources) - resources|
    {
      var kept := AbsentReconciled(State(resources, pendingCreates), Keys(desired), actual).resources;
      SizeOfDifference(resources, kept);
      dropped := |resources| - |kept|;
      resources := kept;
    }
  }

  // ---- What every ledger step keeps ----

  lemma ReconciliationIsIdempotent(s: State, desired: set<string>, actual: map<string, GatewayConfig>,
                                   scope: PendingCreateScope)
    ensures
      var once := PendingReconciled(s, desired, actual, scope);
      PendingReconciled(once, desired, actual, scope) == once
  {}

  /**
   * After reconciliation nothing is both owned and announced, and an announced create in a
   * namespace that was read is still declared (none is left there under a full replacement).
   */
  lemma ReconciliationSettles(s: State, desired: set<string>, actual: map<string, GatewayConfig>,
                              scope: PendingCreateScope, key: string)
    ensures
      var after := PendingReconciled(s, desired, actual, scope);
      && Disjoint(after) && after.resources == s.resources
      && (key in after.pending <==>
            && key in s.pending && key !in s.resources && StateKeyNamespace(key).Some?
            && (StateKeyNamespace(key).value in actual ==> key in desired && !scope.FullReplaceScope?))
  {}

  /** The key names a row of the configuration. */
  ghost predicate Names(config: GatewayConfig, key: string) { exists r :: r in config && StateKey(r.id) == key }

  /**
   * Settling the ledger against what was read keeps an owned key unless its namespace was read and it is
   * neither declared nor live, and an announced one if it is not owned, and declared if its namespace was read.
   */
  lemma SettlesExactly(s: State, desired: GatewayConfig, actual: map<string, GatewayConfig>, key: string)
    ensures
      var after, namespace := Reconciled(s, desired, actual), StateKeyNamespace(key);
      && (key in after.resources <==>
            && key in s.resources
            && (namespace.Some? && namespace.value in actual ==> Names(desired, key) || Names(actual[namespace.value], key)))
      && (key in after.pending <==>
            && key in s.pending && key !in s.resources && namespace.Some?
            && (namespace.value in actual ==> Names(desired, key)))
  {}

  /** One change of the ledger. */
  datatype LedgerStep =
    | ReconcilePending(desired: set<string>, actual: map<string, GatewayConfig>, scope: PendingCreateScope)
    | ReconcileAbsent(desired: set<string>, actual: map<string, GatewayConfig>)
    | Announce(diffs: seq<ResourceDiff>)
    | RecordOne(op: ResourceDiff, desired: set<string>)
    | Rewrite(config: GatewayConfig, namespaces: set<string>)

  function Apply(s: State, step: LedgerStep): State {
    match step
    case ReconcilePending(desired, actual, scope) => PendingReconciled(s, desired, actual, scope)
    case ReconcileAbsent(desired, actual) => AbsentReconciled(s, desired, actual)
    case Announce(diffs) => Announced(s, diffs, |diffs|)
    case RecordOne(op, desired) => OpRecorded(s, op, desired)
    case Rewrite(config, namespaces) => Rewritten(s, config, namespaces)
  }

  function Run(s: State, steps: seq<LedgerStep>): State {
    if steps == [] then s else Apply(Run(s, steps[..|steps| - 1]), steps[|steps| - 1])
  }

  /** Announcing leaves ownership alone and covers each create. */
  ghost predicate Covers(s: State, after: State, diffs: seq<ResourceDiff>, upto: nat)
    requires upto <= |diffs|
  {
    && after.resources == s.resources && s.pending <= after.pending
    && (Disjoint(s) ==> Disjoint(after))
    && (forall i :: 0 <= i < upto && diffs[i].action.AddRow? ==>
          StateKey(diffs[i].row) in after.pending + after.resources)
  }

  lemma CoversNext(s: State, diffs: seq<ResourceDiff>, upto: nat)
    requires 0 < upto <= |diffs| && Covers(s, Announced(s, diffs, upto - 1), diffs, upto - 1)
    ensures Covers(s, Announced(s, diffs, upto), diffs, upto)
  {
    var before, after := Announced(s, diffs, upto - 1), Announced(s, diffs, upto);
    assert before.pending <= after.pending && before.resources == after.resources;
    forall i | 0 <= i < upto && diffs[i].action.AddRow?
      ensures StateKey(diffs[i].row) in after.pending + after.resources
    {
      if i < upto - 1 { assert StateKey(diffs[i].row) in before.pending + before.resources; }
    }
  }

  lemma {:induction false} AnnouncingKeepsOwnership(s: State, diffs: seq<ResourceDiff>, upto: nat)
    requires upto <= |diffs|
    ensures Covers(s, Announced(s, diffs, upto), diffs, upto)
    decreases upto
  {
    if upto > 0 {
      AnnouncingKeepsOwnership(s, diffs, upto - 1);
      CoversNext(s, diffs, upto);
    }
  }

  lemma DeclaredAreInScope(config: GatewayConfig, namespaces: set<string>, key: string)
    requires key in DeclaredIn(config, namespaces)
    ensures key !in Outside({key}, namespaces)
  {
    var row :| row in config && row.id.namespace in namespaces && key == StateKey(row.id);
    KeyNamespace(row.id);
  }

  lemma StepKeepsDisjoint(s: State, step: LedgerStep)
    requires Disjoint(s)
    ensures Disjoint(Apply(s, step))
  {
    match step
    case Announce(diffs) => AnnouncingKeepsOwnership(s, diffs, |diffs|);
    case Rewrite(config, namespaces) =>
      forall key | key in DeclaredIn(config, namespaces) ensures key !in Outside(s.pending, namespaces) {
        DeclaredAreInScope(config, namespaces, key);
        assert key in Outside(s.pending, namespaces) ==> key in Outside({key}, namespaces);
      }
    case _ =>
  }

  /** No sequence of ledger changes makes an owned key an announced one, or the other way around. */
  lemma {:induction false} RunKeepsDisjoint(s: State, steps: seq<LedgerStep>)
    requires Disjoint(s)
    ensures Disjoint(Run(s, steps))
    decreases |steps|
  {
    if steps != [] {
      RunKeepsDisjoint(s, steps[..|steps| - 1]);
      StepKeepsDisjoint(Run(s, steps[..|steps| - 1]), steps[|steps| - 1]);
    }
  }

  /** The configuration declares the row that `key` names, in one of the namespaces. */
  ghost predicate Declares(config: GatewayConfig, namespaces: set<string>, key: string) {
    exists r :: r in config && r.id.namespace in namespaces && StateKey(r.id) == key
  }

  /** The grounds on which a step may drop an owned key. */
  ghost predicate MayDrop(step: LedgerStep, key: string) {
    match step
    case ReconcilePending(_, _, _) => false
    case ReconcileAbsent(desired, actual) =>
      && StateKeyNamespace(key).Some? && StateKeyNamespace(key).value in actual
      && key !in desired
      && !exists r :: r in actual[StateKeyNamespace(key).value] && StateKey(r.id) == key
    case Announce(_) => false
    case RecordOne(op, _) => op.action.DeleteRow? && key == StateKey(op.row)
    case Rewrite(config, namespaces) =>
      && (StateKeyNamespace(key).None? || StateKeyNamespace(key).value in namespaces)
      && !Declares(config, namespaces, key)
  }

  lemma StepDropsOnlyWithGrounds(s: State, step: LedgerStep, key: string)
    requires key in s.resources
    ensures key !in Apply(s, step).resources <==> MayDrop(step, key)
  {
    match step
    case Announce(diffs) => AnnouncingKeepsOwnership(s, diffs, |diffs|);
    case _ =>
  }

  /**
   * Over any sequence of ledger changes, an owned key that is lost was lost at a successful
   * delete, a rewrite of its namespace, or on proof that it is neither declared nor live.
   */
  lemma {:induction false} OwnershipIsLostOnlyWithGrounds(s: State, steps: seq<LedgerStep>, key: string)
    returns (at: nat)
    requires key in s.resources && key !in Run(s, steps).resources
    ensures at < |steps| && MayDrop(steps[at], key)
    ensures key in Run(s, steps[..at]).resources && key !in Run(s, steps[..at + 1]).resources
    decreases |steps|
  {
    var last := |steps| - 1;
    if key in Run(s, steps[..last]).resources {
      at := last;
      StepDropsOnlyWithGrounds(Run(s, steps[..last]), steps[last], key);
      assert steps[..at + 1] == steps;
    } else {
      at := OwnershipIsLostOnlyWithGrounds(s, steps[..last], key);
      assert steps[..last][..at] == steps[..at] && steps[..last][..at + 1] == steps[..at + 1];
    }
  }

  /** An owned key was recorded from a write of a declared row, or a rewrite declaring it. */
  lemma StepOwnsOnlyDeclared(s: State, step: LedgerStep, key: string)
    requires key !in s.resources
    ensures key in Apply(s, step).resources <==>
      || (step.RecordOne? && !step.op.action.DeleteRow? && key == StateKey(step.op.row) && key in step.desired)
      || (step.Rewrite? && Declares(step.config, step.namespaces, key))
  {
    match step
    case Announce(diffs) => AnnouncingKeepsOwnership(s, diffs, |diffs|);
    case _ =>
  }

  // ---- What becomes of announcements ----

  /** The grounds on which a step may forget that a create was announced. */
  predicate MayForget(s: State, step: LedgerStep, key: string) {
    match step
    case ReconcilePending(desired, actual, scope) =>
      || key in s.resources
      || StateKeyNamespace(key).None?
      || (StateKeyNamespace(key).value in actual && (scope.FullReplaceScope? || key !in desired))
    case ReconcileAbsent(_, _) => false
    case Announce(_) => false
    case RecordOne(op, desired) => key == StateKey(op.row) && (op.action.DeleteRow? || key in desired)
    case Rewrite(_, namespaces) => StateKeyNamespace(key).None? || StateKeyNamespace(key).value in namespaces
  }

  /** A create of the row that `key` names is among the first `upto` diffs. */
  ghost predicate Creates(diffs: seq<ResourceDiff>, upto: nat, key: string)
    requires upto <= |diffs|
  {
    exists i :: 0 <= i < upto && diffs[i].action.AddRow? && StateKey(diffs[i].row) == key
  }

  lemma {:induction false} AnnouncedExactly(s: State, diffs: seq<ResourceDiff>, upto: nat, key: string)
    requires upto <= |diffs|
    ensures Announced(s, diffs, upto).resources == s.resources
    ensures key in Announced(s, diffs, upto).pending
            <==> key in s.pending || (key !in s.resources && Creates(diffs, upto, key))
    decreases upto
  {
    if upto > 0 { AnnouncedExactly(s, diffs, upto - 1, key); }
  }

  /** An announcement is forgotten exactly on the stated grounds. */
  lemma StepForgetsOnlyWithGrounds(s: State, step: LedgerStep, key: string)
    requires key in s.pending
    ensures key !in Apply(s, step).pending <==> MayForget(s, step, key)
  {
    match step
    case Announce(diffs) => AnnouncedExactly(s, diffs, |diffs|, key);
    case _ =>
  }

  /** A key becomes announced exactly by a create of a row that is not owned. */
  lemma StepAnnouncesOnlyCreates(s: State, step: LedgerStep, key: string)
    requires key !in s.pending
    ensures key in Apply(s, step).pending
            <==> step.Announce? && key !in s.resources && Creates(step.diffs, |step.diffs|, key)
  {
    match step
    case Announce(diffs) => AnnouncedExactly(s, diffs, |diffs|, key);
    case _ =>
  }

  /** Over any sequence of ledger changes, a lost announcement was lost at a step with grounds. */
  lemma {:induction false} AnnouncementIsLostOnlyWithGrounds(s: State, steps: seq<LedgerStep>, key: string)
    returns (at: nat)
    requires key in s.pending && key !in Run(s, steps).pending
    ensures at < |steps| && MayForget(Run(s, steps[..at]), steps[at], key)
    ensures key in Run(s, steps[..at]).pending && key !in Run(s, steps[..at + 1]).pending
    decreases |steps|
  {
    var last := |steps| - 1;
    if key in Run(s, steps[..last]).pending {
      at := last;
      StepForgetsOnlyWithGrounds(Run(s, steps[..last]), steps[last], key);
      assert steps[..at + 1] == steps;
    } else {
      at := AnnouncementIsLostOnlyWithGrounds(s, steps[..last], key);
      assert steps[..last][..at] == steps[..at] && steps[..last][..at + 1] == steps[..at + 1];
    }
  }

  /**
   * An operator is told of a forgotten announcement exactly when nothing can parse it, or when its row
   * is live where it was read, is not declared, and is not replaced.
   */
  lemma WarnedExactly(s: State, desired: set<string>, actual: map<string, GatewayConfig>, scope: PendingCreateScope, key: string)
    ensures
      key in Warned(s.pending, s.resources, desired, actual, scope) <==>
        && key in s.pending && key !in s.resources
        && (|| StateKeyNamespace(key).None?
            || (&& StateKeyNamespace(key).value in actual && !scope.FullReplaceScope? && key !in desired
                && exists r :: r in actual[StateKeyNamespace(key).value] && StateKey(r.id) == key))
  {}
}
