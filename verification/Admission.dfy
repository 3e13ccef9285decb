/**
 * Admitting a batch of values against a budget: each new value is checked at its worst case before
 * it is built and charged what it holds, and one refusal refuses the batch.
 */
module Admission {
  import opened FirstSeen
  import opened MachineIntegers
  import opened Wrappers

  const REGISTRATION_BUDGET := 128 * 1024 * 1024
  const ENTRY_OVERHEAD_BYTES := 256

  function SatAdd(a: nat, b: nat): nat { if a + b > USIZE_MAX then USIZE_MAX else a + b }
  function SatSub(a: nat, b: nat): nat { if a < b then 0 else a - b }

  datatype Refusal = ShortSecret | ShortSpelling | BudgetExceeded

  /** What admission asks of a value: is it long enough, can it be protected, what may and does it cost. */
  datatype Policy<!V> = Policy(tooShort: V -> bool, protectable: V -> bool, worst: V -> nat, cost: V -> nat)

  /** The new values staged so far, in order, and what they are charged. */
  datatype Staging<V> = Staging(pending: seq<V>, charged: nat)

  function StagingLimit(available: nat): nat { available / ENTRY_OVERHEAD_BYTES }

  /** One candidate after the values staged so far. */
  function StageOne<V(==)>(p: Policy<V>, known: set<V>, available: nat, s: Staging<V>, v: V): Result<Staging<V>, Refusal> {
    if v in known || v in s.pending then Ok(s)
    else if |s.pending| >= StagingLimit(available) || p.worst(v) > SatSub(available, s.charged)
    then Err(BudgetExceeded)
    else if !p.protectable(v) then Err(ShortSpelling)
    else Ok(Staging(s.pending + [v], SatAdd(s.charged, p.cost(v))))
  }

  function Staged<V(==)>(p: Policy<V>, known: set<V>, available: nat, batch: seq<V>, upto: nat): Result<Staging<V>, Refusal>
    requires upto <= |batch|
    decreases upto
  {
    if upto == 0 then Ok(Staging([], 0))
    else
      match Staged(p, known, available, batch, upto - 1)
      case Err(r) => Err(r)
      case Ok(s) => StageOne(p, known, available, s, batch[upto - 1])
  }

  /** The values a batch adds, with their charge, or why it is refused. */
  function Admitted<V(==)>(p: Policy<V>, known: set<V>, used: nat, batch: seq<V>): Result<Staging<V>, Refusal> {
    var available := SatSub(REGISTRATION_BUDGET, used);
    if exists i :: 0 <= i < |batch| && p.tooShort(batch[i]) then Err(ShortSecret)
    else
      match Staged(p, known, available, batch, |batch|)
      case Err(r) => Err(r)
      case Ok(s) => if s.charged > available then Err(BudgetExceeded) else Ok(s)
  }

  lemma {:induction false} StagedStaysRefused<V>(p: Policy<V>, known: set<V>, available: nat, batch: seq<V>, i: nat, upto: nat)
    requires i <= upto <= |batch| && Staged(p, known, available, batch, i).Err?
    ensures Staged(p, known, available, batch, upto) == Staged(p, known, available, batch, i)
    decreases upto
  {
    if i < upto { StagedStaysRefused(p, known, available, batch, i, upto - 1); }
  }

  /** The admission loops. */
  method Admit<V(==)>(p: Policy<V>, known: set<V>, used: nat, batch: seq<V>) returns (r: Result<Staging<V>, Refusal>)
    ensures r == Admitted(p, known, used, batch)
  {
    for i := 0 to |batch|
      invariant forall k :: 0 <= k < i ==> !p.tooShort(batch[k])
    {
      if p.tooShort(batch[i]) {
        return Err(ShortSecret);
      }
    }
    var available := SatSub(REGISTRATION_BUDGET, used);
    var seen: set<V> := {};
    var s: Staging<V> := Staging([], 0);
    for i := 0 to |batch|
      invariant Staged(p, known, available, batch, i) == Ok(s)
      invariant forall v :: v in seen <==> v in s.pending
    {
      var v := batch[i];
      assert Staged(p, known, available, batch, i + 1) == StageOne(p, known, available, s, v);
      if v in known || v in seen {
        continue;
      }
      if |s.pending| >= StagingLimit(available) || p.worst(v) > SatSub(available, s.charged) {
        StagedStaysRefused(p, known, available, batch, i + 1, |batch|);
        return Err(BudgetExceeded);
      }
      if !p.protectable(v) {
        StagedStaysRefused(p, known, available, batch, i + 1, |batch|);
        return Err(ShortSpelling);
      }
      seen := seen + {v};
      s := Staging(s.pending + [v], SatAdd(s.charged, p.cost(v)));
    }
    r := if s.charged > available then Err(BudgetExceeded) else Ok(s);
  }

  // ---- Charges ----

  function ChargeOf<V>(values: seq<V>, cost: V -> nat, upto: nat): nat
    requires upto <= |values|
  {
    if upto == 0 then 0 else ChargeOf(values, cost, upto - 1) + cost(values[upto - 1])
  }

  lemma {:induction false} ChargeOfPrefix<V>(values: seq<V>, last: V, cost: V -> nat, upto: nat)
    requires upto <= |values|
    ensures ChargeOf(values + [last], cost, upto) == ChargeOf(values, cost, upto)
  {
    if upto > 0 { ChargeOfPrefix(values, last, cost, upto - 1); }
  }

  /** The staged values are new, distinct, protectable, and charged the sum of what they cost. */
  ghost predicate SoundStaging<V>(p: Policy<V>, known: set<V>, s: Staging<V>) {
    && (forall i :: 0 <= i < |s.pending| ==> s.pending[i] !in known && p.protectable(s.pending[i]))
    && (forall i, j :: 0 <= i < j < |s.pending| ==> s.pending[i] != s.pending[j])
    && s.charged == (var total := ChargeOf(s.pending, p.cost, |s.pending|);
                     if total > USIZE_MAX then USIZE_MAX else total)
  }

  ghost predicate Covers<V>(known: set<V>, s: Staging<V>, batch: seq<V>, upto: nat)
    requires upto <= |batch|
  {
    && (forall i :: 0 <= i < upto ==> batch[i] in known || batch[i] in s.pending)
    && (forall i :: 0 <= i < |s.pending| ==> exists k :: 0 <= k < upto && batch[k] == s.pending[i])
  }

  lemma StageOneIsSound<V>(p: Policy<V>, known: set<V>, available: nat, s: Staging<V>, v: V)
    requires SoundStaging(p, known, s) && StageOne(p, known, available, s, v).Ok?
    ensures SoundStaging(p, known, StageOne(p, known, available, s, v).value)
  {
    ChargeOfPrefix(s.pending, v, p.cost, |s.pending|);
  }

  lemma StageOneCovers<V>(p: Policy<V>, known: set<V>, available: nat, s: Staging<V>, batch: seq<V>, i: nat)
    requires i < |batch| && Covers(known, s, batch, i)
    requires StageOne(p, known, available, s, batch[i]).Ok?
    ensures Covers(known, StageOne(p, known, available, s, batch[i]).value, batch, i + 1)
  {
    var after := StageOne(p, known, available, s, batch[i]).value;
    forall k | 0 <= k < i + 1 ensures batch[k] in known || batch[k] in after.pending {
      if after != s && k == i { assert after.pending[|s.pending|] == batch[i]; }
      if after != s && k < i && batch[k] in s.pending {
        var j :| 0 <= j < |s.pending| && s.pending[j] == batch[k];
        assert after.pending[j] == batch[k];
      }
    }
    forall j | 0 <= j < |after.pending| ensures exists k :: 0 <= k < i + 1 && batch[k] == after.pending[j] {
      if j < |s.pending| { assert after.pending[j] == s.pending[j]; }
    }
  }

  lemma {:induction false} StagedIsSound<V>(p: Policy<V>, known: set<V>, available: nat, batch: seq<V>, upto: nat)
    requires upto <= |batch| && Staged(p, known, available, batch, upto).Ok?
    ensures SoundStaging(p, known, Staged(p, known, available, batch, upto).value)
    ensures Covers(known, Staged(p, known, available, batch, upto).value, batch, upto)
    decreases upto
  {
    if upto > 0 {
      StagedIsSound(p, known, available, batch, upto - 1);
      var s := Staged(p, known, available, batch, upto - 1).value;
      StageOneIsSound(p, known, available, s, batch[upto - 1]);
      StageOneCovers(p, known, available, s, batch, upto - 1);
    }
  }

  /** With an honest worst case the charge fits what is available, so the last check never refuses. */
  lemma {:induction false} StagedFits<V>(p: Policy<V>, known: set<V>, available: nat, batch: seq<V>, upto: nat)
    requires upto <= |batch| && available <= REGISTRATION_BUDGET
    requires forall i :: 0 <= i < |batch| ==> p.cost(batch[i]) <= p.worst(batch[i])
    ensures Staged(p, known, available, batch, upto).Ok? ==>
              Staged(p, known, available, batch, upto).value.charged <= available
    decreases upto
  {
    if upto > 0 { StagedFits(p, known, available, batch, upto - 1); }
  }

  // ---- When a batch is admitted ----

  /** The `i`-th candidate is not registered and has not come earlier in the batch. */
  ghost predicate IsNew<V>(known: set<V>, batch: seq<V>, i: nat)
    requires i < |batch|
  {
    batch[i] !in known && batch[i] !in batch[..i]
  }

  /** The new values among the first `upto` candidates. */
  ghost function NewAmong<V>(known: set<V>, batch: seq<V>, upto: nat): seq<V>
    requires upto <= |batch|
  {
    if upto == 0 then []
    else if IsNew(known, batch, upto - 1) then NewAmong(known, batch, upto - 1) + [batch[upto - 1]]
    else NewAmong(known, batch, upto - 1)
  }

  ghost function ChargeBefore<V>(p: Policy<V>, known: set<V>, batch: seq<V>, upto: nat): nat
    requires upto <= |batch|
  {
    var values := NewAmong(known, batch, upto);
    ChargeOf(values, p.cost, |values|)
  }

  /**
   * The budget has room for the `i`-th candidate: for its entry at 256 bytes each, and for its worst case
   * besides what the new values before it are charged.
   */
  ghost predicate HasRoom<V>(p: Policy<V>, known: set<V>, available: nat, batch: seq<V>, i: nat)
    requires i < |batch|
  {
    && (|NewAmong(known, batch, i)| + 1) * 256 <= available
    && (p.worst(batch[i]) == 0 || ChargeBefore(p, known, batch, i) + p.worst(batch[i]) <= available)
  }

  ghost predicate CanStage<V>(p: Policy<V>, known: set<V>, available: nat, batch: seq<V>, i: nat)
    requires i < |batch|
  {
    IsNew(known, batch, i) ==> HasRoom(p, known, available, batch, i) && p.protectable(batch[i])
  }

  lemma {:induction false} NewAmongMember<V>(known: set<V>, batch: seq<V>, upto: nat, v: V)
    requires upto <= |batch|
    ensures v in NewAmong(known, batch, upto) <==> v !in known && v in batch[..upto]
    decreases upto
  {
    if upto > 0 {
      NewAmongMember(known, batch, upto - 1, v);
      assert batch[..upto] == batch[..upto - 1] + [batch[upto - 1]];
    }
  }

  /** Staging has got as far as the new values, at what they are charged. */
  ghost predicate StagesNew<V>(p: Policy<V>, known: set<V>, s: Staging<V>, batch: seq<V>, upto: nat)
    requires upto <= |batch|
  {
    && s.pending == NewAmong(known, batch, upto)
    && s.charged == if ChargeBefore(p, known, batch, upto) > USIZE_MAX then USIZE_MAX
                    else ChargeBefore(p, known, batch, upto)
  }

  lemma StageOneExactly<V>(p: Policy<V>, known: set<V>, available: nat, s: Staging<V>, batch: seq<V>, i: nat)
    requires i < |batch| && available <= REGISTRATION_BUDGET && StagesNew(p, known, s, batch, i)
    ensures StageOne(p, known, available, s, batch[i]).Ok? <==> CanStage(p, known, available, batch, i)
    ensures StageOne(p, known, available, s, batch[i]).Ok? ==>
              StagesNew(p, known, StageOne(p, known, available, s, batch[i]).value, batch, i + 1)
    ensures StageOne(p, known, available, s, batch[i]) == Err(ShortSpelling)
            <==> IsNew(known, batch, i) && HasRoom(p, known, available, batch, i) && !p.protectable(batch[i])
  {
    NewAmongMember(known, batch, i, batch[i]);
    ChargeOfPrefix(s.pending, batch[i], p.cost, |s.pending|);
  }

  /** The `i`-th candidate is the first that cannot be staged: it has room, and cannot be protected. */
  ghost predicate StopsAt<V>(p: Policy<V>, known: set<V>, available: nat, batch: seq<V>, i: nat)
    requires i < |batch|
  {
    && (forall j :: 0 <= j < i ==> CanStage(p, known, available, batch, j))
    && IsNew(known, batch, i) && HasRoom(p, known, available, batch, i) && !p.protectable(batch[i])
  }

  ghost predicate SpellingStops<V>(p: Policy<V>, known: set<V>, available: nat, batch: seq<V>, upto: nat)
    requires upto <= |batch|
  {
    exists i :: 0 <= i < upto && StopsAt(p, known, available, batch, i)
  }

  lemma SpellingStopsStep<V>(p: Policy<V>, known: set<V>, available: nat, batch: seq<V>, upto: nat)
    requires upto < |batch|
    ensures SpellingStops(p, known, available, batch, upto + 1)
            <==> SpellingStops(p, known, available, batch, upto) || StopsAt(p, known, available, batch, upto)
  {
    if SpellingStops(p, known, available, batch, upto) {
      var i :| 0 <= i < upto && StopsAt(p, known, available, batch, i);
      assert StopsAt(p, known, available, batch, i);
    }
  }

  lemma {:induction false} StagedExactly<V>(p: Policy<V>, known: set<V>, available: nat, batch: seq<V>, upto: nat)
    requires upto <= |batch| && available <= REGISTRATION_BUDGET
    ensures Staged(p, known, available, batch, upto).Ok?
            <==> forall i :: 0 <= i < upto ==> CanStage(p, known, available, batch, i)
    ensures Staged(p, known, available, batch, upto).Ok? ==>
              StagesNew(p, known, Staged(p, known, available, batch, upto).value, batch, upto)
    ensures Staged(p, known, available, batch, upto) == Err(ShortSpelling) <==> SpellingStops(p, known, available, batch, upto)
    ensures Staged(p, known, available, batch, upto) != Err(ShortSecret)
    decreases upto
  {
    if upto > 0 {
      StagedExactly(p, known, available, batch, upto - 1);
      SpellingStopsStep(p, known, available, batch, upto - 1);
      var before := Staged(p, known, available, batch, upto - 1);
      if before.Ok? { StageOneExactly(p, known, available, before.value, batch, upto - 1); }
    }
  }

  ghost predicate AnyShort<V>(p: Policy<V>, batch: seq<V>) { exists i :: 0 <= i < |batch| && p.tooShort(batch[i]) }

  ghost predicate AllStage<V>(p: Policy<V>, known: set<V>, available: nat, batch: seq<V>) {
    forall i :: 0 <= i < |batch| ==> CanStage(p, known, available, batch, i)
  }

  /**
   * A batch is admitted exactly when no candidate is too short, the budget has room for each new value
   * in turn and for all they are charged, and each of them can be protected; and a refusal names the
   * first of these that failed.
   */
  lemma AdmittedExactly<V>(p: Policy<V>, known: set<V>, used: nat, batch: seq<V>)
    ensures
      var available := if used <= 134217728 then 134217728 - used else 0;
      && (Admitted(p, known, used, batch).Ok? <==>
            && !AnyShort(p, batch) && AllStage(p, known, available, batch)
            && ChargeBefore(p, known, batch, |batch|) <= available)
      && (Admitted(p, known, used, batch) == Err(ShortSecret) <==> AnyShort(p, batch))
      && (Admitted(p, known, used, batch) == Err(ShortSpelling) <==>
            !AnyShort(p, batch) && SpellingStops(p, known, available, batch, |batch|))
  {
    StagedExactly(p, known, SatSub(REGISTRATION_BUDGET, used), batch, |batch|);
  }

  lemma AdmittedWhen<V>(p: Policy<V>, known: set<V>, used: nat, available: nat, batch: seq<V>, short: bool, hold: bool)
    requires used + available == 134217728 && (AnyShort(p, batch) <==> short)
    requires !short ==> (AllStage(p, known, available, batch) <==> hold)
    ensures Admitted(p, known, used, batch).Ok? <==> !short && hold && ChargeBefore(p, known, batch, |batch|) <= available
    ensures Admitted(p, known, used, batch) == Err(ShortSecret) <==> short
  {
    AdmittedExactly(p, known, used, batch);
  }

  // ---- The charge of a set of values ----

  ghost function TotalCost<V>(values: set<V>, cost: V -> nat): nat
    decreases |values|
  {
    if values == {} then 0
    else
      var v :| v in values;
      cost(v) + TotalCost(values - {v}, cost)
  }

  /** The order in which a set is summed does not matter. */
  lemma {:induction false} TotalCostWithout<V>(values: set<V>, cost: V -> nat, v: V)
    requires v in values
    ensures TotalCost(values, cost) == cost(v) + TotalCost(values - {v}, cost)
    decreases |values|
  {
    var first :| first in values && TotalCost(values, cost) == cost(first) + TotalCost(values - {first}, cost);
    if first != v {
      TotalCostWithout(values - {first}, cost, v);
      TotalCostWithout(values - {v}, cost, first);
      assert values - {first} - {v} == values - {v} - {first};
    }
  }

  /** Distinct new values add their charges to the total. */
  lemma {:induction false} TotalCostWith<V>(known: set<V>, values: seq<V>, cost: V -> nat, upto: nat)
    requires upto <= |values|
    requires forall i :: 0 <= i < |values| ==> values[i] !in known
    requires forall i, j :: 0 <= i < j < |values| ==> values[i] != values[j]
    ensures TotalCost(With(known, values, upto), cost) == TotalCost(known, cost) + ChargeOf(values, cost, upto)
    decreases upto
  {
    if upto > 0 {
      var last := values[upto - 1];
      var before := With(known, values, upto - 1);
      TotalCostWith(known, values, cost, upto - 1);
      WithMember(known, values, upto - 1, last);
      TotalCostWithout(before + {last}, cost, last);
      assert before + {last} - {last} == before;
    }
  }
}
