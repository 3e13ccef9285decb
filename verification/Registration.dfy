/**
 * Registering batches of values, all or nothing, over a whole run.
 *
 * What a value's entry holds, how it is filed and what a document makes public are parameters, so
 * that the bookkeeping is proved once for every way of spelling a secret. An entry is determined by
 * its value, so the entries are modelled by the values that have one.
 */
module Registration {
  import opened Admission
  import opened FirstSeen
  import opened Wrappers

  /** `V` is a value, `E` its entry, `X` the index of entries, `W` a window and `D` a document. */
  datatype State<V, X, W> = State(
    known: set<V>,
    privateWindows: set<W>,
    index: X,
    hazardous: bool,
    used: nat,
    refusal: Option<Refusal>)

  datatype Ops<!V, !E, !X, !W, !D> = Ops(
    policy: Policy<V>,
    build: V -> E,
    file: (X, E) -> X,
    windows: E -> set<W>,
    hazardous: E -> bool,
    public: (X, D) -> set<W>)

  function Filing<V, E, X, W, D>(ops: Ops<V, E, X, W, D>): (X, V) -> X {
    (index: X, v: V) => ops.file(index, ops.build(v))
  }

  lemma FilingBuilds<V, E, X, W, D>(ops: Ops<V, E, X, W, D>, index: X, v: V)
    ensures Filing(ops)(index, v) == ops.file(index, ops.build(v))
  {}

  function WindowsBy<V, E, X, W, D>(ops: Ops<V, E, X, W, D>): V -> set<W> {
    (v: V) => ops.windows(ops.build(v))
  }

  lemma WindowsAreBuilt<V, E, X, W, D>(ops: Ops<V, E, X, W, D>, v: V)
    ensures WindowsBy(ops)(v) == ops.windows(ops.build(v))
  {}

  function HazardBy<V, E, X, W, D>(ops: Ops<V, E, X, W, D>): V -> bool {
    (v: V) => ops.hazardous(ops.build(v))
  }

  function Hazardous<V>(before: bool, hazardous: V -> bool, pending: seq<V>, upto: nat): bool
    requires upto <= |pending|
  {
    if upto == 0 then before else Hazardous(before, hazardous, pending, upto - 1) || hazardous(pending[upto - 1])
  }

  /** The windows of the first `upto` candidates that nothing public explains, made private. */
  function MadePrivate<V, W(==)>(before: set<W>, windows: V -> set<W>, batch: seq<V>, public: set<W>, upto: nat): set<W>
    requires upto <= |batch|
  {
    if upto == 0 then before
    else MadePrivate(before, windows, batch, public, upto - 1) + (windows(batch[upto - 1]) - public)
  }

  /** Runs of a document that are public once everything registered is redacted; no document, no runs. */
  function PublicWindows<X, W(==), D>(public: (X, D) -> set<W>, index: X, document: Option<D>): set<W> {
    match document
    case None => {}
    case Some(text) => public(index, text)
  }

  function Accepted<V(==), E, X, W(==), D>(ops: Ops<V, E, X, W, D>, s: State<V, X, W>, batch: seq<V>,
                                        staging: Staging<V>, document: Option<D>): State<V, X, W> {
    var pending := staging.pending;
    var index := Fold(Filing(ops), s.index, pending, |pending|);
    State(With(s.known, pending, |pending|),
          MadePrivate(s.privateWindows, WindowsBy(ops), batch, PublicWindows(ops.public, index, document), |batch|),
          index,
          Hazardous(s.hazardous, HazardBy(ops), pending, |pending|),
          s.used + staging.charged,
          None)
  }

  /** One registration: all of the batch, or a refusal that changes nothing else. */
  function Registered<V(==), E, X, W(==), D>(ops: Ops<V, E, X, W, D>, s: State<V, X, W>, batch: seq<V>, document: Option<D>): State<V, X, W> {
    if s.refusal.Some? then s
    else
      match Admitted(ops.policy, s.known, s.used, batch)
      case Err(reason) => s.(refusal := Some(reason))
      case Ok(staging) => Accepted(ops, s, batch, staging, document)
  }

  /** A registration ends refused exactly when one was before or its batch is not admitted, for the same reason. */
  lemma RefusedExactly<V, E, X, W, D>(ops: Ops<V, E, X, W, D>, s: State<V, X, W>, batch: seq<V>, document: Option<D>)
    ensures var admitted, after := Admitted(ops.policy, s.known, s.used, batch), Registered(ops, s, batch, document);
            && (after.refusal.None? <==> s.refusal.None? && admitted.Ok?)
            && (s.refusal.Some? ==> after.refusal == s.refusal)
            && (s.refusal.None? && admitted.Err? ==> after.refusal == Some(admitted.error))
  {}

  /** After an accepted batch every candidate is held. */
  lemma AdmittedCovers<V>(policy: Policy<V>, known: set<V>, used: nat, batch: seq<V>, staging: Staging<V>)
    requires Admitted(policy, known, used, batch) == Ok(staging)
    ensures SoundStaging(policy, known, staging)
    ensures var keys := With(known, staging.pending, |staging.pending|);
            known <= keys && forall i :: 0 <= i < |batch| ==> batch[i] in keys
  {
    var pending := staging.pending;
    StagedIsSound(policy, known, SatSub(REGISTRATION_BUDGET, used), batch, |batch|);
    assert pending[..|pending|] == pending;
    forall v | v in known ensures v in With(known, pending, |pending|) {
      WithMember(known, pending, |pending|, v);
    }
    forall i | 0 <= i < |batch| ensures batch[i] in With(known, pending, |pending|) {
      WithMember(known, pending, |pending|, batch[i]);
    }
  }

  /** The registry as it is kept: an entry per value, updated in place. */
  class Registry<V(==), E, X, W(==), D> {
    const ops: Ops<V, E, X, W, D>
    var entries: map<V, E>
    var privateWindows: set<W>
    var index: X
    var hazardous: bool
    var used: nat
    var refusal: Option<Refusal>

    /** Each entry is what its value builds. */
    ghost predicate Valid()
      reads this
    {
      forall v | v in entries :: entries[v] == ops.build(v)
    }

    ghost function Contents(): State<V, X, W>
      reads this
    {
      State(entries.Keys, privateWindows, index, hazardous, used, refusal)
    }

    constructor (ops: Ops<V, E, X, W, D>, index: X)
      ensures this.ops == ops && Valid() && Contents() == State({}, {}, index, false, 0, None)
    {
      this.ops, this.index := ops, index;
      entries, privateWindows := map[], {};
      hazardous, used, refusal := false, 0, None;
    }

    method Commit(pending: seq<V>)
      requires Valid()
      modifies this`entries, this`index, this`hazardous
      ensures Valid()
      ensures entries.Keys == With(old(entries.Keys), pending, |pending|)
      ensures index == Fold(Filing(ops), old(index), pending, |pending|)
      ensures hazardous == Hazardous(old(hazardous), HazardBy(ops), pending, |pending|)
    {
      for i := 0 to |pending|
        invariant Valid()
        invariant entries.Keys == With(old(entries.Keys), pending, i)
        invariant index == Fold(Filing(ops), old(index), pending, i)
        invariant hazardous == Hazardous(old(hazardous), HazardBy(ops), pending, i)
      {
        var entry := ops.build(pending[i]);
        hazardous := hazardous || ops.hazardous(entry);
        index := ops.file(index, entry);
        entries := entries[pending[i] := entry];
      }
    }

    method ExtendPrivate(batch: seq<V>, public: set<W>)
      requires Valid() && forall i :: 0 <= i < |batch| ==> batch[i] in entries
      modifies this`privateWindows
      ensures privateWindows == MadePrivate(old(privateWindows), WindowsBy(ops), batch, public, |batch|)
    {
      for i := 0 to |batch|
        invariant privateWindows == MadePrivate(old(privateWindows), WindowsBy(ops), batch, public, i)
      {
        privateWindows := privateWindows + (ops.windows(entries[batch[i]]) - public);
      }
    }

    /** The single admission path: nothing is indexed unless every candidate is admitted. */
    method Register(batch: seq<V>, document: Option<D>) returns (accepted: bool)
      requires Valid()
      modifies this
      ensures Valid()
      ensures Contents() == Registered(ops, old(Contents()), batch, document)
      ensures accepted <==> refusal.None?
    {
      if refusal.Some? {
        return false;
      }
      var admitted := Admit(ops.policy, entries.Keys, used, batch);
      if admitted.Err? {
        refusal := Some(admitted.error);
        return false;
      }
      var staging := admitted.value;
      AdmittedCovers(ops.policy, entries.Keys, used, batch, staging);
      used := used + staging.charged;
      Commit(staging.pending);
      ExtendPrivate(batch, PublicWindows(ops.public, index, document));
      accepted := true;
    }
  }

  // ---- The invariant ----

  ghost predicate FilingKeepsAt<V, X>(file: (X, V) -> X, indexed: (X, set<V>) -> bool, x: X, keys: set<V>, v: V) {
    indexed(x, keys) && v !in keys ==> indexed(file(x, v), keys + {v})
  }

  /** What indexing promises: filing a new value keeps the index right for the values registered. */
  ghost predicate FilingKeeps<V(!new), X(!new)>(file: (X, V) -> X, indexed: (X, set<V>) -> bool) {
    forall x, keys, v :: FilingKeepsAt(file, indexed, x, keys, v)
  }

  ghost predicate Holds<V, W>(windows: V -> set<W>, known: set<V>, w: W) {
    exists v :: v in known && w in windows(v)
  }

  ghost predicate AllHeld<V, W>(windows: V -> set<W>, known: set<V>, some: set<W>) {
    forall w | w in some :: Holds(windows, known, w)
  }

  /** The charge is what the entries cost and within the budget; the index is right; private runs are held. */
  ghost predicate Inv<V, E, X, W, D>(ops: Ops<V, E, X, W, D>, indexed: (X, set<V>) -> bool, s: State<V, X, W>) {
    && s.used == TotalCost(s.known, ops.policy.cost) && s.used <= REGISTRATION_BUDGET
    && indexed(s.index, s.known)
    && AllHeld(WindowsBy(ops), s.known, s.privateWindows)
  }

  lemma {:induction false} FiledIsIndexed<V(!new), X(!new)>(file: (X, V) -> X, indexed: (X, set<V>) -> bool,
                                                            x: X, known: set<V>, pending: seq<V>, upto: nat)
    requires upto <= |pending| && FilingKeeps(file, indexed) && indexed(x, known)
    requires forall i :: 0 <= i < |pending| ==> pending[i] !in known
    requires forall i, j :: 0 <= i < j < |pending| ==> pending[i] != pending[j]
    ensures indexed(Fold(file, x, pending, upto), With(known, pending, upto))
  {
    if upto > 0 {
      var last := pending[upto - 1];
      FiledIsIndexed(file, indexed, x, known, pending, upto - 1);
      WithMember(known, pending, upto - 1, last);
      assert FilingKeepsAt(file, indexed, Fold(file, x, pending, upto - 1), With(known, pending, upto - 1), last);
    }
  }

  /** A window becomes private exactly when a candidate holds it and nothing public explains it. */
  lemma {:induction false} MadePrivateIsExact<V, W>(before: set<W>, windows: V -> set<W>, batch: seq<V>,
                                                    public: set<W>, upto: nat, w: W)
    requires upto <= |batch|
    ensures w in MadePrivate(before, windows, batch, public, upto)
            <==> w in before || (w !in public && exists i :: 0 <= i < upto && w in windows(batch[i]))
  {
    if upto > 0 { MadePrivateIsExact(before, windows, batch, public, upto - 1, w); }
  }

  lemma MadePrivateIsHeld<V, W>(before: set<W>, windows: V -> set<W>, known: set<V>, keys: set<V>, batch: seq<V>, public: set<W>)
    requires AllHeld(windows, known, before) && known <= keys
    requires forall i :: 0 <= i < |batch| ==> batch[i] in keys
    ensures before <= MadePrivate(before, windows, batch, public, |batch|)
    ensures AllHeld(windows, keys, MadePrivate(before, windows, batch, public, |batch|))
  {
    var after := MadePrivate(before, windows, batch, public, |batch|);
    forall w | w in before ensures w in after {
      MadePrivateIsExact(before, windows, batch, public, |batch|, w);
    }
    forall w | w in after ensures Holds(windows, keys, w) {
      MadePrivateIsExact(before, windows, batch, public, |batch|, w);
      if w in before { assert Holds(windows, known, w); }
    }
  }

  /** The charge of an accepted batch is what its new entries cost, and fits the budget. */
  lemma AdmittedBalances<V>(policy: Policy<V>, known: set<V>, used: nat, batch: seq<V>, staging: Staging<V>)
    requires used == TotalCost(known, policy.cost) && used <= REGISTRATION_BUDGET
    requires Admitted(policy, known, used, batch) == Ok(staging)
    ensures used + staging.charged
            == TotalCost(With(known, staging.pending, |staging.pending|), policy.cost) <= REGISTRATION_BUDGET
  {
    AdmittedCovers(policy, known, used, batch, staging);
    TotalCostWith(known, staging.pending, policy.cost, |staging.pending|);
  }

  /** What one registration may change: more is held, or only the refusal is set. */
  ghost predicate Grows<V, X, W>(s: State<V, X, W>, after: State<V, X, W>) {
    && s.known <= after.known
    && s.privateWindows <= after.privateWindows
    && (s.refusal.Some? ==> after == s)
    && (after.refusal.Some? ==> after == s.(refusal := after.refusal))
  }

  lemma AcceptedKeeps<V(!new), E, X(!new), W, D>(ops: Ops<V, E, X, W, D>, indexed: (X, set<V>) -> bool,
                                              s: State<V, X, W>, batch: seq<V>, staging: Staging<V>, document: Option<D>)
    requires Inv(ops, indexed, s) && s.refusal.None? && FilingKeeps(Filing(ops), indexed)
    requires Admitted(ops.policy, s.known, s.used, batch) == Ok(staging)
    ensures Inv(ops, indexed, Accepted(ops, s, batch, staging, document))
    ensures Grows(s, Accepted(ops, s, batch, staging, document))
    ensures forall i :: 0 <= i < |batch| ==> batch[i] in Accepted(ops, s, batch, staging, document).known
  {
    var pending := staging.pending;
    var after := Accepted(ops, s, batch, staging, document);
    AdmittedCovers(ops.policy, s.known, s.used, batch, staging);
    AdmittedBalances(ops.policy, s.known, s.used, batch, staging);
    FiledIsIndexed(Filing(ops), indexed, s.index, s.known, pending, |pending|);
    MadePrivateIsHeld(s.privateWindows, WindowsBy(ops), s.known, after.known, batch,
                      PublicWindows(ops.public, after.index, document));
  }

  /** Every registration keeps the books balanced and the index exact, and only ever grows what is held. */
  lemma RegisteringKeeps<V(!new), E, X(!new), W, D>(ops: Ops<V, E, X, W, D>, indexed: (X, set<V>) -> bool,
                                                 s: State<V, X, W>, batch: seq<V>, document: Option<D>)
    requires Inv(ops, indexed, s) && FilingKeeps(Filing(ops), indexed)
    ensures Inv(ops, indexed, Registered(ops, s, batch, document))
    ensures Grows(s, Registered(ops, s, batch, document))
  {
    var admitted := Admitted(ops.policy, s.known, s.used, batch);
    if s.refusal.None? && admitted.Ok? {
      AcceptedKeeps(ops, indexed, s, batch, admitted.value, document);
    }
  }

  /** A batch that is not refused is protected whole: every candidate is held, and its unexplained runs are private. */
  lemma AcceptedIsProtected<V(!new), E, X(!new), W, D>(ops: Ops<V, E, X, W, D>, indexed: (X, set<V>) -> bool,
                                                    s: State<V, X, W>, batch: seq<V>, document: Option<D>, i: nat, w: W)
    requires Inv(ops, indexed, s) && FilingKeeps(Filing(ops), indexed)
    requires Registered(ops, s, batch, document).refusal.None? && i < |batch|
    ensures var after := Registered(ops, s, batch, document);
            && batch[i] in after.known
            && (w in WindowsBy(ops)(batch[i]) ==>
                  w in after.privateWindows || w in PublicWindows(ops.public, after.index, document))
  {
    var staging := Admitted(ops.policy, s.known, s.used, batch).value;
    var after := Accepted(ops, s, batch, staging, document);
    AcceptedKeeps(ops, indexed, s, batch, staging, document);
    MadePrivateIsExact(s.privateWindows, WindowsBy(ops), batch, PublicWindows(ops.public, after.index, document), |batch|, w);
  }

  // ---- Every run ----

  datatype Call<V, D> = Call(batch: seq<V>, document: Option<D>)

  function StateAfter<V(==), E, X, W(==), D>(ops: Ops<V, E, X, W, D>, start: State<V, X, W>, calls: seq<Call<V, D>>, n: nat): State<V, X, W>
    requires n <= |calls|
  {
    if n == 0 then start
    else Registered(ops, StateAfter(ops, start, calls, n - 1), calls[n - 1].batch, calls[n - 1].document)
  }

  /** The invariant holds after every sequence of registrations. */
  lemma {:induction false} RunKeeps<V(!new), E, X(!new), W, D>(ops: Ops<V, E, X, W, D>, indexed: (X, set<V>) -> bool,
                                                            start: State<V, X, W>, calls: seq<Call<V, D>>, n: nat)
    requires n <= |calls| && FilingKeeps(Filing(ops), indexed) && Inv(ops, indexed, start)
    ensures Inv(ops, indexed, StateAfter(ops, start, calls, n))
  {
    if n > 0 {
      RunKeeps(ops, indexed, start, calls, n - 1);
      RegisteringKeeps(ops, indexed, StateAfter(ops, start, calls, n - 1), calls[n - 1].batch, calls[n - 1].document);
    }
  }

  /** Nothing held was dropped, and nothing changed after a refusal. */
  ghost predicate HasGrown<V, X, W>(s: State<V, X, W>, after: State<V, X, W>) {
    s.known <= after.known && s.privateWindows <= after.privateWindows && (s.refusal.Some? ==> after == s)
  }

  lemma GrowsOn<V, X, W>(s: State<V, X, W>, mid: State<V, X, W>, after: State<V, X, W>)
    requires HasGrown(s, mid) && Grows(mid, after)
    ensures HasGrown(s, after)
  {}

  /** Nothing held is ever dropped, and after a refusal nothing changes again. */
  lemma {:induction false} RunGrows<V(!new), E, X(!new), W, D>(ops: Ops<V, E, X, W, D>, indexed: (X, set<V>) -> bool,
                                                            start: State<V, X, W>, calls: seq<Call<V, D>>, m: nat, n: nat)
    requires m <= n <= |calls| && FilingKeeps(Filing(ops), indexed) && Inv(ops, indexed, start)
    ensures HasGrown(StateAfter(ops, start, calls, m), StateAfter(ops, start, calls, n))
    decreases n
  {
    if m < n {
      var before, call := StateAfter(ops, start, calls, n - 1), calls[n - 1];
      RunGrows(ops, indexed, start, calls, m, n - 1);
      RunKeeps(ops, indexed, start, calls, n - 1);
      RegisteringKeeps(ops, indexed, before, call.batch, call.document);
      GrowsOn(StateAfter(ops, start, calls, m), before, Registered(ops, before, call.batch, call.document));
    }
  }

  // ---- What is held, exactly ----

  ghost predicate IsAccepted<V, E, X, W, D>(ops: Ops<V, E, X, W, D>, start: State<V, X, W>, calls: seq<Call<V, D>>, m: nat) {
    m < |calls| && StateAfter(ops, start, calls, m + 1).refusal.None?
  }

  /** The `m`-th call was accepted and offered this value. */
  ghost predicate Offers<V, E, X, W, D>(ops: Ops<V, E, X, W, D>, start: State<V, X, W>, calls: seq<Call<V, D>>, m: nat, v: V) {
    IsAccepted(ops, start, calls, m) && v in calls[m].batch
  }

  /** One of the values holds this window. */
  ghost predicate SomeHolds<V, W>(windows: V -> set<W>, batch: seq<V>, w: W) {
    exists i :: 0 <= i < |batch| && w in windows(batch[i])
  }

  /** The `m`-th call was accepted, one of its values holds this window, and nothing public explains it. */
  ghost predicate Exposes<V, E, X, W, D>(ops: Ops<V, E, X, W, D>, start: State<V, X, W>, calls: seq<Call<V, D>>, m: nat, w: W) {
    && IsAccepted(ops, start, calls, m)
    && SomeHolds(WindowsBy(ops), calls[m].batch, w)
    && w !in PublicWindows(ops.public, StateAfter(ops, start, calls, m + 1).index, calls[m].document)
  }

  lemma PendingIsOffered<V>(policy: Policy<V>, known: set<V>, used: nat, batch: seq<V>, staging: Staging<V>, v: V)
    requires Admitted(policy, known, used, batch) == Ok(staging)
    ensures v in With(known, staging.pending, |staging.pending|) <==> v in known || v in batch
  {
    var pending := staging.pending;
    AdmittedCovers(policy, known, used, batch, staging);
    StagedIsSound(policy, known, SatSub(REGISTRATION_BUDGET, used), batch, |batch|);
    WithMember(known, pending, |pending|, v);
    assert pending[..|pending|] == pending;
    if v in pending {
      var j :| 0 <= j < |pending| && pending[j] == v;
      assert exists k :: 0 <= k < |batch| && batch[k] == pending[j];
    }
    if v in batch {
      var i :| 0 <= i < |batch| && batch[i] == v;
      assert batch[i] in With(known, pending, |pending|);
    }
  }

  /** One registration holds one more value exactly when it is accepted and offers it. */
  lemma RegisteredKnows<V, E, X, W, D>(ops: Ops<V, E, X, W, D>, s: State<V, X, W>, batch: seq<V>, document: Option<D>, v: V)
    ensures var after := Registered(ops, s, batch, document);
            v in after.known <==> v in s.known || (after.refusal.None? && v in batch)
  {
    var admitted := Admitted(ops.policy, s.known, s.used, batch);
    if s.refusal.None? && admitted.Ok? {
      PendingIsOffered(ops.policy, s.known, s.used, batch, admitted.value, v);
    }
  }

  /** Over every run, what is held is exactly what was there and what accepted calls offered. */
  lemma {:induction false} KnownExactly<V, E, X, W, D>(ops: Ops<V, E, X, W, D>, start: State<V, X, W>, calls: seq<Call<V, D>>, n: nat, v: V)
    requires n <= |calls|
    ensures v in StateAfter(ops, start, calls, n).known
            <==> v in start.known || exists m: nat :: m < n && Offers(ops, start, calls, m, v)
  {
    if n > 0 {
      KnownExactly(ops, start, calls, n - 1, v);
      RegisteredKnows(ops, StateAfter(ops, start, calls, n - 1), calls[n - 1].batch, calls[n - 1].document, v);
      assert Offers(ops, start, calls, n - 1, v)
             <==> StateAfter(ops, start, calls, n).refusal.None? && v in calls[n - 1].batch;
    }
  }

  lemma RegisteredHides<V, E, X, W, D>(ops: Ops<V, E, X, W, D>, s: State<V, X, W>, batch: seq<V>, document: Option<D>, w: W)
    ensures var after := Registered(ops, s, batch, document);
            w in after.privateWindows
            <==> || w in s.privateWindows
                 || (&& after.refusal.None?
                     && SomeHolds(WindowsBy(ops), batch, w)
                     && w !in PublicWindows(ops.public, after.index, document))
  {
    var admitted := Admitted(ops.policy, s.known, s.used, batch);
    if s.refusal.None? && admitted.Ok? {
      var after := Accepted(ops, s, batch, admitted.value, document);
      MadePrivateIsExact(s.privateWindows, WindowsBy(ops), batch, PublicWindows(ops.public, after.index, document), |batch|, w);
    }
  }

  /** Over every run, a window is private exactly when it was, or an accepted call exposed it. */
  lemma {:induction false} PrivateExactly<V, E, X, W, D>(ops: Ops<V, E, X, W, D>, start: State<V, X, W>, calls: seq<Call<V, D>>, n: nat, w: W)
    requires n <= |calls|
    ensures w in StateAfter(ops, start, calls, n).privateWindows
            <==> w in start.privateWindows || exists m: nat :: m < n && Exposes(ops, start, calls, m, w)
  {
    if n > 0 {
      PrivateExactly(ops, start, calls, n - 1, w);
      RegisteredHides(ops, StateAfter(ops, start, calls, n - 1), calls[n - 1].batch, calls[n - 1].document, w);
      var after := StateAfter(ops, start, calls, n);
      assert Exposes(ops, start, calls, n - 1, w)
             <==> && after.refusal.None? && SomeHolds(WindowsBy(ops), calls[n - 1].batch, w)
                  && w !in PublicWindows(ops.public, after.index, calls[n - 1].document);
    }
  }

  lemma {:induction false} HazardousIsExact<V>(before: bool, hazardous: V -> bool, pending: seq<V>, upto: nat)
    requires upto <= |pending|
    ensures Hazardous(before, hazardous, pending, upto)
            <==> before || exists i :: 0 <= i < upto && hazardous(pending[i])
  {
    if upto > 0 { HazardousIsExact(before, hazardous, pending, upto - 1); }
  }

  ghost predicate HazardIsExact<V, E, X, W, D>(ops: Ops<V, E, X, W, D>, s: State<V, X, W>) {
    s.hazardous <==> exists v :: v in s.known && ops.hazardous(ops.build(v))
  }

  lemma RegisteringKeepsHazard<V(!new), E, X, W, D>(ops: Ops<V, E, X, W, D>, s: State<V, X, W>, batch: seq<V>, document: Option<D>)
    requires HazardIsExact(ops, s)
    ensures HazardIsExact(ops, Registered(ops, s, batch, document))
  {
    var admitted := Admitted(ops.policy, s.known, s.used, batch);
    if s.refusal.None? && admitted.Ok? {
      var pending := admitted.value.pending;
      var after := Accepted(ops, s, batch, admitted.value, document);
      HazardousIsExact(s.hazardous, HazardBy(ops), pending, |pending|);
      assert pending[..|pending|] == pending;
      forall v ensures v in after.known <==> v in s.known || v in pending {
        WithMember(s.known, pending, |pending|, v);
      }
      if after.hazardous && !s.hazardous {
        var i :| 0 <= i < |pending| && HazardBy(ops)(pending[i]);
        assert pending[i] in after.known;
      }
    }
  }

  /** Over every run, the flag is set exactly when some value held is hazardous. */
  lemma {:induction false} HazardExactly<V(!new), E, X, W, D>(ops: Ops<V, E, X, W, D>, start: State<V, X, W>, calls: seq<Call<V, D>>, n: nat)
    requires n <= |calls| && HazardIsExact(ops, start)
    ensures HazardIsExact(ops, StateAfter(ops, start, calls, n))
  {
    if n > 0 {
      HazardExactly(ops, start, calls, n - 1);
      RegisteringKeepsHazard(ops, StateAfter(ops, start, calls, n - 1), calls[n - 1].batch, calls[n - 1].document);
    }
  }

  /** What an accepted batch protects stays protected: held, and private unless its own document explains it. */
  lemma AcceptedLasts<V, E, X, W, D>(ops: Ops<V, E, X, W, D>, start: State<V, X, W>, calls: seq<Call<V, D>>,
                                     m: nat, n: nat, i: nat, w: W)
    requires m < n <= |calls| && IsAccepted(ops, start, calls, m) && i < |calls[m].batch|
    ensures calls[m].batch[i] in StateAfter(ops, start, calls, n).known
    ensures w in WindowsBy(ops)(calls[m].batch[i]) ==>
              || w in StateAfter(ops, start, calls, n).privateWindows
              || w in PublicWindows(ops.public, StateAfter(ops, start, calls, m + 1).index, calls[m].document)
  {
    KnownExactly(ops, start, calls, n, calls[m].batch[i]);
    assert Offers(ops, start, calls, m, calls[m].batch[i]);
    PrivateExactly(ops, start, calls, n, w);
    if && w in WindowsBy(ops)(calls[m].batch[i])
       && w !in PublicWindows(ops.public, StateAfter(ops, start, calls, m + 1).index, calls[m].document)
    {
      assert Exposes(ops, start, calls, m, w);
    }
  }
}
