/**
 * The comparison an export supports: which places of a declared row are secret, and the live rows
 * with those places covered.
 */
module ExportView {
  import opened Wrappers
  import opened FirstSeen
  import opened JsonPointer
  import opened LiveView
  import opened Ordering
  import opened StateKeys

  // ---- Collecting the secret values of a declared row ----

  class PointerSet {
    var pointers: set<string>

    constructor (start: set<string>)
      ensures pointers == start
    {
      pointers := start;
    }
  }

  function Collected(out: set<string>, v: Value, isSecret: string -> bool, path: Path): set<string>
    decreases v, 1, 0
  {
    match v
    case Str(text) => if isSecret(text) then out + {Encode(path)} else out
    case _ => CollectedBelow(out, v, isSecret, path, ChildCount(v))
  }

  function CollectedBelow(out: set<string>, v: Value, isSecret: string -> bool, path: Path, upto: nat): set<string>
    requires upto <= ChildCount(v)
    decreases v, 0, upto
  {
    if upto == 0 then out
    else
      Collected(CollectedBelow(out, v, isSecret, path, upto - 1),
                ChildAt(v, upto - 1), isSecret, path + [Segment(v, upto - 1)])
  }

  method CollectSecretValues(v: Value, isSecret: string -> bool, pointer: PointerBuffer, out: PointerSet,
                             ghost path: Path)
    requires pointer.text == Encode(path)
    modifies pointer, out
    ensures pointer.text == old(pointer.text)
    ensures out.pointers == Collected(old(out.pointers), v, isSecret, path)
    decreases v
  {
    if v.Str? {
      if isSecret(v.text) { out.pointers := out.pointers + {pointer.text}; }
      return;
    }
    for i := 0 to ChildCount(v)
      invariant pointer.text == old(pointer.text)
      invariant out.pointers == CollectedBelow(old(out.pointers), v, isSecret, path, i)
    {
      var length := |pointer.text|;
      PushEncodes(path, Segment(v, i));
      pointer.PushPointerSegment(Segment(v, i));
      CollectSecretValues(ChildAt(v, i), isSecret, pointer, out, path + [Segment(v, i)]);
      pointer.text := pointer.text[..length];
    }
  }

  /** `q` leads to a string that bears a secret. */
  ghost predicate SecretAt(v: Value, isSecret: string -> bool, q: Path) {
    Resolve(v, q).Some? && Resolve(v, q).value.Str? && isSecret(Resolve(v, q).value.text)
  }

  ghost predicate SecretBelow(v: Value, isSecret: string -> bool, path: Path, i: nat, q: Path, pointer: string)
    requires i < ChildCount(v)
  {
    SecretAt(ChildAt(v, i), isSecret, q) && pointer == Encode(path + [Segment(v, i)] + q)
  }

  lemma SecretInChild(v: Value, isSecret: string -> bool, path: Path, i: nat, q: Path, pointer: string)
    requires WellFormed(v) && i < ChildCount(v)
    ensures SecretBelow(v, isSecret, path, i, q, pointer)
            <==> SecretAt(v, isSecret, [Segment(v, i)] + q) && pointer == Encode(path + ([Segment(v, i)] + q))
  {
    var segment := Segment(v, i);
    WellFormedChild(v, i);
    assert path + [segment] + q == path + ([segment] + q);
    assert ([segment] + q)[1..] == q;
  }

  ghost predicate SecretPointer(v: Value, isSecret: string -> bool, path: Path, q: Path, pointer: string) {
    SecretAt(v, isSecret, q) && pointer == Encode(path + q)
  }

  /** Collecting adds exactly the pointers of the strings that bear a secret. */
  lemma {:induction false} CollectedIsExact(out: set<string>, v: Value, isSecret: string -> bool, path: Path, pointer: string)
    requires WellFormed(v)
    ensures pointer in Collected(out, v, isSecret, path)
            <==> pointer in out || exists q :: SecretPointer(v, isSecret, path, q, pointer)
    decreases v, 1, 0
  {
    assert path + [] == path;
    if v.Str? {
      forall q | SecretPointer(v, isSecret, path, q, pointer) ensures q == [] {}
      assert SecretPointer(v, isSecret, path, [], pointer) <==> isSecret(v.text) && pointer == Encode(path);
    } else {
      var n := ChildCount(v);
      CollectedBelowIsExact(out, v, isSecret, path, n, pointer);
      forall q | SecretPointer(v, isSecret, path, q, pointer)
        ensures exists i: nat, r :: i < n && SecretBelow(v, isSecret, path, i, r, pointer)
      {
        var i := ChildHasPosition(v, q[0]);
        assert q == [Segment(v, i)] + q[1..];
        SecretInChild(v, isSecret, path, i, q[1..], pointer);
        assert SecretBelow(v, isSecret, path, i, q[1..], pointer);
      }
      if i: nat, r :| i < n && SecretBelow(v, isSecret, path, i, r, pointer) {
        SecretInChild(v, isSecret, path, i, r, pointer);
        assert SecretPointer(v, isSecret, path, [Segment(v, i)] + r, pointer);
      }
    }
  }

  lemma {:induction false} CollectedBelowIsExact(out: set<string>, v: Value, isSecret: string -> bool, path: Path,
                                                 upto: nat, pointer: string)
    requires WellFormed(v) && upto <= ChildCount(v)
    ensures pointer in CollectedBelow(out, v, isSecret, path, upto)
            <==> pointer in out || exists i: nat, q :: i < upto && SecretBelow(v, isSecret, path, i, q, pointer)
    decreases v, 0, upto
  {
    if upto > 0 {
      var last := upto - 1;
      CollectedBelowIsExact(out, v, isSecret, path, last, pointer);
      WellFormedChild(v, last);
      CollectedIsExact(CollectedBelow(out, v, isSecret, path, last),
                       ChildAt(v, last), isSecret, path + [Segment(v, last)], pointer);
      forall q ensures SecretPointer(ChildAt(v, last), isSecret, path + [Segment(v, last)], q, pointer)
                       <==> SecretBelow(v, isSecret, path, last, q, pointer) {}
    }
  }

  // ---- The view ----

  datatype ExportRow = ExportRow(kind: Kind, id: string, body: Value)

  type DesiredRows = map<(Kind, string), DesiredRow>

  const HIDDEN_CREDENTIALS_FIELD := "hidden_credentials_fingerprint"

  /** A brokered value stays secret once the bundle has replaced its placeholder. */
  function WithSources(desired: DesiredRows, unresolved: DesiredRows): DesiredRows {
    map key | key in desired ::
      if key in unresolved
      then desired[key].(secretPointers := desired[key].secretPointers + unresolved[key].secretPointers)
      else desired[key]
  }

  function RemoveMember(members: seq<Member>, key: string): seq<Member> {
    var i := Find(members, key);
    if i < |members| then members[..i] + members[i + 1..] else members
  }

  /** A Consumer's hidden-credentials fingerprint is never compared. */
  function Projected(row: ExportRow): Value {
    if row.kind.ConsumerKind? && row.body.Obj?
    then Obj(RemoveMember(row.body.members, HIDDEN_CREDENTIALS_FIELD))
    else row.body
  }

  lemma WithoutOne<T>(s: seq<T>, i: nat, k: nat)
    requires i < |s| && k < |s| - 1
    ensures (s[..i] + s[i + 1..])[k] == if k < i then s[k] else s[k + 1]
  {}

  lemma RemovedMember(members: seq<Member>, removed: string, k: nat)
    requires k < |RemoveMember(members, removed)|
    ensures var i := Find(members, removed);
            var from := if k < i then k else k + 1;
            from < |members| && RemoveMember(members, removed)[k] == members[from]
  {
    var i := Find(members, removed);
    if i < |members| { WithoutOne(members, i, k); }
  }

  lemma RemovalIsWellFormed(members: seq<Member>, removed: string)
    requires WellFormed(Obj(members))
    ensures WellFormed(Obj(RemoveMember(members, removed)))
    ensures Child(Obj(RemoveMember(members, removed)), removed).None?
  {
    var i := Find(members, removed);
    var kept := RemoveMember(members, removed);
    forall k | 0 <= k < |kept|
      ensures kept[k] == members[if k < i then k else k + 1] && kept[k].key != removed
    {
      RemovedMember(members, removed, k);
    }
  }

  /** Removing a member leaves every other member as it was. */
  lemma RemovingKeepsOthers(members: seq<Member>, removed: string, key: string)
    requires WellFormed(Obj(members)) && key != removed
    ensures Child(Obj(RemoveMember(members, removed)), key) == Child(Obj(members), key)
  {
    var i, at := Find(members, removed), Find(members, key);
    var kept := RemoveMember(members, removed);
    RemovalIsWellFormed(members, removed);
    if at < |members| {
      var k := if at < i then at else at - 1;
      assert kept[k] == members[at];
      MemberIsFound(kept, k);
    } else if Find(kept, key) < |kept| {
      RemovedMember(members, removed, Find(kept, key));
    }
  }

  /** A Consumer is compared without its hidden-credentials member; nothing else is taken away. */
  lemma ProjectionIsWellFormed(row: ExportRow)
    requires WellFormed(row.body)
    ensures WellFormed(Projected(row))
    ensures row.kind.ConsumerKind? && row.body.Obj? ==> Child(Projected(row), HIDDEN_CREDENTIALS_FIELD).None?
    ensures !row.kind.ConsumerKind? || !row.body.Obj? ==> Projected(row) == row.body
    ensures forall key :: key != HIDDEN_CREDENTIALS_FIELD ==> Child(Projected(row), key) == Child(row.body, key)
  {
    if row.kind.ConsumerKind? && row.body.Obj? {
      RemovalIsWellFormed(row.body.members, HIDDEN_CREDENTIALS_FIELD);
      forall key | key != HIDDEN_CREDENTIALS_FIELD ensures Child(Projected(row), key) == Child(row.body, key) {
        RemovingKeepsOthers(row.body.members, HIDDEN_CREDENTIALS_FIELD, key);
      }
    }
  }

  function Shown(row: ExportRow, rows: DesiredRows): Value {
    if (row.kind, row.id) in rows
    then Substituted(Projected(row), CoversOf(rows[(row.kind, row.id)]), [])
    else Projected(row)
  }

  function SitesShown(row: ExportRow, rows: DesiredRows): seq<Site> {
    if (row.kind, row.id) in rows
    then Recorded([], Projected(row), CoversOf(rows[(row.kind, row.id)]), [])
    else []
  }

  /** A fingerprinted field. An export covers one namespace, so a site does not repeat it. */
  datatype FingerprintSite = FingerprintSite(kind: Kind, id: string, pointer: string)

  function SiteOrder(site: FingerprintSite): Triple { (KindName(site.kind), site.id, site.pointer) }

  /** Sites compare by the name of their kind, then by id, then by pointer. */
  predicate SiteLe(a: FingerprintSite, b: FingerprintSite) { TripleLe(SiteOrder(a), SiteOrder(b)) }

  /** The rows of one kind, as shown, in export order. */
  function Section(exported: seq<ExportRow>, rows: DesiredRows, kind: Kind, upto: nat): seq<Value>
    requires upto <= |exported|
    decreases upto
  {
    if upto == 0 then []
    else if exported[upto - 1].kind == kind
    then Section(exported, rows, kind, upto - 1) + [Shown(exported[upto - 1], rows)]
    else Section(exported, rows, kind, upto - 1)
  }

  /** `log` followed by the first `upto` sites of one row, or only by those that are ancestors. */
  function Listed(log: seq<FingerprintSite>, row: ExportRow, sites: seq<Site>, upto: nat, ancestors: bool)
    : seq<FingerprintSite>
    requires upto <= |sites|
    decreases upto
  {
    if upto == 0 then log
    else if !ancestors || sites[upto - 1].ancestor
    then Listed(log, row, sites, upto - 1, ancestors) + [FingerprintSite(row.kind, row.id, sites[upto - 1].pointer)]
    else Listed(log, row, sites, upto - 1, ancestors)
  }

  function HiddenSite(row: ExportRow): FingerprintSite {
    FingerprintSite(row.kind, row.id, Push("", HIDDEN_CREDENTIALS_FIELD))
  }

  function UncomparedWith(log: seq<FingerprintSite>, row: ExportRow, rows: DesiredRows): seq<FingerprintSite> {
    if (row.kind, row.id) !in rows then log
    else
      var sites := SitesShown(row, rows);
      Listed(if row.kind.ConsumerKind? then log + [HiddenSite(row)] else log, row, sites, |sites|, false)
  }

  /** The sites the first `upto` rows leave uncompared. */
  function Uncompared(exported: seq<ExportRow>, rows: DesiredRows, upto: nat): seq<FingerprintSite>
    requires upto <= |exported|
  {
    Fold((log: seq<FingerprintSite>, row: ExportRow) => UncomparedWith(log, row, rows), [], exported, upto)
  }

  function MaskedWith(log: seq<FingerprintSite>, row: ExportRow, rows: DesiredRows): seq<FingerprintSite> {
    Listed(log, row, SitesShown(row, rows), |SitesShown(row, rows)|, true)
  }

  /** The sites among them where the export masked more than the secret itself. */
  function Masked(exported: seq<ExportRow>, rows: DesiredRows, upto: nat): seq<FingerprintSite>
    requires upto <= |exported|
  {
    Fold((log: seq<FingerprintSite>, row: ExportRow) => MaskedWith(log, row, rows), [], exported, upto)
  }

  datatype ExportLiveView = ExportLiveView(
    sections: map<Kind, seq<Value>>,
    uncompared: seq<FingerprintSite>,
    maskedAncestors: seq<FingerprintSite>)

  /** The sections and both site lists after the first `upto` rows, in the order they were found. */
  ghost predicate IsCollected(view: ExportLiveView, exported: seq<ExportRow>, rows: DesiredRows, upto: nat)
    requires upto <= |exported|
  {
    && (forall kind :: kind in view.sections && view.sections[kind] == Section(exported, rows, kind, upto))
    && view.uncompared == Uncompared(exported, rows, upto)
    && view.maskedAncestors == Masked(exported, rows, upto)
  }

  /** The finished view: sections in export order, and both site lists sorted. */
  ghost predicate IsView(view: ExportLiveView, exported: seq<ExportRow>, rows: DesiredRows) {
    && (forall kind :: kind in view.sections && view.sections[kind] == Section(exported, rows, kind, |exported|))
    && view.uncompared == StableSort(Uncompared(exported, rows, |exported|), SiteLe)
    && view.maskedAncestors == StableSort(Masked(exported, rows, |exported|), SiteLe)
  }

  /** One row of the view: what is shown of it, and the sites it adds to both records. */
  method ShowRow(row: ExportRow, rows: DesiredRows, uncompared: seq<FingerprintSite>, masked: seq<FingerprintSite>)
    returns (body: Value, uncompared': seq<FingerprintSite>, masked': seq<FingerprintSite>)
    ensures body == Shown(row, rows)
    ensures uncompared' == UncomparedWith(uncompared, row, rows)
    ensures masked' == MaskedWith(masked, row, rows)
  {
    body, uncompared', masked' := Projected(row), uncompared, masked;
    if (row.kind, row.id) !in rows {
      return;
    }
    if row.kind.ConsumerKind? {
      uncompared' := uncompared' + [HiddenSite(row)];
    }
    var expected := rows[(row.kind, row.id)];
    var pointer := new PointerBuffer();
    var substituted := new SiteLog();
    body := SubstituteFingerprints(body, expected, pointer, substituted, [], CoversOf(expected));
    var sites := substituted.sites;
    ghost var start := uncompared';
    for i := 0 to |sites|
      invariant uncompared' == Listed(start, row, sites, i, false)
      invariant masked' == Listed(masked, row, sites, i, true)
    {
      uncompared' := uncompared' + [FingerprintSite(row.kind, row.id, sites[i].pointer)];
      if sites[i].ancestor {
        masked' := masked' + [FingerprintSite(row.kind, row.id, sites[i].pointer)];
      }
    }
  }

  method LiveViewWith(exported: seq<ExportRow>, desired: DesiredRows, unresolved: DesiredRows)
    returns (view: ExportLiveView)
    ensures IsView(view, exported, WithSources(desired, unresolved))
  {
    var rows := WithSources(desired, unresolved);
    var sections: map<Kind, seq<Value>> := map[ProxyKind := [], ConsumerKind := [], PluginConfigKind := [], UpstreamKind := []];
    var uncompared: seq<FingerprintSite>, masked: seq<FingerprintSite> := [], [];
    forall kind ensures kind in sections && sections[kind] == [] {
      match kind { case ProxyKind => case ConsumerKind => case PluginConfigKind => case UpstreamKind => }
    }
    for i := 0 to |exported|
      invariant IsCollected(ExportLiveView(sections, uncompared, masked), exported, rows, i)
    {
      var body;
      body, uncompared, masked := ShowRow(exported[i], rows, uncompared, masked);
      var kind := exported[i].kind;
      assert kind in sections;
      sections := sections[kind := sections[kind] + [body]];
    }
    uncompared := StableSort(uncompared, SiteLe);
    masked := StableSort(masked, SiteLe);
    return ExportLiveView(sections, uncompared, masked);
  }

  // ---- What the view guarantees ----

  /** A declared row compares clean exactly when the live row differs from it only at covered places. */
  lemma RowComparesCleanly(row: ExportRow, rows: DesiredRows)
    requires (row.kind, row.id) in rows && WellFormed(rows[(row.kind, row.id)].value)
    ensures var declared := rows[(row.kind, row.id)];
            Shown(row, rows) == declared.value <==> Agrees(Projected(row), declared.value, CoversOf(declared), [])
  {
    var declared := rows[(row.kind, row.id)];
    RowCoversDeclare(declared);
    SubstitutionMeetsDeclaration(Projected(row), declared.value, CoversOf(declared), []);
  }

  lemma AtOrAbove(places: set<Path>, q: Path)
    ensures (exists p :: p in places && q <= p) <==> q in places || exists p :: p in places && q < p
  {
    if p :| p in places && q <= p { assert p == q || q < p; }
  }

  lemma BearsExactly(declared: DesiredRow, places: set<Path>, q: Path)
    requires declared.secretPointers == set p | p in places :: Encode(p)
    ensures SecretBearing(declared, Encode(q)).Some? <==> exists p :: p in places && q <= p
    ensures SecretBearing(declared, Encode(q)).Some? ==> SecretBearing(declared, Encode(q)).value == (q !in places)
  {
    SecretBearingIsAboutPlaces(declared, places, q);
    AtOrAbove(places, q);
  }

  /** The covered places of a row are its declared secrets and the declared places above them, no others. */
  lemma CoveredPlacesAreSecret(declared: DesiredRow, places: set<Path>, q: Path)
    requires declared.secretPointers == set p | p in places :: Encode(p)
    ensures CoversOf(declared)(q).Some?
            <==> Resolve(declared.value, q).Some? && exists p :: p in places && q <= p
    ensures CoversOf(declared)(q).Some? ==>
              CoversOf(declared)(q).value == Cover(Resolve(declared.value, q).value, q !in places)
  {
    LookupFollowsPath(declared.value, q);
    BearsExactly(declared, places, q);
  }

  /** A row that records no site is shown as the export has it. */
  lemma UnrecordedRowIsUnchanged(row: ExportRow, rows: DesiredRows)
    requires SitesShown(row, rows) == []
    ensures Shown(row, rows) == Projected(row)
  {
    if (row.kind, row.id) in rows {
      NothingRecordedNothingChanged([], Projected(row), CoversOf(rows[(row.kind, row.id)]), []);
    }
  }

  lemma {:induction false} ListedMember(log: seq<FingerprintSite>, row: ExportRow, sites: seq<Site>, upto: nat,
                                        ancestors: bool, site: FingerprintSite)
    requires upto <= |sites|
    ensures site in Listed(log, row, sites, upto, ancestors)
            <==> site in log
                 || exists i :: 0 <= i < upto && (!ancestors || sites[i].ancestor)
                                && site == FingerprintSite(row.kind, row.id, sites[i].pointer)
    decreases upto
  {
    if upto > 0 { ListedMember(log, row, sites, upto - 1, ancestors, site); }
  }

  ghost predicate Substitutes(row: ExportRow, rows: DesiredRows, ancestors: bool, site: FingerprintSite) {
    exists i :: 0 <= i < |SitesShown(row, rows)| && (!ancestors || SitesShown(row, rows)[i].ancestor)
                && site == FingerprintSite(row.kind, row.id, SitesShown(row, rows)[i].pointer)
  }

  /** `row` leaves `site` uncompared: its hidden credentials, if it is a Consumer, and what was substituted. */
  ghost predicate LeavesUncompared(row: ExportRow, rows: DesiredRows, site: FingerprintSite) {
    && (row.kind, row.id) in rows
    && ((row.kind.ConsumerKind? && site == HiddenSite(row)) || Substitutes(row, rows, false, site))
  }

  lemma ListedWithHidden(log: seq<FingerprintSite>, hidden: FingerprintSite, row: ExportRow, sites: seq<Site>,
                         site: FingerprintSite)
    ensures site in Listed(if row.kind.ConsumerKind? then log + [hidden] else log, row, sites, |sites|, false)
            <==> || site in log || (row.kind.ConsumerKind? && site == hidden)
                 || exists i :: 0 <= i < |sites| && site == FingerprintSite(row.kind, row.id, sites[i].pointer)
  {
    ListedMember(if row.kind.ConsumerKind? then log + [hidden] else log, row, sites, |sites|, false, site);
  }

  lemma UncomparedWithMember(log: seq<FingerprintSite>, row: ExportRow, rows: DesiredRows, site: FingerprintSite)
    ensures site in UncomparedWith(log, row, rows) <==> site in log || LeavesUncompared(row, rows, site)
  {
    ListedWithHidden(log, HiddenSite(row), row, SitesShown(row, rows), site);
  }

  lemma MaskedWithMember(log: seq<FingerprintSite>, row: ExportRow, rows: DesiredRows, site: FingerprintSite)
    ensures site in MaskedWith(log, row, rows) <==> site in log || Substitutes(row, rows, true, site)
  {
    ListedMember(log, row, SitesShown(row, rows), |SitesShown(row, rows)|, true, site);
  }

  lemma UncomparedMember(exported: seq<ExportRow>, rows: DesiredRows, site: FingerprintSite)
    ensures site in Uncompared(exported, rows, |exported|)
            <==> exists i :: 0 <= i < |exported| && LeavesUncompared(exported[i], rows, site)
  {
    var step := (log: seq<FingerprintSite>, row: ExportRow) => UncomparedWith(log, row, rows);
    ghost var gives := (row: ExportRow) => LeavesUncompared(row, rows, site);
    forall log, row ensures AddsAt(step, gives, site, log, row) { UncomparedWithMember(log, row, rows, site); }
    FoldMember(step, [], exported, |exported|, gives, site);
  }

  lemma MaskedMember(exported: seq<ExportRow>, rows: DesiredRows, site: FingerprintSite)
    ensures site in Masked(exported, rows, |exported|)
            <==> exists i :: 0 <= i < |exported| && Substitutes(exported[i], rows, true, site)
  {
    var step := (log: seq<FingerprintSite>, row: ExportRow) => MaskedWith(log, row, rows);
    ghost var gives := (row: ExportRow) => Substitutes(row, rows, true, site);
    forall log, row ensures AddsAt(step, gives, site, log, row) { MaskedWithMember(log, row, rows, site); }
    FoldMember(step, [], exported, |exported|, gives, site);
  }

  lemma SiteLeIsOrder()
    ensures Preorder(SiteLe)
    ensures forall a, b :: SiteLe(a, b) && SiteLe(b, a) ==> a == b
  {
    TripleLeIsOrder();
    forall a, b | SiteLe(a, b) && SiteLe(b, a) ensures a == b {
      assert SiteOrder(a) == SiteOrder(b);
      KindNamesDiffer(a.kind, b.kind);
    }
  }

  /** Both lists of a view are in site order, and hold exactly the sites the rows leave uncompared or masked. */
  lemma ViewSitesAreExact(view: ExportLiveView, exported: seq<ExportRow>, rows: DesiredRows, site: FingerprintSite)
    requires IsView(view, exported, rows)
    ensures SortedBy(view.uncompared, SiteLe) && SortedBy(view.maskedAncestors, SiteLe)
    ensures site in view.uncompared <==> exists i :: 0 <= i < |exported| && LeavesUncompared(exported[i], rows, site)
    ensures site in view.maskedAncestors <==> exists i :: 0 <= i < |exported| && Substitutes(exported[i], rows, true, site)
  {
    SiteLeIsOrder();
    SortedMember(Uncompared(exported, rows, |exported|), SiteLe, site);
    SortedMember(Masked(exported, rows, |exported|), SiteLe, site);
    UncomparedMember(exported, rows, site);
    MaskedMember(exported, rows, site);
  }

  // ---- Said of the two configurations ----

  /** `pointer` is secret in the declared row, or was before its placeholders were resolved. */
  ghost predicate IsSecretPlace(desired: DesiredRows, unresolved: DesiredRows, key: (Kind, string), pointer: string) {
    && key in desired
    && (|| pointer in desired[key].secretPointers
        || (key in unresolved && pointer in unresolved[key].secretPointers))
  }

  /** A secret place lies below `pointer`. */
  ghost predicate IsAboveSecret(desired: DesiredRows, unresolved: DesiredRows, key: (Kind, string), pointer: string) {
    exists secret :: IsSecretPlace(desired, unresolved, key, secret) && pointer + "/" <= secret
  }

  /** The live row holds a fingerprint at `q`, and the declaration has a secret there or below. */
  ghost predicate IsMasked(desired: DesiredRows, unresolved: DesiredRows, row: ExportRow, q: Path) {
    var key := (row.kind, row.id);
    var live := Resolve(Projected(row), q);
    && key in desired && live.Some? && live.value.Str? && IsFingerprint(live.value.text)
    && Resolve(desired[key].value, q).Some?
    && (IsSecretPlace(desired, unresolved, key, Encode(q)) || IsAboveSecret(desired, unresolved, key, Encode(q)))
  }

  lemma SecretBearingAfterSources(desired: DesiredRows, unresolved: DesiredRows, key: (Kind, string), pointer: string)
    requires key in desired
    ensures var row := WithSources(desired, unresolved)[key];
            && row.value == desired[key].value
            && (SecretBearing(row, pointer) == Some(false) <==> IsSecretPlace(desired, unresolved, key, pointer))
            && (SecretBearing(row, pointer).Some? <==>
                  || IsSecretPlace(desired, unresolved, key, pointer)
                  || IsAboveSecret(desired, unresolved, key, pointer))
  {
    var row := WithSources(desired, unresolved)[key];
    assert forall s :: s in row.secretPointers <==> IsSecretPlace(desired, unresolved, key, s);
    assert pointer + "/" == pointer + ['/'];
  }

  lemma CoveredAfterSources(desired: DesiredRows, unresolved: DesiredRows, key: (Kind, string), q: Path)
    requires key in desired
    ensures var cover := CoversOf(WithSources(desired, unresolved)[key])(q);
            && (cover.Some? <==>
                  && Resolve(desired[key].value, q).Some?
                  && (|| IsSecretPlace(desired, unresolved, key, Encode(q))
                      || IsAboveSecret(desired, unresolved, key, Encode(q))))
            && (cover.Some? ==>
                  && cover.value.value == Resolve(desired[key].value, q).value
                  && (cover.value.ancestor <==> !IsSecretPlace(desired, unresolved, key, Encode(q))))
  {
    SecretBearingAfterSources(desired, unresolved, key, Encode(q));
    LookupFollowsPath(desired[key].value, q);
  }

  lemma HiddenIsMasked(desired: DesiredRows, unresolved: DesiredRows, row: ExportRow, q: Path, site: Site)
    requires (row.kind, row.id) in desired
    ensures Hidden(Projected(row), CoversOf(WithSources(desired, unresolved)[(row.kind, row.id)]), [], q, site)
            <==> && IsMasked(desired, unresolved, row, q)
                 && site == Site(Encode(q), !IsSecretPlace(desired, unresolved, (row.kind, row.id), Encode(q)))
  {
    assert [] + q == q;
    CoveredAfterSources(desired, unresolved, (row.kind, row.id), q);
  }

  /** A masked place, as the site it is listed as. */
  ghost predicate ListedAs(desired: DesiredRows, unresolved: DesiredRows, row: ExportRow, q: Path, ancestors: bool,
                           site: FingerprintSite)
  {
    && IsMasked(desired, unresolved, row, q)
    && (ancestors ==> !IsSecretPlace(desired, unresolved, (row.kind, row.id), Encode(q)))
    && site == FingerprintSite(row.kind, row.id, Encode(q))
  }

  lemma RecordedIsListed(desired: DesiredRows, unresolved: DesiredRows, row: ExportRow, recorded: Site)
    requires WellFormed(Projected(row)) && (row.kind, row.id) in desired
    requires recorded in SitesShown(row, WithSources(desired, unresolved))
    ensures exists q :: IsMasked(desired, unresolved, row, q) && recorded.pointer == Encode(q)
                        && (recorded.ancestor <==> !IsSecretPlace(desired, unresolved, (row.kind, row.id), Encode(q)))
  {
    var covers := CoversOf(WithSources(desired, unresolved)[(row.kind, row.id)]);
    RecordIsExact([], Projected(row), covers, [], recorded);
    var q :| Hidden(Projected(row), covers, [], q, recorded);
    HiddenIsMasked(desired, unresolved, row, q, recorded);
  }

  lemma ListedIsRecorded(desired: DesiredRows, unresolved: DesiredRows, row: ExportRow, q: Path)
    requires WellFormed(Projected(row)) && IsMasked(desired, unresolved, row, q)
    ensures Site(Encode(q), !IsSecretPlace(desired, unresolved, (row.kind, row.id), Encode(q)))
            in SitesShown(row, WithSources(desired, unresolved))
  {
    var covers := CoversOf(WithSources(desired, unresolved)[(row.kind, row.id)]);
    var listed := Site(Encode(q), !IsSecretPlace(desired, unresolved, (row.kind, row.id), Encode(q)));
    HiddenIsMasked(desired, unresolved, row, q, listed);
    RecordIsExact([], Projected(row), covers, [], listed);
  }

  lemma SubstitutedIsListed(desired: DesiredRows, unresolved: DesiredRows, row: ExportRow, ancestors: bool, site: FingerprintSite)
    requires WellFormed(Projected(row)) && (row.kind, row.id) in desired
    requires Substitutes(row, WithSources(desired, unresolved), ancestors, site)
    ensures exists q :: ListedAs(desired, unresolved, row, q, ancestors, site)
  {
    var sites := SitesShown(row, WithSources(desired, unresolved));
    var i :| 0 <= i < |sites| && (!ancestors || sites[i].ancestor)
             && site == FingerprintSite(row.kind, row.id, sites[i].pointer);
    RecordedIsListed(desired, unresolved, row, sites[i]);
    var q :| IsMasked(desired, unresolved, row, q) && sites[i].pointer == Encode(q)
             && (sites[i].ancestor <==> !IsSecretPlace(desired, unresolved, (row.kind, row.id), Encode(q)));
    assert ListedAs(desired, unresolved, row, q, ancestors, site);
  }

  lemma ListedIsSubstituted(desired: DesiredRows, unresolved: DesiredRows, row: ExportRow, q: Path, ancestors: bool,
                            site: FingerprintSite)
    requires WellFormed(Projected(row)) && ListedAs(desired, unresolved, row, q, ancestors, site)
    ensures Substitutes(row, WithSources(desired, unresolved), ancestors, site)
  {
    var sites := SitesShown(row, WithSources(desired, unresolved));
    ListedIsRecorded(desired, unresolved, row, q);
    var i :| 0 <= i < |sites|
             && sites[i] == Site(Encode(q), !IsSecretPlace(desired, unresolved, (row.kind, row.id), Encode(q)));
  }

  lemma SubstitutesExactly(desired: DesiredRows, unresolved: DesiredRows, row: ExportRow, ancestors: bool, site: FingerprintSite)
    requires WellFormed(Projected(row)) && (row.kind, row.id) in desired
    ensures Substitutes(row, WithSources(desired, unresolved), ancestors, site)
            <==> exists q :: ListedAs(desired, unresolved, row, q, ancestors, site)
  {
    if Substitutes(row, WithSources(desired, unresolved), ancestors, site) {
      SubstitutedIsListed(desired, unresolved, row, ancestors, site);
    }
    if q :| ListedAs(desired, unresolved, row, q, ancestors, site) {
      ListedIsSubstituted(desired, unresolved, row, q, ancestors, site);
    }
  }

  lemma NothingSubstituted(desired: DesiredRows, unresolved: DesiredRows, row: ExportRow, ancestors: bool, site: FingerprintSite)
    requires (row.kind, row.id) !in desired
    ensures !Substitutes(row, WithSources(desired, unresolved), ancestors, site)
    ensures !exists q :: ListedAs(desired, unresolved, row, q, ancestors, site)
  {}

  lemma HiddenFieldIsPlain()
    ensures forall k :: 0 <= k < |HIDDEN_CREDENTIALS_FIELD| ==>
              HIDDEN_CREDENTIALS_FIELD[k] != '~' && HIDDEN_CREDENTIALS_FIELD[k] != '/'
  {}

  lemma EmptyThenSlash(s: string)
    ensures "" + (['/'] + s) == "/" + s
  {}

  /** A Consumer's hidden credentials, by their pointer. */
  lemma HiddenSiteIs(row: ExportRow)
    ensures HiddenSite(row) == FingerprintSite(row.kind, row.id, "/" + "hidden_credentials_fingerprint")
  {
    HiddenFieldIsPlain();
    NoEscapes(HIDDEN_CREDENTIALS_FIELD);
    EmptyThenSlash(HIDDEN_CREDENTIALS_FIELD);
  }

  ghost predicate IsUncompared(desired: DesiredRows, unresolved: DesiredRows, row: ExportRow, site: FingerprintSite) {
    && (row.kind, row.id) in desired
    && (|| (row.kind.ConsumerKind? && site == FingerprintSite(row.kind, row.id, "/" + "hidden_credentials_fingerprint"))
        || exists q :: ListedAs(desired, unresolved, row, q, false, site))
  }

  ghost predicate IsMaskedAncestor(desired: DesiredRows, unresolved: DesiredRows, row: ExportRow, site: FingerprintSite) {
    exists q :: ListedAs(desired, unresolved, row, q, true, site)
  }

  lemma UncomparedIsExact(desired: DesiredRows, unresolved: DesiredRows, row: ExportRow, site: FingerprintSite)
    requires WellFormed(row.body)
    ensures LeavesUncompared(row, WithSources(desired, unresolved), site) <==> IsUncompared(desired, unresolved, row, site)
  {
    if (row.kind, row.id) in desired {
      ProjectionIsWellFormed(row);
      SubstitutesExactly(desired, unresolved, row, false, site);
      HiddenSiteIs(row);
    }
  }

  lemma MaskedIsExact(desired: DesiredRows, unresolved: DesiredRows, row: ExportRow, site: FingerprintSite)
    requires WellFormed(row.body)
    ensures Substitutes(row, WithSources(desired, unresolved), true, site) <==> IsMaskedAncestor(desired, unresolved, row, site)
  {
    if (row.kind, row.id) in desired {
      ProjectionIsWellFormed(row);
      SubstitutesExactly(desired, unresolved, row, true, site);
    } else {
      NothingSubstituted(desired, unresolved, row, true, site);
    }
  }

  lemma RowIsExact(desired: DesiredRows, unresolved: DesiredRows, row: ExportRow, site: FingerprintSite)
    requires WellFormed(row.body)
    ensures LeavesUncompared(row, WithSources(desired, unresolved), site) <==> IsUncompared(desired, unresolved, row, site)
    ensures Substitutes(row, WithSources(desired, unresolved), true, site)
            <==> IsMaskedAncestor(desired, unresolved, row, site)
  {
    UncomparedIsExact(desired, unresolved, row, site);
    MaskedIsExact(desired, unresolved, row, site);
  }

  // ---- No site is listed twice ----

  lemma OnceThen<T>(s: seq<T>, x: T)
    requires Once(s) && x !in s
    ensures Once(s + [x])
  {
    var all := s + [x];
    forall i, j | 0 <= i < j < |all| ensures all[i] != all[j] { assert all[i] in s; }
  }

  /** None of these sites of the row is in the list. */
  ghost predicate NoneListed(log: seq<FingerprintSite>, row: ExportRow, sites: seq<Site>) {
    forall k :: 0 <= k < |sites| ==> FingerprintSite(row.kind, row.id, sites[k].pointer) !in log
  }

  lemma {:induction false} ListsOnce(log: seq<FingerprintSite>, row: ExportRow, sites: seq<Site>, upto: nat, ancestors: bool)
    requires upto <= |sites| && Once(log) && ListedOnce(sites) && NoneListed(log, row, sites)
    ensures Once(Listed(log, row, sites, upto, ancestors))
    decreases upto
  {
    if upto > 0 {
      var site := FingerprintSite(row.kind, row.id, sites[upto - 1].pointer);
      ListsOnce(log, row, sites, upto - 1, ancestors);
      ListedMember(log, row, sites, upto - 1, ancestors, site);
      OnceThen(Listed(log, row, sites, upto - 1, ancestors), site);
    }
  }

  lemma HiddenFieldIsNoIndex()
    ensures ParseIndex(HIDDEN_CREDENTIALS_FIELD).None?
  {
    assert HIDDEN_CREDENTIALS_FIELD[0] == 'h' && HIDDEN_CREDENTIALS_FIELD[|HIDDEN_CREDENTIALS_FIELD| - 1] == 't';
  }

  lemma NothingHiddenThere(row: ExportRow)
    requires WellFormed(row.body) && row.kind.ConsumerKind?
    ensures Resolve(Projected(row), [HIDDEN_CREDENTIALS_FIELD]).None?
  {
    ProjectionIsWellFormed(row);
    HiddenFieldIsNoIndex();
  }

  lemma PointerOfMember(field: string)
    ensures Push("", field) == Encode([field])
  {
    assert [] + [field] == [field];
    PushEncodes([], field);
  }

  /** The hidden credentials of a Consumer are not among the sites of its walk. */
  lemma HiddenIsNotRecorded(row: ExportRow, rows: DesiredRows, site: Site)
    requires WellFormed(row.body) && row.kind.ConsumerKind? && site in SitesShown(row, rows)
    ensures site.pointer != HiddenSite(row).pointer
  {
    var field, live := HIDDEN_CREDENTIALS_FIELD, Projected(row);
    ProjectionIsWellFormed(row);
    NothingHiddenThere(row);
    NothingRecordedThere(live, CoversOf(rows[(row.kind, row.id)]), [field], site);
    PointerOfMember(field);
  }

  /** Nothing in the list is a site of this row. */
  ghost predicate OfOthers(log: seq<FingerprintSite>, row: ExportRow) {
    forall site | site in log :: (site.kind, site.id) != (row.kind, row.id)
  }

  lemma RowSitesOnce(row: ExportRow, rows: DesiredRows)
    requires WellFormed(row.body)
    ensures ListedOnce(SitesShown(row, rows))
  {
    ProjectionIsWellFormed(row);
    if (row.kind, row.id) in rows { RecordsOnce([], Projected(row), CoversOf(rows[(row.kind, row.id)]), []); }
  }

  lemma ListsOnceAfter(log: seq<FingerprintSite>, hidden: FingerprintSite, row: ExportRow, sites: seq<Site>)
    requires Once(log) && OfOthers(log, row) && ListedOnce(sites) && (hidden.kind, hidden.id) == (row.kind, row.id)
    requires forall k :: 0 <= k < |sites| ==> sites[k].pointer != hidden.pointer
    ensures Once(Listed(log + [hidden], row, sites, |sites|, false))
  {
    OnceThen(log, hidden);
    ListsOnce(log + [hidden], row, sites, |sites|, false);
  }

  lemma UncomparedWithOnce(log: seq<FingerprintSite>, row: ExportRow, rows: DesiredRows)
    requires WellFormed(row.body) && Once(log) && OfOthers(log, row)
    ensures Once(UncomparedWith(log, row, rows))
  {
    var sites := SitesShown(row, rows);
    RowSitesOnce(row, rows);
    if row.kind.ConsumerKind? {
      forall k | 0 <= k < |sites| ensures sites[k].pointer != HiddenSite(row).pointer {
        HiddenIsNotRecorded(row, rows, sites[k]);
      }
      ListsOnceAfter(log, HiddenSite(row), row, sites);
    } else {
      ListsOnce(log, row, sites, |sites|, false);
    }
  }

  lemma MaskedWithOnce(log: seq<FingerprintSite>, row: ExportRow, rows: DesiredRows)
    requires WellFormed(row.body) && Once(log) && OfOthers(log, row)
    ensures Once(MaskedWith(log, row, rows))
  {
    RowSitesOnce(row, rows);
    ListsOnce(log, row, SitesShown(row, rows), |SitesShown(row, rows)|, true);
  }

  /** No two rows of the export are of one kind and id. */
  ghost predicate RowsDiffer(exported: seq<ExportRow>) {
    forall i, j :: 0 <= i < j < |exported| ==> (exported[i].kind, exported[i].id) != (exported[j].kind, exported[j].id)
  }

  /** Each site is one of the first `upto` rows'. */
  ghost predicate OfRows(log: seq<FingerprintSite>, exported: seq<ExportRow>, upto: nat)
    requires upto <= |exported|
  {
    forall site | site in log :: exists i :: 0 <= i < upto && (exported[i].kind, exported[i].id) == (site.kind, site.id)
  }

  lemma OfRowsIsOfOthers(log: seq<FingerprintSite>, exported: seq<ExportRow>, upto: nat)
    requires upto < |exported| && RowsDiffer(exported) && OfRows(log, exported, upto)
    ensures OfOthers(log, exported[upto])
  {}

  lemma {:induction false} SitesOnce(exported: seq<ExportRow>, rows: DesiredRows, upto: nat)
    requires upto <= |exported| && RowsDiffer(exported)
    requires forall i :: 0 <= i < |exported| ==> WellFormed(exported[i].body)
    ensures Once(Uncompared(exported, rows, upto)) && OfRows(Uncompared(exported, rows, upto), exported, upto)
    ensures Once(Masked(exported, rows, upto)) && OfRows(Masked(exported, rows, upto), exported, upto)
  {
    if upto > 0 {
      var row, seen, masked := exported[upto - 1], Uncompared(exported, rows, upto - 1), Masked(exported, rows, upto - 1);
      SitesOnce(exported, rows, upto - 1);
      OfRowsIsOfOthers(seen, exported, upto - 1);
      OfRowsIsOfOthers(masked, exported, upto - 1);
      UncomparedWithOnce(seen, row, rows);
      MaskedWithOnce(masked, row, rows);
      forall site | site in UncomparedWith(seen, row, rows)
        ensures exists i :: 0 <= i < upto && (exported[i].kind, exported[i].id) == (site.kind, site.id)
      {
        UncomparedWithMember(seen, row, rows, site);
      }
      forall site | site in MaskedWith(masked, row, rows)
        ensures exists i :: 0 <= i < upto && (exported[i].kind, exported[i].id) == (site.kind, site.id)
      {
        MaskedWithMember(masked, row, rows, site);
      }
    }
  }

  /** A view of rows that differ lists no site twice. */
  lemma ViewListsOnce(view: ExportLiveView, exported: seq<ExportRow>, rows: DesiredRows)
    requires IsView(view, exported, rows) && RowsDiffer(exported)
    requires forall i :: 0 <= i < |exported| ==> WellFormed(exported[i].body)
    ensures Once(view.uncompared) && Once(view.maskedAncestors)
  {
    SitesOnce(exported, rows, |exported|);
    SortOnce(Uncompared(exported, rows, |exported|), SiteLe);
    SortOnce(Masked(exported, rows, |exported|), SiteLe);
  }

  /** Consumers, plugin configs, proxies, upstreams: the order of the names of the kinds. */
  ghost function Rank(kind: Kind): nat {
    match kind
    case ConsumerKind => 0
    case PluginConfigKind => 1
    case ProxyKind => 2
    case UpstreamKind => 3
  }

  lemma KindsRank(a: Kind, b: Kind)
    requires Rank(a) < Rank(b)
    ensures ComesFirst(KindName(a), KindName(b)) && KindName(a) != KindName(b)
  {
    var s, t := KindName(a), KindName(b);
    assert KindName(ProxyKind)[1] == 'r' && KindName(PluginConfigKind)[1] == 'l';
    if s[0] == t[0] {
      assert s[..1] == t[..1];
      assert DifferAt(s, t, 1);
    } else {
      assert DifferAt(s, t, 0);
    }
  }

  /** By kind, then by id, then by pointer. */
  ghost predicate StandsBefore(a: FingerprintSite, b: FingerprintSite) {
    if a.kind != b.kind then Rank(a.kind) < Rank(b.kind)
    else if a.id != b.id then ComesFirst(a.id, b.id)
    else ComesFirst(a.pointer, b.pointer)
  }

  lemma SiteLeIs(a: FingerprintSite, b: FingerprintSite)
    requires SiteLe(a, b)
    ensures StandsBefore(a, b)
  {
    KeyLeIs((a.id, a.pointer), (b.id, b.pointer));
    if a.kind != b.kind {
      if Rank(b.kind) < Rank(a.kind) {
        KindsRank(b.kind, a.kind);
        LexLeIs(KindName(b.kind), KindName(a.kind));
        LexAntisymmetric(KindName(a.kind), KindName(b.kind));
      } else {
        KindsRank(a.kind, b.kind);
      }
    }
  }

  /** The sites stand in order. */
  ghost predicate InOrder(sites: seq<FingerprintSite>) {
    forall i, j :: 0 <= i < j < |sites| ==> StandsBefore(sites[i], sites[j])
  }

  lemma SortedSitesStand(sites: seq<FingerprintSite>)
    requires SortedBy(sites, SiteLe)
    ensures InOrder(sites)
  {
    forall i, j | 0 <= i < j < |sites| ensures StandsBefore(sites[i], sites[j]) { SiteLeIs(sites[i], sites[j]); }
  }

  /**
   * Both lists of a view, said of the two configurations: the places where the live row holds a
   * fingerprint and the declaration a secret, or a place above one, and the hidden credentials of the
   * declared Consumers.
   */
  lemma ViewIsExact(view: ExportLiveView, exported: seq<ExportRow>, desired: DesiredRows, unresolved: DesiredRows,
                    site: FingerprintSite)
    requires IsView(view, exported, WithSources(desired, unresolved))
    requires forall i :: 0 <= i < |exported| ==> WellFormed(exported[i].body)
    ensures InOrder(view.uncompared) && InOrder(view.maskedAncestors)
    ensures site in view.uncompared <==>
              exists i :: 0 <= i < |exported| && IsUncompared(desired, unresolved, exported[i], site)
    ensures site in view.maskedAncestors <==>
              exists i :: 0 <= i < |exported| && IsMaskedAncestor(desired, unresolved, exported[i], site)
  {
    var rows := WithSources(desired, unresolved);
    ViewSitesAreExact(view, exported, rows, site);
    SortedSitesStand(view.uncompared);
    SortedSitesStand(view.maskedAncestors);
    forall i | 0 <= i < |exported|
      ensures LeavesUncompared(exported[i], rows, site) <==> IsUncompared(desired, unresolved, exported[i], site)
      ensures Substitutes(exported[i], rows, true, site) <==> IsMaskedAncestor(desired, unresolved, exported[i], site)
    {
      RowIsExact(desired, unresolved, exported[i], site);
    }
  }

  lemma ScalarIsKept(live: Value, covers: Covers, path: Path)
    requires !HoldsFingerprint(live) && ChildCount(live) == 0
    ensures Substituted(live, covers, path) == live
  {
    SameChildrenSameValue(Substituted(live, covers, path), live);
  }

  /** At a masked place the view shows what is declared; any other scalar is shown as it is live. */
  lemma ShownExactly(desired: DesiredRows, unresolved: DesiredRows, row: ExportRow, q: Path)
    requires WellFormed(row.body) && Resolve(Projected(row), q).Some?
    ensures IsMasked(desired, unresolved, row, q) ==>
              Resolve(Shown(row, WithSources(desired, unresolved)), q) == Resolve(desired[(row.kind, row.id)].value, q)
    ensures !IsMasked(desired, unresolved, row, q) && ChildCount(Resolve(Projected(row), q).value) == 0 ==>
              Resolve(Shown(row, WithSources(desired, unresolved)), q) == Resolve(Projected(row), q)
  {
    var rows, key := WithSources(desired, unresolved), (row.kind, row.id);
    ProjectionIsWellFormed(row);
    if key in desired {
      var covers, live := CoversOf(rows[key]), Resolve(Projected(row), q).value;
      SubstitutionIsLocal(Projected(row), covers, [], q);
      assert [] + q == q;
      CoveredAfterSources(desired, unresolved, key, q);
      if !HoldsFingerprint(live) && ChildCount(live) == 0 { ScalarIsKept(live, covers, q); }
    }
  }

  // ---- Sections ----

  /** How many of the first `upto` rows are of this kind. */
  ghost function CountOf(exported: seq<ExportRow>, kind: Kind, upto: nat): nat
    requires upto <= |exported|
  {
    |Positions(exported, (row: ExportRow) => row.kind == kind, upto)|
  }

  lemma {:induction false} SectionCounts(exported: seq<ExportRow>, rows: DesiredRows, kind: Kind, upto: nat)
    requires upto <= |exported|
    ensures |Section(exported, rows, kind, upto)| == CountOf(exported, kind, upto)
    decreases upto
  {
    var ofKind := (row: ExportRow) => row.kind == kind;
    if upto > 0 {
      PositionsNext(exported, ofKind, upto);
      SectionCounts(exported, rows, kind, upto - 1);
    } else {
      assert Positions(exported, ofKind, 0) == {};
    }
  }

  /** A section holds the rows of its kind, each shown, in export order: a row stands after as many as precede it. */
  lemma {:induction false} SectionIsExact(exported: seq<ExportRow>, rows: DesiredRows, kind: Kind, upto: nat, i: nat)
    requires i < upto <= |exported|
    ensures |Section(exported, rows, kind, upto)| == CountOf(exported, kind, upto)
    ensures exported[i].kind == kind ==>
              && CountOf(exported, kind, i) < |Section(exported, rows, kind, upto)|
              && Section(exported, rows, kind, upto)[CountOf(exported, kind, i)] == Shown(exported[i], rows)
    decreases upto
  {
    SectionCounts(exported, rows, kind, upto);
    SectionCounts(exported, rows, kind, upto - 1);
    if i < upto - 1 { SectionIsExact(exported, rows, kind, upto - 1, i); }
  }
}
