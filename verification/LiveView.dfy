/**
 * The live configuration as an export shows it, made comparable with what the repository declares:
 * a fingerprint at a place the declaration keeps secret is replaced by the declared value and
 * recorded; everything else is compared as written.
 *
 * The tree is a value and the walk returns the changed tree; the pointer buffer and the record the
 * walk shares are kept in place.
 */
module LiveView {
  import opened Wrappers
  import opened JsonPointer

  const FINGERPRINT_PREFIX := "hmac-sha256:"

  predicate IsLowerHex(c: char) { '0' <= c <= '9' || 'a' <= c <= 'f' }

  predicate IsFingerprint(text: string) {
    && |text| == 76
    && text[..12] == FINGERPRINT_PREFIX
    && forall k :: 12 <= k < 76 ==> IsLowerHex(text[k])
  }

  lemma LowerHexIs(c: char)
    ensures IsLowerHex(c) <==> c in "0123456789abcdef"
  {
    var digits := "0123456789abcdef";
    if IsLowerHex(c) {
      var k := if c <= '9' then c as int - '0' as int else c as int - 'a' as int + 10;
      assert digits[k] == c;
    }
  }

  /** A fingerprint is the prefix and sixty-four lower-case hexadecimal digits, and nothing else is. */
  lemma FingerprintIs(text: string)
    ensures IsFingerprint(text) <==>
              |text| == 12 + 64 && text[..12] == "hmac-sha256:" && forall c :: c in text[12..] ==> c in "0123456789abcdef"
  {
    if |text| == 76 {
      assert forall k :: 12 <= k < 76 ==> text[k] == text[12..][k - 12];
      forall k | 12 <= k < 76 ensures IsLowerHex(text[k]) <==> text[k] in "0123456789abcdef" {
        LowerHexIs(text[k]);
      }
    }
  }

  predicate HoldsFingerprint(v: Value) { v.Str? && IsFingerprint(v.text) }

  // ---- Children, of an object by key and of an array by position ----

  function ChildCount(v: Value): nat {
    match v
    case Arr(items) => |items|
    case Obj(members) => |members|
    case _ => 0
  }

  function Segment(v: Value, i: nat): string
    requires i < ChildCount(v)
  {
    if v.Arr? then Decimal(i) else v.members[i].key
  }

  function ChildAt(v: Value, i: nat): (child: Value)
    requires i < ChildCount(v)
    ensures child < v
  {
    if v.Arr? then v.items[i] else assert v.members[i] < v; v.members[i].value
  }

  function Children(v: Value): (children: seq<Value>)
    ensures |children| == ChildCount(v)
    ensures forall i :: 0 <= i < |children| ==> children[i] == ChildAt(v, i)
  {
    seq(ChildCount(v), (i: nat) requires i < ChildCount(v) => ChildAt(v, i))
  }

  /** The same container around other children. */
  function WithChildren(v: Value, children: seq<Value>): (w: Value)
    requires |children| == ChildCount(v)
    ensures ChildCount(w) == ChildCount(v)
    ensures forall i :: 0 <= i < |children| ==> ChildAt(w, i) == children[i] && Segment(w, i) == Segment(v, i)
    ensures !HoldsFingerprint(v) ==> !HoldsFingerprint(w)
  {
    match v
    case Arr(items) => Arr(children)
    case Obj(members) =>
      Obj(seq(|members|, (i: nat) requires i < |members| => Member(members[i].key, children[i])))
    case _ => v
  }

  lemma WellFormedChild(v: Value, i: nat)
    requires WellFormed(v) && i < ChildCount(v)
    ensures WellFormed(ChildAt(v, i))
    ensures Child(v, Segment(v, i)) == Some(ChildAt(v, i))
  {
    if v.Arr? { IndexesRoundTrip(Segment(v, i), i); } else { MemberIsFound(v.members, i); }
  }

  lemma ChildHasPosition(v: Value, segment: string) returns (i: nat)
    requires Child(v, segment).Some?
    ensures i < ChildCount(v) && Segment(v, i) == segment && ChildAt(v, i) == Child(v, segment).value
  {
    if v.Arr? {
      i := ParseIndex(segment).value;
      IndexesRoundTrip(segment, i);
    } else {
      i := Find(v.members, segment);
    }
  }

  // ---- Secret-bearing places ----

  datatype DesiredRow = DesiredRow(value: Value, secretPointers: set<string>)

  /** `Some(false)` for a secret place, `Some(true)` for an ancestor of one. */
  function SecretBearing(row: DesiredRow, pointer: string): Option<bool> {
    if pointer in row.secretPointers then Some(false)
    else if exists secret :: secret in row.secretPointers && pointer + ['/'] <= secret then Some(true)
    else None
  }

  /** Comparing pointer texts decides the question about places. */
  lemma SecretBearingIsAboutPlaces(row: DesiredRow, places: set<Path>, path: Path)
    requires row.secretPointers == set q | q in places :: Encode(q)
    ensures SecretBearing(row, Encode(path)) == Some(false) <==> path in places
    ensures SecretBearing(row, Encode(path)) == Some(true)
            <==> path !in places && exists q :: q in places && path < q
  {
    forall q | q in places ensures Encode(path) == Encode(q) ==> path == q {
      if Encode(path) == Encode(q) { EncodeIsInjective(path, q); }
    }
    forall q | q in places ensures Encode(path) + ['/'] <= Encode(q) <==> path < q {
      PointersNestAsPathsDo(path, q);
    }
    if q :| q in places && path < q {
      assert Encode(q) in row.secretPointers && Encode(path) + ['/'] <= Encode(q);
    }
  }

  /** What a fingerprint at one place is replaced by. */
  datatype Cover = Cover(value: Value, ancestor: bool)

  type Covers = Path -> Option<Cover>

  function CoverAt(row: DesiredRow, pointer: string): Option<Cover> {
    match (Lookup(row.value, pointer), SecretBearing(row, pointer))
    case (Some(expected), Some(ancestor)) => Some(Cover(expected, ancestor))
    case _ => None
  }

  function CoversOf(row: DesiredRow): Covers {
    (path: Path) => CoverAt(row, Encode(path))
  }

  // ---- The substitution ----

  datatype Site = Site(pointer: string, ancestor: bool)

  function Substituted(live: Value, covers: Covers, path: Path): Value
    decreases live, 1, 0
  {
    if HoldsFingerprint(live) then
      match covers(path)
      case Some(cover) => cover.value
      case None => live
    else WithChildren(live, SubstitutedChildren(live, covers, path, ChildCount(live)))
  }

  /** The children once the first `upto` of them have been rewritten. */
  function SubstitutedChildren(live: Value, covers: Covers, path: Path, upto: nat): (r: seq<Value>)
    requires upto <= ChildCount(live)
    ensures |r| == ChildCount(live)
    decreases live, 0, upto + 1
  {
    if upto == 0 then Children(live)
    else
      SubstitutedChildren(live, covers, path, upto - 1)
        [upto - 1 := SubstitutedChild(live, covers, path, upto - 1)]
  }

  function SubstitutedChild(live: Value, covers: Covers, path: Path, i: nat): Value
    requires i < ChildCount(live)
    decreases live, 0, 0
  {
    Substituted(ChildAt(live, i), covers, path + [Segment(live, i)])
  }

  /** The record after the walk below `path`, from the record before it. */
  function Recorded(log: seq<Site>, live: Value, covers: Covers, path: Path): seq<Site>
    decreases live, 1, 0
  {
    if HoldsFingerprint(live) then
      match covers(path)
      case Some(cover) => log + [Site(Encode(path), cover.ancestor)]
      case None => log
    else RecordedBelow(log, live, covers, path, ChildCount(live))
  }

  function RecordedBelow(log: seq<Site>, live: Value, covers: Covers, path: Path, upto: nat): seq<Site>
    requires upto <= ChildCount(live)
    decreases live, 0, upto + 1
  {
    if upto == 0 then log
    else RecordedChild(RecordedBelow(log, live, covers, path, upto - 1), live, covers, path, upto - 1)
  }

  function RecordedChild(log: seq<Site>, live: Value, covers: Covers, path: Path, i: nat): seq<Site>
    requires i < ChildCount(live)
    decreases live, 0, 0
  {
    Recorded(log, ChildAt(live, i), covers, path + [Segment(live, i)])
  }

  /** The pointer text a walk shares: a segment is pushed on the way down and cut off on the way up. */
  class PointerBuffer {
    var text: string

    constructor ()
      ensures text == ""
    {
      text := "";
    }

    method PushPointerSegment(segment: string)
      modifies this
      ensures text == Push(old(text), segment)
    {
      text := text + ['/'];
      var i := 0;
      ghost var start := text;
      while i < |segment|
        invariant i <= |segment|
        invariant text + Escape(segment[i..]) == start + Escape(segment)
      {
        assert segment[i..][0] == segment[i] && segment[i..][1..] == segment[i + 1..];
        text := text + EscapeChar(segment[i]);
        i := i + 1;
      }
      assert text + Escape(segment[i..]) == text;
      assert start + Escape(segment) == old(text) + (['/'] + Escape(segment));
    }
  }

  class SiteLog {
    var sites: seq<Site>

    constructor ()
      ensures sites == []
    {
      sites := [];
    }
  }

  method SubstituteFingerprints(live: Value, row: DesiredRow, pointer: PointerBuffer, log: SiteLog,
                                ghost path: Path, ghost covers: Covers)
    returns (result: Value)
    requires pointer.text == Encode(path) && covers == CoversOf(row)
    modifies pointer, log
    ensures pointer.text == old(pointer.text)
    ensures result == Substituted(live, covers, path)
    ensures log.sites == Recorded(old(log.sites), live, covers, path)
    decreases live, 2
  {
    if HoldsFingerprint(live) {
      match CoverAt(row, pointer.text) {
        case None => return live;
        case Some(cover) =>
          log.sites := log.sites + [Site(pointer.text, cover.ancestor)];
          return cover.value;
      }
    }
    var children := SubstituteChildren(live, row, pointer, log, path, covers);
    result := WithChildren(live, children);
  }

  method SubstituteChildren(live: Value, row: DesiredRow, pointer: PointerBuffer, log: SiteLog,
                            ghost path: Path, ghost covers: Covers)
    returns (children: seq<Value>)
    requires pointer.text == Encode(path) && covers == CoversOf(row)
    modifies pointer, log
    ensures pointer.text == old(pointer.text)
    ensures children == SubstitutedChildren(live, covers, path, ChildCount(live))
    ensures log.sites == RecordedBelow(old(log.sites), live, covers, path, ChildCount(live))
    decreases live, 1
  {
    children := Children(live);
    ghost var start := log.sites;
    for i := 0 to ChildCount(live)
      invariant pointer.text == old(pointer.text)
      invariant children == SubstitutedChildren(live, covers, path, i)
      invariant log.sites == RecordedBelow(start, live, covers, path, i)
    {
      children := SubstituteOne(live, i, children, row, pointer, log, path, covers, start);
    }
  }

  /** Push the child's segment, substitute below it, and cut the pointer back. */
  method SubstituteOne(live: Value, i: nat, before: seq<Value>, row: DesiredRow, pointer: PointerBuffer,
                       log: SiteLog, ghost path: Path, ghost covers: Covers, ghost start: seq<Site>)
    returns (children: seq<Value>)
    requires i < ChildCount(live)
    requires pointer.text == Encode(path) && covers == CoversOf(row)
    requires before == SubstitutedChildren(live, covers, path, i)
    requires log.sites == RecordedBelow(start, live, covers, path, i)
    modifies pointer, log
    ensures pointer.text == old(pointer.text)
    ensures children == SubstitutedChildren(live, covers, path, i + 1)
    ensures log.sites == RecordedBelow(start, live, covers, path, i + 1)
    decreases live, 0
  {
    var length := |pointer.text|;
    PushEncodes(path, Segment(live, i));
    pointer.PushPointerSegment(Segment(live, i));
    var child := SubstituteFingerprints(ChildAt(live, i), row, pointer, log, path + [Segment(live, i)], covers);
    pointer.text := pointer.text[..length];
    children := before[i := child];
  }

  // ---- What the substitution hides ----

  lemma {:induction false} ChildIsSubstituted(live: Value, covers: Covers, path: Path, upto: nat, i: nat)
    requires i < ChildCount(live) && upto <= ChildCount(live)
    ensures SubstitutedChildren(live, covers, path, upto)[i]
            == if i < upto then Substituted(ChildAt(live, i), covers, path + [Segment(live, i)]) else ChildAt(live, i)
    decreases upto
  {
    if upto > 0 { ChildIsSubstituted(live, covers, path, upto - 1, i); }
  }

  /** Both are arrays of one length, objects with the same keys, or the same scalar. */
  predicate SameShape(a: Value, b: Value) {
    match (a, b)
    case (Arr(xs), Arr(ys)) => |xs| == |ys|
    case (Obj(xs), Obj(ys)) => |xs| == |ys| && forall i :: 0 <= i < |xs| ==> xs[i].key == ys[i].key
    case _ => a == b
  }

  /** `live` differs from `declared` only by fingerprints at covered places. */
  ghost predicate Agrees(live: Value, declared: Value, covers: Covers, path: Path)
    decreases live
  {
    if HoldsFingerprint(live) then live == declared || covers(path).Some?
    else
      && SameShape(live, declared)
      && forall i: nat :: i < ChildCount(live) ==>
           Agrees(ChildAt(live, i), ChildAt(declared, i), covers, path + [Segment(live, i)])
  }

  lemma SameChildrenSameValue(a: Value, b: Value)
    requires SameShape(a, b)
    requires forall i :: 0 <= i < ChildCount(a) ==> ChildAt(a, i) == ChildAt(b, i)
    ensures a == b
  {
    match (a, b)
    case (Arr(xs), Arr(ys)) => assert forall i :: 0 <= i < |xs| ==> xs[i] == ChildAt(a, i) && ys[i] == ChildAt(b, i);
    case (Obj(xs), Obj(ys)) =>
      forall i | 0 <= i < |xs| ensures xs[i] == ys[i] {
        assert ChildAt(a, i) == ChildAt(b, i);
      }
    case _ =>
  }

  lemma ShapeIsKept(live: Value, children: seq<Value>, other: Value)
    requires |children| == ChildCount(live)
    ensures SameShape(live, other) ==> SameShape(WithChildren(live, children), other)
    ensures WithChildren(live, children) == other ==> SameShape(live, other)
  {}

  predicate Covered(covers: Covers, path: Path) { covers(path).Some? }

  /** The places covered at and below `path` are covered by the values `declared` has there. */
  ghost predicate CoversDeclare(covers: Covers, declared: Value, path: Path) {
    forall q :: Covered(covers, path + q) ==> Resolve(declared, q) == Some(covers(path + q).value.value)
  }

  lemma CoversDeclareBelow(covers: Covers, declared: Value, path: Path, i: nat)
    requires WellFormed(declared) && CoversDeclare(covers, declared, path) && i < ChildCount(declared)
    ensures CoversDeclare(covers, ChildAt(declared, i), path + [Segment(declared, i)])
  {
    var segment := Segment(declared, i);
    WellFormedChild(declared, i);
    forall q | Covered(covers, path + [segment] + q)
      ensures Resolve(ChildAt(declared, i), q) == Some(covers(path + [segment] + q).value.value)
    {
      assert path + [segment] + q == path + ([segment] + q);
      assert Covered(covers, path + ([segment] + q));
      assert ([segment] + q)[1..] == q;
    }
  }

  lemma RowCoversDeclare(row: DesiredRow)
    ensures CoversDeclare(CoversOf(row), row.value, [])
  {
    forall q | Covered(CoversOf(row), [] + q)
      ensures Resolve(row.value, q) == Some(CoversOf(row)([] + q).value.value)
    {
      assert [] + q == q;
      LookupFollowsPath(row.value, q);
    }
  }

  /**
   * The substituted tree is the declared one exactly when the live tree differed from it by nothing
   * but fingerprints at covered places.
   */
  lemma {:induction false} SubstitutionMeetsDeclaration(live: Value, declared: Value, covers: Covers, path: Path)
    requires WellFormed(declared) && CoversDeclare(covers, declared, path)
    ensures Substituted(live, covers, path) == declared <==> Agrees(live, declared, covers, path)
    decreases live
  {
    if HoldsFingerprint(live) {
      assert path + [] == path;
      if covers(path).Some? { assert Covered(covers, path + []); }
    } else {
      var result := Substituted(live, covers, path);
      var n := ChildCount(live);
      ShapeIsKept(live, SubstitutedChildren(live, covers, path, n), declared);
      if SameShape(live, declared) {
        forall i: nat | i < n
          ensures ChildAt(result, i) == ChildAt(declared, i)
                  <==> Agrees(ChildAt(live, i), ChildAt(declared, i), covers, path + [Segment(live, i)])
        {
          ChildIsSubstituted(live, covers, path, n, i);
          WellFormedChild(declared, i);
          CoversDeclareBelow(covers, declared, path, i);
          assert Segment(live, i) == Segment(declared, i);
          SubstitutionMeetsDeclaration(ChildAt(live, i), ChildAt(declared, i), covers, path + [Segment(live, i)]);
        }
        if Agrees(live, declared, covers, path) { SameChildrenSameValue(result, declared); }
      }
    }
  }

  lemma {:induction false} SameKeysSamePosition(a: seq<Member>, b: seq<Member>, key: string)
    requires |a| == |b| && forall k :: 0 <= k < |a| ==> a[k].key == b[k].key
    ensures Find(a, key) == Find(b, key)
  {
    if a != [] && a[0].key != key {
      forall k | 0 <= k < |a| - 1 ensures a[1..][k].key == b[1..][k].key {
        assert a[k + 1].key == b[k + 1].key;
      }
      SameKeysSamePosition(a[1..], b[1..], key);
    }
  }

  lemma SameChildFound(v: Value, children: seq<Value>, i: nat)
    requires WellFormed(v) && |children| == ChildCount(v) && i < |children|
    ensures Child(WithChildren(v, children), Segment(v, i)) == Some(children[i])
  {
    if v.Arr? {
      IndexesRoundTrip(Segment(v, i), i);
    } else {
      var w := WithChildren(v, children);
      SameKeysSamePosition(v.members, w.members, v.members[i].key);
      assert Find(v.members, v.members[i].key) == i;
    }
  }

  lemma ChildOfSubstituted(live: Value, covers: Covers, path: Path, i: nat)
    requires WellFormed(live) && !HoldsFingerprint(live) && i < ChildCount(live)
    ensures Child(Substituted(live, covers, path), Segment(live, i))
            == Some(Substituted(ChildAt(live, i), covers, path + [Segment(live, i)]))
  {
    var n := ChildCount(live);
    ChildIsSubstituted(live, covers, path, n, i);
    SameChildFound(live, SubstitutedChildren(live, covers, path, n), i);
  }

  /** `walk` treats a child as it would on its own. */
  ghost predicate Descends(walk: (Value, Path) -> Value, live: Value, path: Path, i: nat)
    requires i < ChildCount(live)
  {
    Child(walk(live, path), Segment(live, i)) == Some(walk(ChildAt(live, i), path + [Segment(live, i)]))
  }

  lemma PathSplits(path: Path, q: Path)
    requires q != []
    ensures path + [q[0]] + q[1..] == path + q
  {}

  lemma {:induction false} DescendsAlongPath(walk: (Value, Path) -> Value, live: Value, path: Path, q: Path)
    requires WellFormed(live) && Resolve(live, q).Some?
    requires forall v, p, i: nat ::
               WellFormed(v) && i < ChildCount(v) && !HoldsFingerprint(v) ==> Descends(walk, v, p, i)
    ensures Resolve(walk(live, path), q) == Some(walk(Resolve(live, q).value, path + q))
    decreases |q|
  {
    if q == [] {
      assert path + q == path;
    } else {
      var i := ChildHasPosition(live, q[0]);
      WellFormedChild(live, i);
      assert Descends(walk, live, path, i);
      DescendsAlongPath(walk, ChildAt(live, i), path + [q[0]], q[1..]);
      PathSplits(path, q);
    }
  }

  /** The live tree below any place is substituted on its own: nothing at one place reaches another. */
  lemma SubstitutionIsLocal(live: Value, covers: Covers, path: Path, q: Path)
    requires WellFormed(live) && Resolve(live, q).Some?
    ensures Resolve(Substituted(live, covers, path), q)
            == Some(Substituted(Resolve(live, q).value, covers, path + q))
  {
    var walk := (v: Value, p: Path) => Substituted(v, covers, p);
    forall v, p, i: nat | WellFormed(v) && i < ChildCount(v) && !HoldsFingerprint(v)
      ensures Descends(walk, v, p, i)
    {
      ChildOfSubstituted(v, covers, p, i);
    }
    DescendsAlongPath(walk, live, path, q);
  }

  /** `q` below `path` holds a fingerprint the declaration covers, recorded as `site`. */
  ghost predicate Hidden(live: Value, covers: Covers, path: Path, q: Path, site: Site) {
    && Resolve(live, q).Some? && HoldsFingerprint(Resolve(live, q).value)
    && covers(path + q).Some?
    && site == Site(Encode(path + q), covers(path + q).value.ancestor)
  }

  lemma HiddenInChild(live: Value, covers: Covers, path: Path, i: nat, q: Path, site: Site)
    requires WellFormed(live) && !HoldsFingerprint(live) && i < ChildCount(live)
    ensures Hidden(ChildAt(live, i), covers, path + [Segment(live, i)], q, site)
            <==> Hidden(live, covers, path, [Segment(live, i)] + q, site)
  {
    var segment := Segment(live, i);
    WellFormedChild(live, i);
    assert path + [segment] + q == path + ([segment] + q);
    assert ([segment] + q)[1..] == q;
  }

  ghost predicate HiddenBelow(live: Value, covers: Covers, path: Path, i: nat, q: Path, site: Site)
    requires i < ChildCount(live)
  {
    Hidden(ChildAt(live, i), covers, path + [Segment(live, i)], q, site)
  }

  /** The record lists exactly the covered fingerprints, besides what it held before. */
  lemma {:induction false} RecordIsExact(log: seq<Site>, live: Value, covers: Covers, path: Path, site: Site)
    requires WellFormed(live)
    ensures site in Recorded(log, live, covers, path)
            <==> site in log || exists q :: Hidden(live, covers, path, q, site)
    decreases live, 1, 0
  {
    assert path + [] == path;
    if HoldsFingerprint(live) {
      forall q | Hidden(live, covers, path, q, site) ensures q == [] {}
      assert Hidden(live, covers, path, [], site) <==>
               covers(path).Some? && site == Site(Encode(path), covers(path).value.ancestor);
    } else {
      var n := ChildCount(live);
      RecordBelowIsExact(log, live, covers, path, n, site);
      forall q | Hidden(live, covers, path, q, site)
        ensures exists i: nat, r :: i < n && HiddenBelow(live, covers, path, i, r, site)
      {
        var i := ChildHasPosition(live, q[0]);
        assert q == [Segment(live, i)] + q[1..];
        HiddenInChild(live, covers, path, i, q[1..], site);
        assert HiddenBelow(live, covers, path, i, q[1..], site);
      }
      if i: nat, r :| i < n && HiddenBelow(live, covers, path, i, r, site) {
        HiddenInChild(live, covers, path, i, r, site);
      }
    }
  }

  lemma {:induction false} RecordBelowIsExact(log: seq<Site>, live: Value, covers: Covers, path: Path, upto: nat, site: Site)
    requires WellFormed(live) && upto <= ChildCount(live)
    ensures site in RecordedBelow(log, live, covers, path, upto)
            <==> site in log || exists i: nat, q :: i < upto && HiddenBelow(live, covers, path, i, q, site)
    decreases live, 0, upto
  {
    if upto > 0 {
      var last := upto - 1;
      RecordBelowIsExact(log, live, covers, path, last, site);
      WellFormedChild(live, last);
      RecordIsExact(RecordedBelow(log, live, covers, path, last),
                    ChildAt(live, last), covers, path + [Segment(live, last)], site);
      forall q ensures Hidden(ChildAt(live, last), covers, path + [Segment(live, last)], q, site)
                       <==> HiddenBelow(live, covers, path, last, q, site) {}
    }
  }

  /** No pointer is listed twice. */
  ghost predicate ListedOnce(log: seq<Site>) {
    forall i, j :: 0 <= i < j < |log| ==> log[i].pointer != log[j].pointer
  }

  /** Nothing listed lies at the path or below it. */
  ghost predicate Untouched(log: seq<Site>, path: Path) {
    forall site, q :: site in log ==> site.pointer != Encode(path + q)
  }

  lemma SegmentsDiffer(v: Value, i: nat, j: nat)
    requires WellFormed(v) && i < j < ChildCount(v)
    ensures Segment(v, i) != Segment(v, j)
  {
    if v.Arr? {
      IndexesRoundTrip(Segment(v, i), i);
      IndexesRoundTrip(Segment(v, j), j);
    }
  }

  lemma PathsPart(path: Path, a: string, r: Path, b: string, q: Path)
    requires a != b
    ensures Encode(path + [a] + r) != Encode(path + [b] + q)
  {
    var x, y := path + [a] + r, path + [b] + q;
    assert x[|path|] == a && y[|path|] == b;
    if Encode(x) == Encode(y) { EncodeIsInjective(x, y); }
  }

  lemma SiblingsStayUntouched(log: seq<Site>, live: Value, covers: Covers, path: Path, i: nat)
    requires WellFormed(live) && i < ChildCount(live) && Untouched(log, path)
    ensures Untouched(RecordedBelow(log, live, covers, path, i), path + [Segment(live, i)])
  {
    var after := RecordedBelow(log, live, covers, path, i);
    forall site, q | site in after ensures site.pointer != Encode(path + [Segment(live, i)] + q) {
      RecordBelowIsExact(log, live, covers, path, i, site);
      assert path + [Segment(live, i)] + q == path + ([Segment(live, i)] + q);
      if j: nat, r :| j < i && HiddenBelow(live, covers, path, j, r, site) {
        SegmentsDiffer(live, j, i);
        PathsPart(path, Segment(live, j), r, Segment(live, i), q);
      }
    }
  }

  /** The walk lists no place twice. */
  lemma {:induction false} RecordsOnce(log: seq<Site>, live: Value, covers: Covers, path: Path)
    requires WellFormed(live) && ListedOnce(log) && Untouched(log, path)
    ensures ListedOnce(Recorded(log, live, covers, path))
    decreases live, 1, 0
  {
    if HoldsFingerprint(live) {
      assert path + [] == path;
      forall k | 0 <= k < |log| ensures log[k].pointer != Encode(path) { assert log[k] in log; }
    } else {
      RecordsOnceBelow(log, live, covers, path, ChildCount(live));
    }
  }

  lemma {:induction false} RecordsOnceBelow(log: seq<Site>, live: Value, covers: Covers, path: Path, upto: nat)
    requires WellFormed(live) && upto <= ChildCount(live) && ListedOnce(log) && Untouched(log, path)
    ensures ListedOnce(RecordedBelow(log, live, covers, path, upto))
    decreases live, 0, upto
  {
    if upto > 0 {
      var last := upto - 1;
      RecordsOnceBelow(log, live, covers, path, last);
      SiblingsStayUntouched(log, live, covers, path, last);
      WellFormedChild(live, last);
      RecordsOnce(RecordedBelow(log, live, covers, path, last), ChildAt(live, last), covers, path + [Segment(live, last)]);
    }
  }

  /** The walk lists no place that is not there. */
  lemma NothingRecordedThere(live: Value, covers: Covers, place: Path, site: Site)
    requires WellFormed(live) && Resolve(live, place).None? && site in Recorded([], live, covers, [])
    ensures site.pointer != Encode(place)
  {
    RecordIsExact([], live, covers, [], site);
    var q :| Hidden(live, covers, [], q, site);
    assert [] + q == q;
    if Encode(q) == Encode(place) { EncodeIsInjective(q, place); }
  }

  /** A record that did not grow means the tree was not changed. */
  lemma {:induction false} NothingRecordedNothingChanged(log: seq<Site>, live: Value, covers: Covers, path: Path)
    ensures |Recorded(log, live, covers, path)| >= |log|
    ensures |Recorded(log, live, covers, path)| == |log| ==> Substituted(live, covers, path) == live
    decreases live, 1, 0
  {
    if !HoldsFingerprint(live) {
      var n := ChildCount(live);
      NothingRecordedBelow(log, live, covers, path, n);
      if |RecordedBelow(log, live, covers, path, n)| == |log| {
        SameChildrenSameValue(Substituted(live, covers, path), live);
      }
    }
  }

  lemma {:induction false} NothingRecordedBelow(log: seq<Site>, live: Value, covers: Covers, path: Path, upto: nat)
    requires upto <= ChildCount(live)
    ensures |RecordedBelow(log, live, covers, path, upto)| >= |log|
    ensures |RecordedBelow(log, live, covers, path, upto)| == |log| ==>
              SubstitutedChildren(live, covers, path, upto) == Children(live)
    decreases live, 0, upto
  {
    if upto > 0 {
      var last := upto - 1;
      NothingRecordedBelow(log, live, covers, path, last);
      NothingRecordedNothingChanged(RecordedBelow(log, live, covers, path, last),
                                    ChildAt(live, last), covers, path + [Segment(live, last)]);
    }
  }
}
