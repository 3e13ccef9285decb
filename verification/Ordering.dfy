/**
 * The two orders the program sorts by, and the stable sort it sorts with.
 *
 * Strings are compared code point by code point, which for UTF-8 is the byte order that the
 * program's string comparison uses.
 */
module Ordering {

  predicate LexLe(a: string, b: string) {
    if a == "" then true
    else if b == "" then false
    else if a[0] != b[0] then a[0] < b[0]
    else LexLe(a[1..], b[1..])
  }

  lemma LexTotal(a: string, b: string)
    ensures LexLe(a, b) || LexLe(b, a)
  {}

  lemma LexTransitive(a: string, b: string, c: string)
    requires LexLe(a, b) && LexLe(b, c)
    ensures LexLe(a, c)
  {}

  lemma {:induction false} LexAntisymmetric(a: string, b: string)
    requires LexLe(a, b) && LexLe(b, a)
    ensures a == b
  {
    if a != "" && b != "" {
      LexAntisymmetric(a[1..], b[1..]);
      assert a == [a[0]] + a[1..] && b == [b[0]] + b[1..];
    }
  }

  ghost predicate DifferAt(a: string, b: string, k: int) {
    0 <= k < |a| && k < |b| && a[..k] == b[..k] && a[k] != b[k]
  }

  /** `b` goes on where `a` ends, or has the greater character where they first differ. */
  ghost predicate ComesFirst(a: string, b: string) {
    a <= b || exists k :: DifferAt(a, b, k) && a[k] < b[k]
  }

  lemma DifferFurther(a: string, b: string, k: int)
    requires a != "" && b != "" && a[0] == b[0]
    ensures DifferAt(a, b, k) <==> k > 0 && DifferAt(a[1..], b[1..], k - 1)
  {
    if 0 < k < |a| && k < |b| {
      assert a[..k] == [a[0]] + a[1..][..k - 1] && b[..k] == [b[0]] + b[1..][..k - 1];
      assert a[..k][1..] == a[1..][..k - 1] && b[..k][1..] == b[1..][..k - 1];
    }
  }

  /** The comparison is the order of dictionaries. */
  lemma {:induction false} LexLeIs(a: string, b: string)
    ensures LexLe(a, b) <==> ComesFirst(a, b)
    decreases |a|
  {
    if a != "" && b != "" {
      if a[0] != b[0] {
        assert DifferAt(a, b, 0);
      } else {
        var x, y := a[1..], b[1..];
        LexLeIs(x, y);
        assert a == [a[0]] + x && b == [b[0]] + y;
        assert a <= b <==> x <= y;
        if k :| DifferAt(a, b, k) && a[k] < b[k] { DifferFurther(a, b, k); }
        if k :| DifferAt(x, y, k) && x[k] < y[k] { DifferFurther(a, b, k + 1); }
      }
    }
  }

  /** A resource's identity: its namespace and its id. */
  type Key = (string, string)

  predicate KeyLe(a: Key, b: Key) {
    if a.0 == b.0 then LexLe(a.1, b.1) else LexLe(a.0, b.0)
  }

  /** Keys compare by namespace, and within one by id. */
  lemma KeyLeIs(a: Key, b: Key)
    ensures KeyLe(a, b) <==> if a.0 == b.0 then ComesFirst(a.1, b.1) else ComesFirst(a.0, b.0)
  {
    LexLeIs(a.0, b.0);
    LexLeIs(a.1, b.1);
  }

  lemma KeyLeIsOrder()
    ensures forall a, b :: KeyLe(a, b) || KeyLe(b, a)
    ensures forall a, b, c :: KeyLe(a, b) && KeyLe(b, c) ==> KeyLe(a, c)
    ensures forall a, b :: KeyLe(a, b) && KeyLe(b, a) ==> a == b
  {
    forall a: Key, b: Key ensures KeyLe(a, b) || KeyLe(b, a) {
      LexTotal(a.0, b.0);
      LexTotal(a.1, b.1);
    }
    forall a: Key, b: Key | KeyLe(a, b) && KeyLe(b, a) ensures a == b {
      if a.0 != b.0 { LexAntisymmetric(a.0, b.0); }
      LexAntisymmetric(a.1, b.1);
    }
    forall a: Key, b: Key, c: Key | KeyLe(a, b) && KeyLe(b, c) ensures KeyLe(a, c) {
      if a.0 == b.0 && b.0 == c.0 {
        LexTransitive(a.1, b.1, c.1);
      } else if a.0 != b.0 && b.0 != c.0 {
        LexTransitive(a.0, b.0, c.0);
        if a.0 == c.0 { LexAntisymmetric(a.0, b.0); }
      }
    }
  }

  /** Three strings compared from the left. */
  type Triple = (string, string, string)

  predicate TripleLe(a: Triple, b: Triple) {
    if a.0 == b.0 then KeyLe((a.1, a.2), (b.1, b.2)) else LexLe(a.0, b.0)
  }

  lemma TripleLeIsOrder()
    ensures forall a, b :: TripleLe(a, b) || TripleLe(b, a)
    ensures forall a, b, c :: TripleLe(a, b) && TripleLe(b, c) ==> TripleLe(a, c)
    ensures forall a, b :: TripleLe(a, b) && TripleLe(b, a) ==> a == b
  {
    KeyLeIsOrder();
    forall a: Triple, b: Triple ensures TripleLe(a, b) || TripleLe(b, a) {
      LexTotal(a.0, b.0);
    }
    forall a: Triple, b: Triple | TripleLe(a, b) && TripleLe(b, a) ensures a == b {
      if a.0 != b.0 { LexAntisymmetric(a.0, b.0); }
    }
    forall a: Triple, b: Triple, c: Triple | TripleLe(a, b) && TripleLe(b, c) ensures TripleLe(a, c) {
      if a.0 != b.0 && b.0 != c.0 {
        LexTransitive(a.0, b.0, c.0);
        if a.0 == c.0 { LexAntisymmetric(a.0, b.0); }
      }
    }
  }

  /** A total, transitive comparison, as a sort requires of its comparator. */
  ghost predicate Preorder<T(!new)>(le: (T, T) -> bool) {
    && (forall a, b :: le(a, b) || le(b, a))
    && (forall a, b, c :: le(a, b) && le(b, c) ==> le(a, c))
  }

  ghost predicate SortedBy<T>(s: seq<T>, le: (T, T) -> bool) {
    forall i, j :: 0 <= i < j < |s| ==> le(s[i], s[j])
  }

  function Insert<T>(x: T, s: seq<T>, le: (T, T) -> bool): seq<T> {
    if s == [] || le(x, s[0]) then [x] + s
    else [s[0]] + Insert(x, s[1..], le)
  }

  /** The stable sort: an element is inserted before the later elements it ties with. */
  function StableSort<T>(s: seq<T>, le: (T, T) -> bool): seq<T> {
    if s == [] then [] else Insert(s[0], StableSort(s[1..], le), le)
  }

  lemma InsertPermutes<T>(x: T, s: seq<T>, le: (T, T) -> bool)
    ensures multiset(Insert(x, s, le)) == multiset([x]) + multiset(s)
  {
    if s == [] || le(x, s[0]) {
    } else {
      InsertPermutes(x, s[1..], le);
      assert s == [s[0]] + s[1..];
    }
  }

  lemma {:induction false} SortPermutes<T>(s: seq<T>, le: (T, T) -> bool)
    ensures multiset(StableSort(s, le)) == multiset(s)
    ensures |StableSort(s, le)| == |s|
  {
    if s == [] {
    } else {
      SortPermutes(s[1..], le);
      InsertPermutes(s[0], StableSort(s[1..], le), le);
      assert s == [s[0]] + s[1..];
    }
    assert |multiset(StableSort(s, le))| == |StableSort(s, le)|;
  }

  lemma {:induction false} InsertSorts<T(!new)>(x: T, s: seq<T>, le: (T, T) -> bool)
    requires Preorder(le) && SortedBy(s, le)
    ensures SortedBy(Insert(x, s, le), le)
  {
    if s == [] || le(x, s[0]) {
    } else {
      InsertSorts(x, s[1..], le);
      InsertPermutes(x, s[1..], le);
      forall y | y in Insert(x, s[1..], le) ensures le(s[0], y) {
        assert y in multiset(Insert(x, s[1..], le));
        assert y == x || y in s[1..];
      }
    }
  }

  lemma {:induction false} SortSorts<T(!new)>(s: seq<T>, le: (T, T) -> bool)
    requires Preorder(le)
    ensures SortedBy(StableSort(s, le), le)
  {
    if s != [] {
      SortSorts(s[1..], le);
      InsertSorts(s[0], StableSort(s[1..], le), le);
    }
  }

  lemma SortedMember<T(!new)>(s: seq<T>, le: (T, T) -> bool, x: T)
    requires Preorder(le)
    ensures SortedBy(StableSort(s, le), le)
    ensures x in StableSort(s, le) <==> x in s
  {
    SortSorts(s, le);
    SortPermutes(s, le);
    assert x in multiset(StableSort(s, le)) <==> x in multiset(s);
  }

  /** Nothing stands in the list twice. */
  ghost predicate Once<T>(s: seq<T>) { forall i, j :: 0 <= i < j < |s| ==> s[i] != s[j] }

  lemma OnceBefore<T>(x: T, s: seq<T>)
    requires Once(s) && x !in s
    ensures Once([x] + s)
  {
    var all := [x] + s;
    forall i, j | 0 <= i < j < |all| ensures all[i] != all[j] {
      assert all[j] == s[j - 1] && all[j] in s;
    }
  }

  lemma {:induction false} InsertMember<T>(x: T, s: seq<T>, le: (T, T) -> bool, y: T)
    ensures y in Insert(x, s, le) <==> y == x || y in s
  {
    if s != [] && !le(x, s[0]) {
      InsertMember(x, s[1..], le, y);
      assert s == [s[0]] + s[1..];
    }
  }

  lemma {:induction false} InsertOnce<T>(x: T, s: seq<T>, le: (T, T) -> bool)
    requires Once(s) && x !in s
    ensures Once(Insert(x, s, le))
  {
    if s == [] || le(x, s[0]) {
      OnceBefore(x, s);
    } else {
      InsertOnce(x, s[1..], le);
      InsertMember(x, s[1..], le, s[0]);
      OnceBefore(s[0], Insert(x, s[1..], le));
    }
  }

  lemma {:induction false} SortOnce<T>(s: seq<T>, le: (T, T) -> bool)
    requires Once(s)
    ensures Once(StableSort(s, le)) && forall y :: y in StableSort(s, le) ==> y in s
  {
    if s != [] {
      SortOnce(s[1..], le);
      InsertOnce(s[0], StableSort(s[1..], le), le);
      forall y | y in StableSort(s, le) ensures y in s { InsertMember(s[0], StableSort(s[1..], le), le, y); }
    }
  }

  function Filter<T>(s: seq<T>, keep: T -> bool): seq<T> {
    if s == [] then []
    else if keep(s[0]) then [s[0]] + Filter(s[1..], keep)
    else Filter(s[1..], keep)
  }

  lemma {:induction false} FilterMember<T>(s: seq<T>, keep: T -> bool, x: T)
    ensures x in Filter(s, keep) <==> x in s && keep(x)
  {
    if s != [] { FilterMember(s[1..], keep, x); }
  }

  lemma FilterCons<T>(x: T, s: seq<T>, keep: T -> bool)
    ensures Filter([x] + s, keep) == if keep(x) then [x] + Filter(s, keep) else Filter(s, keep)
  {
    assert ([x] + s)[1..] == s;
  }

  lemma {:induction false} FilterAppends<T>(s: seq<T>, x: T, keep: T -> bool)
    ensures Filter(s + [x], keep) == if keep(x) then Filter(s, keep) + [x] else Filter(s, keep)
  {
    if s == [] {
      assert s + [x] == [x] && [x][1..] == [];
    } else {
      FilterAppends(s[1..], x, keep);
      assert (s + [x])[1..] == s[1..] + [x];
    }
  }

  lemma {:induction false} FilterOfFilter<T>(s: seq<T>, a: T -> bool, b: T -> bool, both: T -> bool)
    requires forall x :: x in s ==> (both(x) <==> a(x) && b(x))
    ensures Filter(Filter(s, a), b) == Filter(s, both)
  {
    if s != [] {
      FilterOfFilter(s[1..], a, b, both);
      if a(s[0]) { FilterCons(s[0], Filter(s[1..], a), b); }
    }
  }

  lemma {:induction false} FilterOfBoth<T>(s: seq<T>, t: seq<T>, keep: T -> bool)
    ensures Filter(s + t, keep) == Filter(s, keep) + Filter(t, keep)
    decreases |t|
  {
    if t == [] {
      assert s + t == s;
    } else {
      var last := |t| - 1;
      FilterOfBoth(s, t[..last], keep);
      FilterAppends(s + t[..last], t[last], keep);
      FilterAppends(t[..last], t[last], keep);
      assert t == t[..last] + [t[last]] && s + t == s + t[..last] + [t[last]];
    }
  }

  /** Where among the first `upto` the kept ones stand. */
  ghost function Positions<T>(s: seq<T>, keep: T -> bool, upto: nat): set<nat>
    requires upto <= |s|
  {
    set i: nat | i < upto && keep(s[i])
  }

  lemma PositionsNext<T>(s: seq<T>, keep: T -> bool, upto: nat)
    requires 0 < upto <= |s|
    ensures |Positions(s, keep, upto)| == |Positions(s, keep, upto - 1)| + if keep(s[upto - 1]) then 1 else 0
  {
    var last := upto - 1;
    assert Positions(s, keep, upto) == Positions(s, keep, last) + if keep(s[last]) then {last} else {};
  }

  lemma {:induction false} FilterCounts<T>(s: seq<T>, keep: T -> bool, upto: nat)
    requires upto <= |s|
    ensures |Filter(s[..upto], keep)| == |Positions(s, keep, upto)|
    decreases upto
  {
    if upto == 0 {
      assert Positions(s, keep, 0) == {};
    } else {
      var last := upto - 1;
      FilterCounts(s, keep, last);
      PositionsNext(s, keep, upto);
      assert s[..upto] == s[..last] + [s[last]];
      FilterAppends(s[..last], s[last], keep);
    }
  }

  lemma {:induction false} FilterInsert<T>(x: T, s: seq<T>, le: (T, T) -> bool, keep: T -> bool)
    requires keep(x) ==> forall y :: y in s && keep(y) ==> le(x, y)
    ensures Filter(Insert(x, s, le), keep) == if keep(x) then [x] + Filter(s, keep) else Filter(s, keep)
  {
    if s == [] || le(x, s[0]) {
      FilterCons(x, s, keep);
    } else {
      FilterInsert(x, s[1..], le, keep);
      FilterCons(s[0], Insert(x, s[1..], le), keep);
      if keep(x) { assert !keep(s[0]); }
    }
  }

  /** Stability: elements that tie pairwise keep their relative order. */
  lemma {:induction false} SortIsStable<T(!new)>(s: seq<T>, le: (T, T) -> bool, keep: T -> bool)
    requires forall x, y :: keep(x) && keep(y) ==> le(x, y)
    ensures Filter(StableSort(s, le), keep) == Filter(s, keep)
  {
    if s != [] {
      var x, rest := s[0], s[1..];
      SortIsStable(rest, le, keep);
      FilterInsert(x, StableSort(rest, le), le, keep);
    }
  }

  lemma TailMultiset<T>(s: seq<T>)
    requires s != []
    ensures s == [s[0]] + s[1..]
    ensures multiset(s[1..]) == multiset(s) - multiset{s[0]}
  {
    assert s == [s[0]] + s[1..];
  }

  lemma LeastFirst<T>(a: seq<T>, b: seq<T>, le: (T, T) -> bool)
    requires a != [] && multiset(a) == multiset(b) && SortedBy(a, le)
    ensures b != [] && b[0] in a && (a[0] == b[0] || le(a[0], b[0]))
  {
    assert a[0] in multiset(b);
    assert b[0] in multiset(a);
    var j :| 0 <= j < |a| && a[j] == b[0];
  }

  /** Two sorted arrangements of one multiset without ties are the same sequence. */
  lemma {:induction false} SortedIsUnique<T(!new)>(a: seq<T>, b: seq<T>, le: (T, T) -> bool)
    requires multiset(a) == multiset(b)
    requires SortedBy(a, le) && SortedBy(b, le)
    requires forall x, y :: x in a && y in a && le(x, y) && le(y, x) ==> x == y
    ensures a == b
  {
    assert |a| == |multiset(a)| == |multiset(b)| == |b|;
    if a != [] {
      LeastFirst(a, b, le);
      LeastFirst(b, a, le);
      assert a[0] in a && b[0] in a;
      TailMultiset(a);
      TailMultiset(b);
      forall x, y | x in a[1..] && y in a[1..] && le(x, y) && le(y, x) ensures x == y {
        assert x in a && y in a;
      }
      SortedIsUnique(a[1..], b[1..], le);
    }
  }
}
