/** Dropping repeats while keeping the order in which values were first seen. */
module FirstSeen {

  /** `x` is among the first `upto` values. */
  predicate Seen<T(==)>(s: seq<T>, upto: nat, x: T)
    requires upto <= |s|
  {
    exists k :: 0 <= k < upto && s[k] == x
  }

  /** The first `upto` values without repeats. */
  function Distinct<T(==)>(s: seq<T>, upto: nat): seq<T>
    requires upto <= |s|
    decreases upto
  {
    if upto == 0 then []
    else if Seen(s, upto - 1, s[upto - 1]) then Distinct(s, upto - 1)
    else Distinct(s, upto - 1) + [s[upto - 1]]
  }

  lemma {:induction false} DistinctPrefix<T>(s: seq<T>, more: seq<T>, upto: nat)
    requires upto <= |s|
    ensures Distinct(s + more, upto) == Distinct(s, upto)
    decreases upto
  {
    if upto > 0 {
      DistinctPrefix(s, more, upto - 1);
      assert Seen(s + more, upto - 1, s[upto - 1]) <==> Seen(s, upto - 1, s[upto - 1]) by {
        assert forall k :: 0 <= k < upto - 1 ==> (s + more)[k] == s[k];
      }
    }
  }

  /** Where `x` was seen first. */
  function FirstIndex<T(==)>(s: seq<T>, upto: nat, x: T): (k: nat)
    requires upto <= |s| && Seen(s, upto, x)
    ensures k < upto && s[k] == x && !Seen(s, k, x)
    decreases upto
  {
    if Seen(s, upto - 1, x) then FirstIndex(s, upto - 1, x) else upto - 1
  }

  /** `r` holds exactly the values seen, each once, in the order of their first appearance. */
  ghost predicate IsDistinct<T(!new)>(s: seq<T>, upto: nat, r: seq<T>)
    requires upto <= |s|
  {
    && (forall x :: x in r <==> Seen(s, upto, x))
    && (forall i, j :: 0 <= i < j < |r| ==>
          && Seen(s, upto, r[i]) && Seen(s, upto, r[j])
          && FirstIndex(s, upto, r[i]) < FirstIndex(s, upto, r[j]))
  }

  lemma FirstIndexGrows<T>(s: seq<T>, upto: nat, x: T)
    requires 0 < upto <= |s| && Seen(s, upto - 1, x)
    ensures Seen(s, upto, x) && FirstIndex(s, upto, x) == FirstIndex(s, upto - 1, x) < upto - 1
  {}

  lemma {:induction false} DistinctIsDistinct<T(!new)>(s: seq<T>, upto: nat)
    requires upto <= |s|
    ensures IsDistinct(s, upto, Distinct(s, upto))
    decreases upto
  {
    if upto > 0 {
      var last, shorter := s[upto - 1], Distinct(s, upto - 1);
      DistinctIsDistinct(s, upto - 1);
      forall x ensures x in Distinct(s, upto) <==> Seen(s, upto, x) {
        if Seen(s, upto, x) && !Seen(s, upto - 1, x) { assert x == last; }
        if Seen(s, upto - 1, x) { FirstIndexGrows(s, upto, x); }
        assert Seen(s, upto, last);
      }
      var r := Distinct(s, upto);
      forall i, j | 0 <= i < j < |r|
        ensures && Seen(s, upto, r[i]) && Seen(s, upto, r[j])
                && FirstIndex(s, upto, r[i]) < FirstIndex(s, upto, r[j])
      {
        assert r[i] in shorter && r[i] == shorter[i];
        FirstIndexGrows(s, upto, r[i]);
        if j < |shorter| {
          assert r[j] in shorter;
          FirstIndexGrows(s, upto, r[j]);
        }
      }
    }
  }

  /** A list without repeats is kept whole. */
  lemma {:induction false} DistinctKeepsDistinct<T>(s: seq<T>, upto: nat)
    requires upto <= |s|
    requires forall i, j :: 0 <= i < j < |s| ==> s[i] != s[j]
    ensures Distinct(s, upto) == s[..upto]
    decreases upto
  {
    if upto > 0 {
      DistinctKeepsDistinct(s, upto - 1);
      assert s[..upto] == s[..upto - 1] + [s[upto - 1]];
    }
  }

  lemma SeenStep<T(!new)>(s: seq<T>, i: nat)
    requires i < |s|
    ensures forall x :: Seen(s, i + 1, x) <==> Seen(s, i, x) || x == s[i]
  {
    forall x ensures Seen(s, i + 1, x) <==> Seen(s, i, x) || x == s[i] {
      if Seen(s, i, x) {
        var k :| 0 <= k < i && s[k] == x;
        assert 0 <= k < i + 1 && s[k] == x;
      }
    }
  }

  /** The loop that drops repeats, with the set of values it has kept. */
  method DropRepeats<T(==, !new)>(s: seq<T>) returns (r: seq<T>)
    ensures r == Distinct(s, |s|)
    ensures IsDistinct(s, |s|, r)
  {
    var seen: set<T> := {};
    r := [];
    for i := 0 to |s|
      invariant r == Distinct(s, i)
      invariant forall x :: x in seen <==> Seen(s, i, x)
    {
      SeenStep(s, i);
      if s[i] !in seen {
        seen := seen + {s[i]};
        r := r + [s[i]];
      }
    }
    DistinctIsDistinct(s, |s|);
  }

  /** The set of the first `upto` values of a list, added to a set. */
  function With<V>(known: set<V>, values: seq<V>, upto: nat): set<V>
    requires upto <= |values|
  {
    if upto == 0 then known else With(known, values, upto - 1) + {values[upto - 1]}
  }

  lemma {:induction false} WithMember<V>(known: set<V>, values: seq<V>, upto: nat, v: V)
    requires upto <= |values|
    ensures v in With(known, values, upto) <==> v in known || v in values[..upto]
    decreases upto
  {
    if upto > 0 {
      WithMember(known, values, upto - 1, v);
      assert values[..upto] == values[..upto - 1] + [values[upto - 1]];
    }
  }

  /** A state after one step for each of the first `upto` values. */
  function Fold<S, V>(step: (S, V) -> S, start: S, values: seq<V>, upto: nat): S
    requires upto <= |values|
  {
    if upto == 0 then start else step(Fold(step, start, values, upto - 1), values[upto - 1])
  }

  /** A step adds `x` to a list exactly for the values that give it. */
  ghost predicate AddsAt<S, V>(step: (seq<S>, V) -> seq<S>, gives: V -> bool, x: S, list: seq<S>, v: V) {
    x in step(list, v) <==> x in list || gives(v)
  }

  lemma {:induction false} FoldMember<S(!new), V(!new)>(step: (seq<S>, V) -> seq<S>, start: seq<S>, values: seq<V>, upto: nat,
                                                        gives: V -> bool, x: S)
    requires upto <= |values| && forall list, v :: AddsAt(step, gives, x, list, v)
    ensures x in Fold(step, start, values, upto) <==> x in start || exists i :: 0 <= i < upto && gives(values[i])
  {
    if upto > 0 {
      FoldMember(step, start, values, upto - 1, gives, x);
      assert AddsAt(step, gives, x, Fold(step, start, values, upto - 1), values[upto - 1]);
    }
  }
}
