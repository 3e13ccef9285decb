/** Cutting a sequence at a separator, and putting the parts back together. */
module Splitting {

  predicate Free<T(==)>(s: seq<T>, sep: T) { forall k :: 0 <= k < |s| ==> s[k] != sep }

  ghost predicate AllFree<T>(parts: seq<seq<T>>, sep: T) {
    forall i :: 0 <= i < |parts| ==> Free(parts[i], sep)
  }

  /** The parts of `c` followed by a sequence with the given parts. */
  function Grow<T(==)>(c: T, parts: seq<seq<T>>, sep: T): (grown: seq<seq<T>>)
    requires parts != []
    ensures grown != []
  {
    if c == sep then [[]] + parts else [[c] + parts[0]] + parts[1..]
  }

  /** The parts between separators; there is one more part than separators. */
  function Split<T(==)>(s: seq<T>, sep: T): (parts: seq<seq<T>>)
    ensures parts != []
  {
    if s == [] then [[]] else Grow(s[0], Split(s[1..], sep), sep)
  }

  lemma {:induction false} SplitFree<T>(s: seq<T>, sep: T)
    requires Free(s, sep)
    ensures Split(s, sep) == [s]
  {
    if s != [] {
      SplitFree(s[1..], sep);
      assert s == [s[0]] + s[1..];
    }
  }

  lemma GrowConcatenates<T>(c: T, front: seq<seq<T>>, back: seq<seq<T>>, sep: T)
    requires front != []
    ensures Grow(c, front + back, sep) == Grow(c, front, sep) + back
  {
    assert (front + back)[1..] == front[1..] + back;
  }

  lemma Tail<T>(a: seq<T>, b: seq<T>)
    requires a != []
    ensures (a + b) != [] && (a + b)[0] == a[0] && (a + b)[1..] == a[1..] + b
  {}

  /** A separator cuts once, wherever it stands. */
  lemma {:induction false} SplitAt<T>(a: seq<T>, sep: T, b: seq<T>)
    ensures Split(a + ([sep] + b), sep) == Split(a, sep) + Split(b, sep)
  {
    var cut := [sep] + b;
    if a == [] {
      assert a + cut == cut && cut[1..] == b;
    } else {
      SplitAt(a[1..], sep, b);
      Tail(a, cut);
      GrowConcatenates(a[0], Split(a[1..], sep), Split(b, sep), sep);
    }
  }

  /** The first `upto` parts with a separator between neighbours. */
  function Interleave<T>(parts: seq<seq<T>>, sep: T, upto: nat): seq<T>
    requires 0 < upto <= |parts|
    decreases upto
  {
    if upto == 1 then parts[0] else Interleave(parts, sep, upto - 1) + ([sep] + parts[upto - 1])
  }

  /** Splitting gives back parts that hold no separator. */
  lemma {:induction false} SplitUndoesInterleave<T>(parts: seq<seq<T>>, sep: T, upto: nat)
    requires 0 < upto <= |parts| && AllFree(parts, sep)
    ensures Split(Interleave(parts, sep, upto), sep) == parts[..upto]
    decreases upto
  {
    SplitFree(parts[upto - 1], sep);
    if upto > 1 {
      SplitUndoesInterleave(parts, sep, upto - 1);
      SplitAt(Interleave(parts, sep, upto - 1), sep, parts[upto - 1]);
    }
    assert parts[..upto] == parts[..upto - 1] + [parts[upto - 1]];
  }

  lemma MovesIntoLast<T>(before: seq<T>, sep: T, part: seq<T>, tail: seq<T>)
    ensures before + ([sep] + part) + tail == before + ([sep] + (part + tail))
  {}

  /** Text appended to interleaved parts lengthens the last part. */
  lemma SplitWithTail<T>(parts: seq<seq<T>>, sep: T, tail: seq<T>)
    requires parts != [] && AllFree(parts, sep) && Free(tail, sep)
    ensures var last := |parts| - 1;
            Split(Interleave(parts, sep, |parts|) + tail, sep) == parts[..last] + [parts[last] + tail]
  {
    var last := |parts| - 1;
    SplitFree(parts[last] + tail, sep);
    if last > 0 {
      var before := Interleave(parts, sep, last);
      MovesIntoLast(before, sep, parts[last], tail);
      SplitAt(before, sep, parts[last] + tail);
      SplitUndoesInterleave(parts, sep, last);
    }
  }

  /** The parts from `from` on, end to end. */
  function Concat<T>(parts: seq<seq<T>>, from: nat): seq<T>
    requires from <= |parts|
    decreases |parts| - from
  {
    if from == |parts| then [] else parts[from] + Concat(parts, from + 1)
  }

  lemma ConcatStep<T>(parts: seq<seq<T>>, from: nat)
    requires from < |parts|
    ensures Concat(parts, from) == parts[from] + Concat(parts, from + 1)
  {}

  lemma {:induction false} ConcatTail<T>(part: seq<T>, parts: seq<seq<T>>, from: nat)
    requires from <= |parts|
    ensures Concat([part] + parts, from + 1) == Concat(parts, from)
    decreases |parts| - from
  {
    var longer := [part] + parts;
    if from < |parts| {
      ConcatTail(part, parts, from + 1);
      assert longer[from + 1] == parts[from];
      ConcatStep(longer, from + 1);
      ConcatStep(parts, from);
    }
  }

  /** The first `upto` parts, end to end. */
  function Joined<T>(parts: seq<seq<T>>, upto: nat): seq<T>
    requires upto <= |parts|
  {
    if upto == 0 then [] else Joined(parts, upto - 1) + parts[upto - 1]
  }

  lemma FirstThenRest<T>(a: seq<T>, b: seq<T>)
    requires a != []
    ensures a + b == [a[0]] + (a[1..] + b) && a == [a[0]] + a[1..]
  {}

  lemma Associates<T>(a: seq<T>, b: seq<T>, c: seq<T>)
    ensures a + b + c == a + (b + c)
  {}

  /** What is joined and what is still to come make up the whole. */
  lemma {:induction false} JoinedThenConcat<T>(parts: seq<seq<T>>, upto: nat)
    requires upto <= |parts|
    ensures Joined(parts, upto) + Concat(parts, upto) == Concat(parts, 0)
    decreases upto
  {
    if upto > 0 {
      JoinedThenConcat(parts, upto - 1);
      ConcatStep(parts, upto - 1);
      Associates(Joined(parts, upto - 1), parts[upto - 1], Concat(parts, upto));
    }
  }

  /** Where part `i` starts; one past the last part, where the whole ends. */
  function Offset<T>(parts: seq<seq<T>>, i: nat): nat
    requires i <= |parts|
  {
    if i == 0 then 0 else Offset(parts, i - 1) + |parts[i - 1]|
  }

  lemma {:induction false} OffsetIsLength<T>(parts: seq<seq<T>>, i: nat)
    requires i <= |parts|
    ensures |Joined(parts, i)| == Offset(parts, i)
  {
    if i > 0 { OffsetIsLength(parts, i - 1); }
  }

  lemma StretchOf<T>(a: seq<T>, b: seq<T>, c: seq<T>)
    ensures (a + (b + c))[|a|..|a| + |b|] == b
  {}

  /** Each part is the stretch of the whole between its offsets. */
  lemma PartIsStretch<T>(parts: seq<seq<T>>, i: nat)
    requires i < |parts|
    ensures Offset(parts, i + 1) <= |Concat(parts, 0)|
    ensures parts[i] == Concat(parts, 0)[Offset(parts, i)..Offset(parts, i + 1)]
  {
    JoinedThenConcat(parts, i);
    OffsetIsLength(parts, i);
    ConcatStep(parts, i);
    var before, after := Joined(parts, i), Concat(parts, i + 1);
    StretchOf(before, parts[i], after);
  }
}
