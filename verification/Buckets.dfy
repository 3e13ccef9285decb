/**
 * Items filed under a key, each once, larger items first. The display sink files needles this way;
 * nothing here depends on what a needle is.
 */
module Buckets {
  import opened FirstSeen
  import opened Ordering

  function LargerFirst<N>(size: N -> nat): (N, N) -> bool {
    (a: N, b: N) => size(a) >= size(b)
  }

  ghost predicate IsBucket<W, N>(bucket: seq<N>, window: W, items: set<N>, key: N -> W, size: N -> nat) {
    && (forall i :: 0 <= i < |bucket| ==> key(bucket[i]) == window && bucket[i] in items)
    && (forall i, j :: 0 <= i < j < |bucket| ==> bucket[i] != bucket[j])
    && SortedBy(bucket, LargerFirst(size))
  }

  function BucketOf<W(==), N>(index: map<W, seq<N>>, window: W): seq<N> {
    if window in index then index[window] else []
  }

  /** The buckets hold exactly the given items, each once, under its own key, larger ones first. */
  ghost predicate Files<W(!new), N>(index: map<W, seq<N>>, items: set<N>, key: N -> W, size: N -> nat) {
    && (forall w :: IsBucket(BucketOf(index, w), w, items, key, size))
    && (forall n | n in items :: n in BucketOf(index, key(n)))
  }

  /** An item pushed onto its bucket if it is new there, and the bucket sorted again. */
  function Filed<W(==), N(==)>(index: map<W, seq<N>>, item: N, key: N -> W, size: N -> nat): map<W, seq<N>> {
    var bucket := BucketOf(index, key(item));
    if item in bucket then index
    else index[key(item) := StableSort(bucket + [item], LargerFirst(size))]
  }

  lemma {:induction false} DistinctCounts<T>(s: seq<T>)
    requires forall i, j :: 0 <= i < j < |s| ==> s[i] != s[j]
    ensures forall x | x in multiset(s) :: multiset(s)[x] == 1
  {
    if s != [] {
      DistinctCounts(s[1..]);
      TailMultiset(s);
      assert s[0] !in s[1..];
    }
  }

  lemma {:induction false} CountsDistinct<T>(s: seq<T>)
    requires forall x | x in multiset(s) :: multiset(s)[x] == 1
    ensures forall i, j :: 0 <= i < j < |s| ==> s[i] != s[j]
  {
    if s != [] {
      TailMultiset(s);
      assert multiset(s)[s[0]] == 1;
      forall x | x in multiset(s[1..]) ensures multiset(s[1..])[x] == 1 { assert x in multiset(s); }
      CountsDistinct(s[1..]);
      assert s[0] !in multiset(s[1..]);
    }
  }

  lemma SortKeepsDistinct<N(!new)>(s: seq<N>, size: N -> nat)
    requires forall i, j :: 0 <= i < j < |s| ==> s[i] != s[j]
    ensures var r := StableSort(s, LargerFirst(size));
            && (forall x :: x in r <==> x in s)
            && (forall i, j :: 0 <= i < j < |r| ==> r[i] != r[j])
            && SortedBy(r, LargerFirst(size))
  {
    var r := StableSort(s, LargerFirst(size));
    SortPermutes(s, LargerFirst(size));
    SortSorts(s, LargerFirst(size));
    forall x ensures x in r <==> x in s { assert x in multiset(r) <==> x in multiset(s); }
    DistinctCounts(s);
    CountsDistinct(r);
  }

  lemma NewBucket<W, N(!new)>(bucket: seq<N>, window: W, items: set<N>, item: N, key: N -> W, size: N -> nat)
    requires IsBucket(bucket, window, items, key, size) && item !in bucket && key(item) == window
    ensures var r := StableSort(bucket + [item], LargerFirst(size));
            && IsBucket(r, window, items + {item}, key, size)
            && (forall x :: x in r <==> x in bucket || x == item)
  {
    var longer := bucket + [item];
    SortKeepsDistinct(longer, size);
    var r := StableSort(longer, LargerFirst(size));
    forall i | 0 <= i < |r| ensures key(r[i]) == window && r[i] in items + {item} {
      assert r[i] in longer;
    }
  }

  /** Filing one more item. */
  lemma FiledFiles<W(!new), N(!new)>(index: map<W, seq<N>>, items: set<N>, item: N, key: N -> W, size: N -> nat)
    requires Files(index, items, key, size)
    ensures Files(Filed(index, item, key, size), items + {item}, key, size)
  {
    var window := key(item);
    var bucket := BucketOf(index, window);
    var after := Filed(index, item, key, size);
    assert IsBucket(bucket, window, items, key, size);
    if item in bucket {
      assert items + {item} == items;
    } else {
      NewBucket(bucket, window, items, item, key, size);
      forall w ensures IsBucket(BucketOf(after, w), w, items + {item}, key, size) {
        assert IsBucket(BucketOf(index, w), w, items, key, size);
      }
    }
  }

  /** The items worth keeping among the first `upto` of a list, filed in turn. */
  function FiledAll<W(==), N(==)>(index: map<W, seq<N>>, items: seq<N>, upto: nat,
                                  keep: N -> bool, key: N -> W, size: N -> nat): map<W, seq<N>>
    requires upto <= |items|
  {
    if upto == 0 then index
    else
      var before := FiledAll(index, items, upto - 1, keep, key, size);
      if keep(items[upto - 1]) then Filed(before, items[upto - 1], key, size) else before
  }

  lemma {:induction false} FiledAllFiles<W(!new), N(!new)>(index: map<W, seq<N>>, held: set<N>, items: seq<N>, upto: nat,
                                                           keep: N -> bool, key: N -> W, size: N -> nat)
    requires upto <= |items| && Files(index, held, key, size)
    requires forall i :: 0 <= i < |items| ==> keep(items[i])
    ensures Files(FiledAll(index, items, upto, keep, key, size), With(held, items, upto), key, size)
  {
    if upto > 0 {
      FiledAllFiles(index, held, items, upto - 1, keep, key, size);
      FiledFiles(FiledAll(index, items, upto - 1, keep, key, size), With(held, items, upto - 1), items[upto - 1], key, size);
    }
  }

  // ---- Looking an item up ----

  /** The size of the first item of a bucket that fits, from position `i`; zero if none does. */
  function FirstFit<N>(bucket: seq<N>, fits: N -> bool, size: N -> nat, i: nat): nat
    requires i <= |bucket|
    decreases |bucket| - i
  {
    if i == |bucket| then 0 else if fits(bucket[i]) then size(bucket[i]) else FirstFit(bucket, fits, size, i + 1)
  }

  /** The first item that fits is a largest one that fits. */
  lemma {:induction false} FirstFitIsLargest<N>(bucket: seq<N>, fits: N -> bool, size: N -> nat, i: nat)
    requires i <= |bucket| && SortedBy(bucket, LargerFirst(size))
    ensures forall k :: i <= k < |bucket| && fits(bucket[k]) ==> size(bucket[k]) <= FirstFit(bucket, fits, size, i)
    ensures (forall k :: i <= k < |bucket| ==> !fits(bucket[k])) ==> FirstFit(bucket, fits, size, i) == 0
    ensures FirstFit(bucket, fits, size, i) == 0
            || exists k :: i <= k < |bucket| && fits(bucket[k]) && size(bucket[k]) == FirstFit(bucket, fits, size, i)
    decreases |bucket| - i
  {
    if i < |bucket| {
      if fits(bucket[i]) {
        forall k | i <= k < |bucket| && fits(bucket[k]) ensures size(bucket[k]) <= size(bucket[i]) {
          if k > i { assert LargerFirst(size)(bucket[i], bucket[k]); }
        }
      } else {
        FirstFitIsLargest(bucket, fits, size, i + 1);
      }
    }
  }
}
