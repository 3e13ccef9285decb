/**
 * The display sink's index of needles: buckets keyed by a needle's first eight bytes, longest first,
 * refined against replacing the longest registered needle at the leftmost place.
 */
module NeedleIndex {
  import opened Buckets
  import opened FirstSeen
  import opened Ordering
  import opened Wrappers

  const MIN_SCRUB_LENGTH := 8
  const FRAGMENT_SCAN_LENGTH := 8

  /** Eight consecutive bytes. */
  type Window = Bytes

  function WindowAt(bytes: Bytes, at: nat): Option<Window> {
    if at + FRAGMENT_SCAN_LENGTH <= |bytes| then Some(bytes[at..at + FRAGMENT_SCAN_LENGTH]) else None
  }

  // ---- The reference: leftmost, longest ----

  /** The length of the longest needle `s` starts with, looking no further than `upto`; zero if none. */
  function LongestMatch(s: Bytes, needles: set<Bytes>, upto: nat): (n: nat)
    requires upto <= |s|
    ensures n <= upto && (n > 0 ==> s[..n] in needles)
    ensures forall k :: n < k <= upto ==> s[..k] !in needles
  {
    if upto == 0 then 0 else if s[..upto] in needles then upto else LongestMatch(s, needles, upto - 1)
  }

  function Longest(needles: set<Bytes>): Bytes -> nat {
    (s: Bytes) => LongestMatch(s, needles, |s|)
  }

  /** What `found` measures replaced, at the leftmost place it is not zero. */
  function ReplacedBy<T>(s: seq<T>, found: seq<T> -> nat, marker: seq<T>): seq<T>
    decreases |s|
  {
    if s == [] then []
    else if found(s) == 0 || found(s) > |s| then [s[0]] + ReplacedBy(s[1..], found, marker)
    else marker + ReplacedBy(s[found(s)..], found, marker)
  }

  /** Every needle replaced, at the leftmost place it occurs, the longest first. */
  function Replaced(s: Bytes, needles: set<Bytes>, marker: Bytes): Bytes {
    ReplacedBy(s, Longest(needles), marker)
  }

  // ---- What a replacement is ----

  /** A byte kept, or a needle found. */
  datatype Piece = Kept(b: byte) | Found(needle: Bytes)

  ghost function ReadOf(piece: Piece): Bytes { if piece.Kept? then [piece.b] else piece.needle }

  ghost function AllRead(pieces: seq<Piece>): Bytes {
    if pieces == [] then [] else ReadOf(pieces[0]) + AllRead(pieces[1..])
  }

  ghost function AllShown(pieces: seq<Piece>, marker: Bytes): Bytes {
    if pieces == [] then []
    else (if pieces[0].Kept? then [pieces[0].b] else marker) + AllShown(pieces[1..], marker)
  }

  /** A byte is kept only where no needle stands, and a needle found is a longest one standing there. */
  ghost predicate StandsFirst(piece: Piece, needles: set<Bytes>, rest: Bytes) {
    match piece
    case Kept(b) => forall n | n in needles && n <= rest :: n == []
    case Found(needle) => needle in needles && needle != [] && forall n | n in needles && n <= rest :: |n| <= |needle|
  }

  ghost predicate IsScan(pieces: seq<Piece>, needles: set<Bytes>) {
    pieces == [] || (StandsFirst(pieces[0], needles, AllRead(pieces)) && IsScan(pieces[1..], needles))
  }

  lemma FoundStandsFirst(s: Bytes, needles: set<Bytes>)
    requires s != []
    ensures var n := LongestMatch(s, needles, |s|);
            StandsFirst(if n == 0 then Kept(s[0]) else Found(s[..n]), needles, s)
  {
    forall other | other in needles && other <= s ensures |other| <= LongestMatch(s, needles, |s|) {
      assert other == s[..|other|];
    }
  }

  lemma PieceBefore(piece: Piece, pieces: seq<Piece>, needles: set<Bytes>)
    requires IsScan(pieces, needles) && StandsFirst(piece, needles, ReadOf(piece) + AllRead(pieces))
    ensures var all := [piece] + pieces;
            IsScan(all, needles) && AllRead(all) == ReadOf(piece) + AllRead(pieces)
  {
    assert ([piece] + pieces)[1..] == pieces;
  }

  lemma ShownBefore(piece: Piece, pieces: seq<Piece>, marker: Bytes)
    ensures AllShown([piece] + pieces, marker) == (if piece.Kept? then [piece.b] else marker) + AllShown(pieces, marker)
  {
    assert ([piece] + pieces)[1..] == pieces;
  }

  lemma ReplacedFrom(s: Bytes, needles: set<Bytes>, marker: Bytes, piece: Piece)
    requires s != []
    requires var n := LongestMatch(s, needles, |s|);
             piece == if n == 0 then Kept(s[0]) else Found(s[..n])
    ensures |ReadOf(piece)| <= |s|
    ensures Replaced(s, needles, marker)
            == (if piece.Kept? then [piece.b] else marker) + Replaced(s[|ReadOf(piece)|..], needles, marker)
  {}

  lemma ScanFrom(s: Bytes, needles: set<Bytes>, piece: Piece, others: seq<Piece>)
    requires s != []
    requires var n := LongestMatch(s, needles, |s|);
             piece == if n == 0 then Kept(s[0]) else Found(s[..n])
    requires |ReadOf(piece)| <= |s| && AllRead(others) == s[|ReadOf(piece)|..] && IsScan(others, needles)
    ensures AllRead([piece] + others) == s && IsScan([piece] + others, needles)
  {
    assert s == ReadOf(piece) + AllRead(others);
    FoundStandsFirst(s, needles);
    PieceBefore(piece, others, needles);
  }

  lemma ScanStep(s: Bytes, needles: set<Bytes>, marker: Bytes, piece: Piece, others: seq<Piece>)
    requires s != []
    requires var n := LongestMatch(s, needles, |s|);
             piece == if n == 0 then Kept(s[0]) else Found(s[..n])
    requires |ReadOf(piece)| <= |s| && AllRead(others) == s[|ReadOf(piece)|..] && IsScan(others, needles)
    requires AllShown(others, marker) == Replaced(s[|ReadOf(piece)|..], needles, marker)
    ensures var pieces := [piece] + others;
            AllRead(pieces) == s && IsScan(pieces, needles) && AllShown(pieces, marker) == Replaced(s, needles, marker)
  {
    ScanFrom(s, needles, piece, others);
    ShownBefore(piece, others, marker);
    ReplacedFrom(s, needles, marker, piece);
  }

  /** Replacing cuts the text into kept bytes and needles found, each the longest where it stands. */
  lemma {:induction false} ReplacedIsScan(s: Bytes, needles: set<Bytes>, marker: Bytes) returns (pieces: seq<Piece>)
    ensures AllRead(pieces) == s && IsScan(pieces, needles)
    ensures AllShown(pieces, marker) == Replaced(s, needles, marker)
    decreases |s|
  {
    if s == [] {
      pieces := [];
    } else {
      var n := LongestMatch(s, needles, |s|);
      var piece := if n == 0 then Kept(s[0]) else Found(s[..n]);
      var others := ReplacedIsScan(s[|ReadOf(piece)|..], needles, marker);
      ScanStep(s, needles, marker, piece, others);
      pieces := [piece] + others;
    }
  }

  // ---- The index ----

  type Index = map<Window, seq<Bytes>>

  /** A needle is filed under its first window. */
  function FirstWindow(needle: Bytes): Window {
    if |needle| >= FRAGMENT_SCAN_LENGTH then needle[..FRAGMENT_SCAN_LENGTH] else needle
  }

  function Length(needle: Bytes): nat { |needle| }

  /** The index holds exactly the given needles, each once, in its own bucket, longest first. */
  ghost predicate Indexes(index: Index, needles: set<Bytes>) {
    && Files(index, needles, FirstWindow, Length)
    && forall n | n in needles :: |n| >= MIN_SCRUB_LENGTH
  }

  predicate HasWindow(needle: Bytes) { WindowAt(needle, 0).Some? }

  /** The first `upto` needles of a list added in turn; a needle without a window is passed over. */
  function WithNeedles(index: Index, added: seq<Bytes>, upto: nat): Index
    requires upto <= |added|
  {
    FiledAll(index, added, upto, HasWindow, FirstWindow, Length)
  }

  method AddNeedles(index: Index, added: seq<Bytes>) returns (after: Index)
    ensures after == WithNeedles(index, added, |added|)
  {
    after := index;
    for i := 0 to |added|
      invariant after == WithNeedles(index, added, i)
    {
      if WindowAt(added[i], 0).None? {
        continue;
      }
      var bucket := BucketOf(after, FirstWindow(added[i]));
      if added[i] !in bucket {
        after := after[FirstWindow(added[i]) := StableSort(bucket + [added[i]], LargerFirst(Length))];
      }
    }
  }

  /** Adding a list of needles indexes exactly those besides what was indexed. */
  lemma AddingIndexes(index: Index, needles: set<Bytes>, added: seq<Bytes>)
    requires Indexes(index, needles)
    requires forall i :: 0 <= i < |added| ==> |added[i]| >= MIN_SCRUB_LENGTH
    ensures Indexes(WithNeedles(index, added, |added|), With(needles, added, |added|))
  {
    FiledAllFiles(index, needles, added, |added|, HasWindow, FirstWindow, Length);
    forall n | n in With(needles, added, |added|) ensures |n| >= MIN_SCRUB_LENGTH {
      WithMember(needles, added, |added|, n);
    }
  }

  // ---- The indexed scan ----

  function StartsWith(s: Bytes): Bytes -> bool {
    (needle: Bytes) => needle <= s
  }

  function MatchAt(index: Index, s: Bytes): nat {
    match WindowAt(s, 0)
    case None => 0
    case Some(window) => FirstFit(BucketOf(index, window), StartsWith(s), Length, 0)
  }

  lemma NeedleIsInBucket(index: Index, needles: set<Bytes>, s: Bytes, n: nat)
    requires Indexes(index, needles) && n <= |s| && s[..n] in needles
    ensures |s| >= FRAGMENT_SCAN_LENGTH && s[..n] in BucketOf(index, s[..FRAGMENT_SCAN_LENGTH])
  {
    assert FirstWindow(s[..n]) == s[..FRAGMENT_SCAN_LENGTH];
  }

  lemma MatchIsNeedle(index: Index, needles: set<Bytes>, s: Bytes, needle: Bytes)
    requires Indexes(index, needles) && |s| >= FRAGMENT_SCAN_LENGTH
    requires needle in BucketOf(index, s[..FRAGMENT_SCAN_LENGTH]) && needle <= s
    ensures needle in needles && needle == s[..|needle|]
    ensures |needle| <= LongestMatch(s, needles, |s|)
  {
    var window := s[..FRAGMENT_SCAN_LENGTH];
    assert IsBucket(BucketOf(index, window), window, needles, FirstWindow, Length);
  }

  lemma BucketIsSorted(index: Index, needles: set<Bytes>, window: Window)
    requires Indexes(index, needles)
    ensures SortedBy(BucketOf(index, window), LargerFirst(Length))
  {
    assert IsBucket(BucketOf(index, window), window, needles, FirstWindow, Length);
  }

  lemma FoundIsNoLonger(index: Index, needles: set<Bytes>, s: Bytes)
    requires Indexes(index, needles) && |s| >= FRAGMENT_SCAN_LENGTH
    ensures FirstFit(BucketOf(index, s[..FRAGMENT_SCAN_LENGTH]), StartsWith(s), Length, 0) <= LongestMatch(s, needles, |s|)
  {
    var bucket := BucketOf(index, s[..FRAGMENT_SCAN_LENGTH]);
    var found := FirstFit(bucket, StartsWith(s), Length, 0);
    BucketIsSorted(index, needles, s[..FRAGMENT_SCAN_LENGTH]);
    FirstFitIsLargest(bucket, StartsWith(s), Length, 0);
    if found > 0 {
      var k :| 0 <= k < |bucket| && StartsWith(s)(bucket[k]) && Length(bucket[k]) == found;
      MatchIsNeedle(index, needles, s, bucket[k]);
    }
  }

  lemma FoundIsNoShorter(index: Index, needles: set<Bytes>, s: Bytes, n: nat)
    requires Indexes(index, needles) && n <= |s| && s[..n] in needles
    ensures |s| >= FRAGMENT_SCAN_LENGTH
    ensures n <= FirstFit(BucketOf(index, s[..FRAGMENT_SCAN_LENGTH]), StartsWith(s), Length, 0)
  {
    NeedleIsInBucket(index, needles, s, n);
    var bucket := BucketOf(index, s[..FRAGMENT_SCAN_LENGTH]);
    BucketIsSorted(index, needles, s[..FRAGMENT_SCAN_LENGTH]);
    FirstFitIsLargest(bucket, StartsWith(s), Length, 0);
    var k :| 0 <= k < |bucket| && bucket[k] == s[..n];
    assert StartsWith(s)(bucket[k]) && Length(bucket[k]) == n;
  }

  /** Looking in one bucket finds the longest needle the text starts with. */
  lemma BucketFindsLongest(index: Index, needles: set<Bytes>, s: Bytes)
    requires Indexes(index, needles)
    ensures MatchAt(index, s) == LongestMatch(s, needles, |s|)
  {
    var n := LongestMatch(s, needles, |s|);
    if n > 0 { FoundIsNoShorter(index, needles, s, n); }
    if |s| >= FRAGMENT_SCAN_LENGTH { FoundIsNoLonger(index, needles, s); }
  }

  lemma ReplaceAdvances<T>(before: seq<T>, bytes: seq<T>, at: nat, found: seq<T> -> nat, marker: seq<T>)
    requires at < |bytes|
    ensures var n := found(bytes[at..]);
            before + ReplacedBy(bytes[at..], found, marker)
            == if n == 0 || n > |bytes| - at
               then before + [bytes[at]] + ReplacedBy(bytes[at + 1..], found, marker)
               else before + marker + ReplacedBy(bytes[at + n..], found, marker)
  {
    var n := found(bytes[at..]);
    assert bytes[at..][1..] == bytes[at + 1..];
    if n <= |bytes| - at { assert bytes[at..][n..] == bytes[at + n..]; }
  }

  /** One turn of the scan: what was found is replaced, or an element is copied. */
  method ReplaceOne<T>(bytes: seq<T>, marker: seq<T>, at: nat, before: seq<T>, n: nat, ghost found: seq<T> -> nat)
    returns (out: seq<T>, next: nat)
    requires at < |bytes| && n == found(bytes[at..]) && n <= |bytes| - at
    ensures at < next <= |bytes|
    ensures out + ReplacedBy(bytes[next..], found, marker) == before + ReplacedBy(bytes[at..], found, marker)
  {
    ReplaceAdvances(before, bytes, at, found, marker);
    if n > 0 {
      out, next := before + marker, at + n;
    } else {
      out, next := before + [bytes[at]], at + 1;
    }
  }

  function Matcher(index: Index): Bytes -> nat {
    (s: Bytes) => MatchAt(index, s)
  }

  lemma {:induction false} FitIsShort(bucket: seq<Bytes>, s: Bytes, i: nat)
    requires i <= |bucket|
    ensures FirstFit(bucket, StartsWith(s), Length, i) <= |s|
    decreases |bucket| - i
  {
    if i < |bucket| { FitIsShort(bucket, s, i + 1); }
  }

  /** Try each needle of the bucket in turn. */
  method ScanBucket(index: Index, bytes: Bytes, at: nat) returns (n: nat)
    requires at < |bytes|
    ensures n == Matcher(index)(bytes[at..]) <= |bytes| - at
  {
    var rest := bytes[at..];
    var window := WindowAt(rest, 0);
    if window.None? {
      return 0;
    }
    var bucket := BucketOf(index, window.value);
    FitIsShort(bucket, rest, 0);
    for i := 0 to |bucket|
      invariant FirstFit(bucket, StartsWith(rest), Length, i) == FirstFit(bucket, StartsWith(rest), Length, 0)
    {
      if bucket[i] <= rest {
        return |bucket[i]|;
      }
    }
    return 0;
  }

  /** The scan as written. */
  method Redact(index: Index, bytes: Bytes, marker: Bytes) returns (out: Bytes)
    ensures out == ReplacedBy(bytes, Matcher(index), marker)
  {
    out := [];
    var at := 0;
    assert bytes[0..] == bytes;
    ghost var goal := ReplacedBy(bytes, Matcher(index), marker);
    while at < |bytes|
      invariant at <= |bytes|
      invariant out + ReplacedBy(bytes[at..], Matcher(index), marker) == goal
      decreases |bytes| - at
    {
      var n := ScanBucket(index, bytes, at);
      out, at := ReplaceOne(bytes, marker, at, out, n, Matcher(index));
    }
  }

  lemma {:induction false} SameMatchesSameResult<T(!new)>(s: seq<T>, f: seq<T> -> nat, g: seq<T> -> nat, marker: seq<T>)
    requires forall t :: f(t) == g(t)
    ensures ReplacedBy(s, f, marker) == ReplacedBy(s, g, marker)
    decreases |s|
  {
    if s != [] {
      if f(s) == 0 || f(s) > |s| {
        SameMatchesSameResult(s[1..], f, g, marker);
      } else {
        SameMatchesSameResult(s[f(s)..], f, g, marker);
      }
    }
  }

  /** The indexed scan agrees with leftmost-longest replacement over everything indexed, for every text. */
  lemma ScanIsLeftmostLongest(index: Index, needles: set<Bytes>, bytes: Bytes, marker: Bytes)
    requires Indexes(index, needles)
    ensures ReplacedBy(bytes, Matcher(index), marker) == Replaced(bytes, needles, marker)
  {
    forall s ensures Matcher(index)(s) == Longest(needles)(s) { BucketFindsLongest(index, needles, s); }
    SameMatchesSameResult(bytes, Matcher(index), Longest(needles), marker);
  }
}
