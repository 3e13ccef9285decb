/**
 * Withholding the lines of a redacted text that a surviving run of a secret touches.
 *
 * `T` is a byte. Which eight-byte runs are leaks, and which line bodies leak when decoded, are
 * parameters; the registry decides them.
 */
module LineScrubber {
  import opened NeedleIndex
  import opened Splitting
  import opened Wrappers

  datatype Sieve<!T> = Sieve(
    newline: T,
    trimmed: T -> bool,
    leak: seq<T> -> bool,
    leaksDecoded: seq<T> -> bool,
    withheld: seq<T>)

  // ---- Lines ----

  /** The length of the first line, with its newline. */
  function FirstLine<T(==)>(s: seq<T>, newline: T): (n: nat)
    requires s != []
    ensures 0 < n <= |s| && Free(s[..n - 1], newline)
    ensures n < |s| ==> s[n - 1] == newline
  {
    if s[0] == newline || |s| == 1 then 1
    else
      var rest := FirstLine(s[1..], newline);
      assert s[..rest] == [s[0]] + s[1..][..rest - 1];
      1 + rest
  }

  /** The lines of a text, each with its newline if it has one. */
  function Lines<T(==)>(s: seq<T>, newline: T): seq<seq<T>>
    decreases |s|
  {
    if s == [] then []
    else
      var n := FirstLine(s, newline);
      [s[..n]] + Lines(s[n..], newline)
  }

  /** Non-empty, and a newline only at the end. */
  predicate IsLine<T(==)>(line: seq<T>, newline: T) {
    line != [] && Free(line[..|line| - 1], newline)
  }

  predicate Ends<T(==)>(line: seq<T>, newline: T) { line != [] && line[|line| - 1] == newline }

  /** Lines as a text has them: every one but the last ends in a newline. */
  ghost predicate AreLines<T>(lines: seq<seq<T>>, newline: T) {
    && (forall i :: 0 <= i < |lines| ==> IsLine(lines[i], newline))
    && (forall i :: 0 <= i < |lines| - 1 ==> Ends(lines[i], newline))
  }

  lemma LinesGrow<T>(line: seq<T>, lines: seq<seq<T>>, newline: T)
    requires IsLine(line, newline) && AreLines(lines, newline) && (lines != [] ==> Ends(line, newline))
    ensures AreLines([line] + lines, newline)
  {
    var longer := [line] + lines;
    forall i | 0 <= i < |longer| ensures IsLine(longer[i], newline) && (i < |longer| - 1 ==> Ends(longer[i], newline)) {
      if i > 0 { assert longer[i] == lines[i - 1]; }
    }
  }

  lemma FirstLineIsLine<T>(s: seq<T>, newline: T)
    requires s != []
    ensures var n := FirstLine(s, newline);
            && IsLine(s[..n], newline) && (s[n..] != [] ==> Ends(s[..n], newline))
            && s == s[..n] + s[n..]
  {
    var n := FirstLine(s, newline);
    assert s[..n][..n - 1] == s[..n - 1];
  }

  lemma LinesStep<T>(s: seq<T>, newline: T)
    requires s != []
    ensures var n := FirstLine(s, newline);
            Lines(s, newline) == [s[..n]] + Lines(s[n..], newline)
  {}

  /** The lines are the text, cut after each newline. */
  lemma {:induction false} LinesPartition<T>(s: seq<T>, newline: T)
    ensures AreLines(Lines(s, newline), newline) && Concat(Lines(s, newline), 0) == s
    ensures s != [] ==> Lines(s, newline) != []
    decreases |s|
  {
    if s != [] {
      var n := FirstLine(s, newline);
      var line, rest := s[..n], Lines(s[n..], newline);
      LinesPartition(s[n..], newline);
      FirstLineIsLine(s, newline);
      LinesGrow(line, rest, newline);
      ConcatTail(line, rest, 0);
      LinesStep(s, newline);
    }
  }

  lemma {:induction false} FirstLineOf<T>(line: seq<T>, rest: seq<T>, newline: T)
    requires IsLine(line, newline) && (rest != [] ==> Ends(line, newline))
    ensures line + rest != [] && FirstLine(line + rest, newline) == |line|
    decreases |line|
  {
    var s := line + rest;
    if |line| > 1 {
      assert line[..|line| - 1][0] == line[0];
      assert s[1..] == line[1..] + rest;
      forall k | 0 <= k < |line| - 2 ensures line[1..][k] != newline {
        assert line[1..][k] == line[..|line| - 1][k + 1];
      }
      FirstLineOf(line[1..], rest, newline);
    }
  }

  /** Lines put end to end are read back as the same lines. */
  lemma {:induction false} LinesOfConcat<T>(lines: seq<seq<T>>, newline: T, from: nat)
    requires from <= |lines| && AreLines(lines, newline)
    ensures Lines(Concat(lines, from), newline) == lines[from..]
    decreases |lines| - from
  {
    if from < |lines| {
      var line, rest := lines[from], Concat(lines, from + 1);
      LinesOfConcat(lines, newline, from + 1);
      if from + 1 == |lines| { assert rest == []; }
      FirstLineOf(line, rest, newline);
      assert (line + rest)[..|line|] == line && (line + rest)[|line|..] == rest;
      assert lines[from..] == [line] + lines[from + 1..];
    }
  }

  // ---- Where lines stand ----

  /** The line a position between two line starts falls in. */
  lemma {:induction false} LineAt<T>(lines: seq<seq<T>>, i: nat, j: nat, at: nat) returns (k: nat)
    requires i < j <= |lines| && Offset(lines, i) <= at < Offset(lines, j)
    ensures i <= k < j && Offset(lines, k) <= at < Offset(lines, k + 1)
    decreases j
  {
    k := j - 1;
    if at < Offset(lines, k) { k := LineAt(lines, i, k, at); }
  }

  // ---- Withholding ----

  predicate LeakAt<T>(sieve: Sieve<T>, text: seq<T>, at: nat) {
    at + FRAGMENT_SCAN_LENGTH <= |text| && sieve.leak(text[at..at + FRAGMENT_SCAN_LENGTH])
  }

  /** A leak overlaps the stretch from `start` to `end`. */
  ghost predicate Touched<T>(sieve: Sieve<T>, text: seq<T>, start: nat, end: nat) {
    exists at: nat :: LeakAt(sieve, text, at) && at < end && at + FRAGMENT_SCAN_LENGTH > start
  }

  /** The line without its trailing newlines and carriage returns. */
  function Body<T>(line: seq<T>, trimmed: T -> bool): (body: seq<T>)
    ensures body <= line
    ensures forall k :: |body| <= k < |line| ==> trimmed(line[k])
  {
    if line != [] && trimmed(line[|line| - 1]) then Body(line[..|line| - 1], trimmed) else line
  }

  /** What is left of a line does not end in what is trimmed. */
  lemma {:induction false} BodyEnds<T>(line: seq<T>, trimmed: T -> bool)
    ensures var body := Body(line, trimmed);
            body != [] ==> !trimmed(body[|body| - 1])
  {
    if line != [] && trimmed(line[|line| - 1]) { BodyEnds(line[..|line| - 1], trimmed); }
  }

  function Withholding<T>(sieve: Sieve<T>, line: seq<T>): seq<T> {
    sieve.withheld + line[|Body(line, sieve.trimmed)|..]
  }

  ghost predicate IsWithheld<T>(sieve: Sieve<T>, text: seq<T>, lines: seq<seq<T>>, i: nat)
    requires i < |lines|
  {
    || Touched(sieve, text, Offset(lines, i), Offset(lines, i + 1))
    || sieve.leaksDecoded(Body(lines[i], sieve.trimmed))
  }

  ghost function Shown<T>(sieve: Sieve<T>, text: seq<T>, lines: seq<seq<T>>, i: nat): seq<T>
    requires i < |lines|
  {
    if IsWithheld(sieve, text, lines, i) then Withholding(sieve, lines[i]) else lines[i]
  }

  ghost function ShownLines<T>(sieve: Sieve<T>, text: seq<T>, lines: seq<seq<T>>): (shown: seq<seq<T>>)
    ensures |shown| == |lines|
    ensures forall i :: 0 <= i < |lines| ==> shown[i] == Shown(sieve, text, lines, i)
  {
    seq(|lines|, (i: nat) requires i < |lines| => Shown(sieve, text, lines, i))
  }

  /** What the pass shows of a text. */
  ghost function ShownText<T>(sieve: Sieve<T>, text: seq<T>): seq<T> {
    var lines := Lines(text, sieve.newline);
    Joined(ShownLines(sieve, text, lines), |lines|)
  }

  // ---- The pass ----

  /** The positions of every leak. */
  method LeakRanges<T>(sieve: Sieve<T>, text: seq<T>) returns (hits: seq<nat>)
    ensures forall at: nat :: at in hits <==> LeakAt(sieve, text, at)
  {
    hits := [];
    var at := 0;
    while at + FRAGMENT_SCAN_LENGTH <= |text|
      invariant forall k: nat :: k in hits <==> k < at && LeakAt(sieve, text, k)
    {
      if sieve.leak(text[at..at + FRAGMENT_SCAN_LENGTH]) { hits := hits + [at]; }
      at := at + 1;
    }
  }

  method AnyTouches<T>(sieve: Sieve<T>, text: seq<T>, hits: seq<nat>, start: nat, end: nat) returns (touched: bool)
    requires forall at: nat :: at in hits <==> LeakAt(sieve, text, at)
    ensures touched <==> Touched(sieve, text, start, end)
  {
    for i := 0 to |hits|
      invariant forall k :: 0 <= k < i ==> !(hits[k] < end && hits[k] + FRAGMENT_SCAN_LENGTH > start)
    {
      if hits[i] < end && hits[i] + FRAGMENT_SCAN_LENGTH > start {
        assert hits[i] in hits;
        return true;
      }
    }
    return false;
  }

  /** Keep or withhold each line of the redacted text, or show only the refusal. */
  method ScrubText<T(==)>(sieve: Sieve<T>, redacted: seq<T>, refusal: Option<seq<T>>) returns (out: seq<T>)
    ensures out == match refusal case Some(reason) => reason case None => ShownText(sieve, redacted)
  {
    if refusal.Some? {
      return refusal.value;
    }
    var hits := LeakRanges(sieve, redacted);
    var lines := Lines(redacted, sieve.newline);
    ghost var shown := ShownLines(sieve, redacted, lines);
    out := [];
    var start := 0;
    for i := 0 to |lines|
      invariant start == Offset(lines, i)
      invariant out == Joined(shown, i)
    {
      var line := lines[i];
      var end := start + |line|;
      var body := Body(line, sieve.trimmed);
      var touched := AnyTouches(sieve, redacted, hits, start, end);
      if touched || sieve.leaksDecoded(body) {
        out := out + (sieve.withheld + line[|body|..]);
      } else {
        out := out + line;
      }
      start := end;
    }
  }

  // ---- What the pass guarantees ----

  /** The marker holds no newline, and newlines are among what a line's end is trimmed of. */
  predicate Sound<T(==)>(sieve: Sieve<T>) {
    sieve.withheld != [] && Free(sieve.withheld, sieve.newline) && sieve.trimmed(sieve.newline)
  }

  lemma BodyIsTrimmed<T>(line: seq<T>, trimmed: T -> bool)
    requires line != [] && trimmed(line[|line| - 1])
    ensures |Body(line, trimmed)| < |line|
  {}

  lemma WithholdingIsLine<T>(sieve: Sieve<T>, line: seq<T>)
    requires Sound(sieve) && IsLine(line, sieve.newline)
    ensures IsLine(Withholding(sieve, line), sieve.newline)
    ensures Ends(Withholding(sieve, line), sieve.newline) <==> Ends(line, sieve.newline)
  {
    var body := Body(line, sieve.trimmed);
    var r := Withholding(sieve, line);
    forall k | 0 <= k < |r| - 1 ensures r[k] != sieve.newline {
      if k >= |sieve.withheld| {
        var at := |body| + k - |sieve.withheld|;
        assert r[k] == line[at] == line[..|line| - 1][at];
      }
    }
    if |body| == |line| {
      assert r == sieve.withheld;
      if Ends(line, sieve.newline) { BodyIsTrimmed(line, sieve.trimmed); }
    } else {
      assert r[|r| - 1] == line[|line| - 1];
    }
  }

  lemma JoinedIsWhole<T>(parts: seq<seq<T>>)
    ensures Joined(parts, |parts|) == Concat(parts, 0)
  {
    JoinedThenConcat(parts, |parts|);
    assert Joined(parts, |parts|) + [] == Joined(parts, |parts|);
  }

  /** The output has the redacted text's lines: each is kept, or is the marker with the same end of line. */
  lemma LineStructureIsKept<T>(sieve: Sieve<T>, text: seq<T>)
    requires Sound(sieve)
    ensures Lines(ShownText(sieve, text), sieve.newline) == ShownLines(sieve, text, Lines(text, sieve.newline))
  {
    var lines := Lines(text, sieve.newline);
    var shown := ShownLines(sieve, text, lines);
    LinesPartition(text, sieve.newline);
    forall i | 0 <= i < |lines|
      ensures IsLine(shown[i], sieve.newline) && (i < |lines| - 1 ==> Ends(shown[i], sieve.newline))
    {
      WithholdingIsLine(sieve, lines[i]);
    }
    JoinedIsWhole(shown);
    LinesOfConcat(shown, sieve.newline, 0);
    assert shown[0..] == shown;
  }

  /** Between two withheld lines, or the ends of the text, no leak survives within the kept lines. */
  lemma KeptRunsHoldNoLeak<T>(sieve: Sieve<T>, text: seq<T>, i: nat, j: nat, at: nat)
    requires var lines := Lines(text, sieve.newline);
             && i <= j <= |lines|
             && (forall k :: i <= k < j ==> !IsWithheld(sieve, text, lines, k))
             && Offset(lines, i) <= at && at + FRAGMENT_SCAN_LENGTH <= Offset(lines, j)
    ensures !LeakAt(sieve, text, at)
  {
    var lines := Lines(text, sieve.newline);
    if i < j {
      var k := LineAt(lines, i, j, at);
      assert !IsWithheld(sieve, text, lines, k);
    }
  }

  lemma StretchWithin<T>(text: seq<T>, from: nat, to: nat, p: nat, n: nat)
    requires from <= to <= |text| && p + n <= to - from
    ensures text[from..to][p..p + n] == text[from + p..from + p + n]
  {
    var a, b := text[from..to][p..p + n], text[from + p..from + p + n];
    forall k | 0 <= k < n ensures a[k] == b[k] {}
    assert a == b;
  }

  lemma LeakTouches<T>(sieve: Sieve<T>, text: seq<T>, lines: seq<seq<T>>, i: nat, at: nat)
    requires i < |lines| && LeakAt(sieve, text, at) && Offset(lines, i) <= at < Offset(lines, i + 1)
    ensures IsWithheld(sieve, text, lines, i)
  {}

  /** Where a stretch of a line stands in the text. */
  lemma LineStretch<T>(text: seq<T>, newline: T, i: nat, p: nat, n: nat)
    requires i < |Lines(text, newline)| && p + n <= |Lines(text, newline)[i]|
    ensures var from := Offset(Lines(text, newline), i) + p;
            && from + n <= Offset(Lines(text, newline), i + 1) && from + n <= |text|
            && text[from..from + n] == Lines(text, newline)[i][p..p + n]
  {
    var lines := Lines(text, newline);
    LinesPartition(text, newline);
    PartIsStretch(lines, i);
    StretchWithin(text, Offset(lines, i), Offset(lines, i + 1), p, n);
  }

  /** A line that holds a leak is withheld. */
  lemma LeakInLine<T>(sieve: Sieve<T>, text: seq<T>, i: nat, p: nat)
    requires i < |Lines(text, sieve.newline)| && p + FRAGMENT_SCAN_LENGTH <= |Lines(text, sieve.newline)[i]|
    requires sieve.leak(Lines(text, sieve.newline)[i][p..p + FRAGMENT_SCAN_LENGTH])
    ensures IsWithheld(sieve, text, Lines(text, sieve.newline), i)
  {
    LineStretch(text, sieve.newline, i, p, FRAGMENT_SCAN_LENGTH);
    LeakTouches(sieve, text, Lines(text, sieve.newline), i, Offset(Lines(text, sieve.newline), i) + p);
  }

  /** `shown` shows the stretch of `text` between two lines as it is, after what it showed before. */
  ghost predicate Verbatim<T>(text: seq<T>, lines: seq<seq<T>>, shown: seq<seq<T>>, i: nat, j: nat)
    requires i <= j <= |lines| == |shown|
  {
    && Offset(lines, i) <= Offset(lines, j) <= |text|
    && Joined(shown, j) == Joined(shown, i) + text[Offset(lines, i)..Offset(lines, j)]
  }

  lemma VerbatimStart<T>(text: seq<T>, lines: seq<seq<T>>, shown: seq<seq<T>>, i: nat)
    requires i <= |lines| == |shown| && Concat(lines, 0) == text
    ensures Verbatim(text, lines, shown, i, i)
  {
    JoinedThenConcat(lines, i);
    OffsetIsLength(lines, i);
  }

  lemma VerbatimStep<T>(text: seq<T>, lines: seq<seq<T>>, shown: seq<seq<T>>, i: nat, j: nat)
    requires i <= j < |lines| == |shown| && Concat(lines, 0) == text
    requires Verbatim(text, lines, shown, i, j) && shown[j] == lines[j]
    ensures Verbatim(text, lines, shown, i, j + 1)
  {
    PartIsStretch(lines, j);
    var from, mid, to := Offset(lines, i), Offset(lines, j), Offset(lines, j + 1);
    assert text[from..mid] + text[mid..to] == text[from..to];
    Associates(Joined(shown, i), text[from..mid], lines[j]);
  }

  lemma {:induction false} VerbatimStretch<T>(text: seq<T>, lines: seq<seq<T>>, shown: seq<seq<T>>, i: nat, j: nat)
    requires i <= j <= |lines| == |shown| && Concat(lines, 0) == text
    requires forall k :: i <= k < j ==> shown[k] == lines[k]
    ensures Verbatim(text, lines, shown, i, j)
    decreases j
  {
    if i < j {
      VerbatimStretch(text, lines, shown, i, j - 1);
      VerbatimStep(text, lines, shown, i, j - 1);
    } else {
      VerbatimStart(text, lines, shown, i);
    }
  }

  /** A stretch of kept lines appears in the output byte for byte. */
  lemma KeptRunsAreVerbatim<T>(sieve: Sieve<T>, text: seq<T>, i: nat, j: nat)
    requires var lines := Lines(text, sieve.newline);
             && i <= j <= |lines|
             && (forall k :: i <= k < j ==> !IsWithheld(sieve, text, lines, k))
    ensures var lines := Lines(text, sieve.newline);
            Verbatim(text, lines, ShownLines(sieve, text, lines), i, j)
  {
    var lines := Lines(text, sieve.newline);
    LinesPartition(text, sieve.newline);
    VerbatimStretch(text, lines, ShownLines(sieve, text, lines), i, j);
  }

  /** When nothing leaks the text is shown as it is. */
  lemma NothingIsWithheld<T(!new)>(sieve: Sieve<T>, text: seq<T>)
    requires (forall w :: !sieve.leak(w)) && (forall b :: !sieve.leaksDecoded(b))
    ensures ShownText(sieve, text) == text
  {
    var lines := Lines(text, sieve.newline);
    LinesPartition(text, sieve.newline);
    assert ShownLines(sieve, text, lines) == lines;
    JoinedIsWhole(lines);
  }
}
