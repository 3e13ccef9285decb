/**
 * Redacting words that look like credentials, in one streaming pass, refined against the two-pass
 * form that first cuts the text into alternating runs of word and gap characters.
 */
module CredentialShapes {
  import opened Ordering
  import opened Splitting
  import opened Wrappers

  predicate IsWordChar(c: char) {
    || '0' <= c <= '9' || 'a' <= c <= 'z' || 'A' <= c <= 'Z'
    || c == '-' || c == '_' || c == '.' || c == '~' || c == '+' || c == '/'
  }

  predicate IsBlank(c: char) { c == ' ' || c == '\t' }

  predicate Uniform(s: string, word: bool) { forall k :: 0 <= k < |s| ==> IsWordChar(s[k]) == word }

  predicate AllBlank(s: string) { forall k :: 0 <= k < |s| ==> IsBlank(s[k]) }

  // ---- Which words are redacted ----

  /** What makes a word a credential, which word announces one, and the word shown instead. */
  datatype Marking = Marking(credential: string -> bool, scheme: string -> bool, shown: string)

  /** The marker is one word between brackets, and not itself a credential or a scheme. */
  ghost predicate Sound(m: Marking) {
    m.shown != "" && Uniform(m.shown, true) && !m.credential(m.shown) && !m.scheme(m.shown)
  }

  function Redaction(m: Marking): string { ['['] + (m.shown + [']']) }

  function NonEmptyParts(parts: seq<string>): nat {
    if parts == [] then 0 else NonEmptyParts(parts[1..]) + if parts[0] == "" then 0 else 1
  }

  predicate GitHubToken(word: string, prefix: string) {
    prefix <= word && |word| >= |prefix| + 16
  }

  /** A JWT in three parts, or a GitHub token by its prefix. */
  predicate IsCredentialShaped(word: string) {
    || ("eyJ" <= word && NonEmptyParts(Split(word, '.')) == 3)
    || GitHubToken(word, "ghp_") || GitHubToken(word, "gho_") || GitHubToken(word, "ghu_")
    || GitHubToken(word, "ghs_") || GitHubToken(word, "ghr_") || GitHubToken(word, "github_pat_")
  }

  function LowerAscii(c: char): char {
    if 'A' <= c <= 'Z' then ((c as nat) + 32) as char else c
  }

  predicate IsBearer(word: string) {
    |word| == 6 && forall k :: 0 <= k < 6 ==> LowerAscii(word[k]) == "bearer"[k]
  }

  const MARKING := Marking(IsCredentialShaped, IsBearer, "REDACTED")

  lemma MarkingIsSound()
    ensures Sound(MARKING)
  {
    var word := "REDACTED";
    assert word[0] != 'e' && word[0] != 'g';
    assert "eyJ"[0] == 'e' && "ghp_"[0] == 'g' && "gho_"[0] == 'g' && "ghu_"[0] == 'g';
    assert "ghs_"[0] == 'g' && "ghr_"[0] == 'g' && "github_pat_"[0] == 'g';
  }

  // ---- What the shapes are ----

  /** Cut at dots, exactly three parts are not empty. */
  ghost predicate ThreeParts(word: string) {
    var parts := Split(word, '.');
    |set i: nat | i < |parts| && parts[i] != ""| == 3
  }

  predicate IsFilled(part: string) { part != "" }

  lemma {:induction false} PartsAreFiltered(parts: seq<string>)
    ensures NonEmptyParts(parts) == |Filter(parts, IsFilled)|
  {
    if parts != [] { PartsAreFiltered(parts[1..]); }
  }

  lemma PartsAreCounted(word: string)
    ensures NonEmptyParts(Split(word, '.')) == 3 <==> ThreeParts(word)
  {
    var parts := Split(word, '.');
    PartsAreFiltered(parts);
    FilterCounts(parts, IsFilled, |parts|);
    assert parts[..|parts|] == parts;
    assert Positions(parts, IsFilled, |parts|) == set i: nat | i < |parts| && parts[i] != "";
  }

  /** Three parts between dots after `eyJ`, or a GitHub prefix and at least sixteen characters more. */
  ghost predicate LooksLikeCredential(word: string) {
    || ("eyJ" <= word && ThreeParts(word))
    || exists prefix :: prefix in ["ghp_", "gho_", "ghu_", "ghs_", "ghr_", "github_pat_"]
                        && prefix <= word && |word| - |prefix| >= 16
  }

  lemma GitHubPrefixes(word: string)
    ensures (|| GitHubToken(word, "ghp_") || GitHubToken(word, "gho_") || GitHubToken(word, "ghu_")
             || GitHubToken(word, "ghs_") || GitHubToken(word, "ghr_") || GitHubToken(word, "github_pat_"))
            <==> exists prefix :: prefix in ["ghp_", "gho_", "ghu_", "ghs_", "ghr_", "github_pat_"]
                                  && prefix <= word && |word| - |prefix| >= 16
  {}

  lemma CredentialShapeIs(word: string)
    ensures IsCredentialShaped(word) <==> LooksLikeCredential(word)
  {
    PartsAreCounted(word);
    GitHubPrefixes(word);
  }

  /** `Bearer`, whatever the case of its letters. */
  predicate SpellsBearer(word: string) {
    && |word| == 6
    && word[0] in "bB" && word[1] in "eE" && word[2] in "aA" && word[3] in "rR" && word[4] in "eE" && word[5] in "rR"
  }

  lemma BearerIs(word: string)
    ensures IsBearer(word) <==> SpellsBearer(word)
  {
    if |word| == 6 {
      assert IsBearer(word) <==>
               && LowerAscii(word[0]) == 'b' && LowerAscii(word[1]) == 'e' && LowerAscii(word[2]) == 'a'
               && LowerAscii(word[3]) == 'r' && LowerAscii(word[4]) == 'e' && LowerAscii(word[5]) == 'r';
    }
  }

  // ---- The two-pass form ----

  function RunLength(text: string, word: bool): (n: nat)
    ensures n <= |text| && Uniform(text[..n], word)
    ensures n < |text| ==> IsWordChar(text[n]) != word
  {
    if text == "" || IsWordChar(text[0]) != word then 0
    else
      var rest := RunLength(text[1..], word);
      assert text[..rest + 1] == [text[0]] + text[1..][..rest];
      1 + rest
  }

  /** The text cut where word characters and gap characters meet. */
  function Runs(text: string): seq<string>
    decreases |text|
  {
    if text == "" then []
    else
      var n := RunLength(text, IsWordChar(text[0]));
      if n == 0 then [] else [text[..n]] + Runs(text[n..])
  }

  predicate IsWord(run: string) { run != "" && IsWordChar(run[0]) }

  /** Non-empty runs, each of one class, neighbours of different classes. */
  predicate Alternating(runs: seq<string>) {
    && (forall i :: 0 <= i < |runs| ==> runs[i] != "" && Uniform(runs[i], IsWord(runs[i])))
    && (forall i :: 0 <= i < |runs| - 1 ==> IsWord(runs[i]) != IsWord(runs[i + 1]))
  }

  lemma AlternatingGrows(run: string, runs: seq<string>)
    requires Alternating(runs) && run != "" && Uniform(run, IsWord(run))
    requires runs != [] ==> IsWord(runs[0]) != IsWord(run)
    ensures Alternating([run] + runs)
  {
    var longer := [run] + runs;
    forall i | 0 <= i < |longer| ensures longer[i] != "" && Uniform(longer[i], IsWord(longer[i])) {
      if i > 0 { assert longer[i] == runs[i - 1]; }
    }
    forall i | 0 <= i < |longer| - 1 ensures IsWord(longer[i]) != IsWord(longer[i + 1]) {
      assert longer[i + 1] == runs[i];
      if i > 0 { assert longer[i] == runs[i - 1]; }
    }
  }

  lemma FirstRun(text: string)
    requires text != ""
    ensures var n := RunLength(text, IsWordChar(text[0]));
            && 0 < n && text[..n] != "" && text == text[..n] + text[n..]
            && IsWord(text[..n]) == IsWordChar(text[0]) && Uniform(text[..n], IsWordChar(text[0]))
            && (text[n..] != "" ==> IsWordChar(text[n..][0]) != IsWordChar(text[0]))
  {}

  /** The runs are the text, cut into alternating classes. */
  lemma {:induction false} RunsPartition(text: string)
    ensures Alternating(Runs(text)) && Concat(Runs(text), 0) == text
    ensures text != "" ==> Runs(text) != [] && IsWord(Runs(text)[0]) == IsWordChar(text[0])
    decreases |text|
  {
    if text != "" {
      var n := RunLength(text, IsWordChar(text[0]));
      var run, tail := text[..n], text[n..];
      FirstRun(text);
      RunsPartition(tail);
      AlternatingGrows(run, Runs(tail));
      ConcatTail(run, Runs(tail), 0);
    }
  }

  predicate Redacted(m: Marking, runs: seq<string>, i: nat)
    requires i < |runs|
  {
    && IsWord(runs[i])
    && (m.credential(runs[i]) || (i >= 2 && AllBlank(runs[i - 1]) && m.scheme(runs[i - 2])))
  }

  lemma BlanksAre(gap: string)
    ensures AllBlank(gap) <==> forall c :: c in gap ==> c in " \t"
  {
    forall k | 0 <= k < |gap| ensures IsBlank(gap[k]) <==> gap[k] in " \t" {}
    if forall c :: c in gap ==> c in " \t" {
      forall k | 0 <= k < |gap| ensures IsBlank(gap[k]) { assert gap[k] in gap; }
    }
  }

  /** The characters of a word: ASCII letters and digits, and six marks. */
  predicate MakesWord(c: char) {
    c in "-_.~+/" || 48 <= c as int <= 57 || 65 <= c as int <= 90 || 97 <= c as int <= 122
  }

  lemma WordStarts(run: string)
    ensures IsWord(run) <==> run != "" && MakesWord(run[0])
  {}

  lemma MarkerIs()
    ensures Redaction(MARKING) == "[REDACTED]"
  {
    assert ['['] + ("REDACTED" + [']']) == "[REDACTED]";
  }

  /** A word that has the shape of a credential, or follows `Bearer` after blanks alone. */
  ghost predicate IsHiddenRun(runs: seq<string>, i: nat)
    requires i < |runs|
  {
    && runs[i] != "" && MakesWord(runs[i][0])
    && (|| LooksLikeCredential(runs[i])
        || (i >= 2 && SpellsBearer(runs[i - 2]) && forall c :: c in runs[i - 1] ==> c in " \t"))
  }

  /** These are exactly the runs that are redacted. */
  lemma RedactedExactly(runs: seq<string>, i: nat)
    requires i < |runs|
    ensures Redacted(MARKING, runs, i) <==> IsHiddenRun(runs, i)
  {
    CredentialShapeIs(runs[i]);
    if i >= 2 {
      BearerIs(runs[i - 2]);
      BlanksAre(runs[i - 1]);
    }
    WordStarts(runs[i]);
  }

  /** Every run from `from` on, redacted words replaced, all else unchanged. */
  function Rendered(m: Marking, runs: seq<string>, from: nat): string
    requires from <= |runs|
    decreases |runs| - from
  {
    if from == |runs| then ""
    else (if Redacted(m, runs, from) then Redaction(m) else runs[from]) + Rendered(m, runs, from + 1)
  }

  /** What is shown run by run: the marker for a hidden one, and every other as it is. */
  ghost predicate ShowsRuns(runs: seq<string>, from: nat, shown: seq<string>) {
    && from + |shown| == |runs|
    && forall i :: 0 <= i < |shown| ==> shown[i] == if IsHiddenRun(runs, from + i) then "[REDACTED]" else runs[from + i]
  }

  lemma ShowsFirst(runs: seq<string>, from: nat, first: string, rest: seq<string>)
    requires from < |runs| && ShowsRuns(runs, from + 1, rest)
    requires first == if IsHiddenRun(runs, from) then "[REDACTED]" else runs[from]
    ensures ShowsRuns(runs, from, [first] + rest)
  {
    var shown := [first] + rest;
    forall i | 0 <= i < |shown|
      ensures shown[i] == if IsHiddenRun(runs, from + i) then "[REDACTED]" else runs[from + i]
    {
      if i > 0 { assert shown[i] == rest[i - 1]; }
    }
  }

  lemma {:induction false} RendersExactly(runs: seq<string>, from: nat) returns (shown: seq<string>)
    requires from <= |runs|
    ensures ShowsRuns(runs, from, shown) && Concat(shown, 0) == Rendered(MARKING, runs, from)
    decreases |runs| - from
  {
    shown := [];
    if from < |runs| {
      var rest := RendersExactly(runs, from + 1);
      RedactedExactly(runs, from);
      MarkerIs();
      var first := if IsHiddenRun(runs, from) then "[REDACTED]" else runs[from];
      ConcatTail(first, rest, 0);
      ShowsFirst(runs, from, first, rest);
      shown := [first] + rest;
    }
  }

  // ---- The streaming form ----

  datatype Gap = NoGap | BlankGap | OtherGap

  /** Whether the last word was a scheme, and what the gap since then holds. */
  datatype Scan = Scan(scheme: bool, gap: Gap)

  const START := Scan(false, NoGap)

  predicate Armed(at: Scan) { at.scheme && at.gap.BlankGap? }

  function AfterGapChar(at: Scan, c: char): Scan {
    at.(gap := if IsBlank(c) && !at.gap.OtherGap? then BlankGap else OtherGap)
  }

  function AfterWord(m: Marking, word: string): Scan { Scan(m.scheme(word), NoGap) }

  function Word(m: Marking, at: Scan, word: string): string {
    if Armed(at) || m.credential(word) then Redaction(m) else word
  }

  function Streamed(m: Marking, text: string, at: Scan): string
    decreases |text|
  {
    if text == "" then ""
    else if !IsWordChar(text[0]) then [text[0]] + Streamed(m, text[1..], AfterGapChar(at, text[0]))
    else
      var n := RunLength(text, true);
      if n == 0 then "" else Word(m, at, text[..n]) + Streamed(m, text[n..], AfterWord(m, text[..n]))
  }

  function AfterGap(at: Scan, gap: string): Scan {
    if gap == "" then at
    else at.(gap := if AllBlank(gap) && !at.gap.OtherGap? then BlankGap else OtherGap)
  }

  lemma {:induction false} StreamedGap(m: Marking, gap: string, text: string, at: Scan)
    requires Uniform(gap, false)
    ensures Streamed(m, gap + text, at) == gap + Streamed(m, text, AfterGap(at, gap))
    decreases |gap|
  {
    if gap == "" {
      assert gap + text == text;
    } else {
      var rest := gap[1..];
      assert (gap + text)[1..] == rest + text;
      StreamedGap(m, rest, text, AfterGapChar(at, gap[0]));
      assert AfterGap(AfterGapChar(at, gap[0]), rest) == AfterGap(at, gap);
      assert gap == [gap[0]] + rest;
    }
  }

  lemma {:induction false} RunLengthOf(run: string, rest: string, word: bool)
    requires Uniform(run, word) && (rest != "" ==> IsWordChar(rest[0]) != word)
    ensures RunLength(run + rest, word) == |run|
  {
    if run == "" {
      assert run + rest == rest;
    } else {
      assert (run + rest)[1..] == run[1..] + rest;
      RunLengthOf(run[1..], rest, word);
    }
  }

  lemma StreamedWord(m: Marking, word: string, rest: string, at: Scan)
    requires word != "" && Uniform(word, true) && (rest != "" ==> !IsWordChar(rest[0]))
    ensures Streamed(m, word + rest, at) == Word(m, at, word) + Streamed(m, rest, AfterWord(m, word))
  {
    RunLengthOf(word, rest, true);
    assert (word + rest)[..|word|] == word && (word + rest)[|word|..] == rest;
  }

  /** The scanner's state before a run, read off the runs before it. */
  function StateBefore(m: Marking, runs: seq<string>, i: nat): Scan
    requires i <= |runs|
  {
    if i == 0 then START
    else if IsWord(runs[i - 1]) then AfterWord(m, runs[i - 1])
    else Scan(i >= 2 && m.scheme(runs[i - 2]), if AllBlank(runs[i - 1]) then BlankGap else OtherGap)
  }

  lemma StreamedRun(m: Marking, runs: seq<string>, i: nat, rest: string)
    requires i < |runs| && Alternating(runs)
    requires rest != "" ==> IsWordChar(rest[0]) != IsWord(runs[i])
    ensures Streamed(m, runs[i] + rest, StateBefore(m, runs, i))
            == (if Redacted(m, runs, i) then Redaction(m) else runs[i])
               + Streamed(m, rest, StateBefore(m, runs, i + 1))
  {
    var at := StateBefore(m, runs, i);
    if IsWord(runs[i]) {
      StreamedWord(m, runs[i], rest, at);
    } else {
      StreamedGap(m, runs[i], rest, at);
    }
  }

  lemma RestStartsNextRun(runs: seq<string>, from: nat)
    requires from <= |runs| && Alternating(runs)
    ensures if from == |runs| then Concat(runs, from) == ""
            else Concat(runs, from) != "" && Concat(runs, from)[0] == runs[from][0]
  {}

  lemma {:induction false} StreamedRuns(m: Marking, runs: seq<string>, from: nat)
    requires from <= |runs| && Alternating(runs)
    ensures Streamed(m, Concat(runs, from), StateBefore(m, runs, from)) == Rendered(m, runs, from)
    decreases |runs| - from
  {
    if from < |runs| {
      var rest := Concat(runs, from + 1);
      StreamedRuns(m, runs, from + 1);
      RestStartsNextRun(runs, from + 1);
      StreamedRun(m, runs, from, rest);
    }
  }

  /** One pass does what two do. */
  lemma StreamingIsTwoPass(m: Marking, text: string)
    ensures Streamed(m, text, START) == Rendered(m, Runs(text), 0)
  {
    RunsPartition(text);
    StreamedRuns(m, Runs(text), 0);
  }

  /** One turn of the pass where a run starts: `run` is emitted, and `rest` is still to come. */
  lemma StreamedTurn(m: Marking, run: string, rest: string, at: Scan)
    requires run != "" && Uniform(run, IsWord(run))
    requires rest != "" ==> IsWordChar(rest[0]) != IsWord(run)
    requires at.gap.NoGap? || IsWord(run)
    ensures IsWord(run) ==>
              Streamed(m, run + rest, at) == Word(m, at, run) + Streamed(m, rest, AfterWord(m, run))
    ensures !IsWord(run) ==>
              Streamed(m, run + rest, at)
              == run + Streamed(m, rest, Scan(at.scheme, if AllBlank(run) then BlankGap else OtherGap))
  {
    if IsWord(run) {
      StreamedWord(m, run, rest, at);
    } else {
      StreamedGap(m, run, rest, at);
    }
  }

  lemma Appends(out: string, run: string, rest: string, goal: string)
    requires out + (run + rest) == goal
    ensures out + run + rest == goal
  {}

  lemma RunAt(text: string, position: nat) returns (end: nat)
    requires position < |text|
    ensures end == position + RunLength(text[position..], IsWordChar(text[position]))
    ensures position < end <= |text|
    ensures text[position..] == text[position..end] + text[end..]
    ensures Uniform(text[position..end], IsWordChar(text[position]))
    ensures end < |text| ==> IsWordChar(text[end]) != IsWordChar(text[position])
  {
    var rest := text[position..];
    var n := RunLength(rest, IsWordChar(rest[0]));
    FirstRun(rest);
    end := position + n;
    assert rest[..n] == text[position..end] && rest[n..] == text[end..];
  }

  /** What the pass remembers: the last word, and whether the gap since then was blank. */
  datatype Memory = Memory(previousWord: Option<string>, blankGap: bool)

  predicate AfterScheme(m: Marking, memory: Memory) {
    memory.blankGap && memory.previousWord.Some? && m.scheme(memory.previousWord.value)
  }

  /** The output so far and what is left to scan make up the whole output. */
  ghost predicate OnTrack(m: Marking, text: string, position: nat, out: string, memory: Memory, at: Scan, goal: string) {
    && position <= |text|
    && out + Streamed(m, text[position..], at) == goal
    && (at.scheme <==> memory.previousWord.Some? && m.scheme(memory.previousWord.value))
    && (at.gap.BlankGap? <==> memory.blankGap)
    && (at.gap.NoGap? || position == |text| || IsWordChar(text[position]))
  }

  method EmitRun(m: Marking, text: string, position: nat, before: string, memory: Memory,
                 ghost at: Scan, ghost goal: string)
    returns (out: string, end: nat, after: Memory, ghost next: Scan)
    requires OnTrack(m, text, position, before, memory, at, goal) && position < |text|
    ensures OnTrack(m, text, end, out, after, next, goal) && end > position
  {
    ghost var stop := RunAt(text, position);
    end := position + RunLength(text[position..], IsWordChar(text[position]));
    var segment := text[position..end];
    StreamedTurn(m, segment, text[end..], at);
    if IsWordChar(segment[0]) {
      var shown := if AfterScheme(m, memory) || m.credential(segment) then Redaction(m) else segment;
      Appends(before, shown, Streamed(m, text[end..], AfterWord(m, segment)), goal);
      out := before + shown;
      after := Memory(Some(segment), false);
      next := AfterWord(m, segment);
    } else {
      next := Scan(at.scheme, if AllBlank(segment) then BlankGap else OtherGap);
      Appends(before, segment, Streamed(m, text[end..], next), goal);
      after := memory.(blankGap := AllBlank(segment));
      out := before + segment;
    }
  }

  /** The pass as written. */
  method RedactCredentialShapes(m: Marking, text: string) returns (out: string)
    ensures out == Rendered(m, Runs(text), 0)
  {
    out := "";
    var memory := Memory(None, false);
    var position := 0;
    ghost var at, goal := START, Streamed(m, text, START);
    assert text[0..] == text;
    while position < |text|
      invariant OnTrack(m, text, position, out, memory, at, goal)
      decreases |text| - position
    {
      out, position, memory, at := EmitRun(m, text, position, out, memory, at, goal);
    }
    StreamingIsTwoPass(m, text);
  }

  // ---- Redacting again ----

  /** The second pass is where the first was, or remembers no scheme. */
  predicate Follows(again: Scan, first: Scan) { again == first || !again.scheme }

  lemma StreamedStart(m: Marking, text: string, at: Scan)
    requires text != "" && !IsWordChar(text[0])
    ensures Streamed(m, text, at) != "" && Streamed(m, text, at)[0] == text[0]
  {}

  lemma Bracketed(word: string, rest: string)
    ensures ['['] + (word + [']']) + rest == ['['] + (word + ([']'] + rest))
  {}

  lemma MarkerIsKept(m: Marking, rest: string, at: Scan)
    requires Sound(m)
    ensures Streamed(m, Redaction(m) + rest, at) == Redaction(m) + Streamed(m, rest, Scan(false, OtherGap))
  {
    var closed := [']'] + rest;
    Bracketed(m.shown, rest);
    StreamedGap(m, ['['], m.shown + closed, at);
    StreamedWord(m, m.shown, closed, AfterGap(at, ['[']));
    StreamedGap(m, [']'], rest, AfterWord(m, m.shown));
    Bracketed(m.shown, Streamed(m, rest, Scan(false, OtherGap)));
  }

  lemma {:induction false} RedactingAgain(m: Marking, text: string, first: Scan, again: Scan)
    requires Sound(m) && Follows(again, first)
    ensures Streamed(m, Streamed(m, text, first), again) == Streamed(m, text, first)
    decreases |text|
  {
    if text == "" {
    } else if !IsWordChar(text[0]) {
      var c := text[0];
      var out := Streamed(m, text[1..], AfterGapChar(first, c));
      RedactingAgain(m, text[1..], AfterGapChar(first, c), AfterGapChar(again, c));
      assert ([c] + out)[1..] == out;
    } else {
      var n := RunLength(text, true);
      assert n > 0;
      var word, rest := text[..n], text[n..];
      var out := Streamed(m, rest, AfterWord(m, word));
      if Armed(first) || m.credential(word) {
        RedactingAgain(m, rest, AfterWord(m, word), Scan(false, OtherGap));
        MarkerIsKept(m, out, again);
      } else {
        RedactingAgain(m, rest, AfterWord(m, word), AfterWord(m, word));
        if rest != "" { StreamedStart(m, rest, AfterWord(m, word)); }
        StreamedWord(m, word, out, again);
      }
    }
  }

  /** Redacting what was redacted changes nothing more. */
  lemma RedactingIsIdempotent(m: Marking, text: string)
    requires Sound(m)
    ensures var once := Rendered(m, Runs(text), 0);
            Rendered(m, Runs(once), 0) == once
  {
    StreamingIsTwoPass(m, text);
    RedactingAgain(m, text, START, START);
    StreamingIsTwoPass(m, Streamed(m, text, START));
  }
}
