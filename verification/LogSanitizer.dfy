/**
 * Making untrusted text safe for a job log: no control character, no workflow command.
 *
 * Characters are Unicode scalar values.
 */
module LogSanitizer {
  import opened Splitting

  const REPLACEMENT := '\U{FFFD}'
  const TRUNCATION_MARKER := "[truncated]"
  const MAX_INLINE_CHARS := 512
  const MAX_BLOCK_CHARS := 65536

  predicate IsControl(c: char) {
    c < ' ' || '\U{7F}' <= c <= '\U{9F}'
  }

  /** A character that must not reach a log: controls, and the two Unicode line separators. */
  predicate IsUnsafeLogChar(c: char) {
    IsControl(c) || c == '\U{2028}' || c == '\U{2029}'
  }

  predicate IsWhitespace(c: char) {
    || '\U{9}' <= c <= '\U{D}' || c == ' ' || c == '\U{85}' || c == '\U{A0}' || c == '\U{1680}'
    || '\U{2000}' <= c <= '\U{200A}' || c == '\U{2028}' || c == '\U{2029}' || c == '\U{202F}'
    || c == '\U{205F}' || c == '\U{3000}'
  }

  // ---- What a safe line is ----

  /** The legacy command syntax stands at position `k`. */
  predicate CommandAt(s: string, k: int) {
    0 <= k && k + 3 <= |s| && s[k] == '#' && s[k + 1] == '#' && s[k + 2] == '['
  }

  predicate HasCommand(s: string) { exists k :: 0 <= k < |s| && CommandAt(s, k) }

  /** How many characters trimming the start removes. */
  function Indent(s: string): (n: nat)
    ensures n <= |s|
  {
    if s != "" && IsWhitespace(s[0]) then 1 + Indent(s[1..]) else 0
  }

  predicate StartsCommand(s: string) {
    Indent(s) + 2 <= |s| && s[Indent(s)] == ':' && s[Indent(s) + 1] == ':'
  }

  predicate NoUnsafeChar(s: string) { forall k :: 0 <= k < |s| ==> !IsUnsafeLogChar(s[k]) }

  predicate Clean(s: string) { NoUnsafeChar(s) && !HasCommand(s) && !StartsCommand(s) }

  ghost predicate AllClean(lines: seq<string>) { forall i :: 0 <= i < |lines| ==> Clean(lines[i]) }

  // ---- What that means, character by character ----

  /** Control characters of both blocks, delete, and the two Unicode line separators. */
  predicate IsForbidden(code: int) { code < 32 || 127 <= code <= 159 || code == 0x2028 || code == 0x2029 }

  /** The characters with the Unicode property White_Space. */
  predicate IsBlankCode(code: int) {
    || code in {32, 133, 160, 5760, 8232, 8233, 8239, 8287, 12288}
    || 9 <= code <= 13 || 8192 <= code <= 8202
  }

  /** The text `t` stands at position `k`. */
  predicate SpellsAt(s: string, t: string, k: int) { 0 <= k && k + |t| <= |s| && s[k..k + |t|] == t }

  /** After `k` blanks, a command of the current syntax. */
  predicate CommandAfterBlanks(s: string, k: int) {
    && SpellsAt(s, "::", k)
    && forall j :: 0 <= j < k ==> IsBlankCode(s[j] as int)
  }

  lemma {:induction false} IndentIsBlank(s: string)
    ensures forall j :: 0 <= j < Indent(s) ==> IsBlankCode(s[j] as int)
    ensures Indent(s) < |s| ==> !IsBlankCode(s[Indent(s)] as int)
  {
    if s != "" && IsWhitespace(s[0]) {
      IndentIsBlank(s[1..]);
      forall j | 0 <= j < Indent(s) ensures IsBlankCode(s[j] as int) {
        if j > 0 { assert s[j] == s[1..][j - 1]; }
      }
    }
  }

  lemma CommandIsAfterBlanks(s: string)
    ensures StartsCommand(s) <==> exists k :: CommandAfterBlanks(s, k)
  {
    IndentIsBlank(s);
    var n := Indent(s);
    if StartsCommand(s) { assert CommandAfterBlanks(s, n); }
    if k :| CommandAfterBlanks(s, k) {
      assert s[k] == s[k..k + 2][0] == ':' && s[k + 1] == s[k..k + 2][1] == ':';
      assert !IsBlankCode(':' as int);
      assert k == n;
    }
  }

  /** A clean line: no forbidden character, `##[` nowhere, and no `::` after leading blanks. */
  lemma CleanExactly(s: string)
    ensures Clean(s) <==>
              && (forall k :: 0 <= k < |s| ==> !IsForbidden(s[k] as int))
              && !(exists k :: SpellsAt(s, "##[", k))
              && !exists k :: CommandAfterBlanks(s, k)
  {
    CommandIsAfterBlanks(s);
    forall k ensures CommandAt(s, k) <==> SpellsAt(s, "##[", k) {
      if 0 <= k && k + 3 <= |s| {
        var three := s[k..k + 3];
        assert three[0] == s[k] && three[1] == s[k + 1] && three[2] == s[k + 2];
      }
    }
    forall k | 0 <= k < |s| ensures IsUnsafeLogChar(s[k]) <==> IsForbidden(s[k] as int) {}
    if k :| SpellsAt(s, "##[", k) { assert CommandAt(s, k); }
    if HasCommand(s) {
      var k :| 0 <= k < |s| && CommandAt(s, k);
      assert SpellsAt(s, "##[", k);
    }
  }

  // ---- The rewriting steps ----

  function Bounded(value: string, maxChars: nat): string {
    if |value| <= maxChars then value else value[..maxChars]
  }

  function Replaced(s: string): (r: string)
    ensures |r| == |s| && NoUnsafeChar(r)
    ensures forall k :: 0 <= k < |s| ==> r[k] == if IsUnsafeLogChar(s[k]) then REPLACEMENT else s[k]
  {
    seq(|s|, (k: nat) requires k < |s| => if IsUnsafeLogChar(s[k]) then REPLACEMENT else s[k])
  }

  /** Each `##[`, from the left, with a replacement character before its bracket. */
  function Broken(s: string): (r: string)
    ensures |r| >= |s|
    ensures s != "" ==> r[0] == s[0]
  {
    if s == "" then ""
    else if CommandAt(s, 0) then ['#', '#', REPLACEMENT, '['] + Broken(s[3..])
    else [s[0]] + Broken(s[1..])
  }

  function Guarded(s: string): string {
    if StartsCommand(s) then [REPLACEMENT] + s else s
  }

  function Inert(line: string): string { Guarded(Broken(line)) }

  lemma BrokenStep(out: string, rest: string)
    requires rest != ""
    ensures CommandAt(rest, 0) ==>
              out + Broken(rest) == out + ['#', '#', REPLACEMENT, '['] + Broken(rest[3..])
    ensures !CommandAt(rest, 0) ==> out + Broken(rest) == out + [rest[0]] + Broken(rest[1..])
  {}

  class LogLine {
    var text: string

    constructor (start: string)
      ensures text == start
    {
      text := start;
    }

    method NeutralizeWorkflowCommands()
      modifies this
      ensures text == Inert(old(text))
    {
      var out: string := "";
      var i := 0;
      while i < |text|
        invariant i <= |text| && text == old(text)
        invariant out + Broken(text[i..]) == Broken(text)
      {
        ghost var rest := text[i..];
        if CommandAt(text, i) {
          assert CommandAt(rest, 0) && rest[3..] == text[i + 3..];
          BrokenStep(out, rest);
          out := out + ['#', '#', REPLACEMENT, '['];
          i := i + 3;
        } else {
          assert !CommandAt(rest, 0) && rest[1..] == text[i + 1..];
          BrokenStep(out, rest);
          out := out + [text[i]];
          i := i + 1;
        }
      }
      assert out + Broken(text[i..]) == out;
      text := if StartsCommand(out) then [REPLACEMENT] + out else out;
    }
  }

  function Marked(s: string, truncated: bool): string {
    if truncated then s + TRUNCATION_MARKER else s
  }

  function SingleLine(value: string, maxChars: nat): string {
    Inert(Marked(Replaced(Bounded(value, maxChars)), |value| > maxChars))
  }

  method SanitizeSingleLine(value: string, maxChars: nat) returns (sanitized: string)
    ensures sanitized == SingleLine(value, maxChars)
  {
    var line := new LogLine(Marked(Replaced(Bounded(value, maxChars)), |value| > maxChars));
    line.NeutralizeWorkflowCommands();
    sanitized := line.text;
  }

  method Sanitize(value: string) returns (sanitized: string)
    ensures sanitized == SingleLine(value, 512)
  {
    sanitized := SanitizeSingleLine(value, MAX_INLINE_CHARS);
  }

  method SanitizeLine(value: string) returns (sanitized: string)
    ensures sanitized == SingleLine(value, 65536)
  {
    sanitized := SanitizeSingleLine(value, MAX_BLOCK_CHARS);
  }

  // ---- Neutralizing is enough, and changes nothing else ----

  lemma {:induction false} BrokenHasNoCommand(s: string)
    ensures !HasCommand(Broken(s))
    decreases |s|
  {
    if s != "" {
      var r := Broken(s);
      if CommandAt(s, 0) {
        BrokenHasNoCommand(s[3..]);
        forall k | 0 <= k < |r| ensures !CommandAt(r, k) {
          if k >= 4 {
            assert !CommandAt(Broken(s[3..]), k - 4);
            assert r[4..] == Broken(s[3..]);
          }
        }
      } else {
        BrokenHasNoCommand(s[1..]);
        var rest := Broken(s[1..]);
        if |s| > 2 {
          assert s[1..][1..] == s[2..];
          assert !CommandAt(s[1..], 0) ==> rest[1] == Broken(s[2..])[0];
        }
        forall k | 0 <= k < |r| ensures !CommandAt(r, k) {
          if k >= 1 { assert !CommandAt(rest, k - 1); }
        }
      }
    }
  }

  /** A legacy command is parted by one replacement character before its bracket; text before it is kept. */
  lemma {:induction false} BreaksAt(before: string, after: string)
    requires !HasCommand(before + "##")
    ensures Broken(before + "##[" + after) == before + "##\U{FFFD}[" + Broken(after)
    decreases |before|
  {
    var s := before + "##[" + after;
    if before == "" {
      assert CommandAt(s, 0) && s[3..] == after;
      assert "##\U{FFFD}[" + Broken(after) == ['#', '#', REPLACEMENT, '['] + Broken(after);
    } else {
      assert (before + "##")[1..] == before[1..] + "##";
      forall k | 0 <= k < |before[1..] + "##"| ensures !CommandAt(before[1..] + "##", k) {
        assert !CommandAt(before + "##", k + 1);
      }
      BreaksAt(before[1..], after);
      assert s[1..] == before[1..] + "##[" + after;
      assert !CommandAt(before + "##", 0);
      assert !CommandAt(s, 0);
      assert before == [before[0]] + before[1..];
    }
  }

  /** A line that would start a command is led by one replacement character, and no other line is. */
  lemma GuardsExactly(line: string)
    ensures Inert(line) == if exists k :: CommandAfterBlanks(Broken(line), k) then "\U{FFFD}" + Broken(line) else Broken(line)
  {
    CommandIsAfterBlanks(Broken(line));
  }

  lemma {:induction false} BrokenHasNoUnsafeChar(s: string)
    requires NoUnsafeChar(s)
    ensures NoUnsafeChar(Broken(s))
    decreases |s|
  {
    if s != "" { BrokenHasNoUnsafeChar(if CommandAt(s, 0) then s[3..] else s[1..]); }
  }

  lemma GuardedStaysFree(s: string)
    requires !HasCommand(s) && NoUnsafeChar(s)
    ensures Clean(Guarded(s))
  {
    if StartsCommand(s) {
      var r := Guarded(s);
      forall k | 0 <= k < |r| ensures !CommandAt(r, k) {
        if k >= 1 { assert !CommandAt(s, k - 1); }
      }
    }
  }

  lemma InertIsClean(line: string)
    requires NoUnsafeChar(line)
    ensures Clean(Inert(line))
  {
    BrokenHasNoCommand(line);
    BrokenHasNoUnsafeChar(line);
    GuardedStaysFree(Broken(line));
  }

  lemma {:induction false} BrokenKeepsFree(s: string)
    requires !HasCommand(s)
    ensures Broken(s) == s
    decreases |s|
  {
    if s != "" {
      assert !CommandAt(s, 0);
      forall k | 0 <= k < |s[1..]| ensures !CommandAt(s[1..], k) {
        assert !CommandAt(s, k + 1);
      }
      BrokenKeepsFree(s[1..]);
    }
  }

  /** What is left of a text without the replacement character. */
  function Visible(s: string): string {
    if s == "" then ""
    else if s[0] == REPLACEMENT then Visible(s[1..])
    else [s[0]] + Visible(s[1..])
  }

  lemma VisibleCons(c: char, t: string)
    ensures Visible([c] + t) == if c == REPLACEMENT then Visible(t) else [c] + Visible(t)
  {
    assert ([c] + t)[1..] == t;
  }

  lemma {:induction false} BrokenKeepsVisible(s: string)
    ensures Visible(Broken(s)) == Visible(s)
    decreases |s|
  {
    if s != "" {
      if CommandAt(s, 0) {
        var tail := s[3..];
        var rest := Broken(tail);
        BrokenKeepsVisible(tail);
        VisibleCons('[', tail);
        VisibleCons('#', ['['] + tail);
        VisibleCons('#', ['#'] + (['['] + tail));
        assert s == ['#'] + (['#'] + (['['] + tail));
        VisibleCons('[', rest);
        VisibleCons(REPLACEMENT, ['['] + rest);
        VisibleCons('#', [REPLACEMENT] + (['['] + rest));
        VisibleCons('#', ['#'] + ([REPLACEMENT] + (['['] + rest)));
        assert Broken(s) == ['#'] + (['#'] + ([REPLACEMENT] + (['['] + rest)));
      } else {
        BrokenKeepsVisible(s[1..]);
        VisibleCons(s[0], Broken(s[1..]));
      }
    }
  }

  /** Neutralizing only ever inserts replacement characters. */
  lemma InertKeepsVisible(line: string)
    ensures Visible(Inert(line)) == Visible(line)
  {
    BrokenKeepsVisible(line);
    var s := Broken(line);
    assert ([REPLACEMENT] + s)[1..] == s;
  }

  /** What a reader is shown of a text: all of it but what is forbidden and the replacement character. */
  function Readable(s: string): string {
    if s == "" then ""
    else if IsForbidden(s[0] as int) || s[0] == '\U{FFFD}' then Readable(s[1..])
    else [s[0]] + Readable(s[1..])
  }

  lemma {:induction false} ReplacedIsReadable(s: string)
    ensures Visible(Replaced(s)) == Readable(s)
  {
    if s != "" {
      ReplacedIsReadable(s[1..]);
      assert Replaced(s)[1..] == Replaced(s[1..]);
    }
  }

  lemma {:induction false} VisibleAppends(s: string, t: string)
    ensures Visible(s + t) == Visible(s) + Visible(t)
  {
    if s == "" {
      assert s + t == t;
    } else {
      VisibleAppends(s[1..], t);
      FirstThenRest(s, t);
      VisibleCons(s[0], s[1..] + t);
      Associates([s[0]], Visible(s[1..]), Visible(t));
    }
  }

  lemma {:induction false} NothingHidden(s: string)
    requires forall k :: 0 <= k < |s| ==> s[k] != REPLACEMENT
    ensures Visible(s) == s
  {
    if s != "" { NothingHidden(s[1..]); }
  }

  lemma MarkerIsVisible()
    ensures Visible(TRUNCATION_MARKER) == "[truncated]"
  {
    NothingHidden("[truncated]");
  }

  /** One line of sanitized text is clean, shows what was kept of the input, and says when it cut. */
  lemma SingleLineIsClean(value: string, maxChars: nat)
    ensures Clean(SingleLine(value, maxChars))
    ensures Visible(SingleLine(value, maxChars))
            == Visible(Marked(Replaced(Bounded(value, maxChars)), |value| > maxChars))
  {
    var line := Marked(Replaced(Bounded(value, maxChars)), |value| > maxChars);
    assert NoUnsafeChar(TRUNCATION_MARKER);
    InertIsClean(line);
    InertKeepsVisible(line);
  }

  /** Shown of a text is its beginning up to the bound, and the marker exactly if that is not all of it. */
  lemma SingleLineShows(value: string, maxChars: nat)
    ensures Visible(SingleLine(value, maxChars))
            == if |value| <= maxChars then Readable(value) else Readable(value[..maxChars]) + "[truncated]"
  {
    SingleLineIsClean(value, maxChars);
    var kept := Bounded(value, maxChars);
    ReplacedIsReadable(kept);
    VisibleAppends(Replaced(kept), TRUNCATION_MARKER);
    MarkerIsVisible();
  }

  /** Within the bound, sanitizing leaves a text alone exactly when it was clean. */
  lemma SingleLineKeepsClean(value: string, maxChars: nat)
    requires |value| <= maxChars
    ensures SingleLine(value, maxChars) == value <==> Clean(value)
  {
    SingleLineIsClean(value, maxChars);
    if Clean(value) {
      assert Replaced(value) == value;
      BrokenKeepsFree(value);
    }
  }

  // ---- Blocks ----

  function StripReturn(line: string): string {
    if line != "" && line[|line| - 1] == '\r' then line[..|line| - 1] else line
  }

  function BlockLine(line: string): string { Inert(Replaced(StripReturn(line))) }

  function BlockLines(lines: seq<string>): (r: seq<string>)
    ensures |r| == |lines|
    ensures forall i :: 0 <= i < |lines| ==> r[i] == BlockLine(lines[i])
  {
    seq(|lines|, (i: nat) requires i < |lines| => BlockLine(lines[i]))
  }

  function Kept(value: string): seq<string> { Split(Bounded(value, MAX_BLOCK_CHARS), '\n') }

  predicate Truncated(value: string) { |value| > MAX_BLOCK_CHARS }

  function Block(value: string): string {
    Marked(Interleave(BlockLines(Kept(value)), '\n', |Kept(value)|), Truncated(value))
  }

  lemma JoinsLine(before: string, line: string)
    ensures before + ['\n'] + line == before + (['\n'] + line)
  {}

  method SanitizeBlock(value: string) returns (output: string)
    ensures output == Block(value)
  {
    var lines := Split(Bounded(value, MAX_BLOCK_CHARS), '\n');
    ghost var rendered := BlockLines(lines);
    output := "";
    for i := 0 to |lines|
      invariant i == 0 ==> output == ""
      invariant i > 0 ==> output == Interleave(rendered, '\n', i)
    {
      if i > 0 { output := output + ['\n']; }
      var line := new LogLine(Replaced(StripReturn(lines[i])));
      line.NeutralizeWorkflowCommands();
      output := output + line.text;
      if i > 0 { JoinsLine(Interleave(rendered, '\n', i), rendered[i]); }
    }
    if |value| > MAX_BLOCK_CHARS { output := output + TRUNCATION_MARKER; }
  }

  lemma BlockLineIsClean(line: string)
    ensures Clean(BlockLine(line)) && Free(BlockLine(line), '\n')
  {
    InertIsClean(Replaced(StripReturn(line)));
    var r := BlockLine(line);
    forall k | 0 <= k < |r| ensures r[k] != '\n' { assert !IsUnsafeLogChar(r[k]); }
  }

  /** Every line of an input that was not cut comes out clean, and as a line of its own. */
  lemma BlockKeepsLines(value: string)
    requires !Truncated(value)
    ensures Split(Block(value), '\n') == BlockLines(Split(value, '\n'))
    ensures AllClean(Split(Block(value), '\n'))
  {
    var lines := BlockLines(Kept(value));
    forall i | 0 <= i < |lines| ensures Clean(lines[i]) && Free(lines[i], '\n') {
      BlockLineIsClean(Kept(value)[i]);
    }
    SplitUndoesInterleave(lines, '\n', |lines|);
    assert lines[..|lines|] == lines;
  }

  // ---- Where a cut block escapes neutralizing ----

  predicate EndsInHashes(s: string) {
    |s| >= 2 && s[|s| - 2] == '#' && s[|s| - 1] == '#'
  }

  lemma EndCons(c: char, t: string)
    requires |t| >= 2
    ensures EndsInHashes([c] + t) <==> EndsInHashes(t)
  {}

  lemma ShortIsKept(s: string)
    requires |s| < 3
    ensures Broken(s) == s
  {
    forall k | 0 <= k < |s| ensures !CommandAt(s, k) {}
    BrokenKeepsFree(s);
  }

  lemma EndOfCommand(tail: string, rest: string)
    requires |tail| < 3 ==> rest == tail
    requires |tail| >= 2 ==> |rest| >= 2 && (EndsInHashes(rest) <==> EndsInHashes(tail))
    ensures EndsInHashes(['#', '#', REPLACEMENT, '['] + rest) <==> EndsInHashes(['#', '#', '['] + tail)
  {
    if |tail| >= 2 {
      assert EndsInHashes(['#', '#', REPLACEMENT, '['] + rest) <==> EndsInHashes(rest);
      assert EndsInHashes(['#', '#', '['] + tail) <==> EndsInHashes(tail);
    }
  }

  lemma {:induction false} BrokenKeepsEnd(s: string)
    ensures EndsInHashes(Broken(s)) <==> EndsInHashes(s)
    decreases |s|
  {
    if |s| < 3 {
      ShortIsKept(s);
    } else if CommandAt(s, 0) {
      var tail := s[3..];
      if |tail| < 3 { ShortIsKept(tail); }
      BrokenKeepsEnd(tail);
      EndOfCommand(tail, Broken(tail));
      assert s == ['#', '#', '['] + s[3..];
    } else {
      BrokenKeepsEnd(s[1..]);
      EndCons(s[0], s[1..]);
      EndCons(s[0], Broken(s[1..]));
      assert s == [s[0]] + s[1..];
    }
  }

  lemma IndentWithMarker(s: string)
    ensures StartsCommand(s + TRUNCATION_MARKER) <==> StartsCommand(s)
    decreases |s|
  {
    var t := s + TRUNCATION_MARKER;
    if s != "" && IsWhitespace(s[0]) {
      assert t[1..] == s[1..] + TRUNCATION_MARKER;
      IndentWithMarker(s[1..]);
    } else {
      assert Indent(t) == 0;
    }
  }

  /** The marker completes a command exactly when the text before it ends in two hashes. */
  lemma MarkerAfterClean(s: string)
    requires Clean(s)
    ensures Clean(s + TRUNCATION_MARKER) <==> !EndsInHashes(s)
  {
    var t := s + TRUNCATION_MARKER;
    IndentWithMarker(s);
    if EndsInHashes(s) {
      assert CommandAt(t, |s| - 2);
    } else {
      forall k | 0 <= k < |t| ensures !CommandAt(t, k) {
        if k + 3 <= |s| { assert !CommandAt(s, k); }
      }
    }
  }

  lemma BlockLineEnd(line: string)
    ensures EndsInHashes(BlockLine(line)) <==> EndsInHashes(StripReturn(line))
  {
    var replaced := Replaced(StripReturn(line));
    BrokenKeepsEnd(replaced);
  }

  /** The lines of a block: the marker is appended to the last of them, after it was neutralized. */
  lemma CutBlockLines(value: string)
    requires Truncated(value)
    ensures var lines := BlockLines(Kept(value));
            var last := |lines| - 1;
            Split(Block(value), '\n') == lines[..last] + [lines[last] + TRUNCATION_MARKER]
  {
    var lines := BlockLines(Kept(value));
    forall i | 0 <= i < |lines| ensures Free(lines[i], '\n') {
      BlockLineIsClean(Kept(value)[i]);
    }
    SplitWithTail(lines, '\n', TRUNCATION_MARKER);
  }

  /** A block keeps the promise on every line except when it was cut right after two hashes. */
  lemma BlockIsCleanExactly(value: string)
    ensures AllClean(Split(Block(value), '\n'))
            <==> !(Truncated(value) && EndsInHashes(StripReturn(Kept(value)[|Kept(value)| - 1])))
  {
    if !Truncated(value) {
      BlockKeepsLines(value);
    } else {
      var lines := BlockLines(Kept(value));
      var last := |lines| - 1;
      var r := Split(Block(value), '\n');
      CutBlockLines(value);
      forall i | 0 <= i <= last ensures Clean(lines[i]) { BlockLineIsClean(Kept(value)[i]); }
      MarkerAfterClean(lines[last]);
      BlockLineEnd(Kept(value)[last]);
      assert r[last] == lines[last] + TRUNCATION_MARKER;
      assert forall i :: 0 <= i < last ==> r[i] == lines[i];
    }
  }

  lemma CutAfterHashes(kept: string)
    requires |kept| == MAX_BLOCK_CHARS && forall k :: 0 <= k < |kept| ==> kept[k] == '#'
    ensures !AllClean(Split(Block(kept + ['x']), '\n'))
  {
    assert Bounded(kept + ['x'], MAX_BLOCK_CHARS) == kept;
    SplitFree(kept, '\n');
    BlockIsCleanExactly(kept + ['x']);
  }

  /** One input for which a line of the output carries a workflow command. */
  lemma CutBlockCanCarryCommand()
    ensures exists value :: !AllClean(Split(Block(value), '\n'))
  {
    CutAfterHashes(seq(MAX_BLOCK_CHARS, (k: nat) => '#'));
  }

  // ---- What a block shows ----

  lemma ReadableCons(c: char, t: string)
    ensures Readable([c] + t)
            == if IsForbidden(c as int) || c == '\U{FFFD}' then Readable(t) else [c] + Readable(t)
  {
    assert ([c] + t)[1..] == t;
  }

  lemma {:induction false} ReadableAppends(s: string, t: string)
    ensures Readable(s + t) == Readable(s) + Readable(t)
  {
    if s == "" {
      assert s + t == t;
    } else {
      ReadableAppends(s[1..], t);
      FirstThenRest(s, t);
      ReadableCons(s[0], s[1..] + t);
      Associates([s[0]], Readable(s[1..]), Readable(t));
    }
  }

  lemma ReturnIsUnreadable()
    ensures Readable(['\r']) == ""
  {
    assert Readable(['\r']) == Readable(['\r'][1..]);
  }

  lemma StrippingShows(line: string)
    ensures Readable(StripReturn(line)) == Readable(line)
  {
    var stripped := StripReturn(line);
    if stripped != line {
      assert line == stripped + ['\r'];
      ReadableAppends(stripped, ['\r']);
      ReturnIsUnreadable();
    }
  }

  lemma BlockLineShows(line: string)
    ensures Visible(BlockLine(line)) == Readable(line)
  {
    var stripped := StripReturn(line);
    InertKeepsVisible(Replaced(stripped));
    ReplacedIsReadable(stripped);
    StrippingShows(line);
  }

  /** A clean line is kept as it is, and so is one that ends in a carriage return, without it. */
  lemma CleanLineIsKept(line: string)
    requires Clean(line)
    ensures BlockLine(line) == line && BlockLine(line + ['\r']) == line
  {
    assert Replaced(line) == line;
    BrokenKeepsFree(line);
    if line != "" { assert !IsUnsafeLogChar(line[|line| - 1]); }
    assert (line + ['\r'])[..|line|] == line;
  }

  lemma CutBlockShows(value: string, i: nat)
    requires Truncated(value) && i < |Kept(value)|
    ensures var shown := Split(Block(value), '\n');
            && |shown| == |Kept(value)|
            && Visible(shown[i])
               == Visible(BlockLine(Kept(value)[i])) + if i == |Kept(value)| - 1 then "[truncated]" else ""
  {
    var lines := BlockLines(Kept(value));
    CutBlockLines(value);
    VisibleAppends(lines[|lines| - 1], TRUNCATION_MARKER);
    MarkerIsVisible();
  }

  /**
   * A block shows its lines, each with what can be read of it, up to 65536 characters; the last of a
   * block that was cut there is followed by the marker.
   */
  lemma BlockShows(value: string, i: nat)
    requires i < |Split(if |value| <= 65536 then value else value[..65536], '\n')|
    ensures
      var lines := Split(if |value| <= 65536 then value else value[..65536], '\n');
      var shown := Split(Block(value), '\n');
      && |shown| == |lines|
      && Visible(shown[i])
         == Readable(lines[i]) + if |value| > 65536 && i == |lines| - 1 then "[truncated]" else ""
  {
    BlockLineShows(Kept(value)[i]);
    if Truncated(value) { CutBlockShows(value, i); } else { BlockKeepsLines(value); }
  }
}
