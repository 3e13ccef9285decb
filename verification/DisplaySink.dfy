/**
 * The display sink whole: what was registered, what a text is redacted to, and which of its lines are
 * withheld, over every registration history.
 *
 * The program's own string literals, and the decoders besides the one for backslashes, are parameters.
 */
module DisplaySink {
  import opened DisplayRegistry
  import opened EscapeCodec
  import opened LineScrubber
  import opened NeedleIndex
  import opened Registration
  import opened Splitting
  import opened Wrappers
  import Admission

  const NEWLINE: byte := 10
  const RETURN: byte := 13

  const DISPLAY_WITHHELD := "[diagnostic withheld: it may carry " + "a secret that could not be redacted]"

  // ---- Leaks ----

  /** A surviving run that is evidence of a secret, rather than public anyway. */
  predicate IsLeak(private: set<Window>, prose: Bytes, w: Bytes) {
    w in private && w !in WindowsIn(prose)
  }

  predicate HasLeak(private: set<Window>, prose: Bytes, bytes: Bytes) {
    exists w :: w in WindowsIn(bytes) && IsLeak(private, prose, w)
  }

  /** A leak in part of some bytes is a leak in the whole. */
  lemma LeakWithin(private: set<Window>, prose: Bytes, before: Bytes, bytes: Bytes, after: Bytes)
    requires HasLeak(private, prose, bytes)
    ensures HasLeak(private, prose, before + (bytes + after))
  {
    var w :| w in WindowsIn(bytes) && IsLeak(private, prose, w);
    var at := WindowIsRun(bytes, |bytes|, w);
    var whole, from := before + (bytes + after), |before| + at;
    assert whole[from..from + FRAGMENT_SCAN_LENGTH] == bytes[at..at + FRAGMENT_SCAN_LENGTH];
    RunIsWindow(whole, |whole|, from);
  }

  // ---- Decoded views ----

  /** A decoder gives nothing when its input holds nothing for it to decode. */
  type Decoder = Bytes -> Option<Bytes>

  function DecodeBackslashes(bytes: Bytes): Option<Bytes> {
    if BACKSLASH in bytes then Some(Unescaped(bytes)) else None
  }

  /** What a decoder makes of `bytes`, if that is something else. */
  function View(decode: Decoder, bytes: Bytes): Option<Bytes> {
    match decode(bytes)
    case Some(view) => if view != bytes then Some(view) else None
    case None => None
  }

  predicate ViewChecks(decode: Decoder, check: Bytes -> bool, bytes: Bytes) {
    View(decode, bytes).Some? && check(View(decode, bytes).value)
  }

  /** A view of `bytes` passes the check. */
  predicate OnceDecoded(decoders: seq<Decoder>, check: Bytes -> bool, bytes: Bytes) {
    exists i :: 0 <= i < |decoders| && ViewChecks(decoders[i], check, bytes)
  }

  /** A view, or a view of a view, passes the check. */
  predicate AnyDecoded(decoders: seq<Decoder>, check: Bytes -> bool, bytes: Bytes) {
    OnceDecoded(decoders, (once: Bytes) => check(once) || OnceDecoded(decoders, check, once), bytes)
  }

  method AnyView(decoders: seq<Decoder>, check: Bytes -> bool, bytes: Bytes) returns (found: bool)
    ensures found <==> OnceDecoded(decoders, check, bytes)
  {
    for i := 0 to |decoders|
      invariant forall k :: 0 <= k < i ==> !ViewChecks(decoders[k], check, bytes)
    {
      var view := View(decoders[i], bytes);
      if view.Some? && check(view.value) {
        return true;
      }
    }
    return false;
  }

  /** The walk over the views of a text, one decoder after another. */
  method AnyDecodedView(decoders: seq<Decoder>, check: Bytes -> bool, bytes: Bytes) returns (found: bool)
    ensures found <==> AnyDecoded(decoders, check, bytes)
  {
    ghost var twice := (once: Bytes) => check(once) || OnceDecoded(decoders, check, once);
    for i := 0 to |decoders|
      invariant forall k :: 0 <= k < i ==> !ViewChecks(decoders[k], twice, bytes)
    {
      var view := View(decoders[i], bytes);
      if view.None? {
        continue;
      }
      if check(view.value) {
        assert ViewChecks(decoders[i], twice, bytes);
        return true;
      }
      var again := AnyView(decoders, check, view.value);
      if again {
        assert ViewChecks(decoders[i], twice, bytes);
        return true;
      }
    }
    return false;
  }

  // ---- What is displayed ----

  function SieveOf(private: set<Window>, prose: Bytes, decoders: seq<Decoder>): Sieve<byte> {
    Sieve(NEWLINE,
          (b: byte) => b == NEWLINE || b == RETURN,
          (w: Bytes) => IsLeak(private, prose, w),
          (body: Bytes) => private != {} && AnyDecoded(decoders, (view: Bytes) => HasLeak(private, prose, view), body),
          Utf8Text(DISPLAY_WITHHELD))
  }

  /** The reason of a refusal and nothing else, or the redacted text without the lines that leak. */
  ghost function Displayed(s: State<Bytes, Index, Window>, prose: Bytes, decoders: seq<Decoder>,
                           reason: Admission.Refusal -> string, text: string): Bytes
  {
    match s.refusal
    case Some(refusal) => Utf8Text(reason(refusal))
    case None => ShownText(SieveOf(s.privateWindows, prose, decoders), Redacted(s.index, Utf8Text(text)))
  }

  method ScrubDisplay(s: State<Bytes, Index, Window>, prose: Bytes, decoders: seq<Decoder>,
                      reason: Admission.Refusal -> string, text: string) returns (out: Bytes)
    ensures out == Displayed(s, prose, decoders, reason, text)
  {
    if s.refusal.Some? {
      return Utf8Text(reason(s.refusal.value));
    }
    var redacted := RedactText(s.index, Utf8Text(text));
    var sieve := SieveOf(s.privateWindows, prose, decoders);
    if s.privateWindows == {} {
      NothingIsWithheld(sieve, redacted);
      return redacted;
    }
    out := LineScrubber.ScrubText(sieve, redacted, None);
  }

  predicate IsPlain(s: string) { forall k :: 0 <= k < |s| ==> ' ' <= s[k] <= '~' }

  lemma PlainAppends(a: string, b: string)
    requires IsPlain(a) && IsPlain(b)
    ensures IsPlain(a + b)
  {}

  lemma MarkerStartsPlain()
    ensures IsPlain("[diagnostic withheld: it may carry ")
  {}

  lemma MarkerEndsPlain()
    ensures IsPlain("a secret that could not be redacted]")
  {}

  lemma MarkerIsPlain()
    ensures IsPlain(DISPLAY_WITHHELD)
  {
    MarkerStartsPlain();
    MarkerEndsPlain();
    PlainAppends("[diagnostic withheld: it may carry ", "a secret that could not be redacted]");
  }

  /** The marker is one line, so what is shown keeps the lines of the redacted text. */
  lemma DisplayKeepsLines(s: State<Bytes, Index, Window>, prose: Bytes, decoders: seq<Decoder>,
                          reason: Admission.Refusal -> string, text: string)
    requires s.refusal.None?
    ensures var sieve, redacted := SieveOf(s.privateWindows, prose, decoders), Redacted(s.index, Utf8Text(text));
            Lines(Displayed(s, prose, decoders, reason, text), NEWLINE)
            == ShownLines(sieve, redacted, Lines(redacted, NEWLINE))
  {
    MarkerIsPlain();
    AsciiText(DISPLAY_WITHHELD);
    LineStructureIsKept(SieveOf(s.privateWindows, prose, decoders), Redacted(s.index, Utf8Text(text)));
  }

  // ---- Which lines are withheld ----

  /** A private run that is not part of the program's own prose. */
  ghost predicate IsEvidence(private: set<Window>, prose: Bytes, w: Window) { w in private && !Shows(prose, w) }

  ghost predicate EvidenceAt(private: set<Window>, prose: Bytes, bytes: Bytes, at: nat) {
    at + 8 <= |bytes| && IsEvidence(private, prose, bytes[at..at + 8])
  }

  ghost predicate ShowsEvidence(private: set<Window>, prose: Bytes, bytes: Bytes) {
    exists at: nat :: EvidenceAt(private, prose, bytes, at)
  }

  ghost predicate DecodesBy(decode: Decoder, bytes: Bytes, view: Bytes) { decode(bytes) == Some(view) && view != bytes }

  /** One of the decoders makes something else of `bytes`. */
  ghost predicate DecodesTo(decoders: seq<Decoder>, bytes: Bytes, view: Bytes) {
    exists k :: 0 <= k < |decoders| && DecodesBy(decoders[k], bytes, view)
  }

  /** `view` is decoded from `bytes`, and it or what is decoded from it shows evidence. */
  ghost predicate ViewShows(private: set<Window>, prose: Bytes, decoders: seq<Decoder>, bytes: Bytes, view: Bytes) {
    && DecodesTo(decoders, bytes, view)
    && (|| ShowsEvidence(private, prose, view)
        || exists again :: DecodesTo(decoders, view, again) && ShowsEvidence(private, prose, again))
  }

  predicate IsLineEnd(b: byte) { b == 10 || b == 13 }

  /** `body` is the line without the newlines and carriage returns it ends in. */
  ghost predicate IsBodyOf(line: Bytes, body: Bytes) {
    && body <= line
    && (forall k :: |body| <= k < |line| ==> IsLineEnd(line[k]))
    && (body != [] ==> !IsLineEnd(body[|body| - 1]))
  }

  /** Evidence overlaps the `i`-th line. */
  ghost predicate Overlapped(private: set<Window>, prose: Bytes, text: Bytes, lines: seq<Bytes>, i: nat)
    requires i < |lines|
  {
    exists at: nat :: EvidenceAt(private, prose, text, at) && at < Offset(lines, i + 1) && at + 8 > Offset(lines, i)
  }

  ghost predicate BodyShows(private: set<Window>, prose: Bytes, decoders: seq<Decoder>, line: Bytes) {
    exists body, view :: IsBodyOf(line, body) && ViewShows(private, prose, decoders, body, view)
  }

  /** Evidence overlaps the line, or something decoded once or twice from its body shows evidence. */
  ghost predicate LineLeaks(private: set<Window>, prose: Bytes, decoders: seq<Decoder>, text: Bytes, lines: seq<Bytes>, i: nat)
    requires i < |lines|
  {
    Overlapped(private, prose, text, lines, i) || BodyShows(private, prose, decoders, lines[i])
  }

  lemma LeakIsEvidence(private: set<Window>, prose: Bytes, w: Window)
    ensures IsLeak(private, prose, w) <==> IsEvidence(private, prose, w)
  {
    WindowsAreRuns(prose, w);
  }

  lemma HasLeakIs(private: set<Window>, prose: Bytes, bytes: Bytes)
    ensures HasLeak(private, prose, bytes) <==> ShowsEvidence(private, prose, bytes)
  {
    if HasLeak(private, prose, bytes) {
      var w :| w in WindowsIn(bytes) && IsLeak(private, prose, w);
      var at := WindowIsRun(bytes, |bytes|, w);
      LeakIsEvidence(private, prose, w);
      assert EvidenceAt(private, prose, bytes, at);
    }
    if ShowsEvidence(private, prose, bytes) {
      var at: nat :| EvidenceAt(private, prose, bytes, at);
      LeakIsEvidence(private, prose, bytes[at..at + 8]);
      RunIsWindow(bytes, |bytes|, at);
    }
  }

  /** A decoded view passes a check exactly when some decoder makes such a view. */
  lemma OnceDecodedIs(decoders: seq<Decoder>, check: Bytes -> bool, bytes: Bytes)
    ensures OnceDecoded(decoders, check, bytes) <==> exists view :: DecodesTo(decoders, bytes, view) && check(view)
  {
    if OnceDecoded(decoders, check, bytes) {
      var k :| 0 <= k < |decoders| && ViewChecks(decoders[k], check, bytes);
      var view := View(decoders[k], bytes).value;
      assert DecodesBy(decoders[k], bytes, view);
      assert DecodesTo(decoders, bytes, view);
    }
    if exists view :: DecodesTo(decoders, bytes, view) && check(view) {
      var view :| DecodesTo(decoders, bytes, view) && check(view);
      var k :| 0 <= k < |decoders| && DecodesBy(decoders[k], bytes, view);
      assert ViewChecks(decoders[k], check, bytes);
    }
  }

  /** The check, or the check of something decoded. */
  ghost predicate ChecksAgain(decoders: seq<Decoder>, check: Bytes -> bool, view: Bytes) {
    check(view) || exists again :: DecodesTo(decoders, view, again) && check(again)
  }

  lemma AnyDecodedIs(decoders: seq<Decoder>, check: Bytes -> bool, bytes: Bytes)
    ensures AnyDecoded(decoders, check, bytes)
            <==> exists view :: DecodesTo(decoders, bytes, view) && ChecksAgain(decoders, check, view)
  {
    var twice := (once: Bytes) => check(once) || OnceDecoded(decoders, check, once);
    OnceDecodedIs(decoders, twice, bytes);
    forall view ensures twice(view) <==> ChecksAgain(decoders, check, view) { OnceDecodedIs(decoders, check, view); }
  }

  lemma ChecksAgainIs(private: set<Window>, prose: Bytes, decoders: seq<Decoder>, check: Bytes -> bool, bytes: Bytes, view: Bytes)
    requires forall v :: check(v) <==> HasLeak(private, prose, v)
    ensures DecodesTo(decoders, bytes, view) && ChecksAgain(decoders, check, view)
            <==> ViewShows(private, prose, decoders, bytes, view)
  {
    HasLeakIs(private, prose, view);
    forall again ensures check(again) <==> ShowsEvidence(private, prose, again) { HasLeakIs(private, prose, again); }
  }

  lemma LeaksDecodedIs(private: set<Window>, prose: Bytes, decoders: seq<Decoder>, body: Bytes)
    ensures SieveOf(private, prose, decoders).leaksDecoded(body)
            <==> exists view :: ViewShows(private, prose, decoders, body, view)
  {
    var check := (view: Bytes) => HasLeak(private, prose, view);
    AnyDecodedIs(decoders, check, body);
    forall view
      ensures DecodesTo(decoders, body, view) && ChecksAgain(decoders, check, view)
              <==> ViewShows(private, prose, decoders, body, view)
    {
      ChecksAgainIs(private, prose, decoders, check, body, view);
    }
  }

  lemma BodyIsUnique(line: Bytes, a: Bytes, b: Bytes)
    requires IsBodyOf(line, a) && IsBodyOf(line, b)
    ensures a == b
  {
    assert a == line[..|a|] && b == line[..|b|];
    assert |a| == |b|;
  }

  lemma BodyIs(private: set<Window>, prose: Bytes, decoders: seq<Decoder>, line: Bytes)
    ensures IsBodyOf(line, Body(line, SieveOf(private, prose, decoders).trimmed))
  {
    BodyEnds(line, SieveOf(private, prose, decoders).trimmed);
  }

  lemma BodyShowsIs(private: set<Window>, prose: Bytes, decoders: seq<Decoder>, line: Bytes)
    ensures var sieve := SieveOf(private, prose, decoders);
            sieve.leaksDecoded(Body(line, sieve.trimmed)) <==> BodyShows(private, prose, decoders, line)
  {
    var body := Body(line, SieveOf(private, prose, decoders).trimmed);
    BodyIs(private, prose, decoders, line);
    LeaksDecodedIs(private, prose, decoders, body);
    if BodyShows(private, prose, decoders, line) {
      var other, view :| IsBodyOf(line, other) && ViewShows(private, prose, decoders, other, view);
      BodyIsUnique(line, body, other);
    }
  }

  lemma LeakAtIs(private: set<Window>, prose: Bytes, decoders: seq<Decoder>, text: Bytes, at: nat)
    ensures LeakAt(SieveOf(private, prose, decoders), text, at) <==> EvidenceAt(private, prose, text, at)
  {
    if at + 8 <= |text| { LeakIsEvidence(private, prose, text[at..at + 8]); }
  }

  lemma TouchedIs(private: set<Window>, prose: Bytes, decoders: seq<Decoder>, text: Bytes, lines: seq<Bytes>, i: nat)
    requires i < |lines|
    ensures Touched(SieveOf(private, prose, decoders), text, Offset(lines, i), Offset(lines, i + 1))
            <==> Overlapped(private, prose, text, lines, i)
  {
    var sieve := SieveOf(private, prose, decoders);
    forall at: nat ensures LeakAt(sieve, text, at) <==> EvidenceAt(private, prose, text, at) {
      LeakAtIs(private, prose, decoders, text, at);
    }
  }

  /** A line is withheld exactly when evidence overlaps it, or shows in what its body decodes to. */
  lemma WithheldExactly(private: set<Window>, prose: Bytes, decoders: seq<Decoder>, text: Bytes, lines: seq<Bytes>, i: nat)
    requires i < |lines|
    ensures IsWithheld(SieveOf(private, prose, decoders), text, lines, i)
            <==> LineLeaks(private, prose, decoders, text, lines, i)
  {
    TouchedIs(private, prose, decoders, text, lines, i);
    BodyShowsIs(private, prose, decoders, lines[i]);
  }

  /** A line that leaks is shown as the notice, with the same end of line; any other is shown as it is. */
  ghost predicate IsShownAs(line: Bytes, leaks: bool, shown: Bytes) {
    if leaks then
      exists body :: IsBodyOf(line, body) &&
        shown == Utf8Text("[diagnostic withheld: it may carry " + "a secret that could not be redacted]") + line[|body|..]
    else shown == line
  }

  lemma ShownIs(private: set<Window>, prose: Bytes, decoders: seq<Decoder>, text: Bytes, lines: seq<Bytes>, i: nat)
    requires i < |lines|
    ensures IsShownAs(lines[i], LineLeaks(private, prose, decoders, text, lines, i),
                      Shown(SieveOf(private, prose, decoders), text, lines, i))
  {
    WithheldExactly(private, prose, decoders, text, lines, i);
    BodyIs(private, prose, decoders, lines[i]);
  }

  /**
   * Over every history: a refusal shows its reason and nothing else; otherwise every long spelling of
   * every value held is replaced, and each line is shown or withheld by whether it leaks.
   */
  lemma DisplayedExactly(sp: Spelling, calls: seq<Call<Bytes, Bytes>>, n: nat, prose: Bytes, decoders: seq<Decoder>,
                         reason: Admission.Refusal -> string, text: string, i: nat)
    requires n <= |calls|
    ensures var s := History(sp, calls, n);
            var redacted := Hidden(sp, s.known, Utf8Text(text));
            var lines, out := Lines(redacted, 10), Displayed(s, prose, decoders, reason, text);
            if s.refusal.Some? then out == Utf8Text(reason(s.refusal.value))
            else
              && |Lines(out, 10)| == |lines|
              && (i < |lines| ==>
                    IsShownAs(lines[i], LineLeaks(s.privateWindows, prose, decoders, redacted, lines, i), Lines(out, 10)[i]))
  {
    var s := History(sp, calls, n);
    HistoryRedactsLongest(sp, calls, n, Utf8Text(text));
    if s.refusal.None? {
      var redacted := Redacted(s.index, Utf8Text(text));
      DisplayKeepsLines(s, prose, decoders, reason, text);
      if i < |Lines(redacted, 10)| { ShownIs(s.privateWindows, prose, decoders, redacted, Lines(redacted, 10), i); }
    }
  }

  // ---- What stays private ----

  /** The document of the `m`-th call shows this run, once everything registered by then is hidden in it. */
  ghost predicate IsExplained(sp: Spelling, calls: seq<Call<Bytes, Bytes>>, m: nat, w: Window)
    requires m < |calls|
  {
    calls[m].document.Some? && Shows(Hidden(sp, History(sp, calls, m + 1).known, calls[m].document.value), w)
  }

  /** The `m`-th call was accepted, and one of its values is spelled with this run of eight bytes. */
  ghost predicate Registers(sp: Spelling, calls: seq<Call<Bytes, Bytes>>, m: nat, w: Window) {
    Accepts(sp, calls, m) && exists i :: 0 <= i < |calls[m].batch| && IsSpelledWith(sp, calls[m].batch[i], w)
  }

  lemma SpelledWindow(sp: Spelling, v: Bytes, w: Window)
    ensures w in WindowsBy(OpsOf(sp))(v) <==> IsSpelledWith(sp, v, w)
  {
    EntryExactly(sp, v, w);
    WindowsAreBuilt(OpsOf(sp), v);
  }

  lemma SomeSpelled(sp: Spelling, batch: seq<Bytes>, w: Window)
    ensures SomeHolds(WindowsBy(OpsOf(sp)), batch, w) <==> exists i :: 0 <= i < |batch| && IsSpelledWith(sp, batch[i], w)
  {
    forall i | 0 <= i < |batch| ensures w in WindowsBy(OpsOf(sp))(batch[i]) <==> IsSpelledWith(sp, batch[i], w) {
      SpelledWindow(sp, batch[i], w);
    }
  }

  lemma ExplainedIs(sp: Spelling, calls: seq<Call<Bytes, Bytes>>, m: nat, w: Window)
    requires m < |calls|
    ensures w in PublicWindows(OpsOf(sp).public, History(sp, calls, m + 1).index, calls[m].document)
            <==> IsExplained(sp, calls, m, w)
  {
    if calls[m].document.Some? {
      HistoryRedactsLongest(sp, calls, m + 1, calls[m].document.value);
      WindowsAreRuns(Redacted(History(sp, calls, m + 1).index, calls[m].document.value), w);
    }
  }

  lemma ExposesIs(sp: Spelling, calls: seq<Call<Bytes, Bytes>>, m: nat, w: Window)
    requires m < |calls|
    ensures Exposes(OpsOf(sp), EMPTY, calls, m, w) <==> Registers(sp, calls, m, w) && !IsExplained(sp, calls, m, w)
  {
    ExplainedIs(sp, calls, m, w);
    SomeSpelled(sp, calls[m].batch, w);
  }

  /**
   * Over every history: a run of eight bytes is private exactly when an accepted call offered a value
   * spelled with it, and the document it came with does not explain it.
   */
  lemma PrivateHeldExactly(sp: Spelling, calls: seq<Call<Bytes, Bytes>>, n: nat, w: Window)
    requires n <= |calls|
    ensures w in History(sp, calls, n).privateWindows
            <==> exists m: nat :: m < n && Registers(sp, calls, m, w) && !IsExplained(sp, calls, m, w)
  {
    PrivateExactly(OpsOf(sp), EMPTY, calls, n, w);
    forall m: nat | m < n
      ensures Exposes(OpsOf(sp), EMPTY, calls, m, w) <==> Registers(sp, calls, m, w) && !IsExplained(sp, calls, m, w)
    {
      ExposesIs(sp, calls, m, w);
    }
  }

  /**
   * Over every history: each run of eight bytes of each spelling of each value that was ever accepted
   * is private, unless the document it came with explains it.
   */
  lemma RegisteredStaysPrivate(sp: Spelling, calls: seq<Call<Bytes, Bytes>>, m: nat, n: nat, w: Window)
    requires m < n <= |calls|
    ensures Registers(sp, calls, m, w) ==> w in History(sp, calls, n).privateWindows || IsExplained(sp, calls, m, w)
  {
    PrivateHeldExactly(sp, calls, n, w);
  }

  /**
   * No run of kept lines shows eight consecutive bytes of any spelling of any value that was accepted,
   * unless they are public: in the program's own prose, or in the document the value came with.
   */
  lemma KeptLinesShowNothingRegistered(sp: Spelling, calls: seq<Call<Bytes, Bytes>>, m: nat, n: nat, w: Window,
                                       prose: Bytes, decoders: seq<Decoder>, text: string, i: nat, j: nat, at: nat)
    requires m < n <= |calls|
    requires var s := History(sp, calls, n);
             var redacted := Hidden(sp, s.known, Utf8Text(text));
             var lines := Lines(redacted, 10);
             && i <= j <= |lines|
             && (forall k :: i <= k < j ==> !LineLeaks(s.privateWindows, prose, decoders, redacted, lines, k))
             && Offset(lines, i) <= at && at + 8 <= Offset(lines, j) && RunAt(redacted, at, w)
    ensures Registers(sp, calls, m, w) ==> Shows(prose, w) || IsExplained(sp, calls, m, w)
  {
    var s := History(sp, calls, n);
    var redacted := Hidden(sp, s.known, Utf8Text(text));
    var sieve, lines := SieveOf(s.privateWindows, prose, decoders), Lines(redacted, 10);
    forall k | i <= k < j ensures !IsWithheld(sieve, redacted, lines, k) {
      WithheldExactly(s.privateWindows, prose, decoders, redacted, lines, k);
    }
    KeptRunsHoldNoLeak(sieve, redacted, i, j, at);
    LeakIsEvidence(s.privateWindows, prose, w);
    RegisteredStaysPrivate(sp, calls, m, n, w);
  }

  // ---- Escaped secrets ----

  /** A line that shows a leak is touched by it. */
  lemma LeakingLineIsTouched(private: set<Window>, prose: Bytes, decoders: seq<Decoder>, text: Bytes, i: nat, body: Bytes)
    requires i < |Lines(text, NEWLINE)| && body <= Lines(text, NEWLINE)[i] && HasLeak(private, prose, body)
    ensures IsWithheld(SieveOf(private, prose, decoders), text, Lines(text, NEWLINE), i)
  {
    var w :| w in WindowsIn(body) && IsLeak(private, prose, w);
    var p := WindowIsRun(body, |body|, w);
    var line := Lines(text, NEWLINE)[i];
    assert line[p..p + FRAGMENT_SCAN_LENGTH] == body[p..p + FRAGMENT_SCAN_LENGTH];
    LeakInLine(SieveOf(private, prose, decoders), text, i, p);
  }

  lemma LeakingViewIsFound(private: set<Window>, prose: Bytes, decoders: seq<Decoder>, body: Bytes)
    requires DecodeBackslashes in decoders && BACKSLASH in body && Unescaped(body) != body
    requires HasLeak(private, prose, Unescaped(body))
    ensures SieveOf(private, prose, decoders).leaksDecoded(body)
  {
    var k :| 0 <= k < |decoders| && decoders[k] == DecodeBackslashes;
    var check := (view: Bytes) => HasLeak(private, prose, view);
    var twice := (once: Bytes) => check(once) || OnceDecoded(decoders, check, once);
    assert ViewChecks(decoders[k], twice, body);
  }

  /**
   * A line is withheld when it holds, after bytes without a backslash, the escaped form of a text that
   * shows a private run: escaping hides no secret from the sink.
   */
  lemma EscapedSecretsAreWithheld(private: set<Window>, prose: Bytes, decoders: seq<Decoder>, redacted: Bytes, i: nat,
                                  before: Bytes, text: string, after: Bytes)
    requires i < |Lines(redacted, 10)| && DecodeBackslashes in decoders
    requires IsBodyOf(Lines(redacted, 10)[i], before + (Escaped(text) + after)) && 92 !in before
    requires ShowsEvidence(private, prose, Utf8Text(text))
    ensures LineLeaks(private, prose, decoders, redacted, Lines(redacted, 10), i)
  {
    var line := Lines(redacted, 10)[i];
    var body := Body(line, SieveOf(private, prose, decoders).trimmed);
    BodyIs(private, prose, decoders, line);
    BodyIsUnique(line, body, before + (Escaped(text) + after));
    HasLeakIs(private, prose, Utf8Text(text));
    WithheldExactly(private, prose, decoders, redacted, Lines(redacted, 10), i);
    UnescapeReadsWithin(before, text, after);
    LeakWithin(private, prose, before, Utf8Text(text), Unescaped(after));
    if Unescaped(body) == body {
      LeakingLineIsTouched(private, prose, decoders, redacted, i, body);
    } else {
      if BACKSLASH !in body { PlainBytesAreKept(body); }
      LeakingViewIsFound(private, prose, decoders, body);
    }
  }
}
