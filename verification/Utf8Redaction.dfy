/**
 * Replacing needles in the bytes of a text leaves the bytes of a text: a needle is whole UTF-8, so it
 * can only be found at a character boundary and ends at one.
 */
module Utf8Redaction {
  import opened DisplayRegistry
  import opened EscapeCodec
  import opened NeedleIndex
  import opened Registration
  import opened TextCodec
  import opened Wrappers

  /** The bytes are those of some non-empty text. */
  ghost predicate IsText(bytes: Bytes) {
    exists text :: text != "" && Utf8Text(text) == bytes
  }

  ghost predicate FindsTextAt(found: Bytes -> nat, s: Bytes) {
    && found(s) <= |s|
    && (found(s) > 0 ==> IsText(s[..found(s)]))
  }

  /** What is found in the bytes of a text is the bytes of a text, and nothing is found inside a character. */
  ghost predicate FindsTexts(found: Bytes -> nat) {
    forall s :: FindsTextAt(found, s)
  }

  lemma TextStartsCharacter(bytes: Bytes)
    requires IsText(bytes)
    ensures bytes != [] && !IsContinuation(bytes[0])
  {
    var text :| text != "" && Utf8Text(text) == bytes;
    TextStep(text);
    Utf8Shape(text[0] as nat);
    assert bytes[0] == Utf8(text[0] as nat)[0];
  }

  /** Nothing is found where `inside` holds of the first element. */
  ghost predicate QuietAt<T>(found: seq<T> -> nat, inside: T -> bool, s: seq<T>) {
    s != [] && inside(s[0]) ==> found(s) == 0
  }

  lemma QuietInsideCharacters(found: Bytes -> nat, s: Bytes)
    requires FindsTexts(found)
    ensures QuietAt(found, IsContinuation, s)
  {
    assert FindsTextAt(found, s);
    if s != [] && found(s) > 0 { TextStartsCharacter(s[..found(s)]); }
  }

  lemma CopyStep<T>(x: T, s: seq<T>, found: seq<T> -> nat, marker: seq<T>)
    requires found([x] + s) == 0
    ensures ReplacedBy([x] + s, found, marker) == [x] + ReplacedBy(s, found, marker)
  {
    assert ([x] + s)[1..] == s;
  }

  /** The rest of a character is copied byte by byte. */
  lemma {:induction false} TailIsCopied<T(!new)>(tail: seq<T>, rest: seq<T>, found: seq<T> -> nat, inside: T -> bool, marker: seq<T>)
    requires forall s :: QuietAt(found, inside, s)
    requires forall k :: 0 <= k < |tail| ==> inside(tail[k])
    ensures ReplacedBy(tail + rest, found, marker) == tail + ReplacedBy(rest, found, marker)
  {
    if tail == [] {
      assert tail + rest == rest;
    } else {
      var first, others := tail[0], tail[1..];
      TailIsCopied(others, rest, found, inside, marker);
      assert QuietAt(found, inside, [first] + (others + rest));
      CopyStep(first, others + rest, found, marker);
      assert tail + rest == [first] + (others + rest);
      assert tail == [first] + others;
    }
  }

  /** A character with nothing found at it is copied whole. */
  lemma CharacterIsCopied(code: nat, rest: Bytes, found: Bytes -> nat, marker: Bytes)
    requires IsScalar(code) && FindsTexts(found) && found(Utf8(code) + rest) == 0
    ensures ReplacedBy(Utf8(code) + rest, found, marker) == Utf8(code) + ReplacedBy(rest, found, marker)
  {
    var c := Utf8(code);
    Utf8Shape(code);
    assert (c + rest)[1..] == c[1..] + rest;
    forall s ensures QuietAt(found, IsContinuation, s) { QuietInsideCharacters(found, s); }
    TailIsCopied(c[1..], rest, found, IsContinuation, marker);
    assert c == [c[0]] + c[1..];
  }

  /** Replacing texts by a text in the bytes of a text gives the bytes of a text. */
  lemma {:induction false} ReplacingGivesText(text: string, found: Bytes -> nat, marker: string) returns (shown: string)
    requires FindsTexts(found)
    ensures ReplacedBy(Utf8Text(text), found, Utf8Text(marker)) == Utf8Text(shown)
    decreases |text|
  {
    var s := Utf8Text(text);
    if text == "" {
      shown := "";
    } else {
      TextStep(text);
      assert FindsTextAt(found, s);
      if found(s) == 0 {
        var rest := ReplacingGivesText(text[1..], found, marker);
        CharacterIsCopied(text[0] as nat, Utf8Text(text[1..]), found, Utf8Text(marker));
        shown := [text[0]] + rest;
        assert shown[1..] == rest;
      } else {
        var hit :| hit != "" && Utf8Text(hit) == s[..found(s)];
        BytesPrefix(hit, text);
        var after := text[|hit|..];
        assert text == hit + after;
        BytesConcatenate(hit, after);
        assert s[found(s)..] == Utf8Text(after);
        var rest := ReplacingGivesText(after, found, marker);
        BytesConcatenate(marker, rest);
        shown := marker + rest;
      }
    }
  }

  /** Every spelling is a text, as the program's strings are. */
  ghost predicate SpellsTexts(sp: Spelling) {
    forall value, i :: 0 <= i < |sp.spellings(value)| && sp.spellings(value)[i] != [] ==> IsText(sp.spellings(value)[i])
  }

  ghost predicate AllTexts(needles: set<Bytes>) { forall n | n in needles :: IsText(n) }

  lemma NeedlesAreTexts(sp: Spelling, known: set<Bytes>)
    requires SpellsTexts(sp)
    ensures AllTexts(NeedlesHeld(sp, known))
  {
    forall needle | needle in NeedlesHeld(sp, known) ensures IsText(needle) {
      var value :| value in known && needle in sp.spellings(value) && |needle| >= 8;
      var i :| 0 <= i < |sp.spellings(value)| && sp.spellings(value)[i] == needle;
    }
  }

  lemma LongestFindsTexts(needles: set<Bytes>)
    requires AllTexts(needles)
    ensures FindsTexts(Longest(needles))
  {
    forall b ensures FindsTextAt(Longest(needles), b) {
      assert LongestMatch(b, needles, |b|) > 0 ==> b[..LongestMatch(b, needles, |b|)] in needles;
    }
  }

  /**
   * Over every registration history, what replacing needles leaves of a text's bytes is the UTF-8 of
   * a text, so reading it back as one never loses anything.
   */
  lemma RedactionStaysText(sp: Spelling, calls: seq<Call<Bytes, Bytes>>, n: nat, text: string) returns (shown: string)
    requires n <= |calls| && SpellsTexts(sp)
    ensures ReplacedBy(Utf8Text(text), Matcher(History(sp, calls, n).index), REDACTION) == Utf8Text(shown)
    ensures Redacted(History(sp, calls, n).index, Utf8Text(text)) == Utf8Text(ShapesHidden(shown))
  {
    var s := History(sp, calls, n);
    var needles := NeedlesHeld(sp, s.known);
    BooksBalance(sp, calls, n);
    ScanIsLeftmostLongest(s.index, needles, Utf8Text(text), REDACTION);
    NeedlesAreTexts(sp, s.known);
    LongestFindsTexts(needles);
    RedactionIsText();
    shown := ReplacingGivesText(text, Longest(needles), "[REDACTED]");
    TextOfUndoes(shown);
  }
}
