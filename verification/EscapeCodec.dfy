/**
 * JSON's ASCII escaping and the decoder that looks behind backslashes.
 *
 * A text is a sequence of Unicode scalar values; what is written and read are bytes.
 */
module EscapeCodec {
  import opened Splitting
  import opened Wrappers

  const BACKSLASH: byte := 92
  const LOWER_U: byte := 117

  // ---- UTF-8 and hexadecimal ----

  predicate IsScalar(code: nat) { code < 0xD800 || 0xE000 <= code < 0x11_0000 }

  function Utf8(code: nat): (r: seq<byte>)
    requires IsScalar(code)
    ensures |r| == if code < 0x80 then 1 else if code < 0x800 then 2 else if code < 0x1_0000 then 3 else 4
  {
    if code < 0x80 then [code]
    else if code < 0x800 then [0xC0 + code / 64, 0x80 + code % 64]
    else if code < 0x1_0000 then [0xE0 + code / 4096, 0x80 + code / 64 % 64, 0x80 + code % 64]
    else [0xF0 + code / 0x4_0000, 0x80 + code / 4096 % 64, 0x80 + code / 64 % 64, 0x80 + code % 64]
  }

  function Utf8Text(text: string): seq<byte> {
    if text == "" then [] else Utf8(text[0] as nat) + Utf8Text(text[1..])
  }

  function HexDigit(d: nat): byte
    requires d < 16
  {
    if d < 10 then 48 + d else 87 + d
  }

  predicate IsHexDigit(b: byte) { 48 <= b <= 57 || 97 <= b <= 102 || 65 <= b <= 70 }

  function DigitValue(b: byte): nat {
    if 48 <= b <= 57 then b - 48
    else if 65 <= b <= 70 then b - 55
    else if 97 <= b <= 102 then b - 87
    else 0
  }

  /** The number the first `upto` digits spell. */
  function HexNumber(digits: seq<byte>, upto: nat): nat
    requires upto <= |digits|
  {
    if upto == 0 then 0 else 16 * HexNumber(digits, upto - 1) + DigitValue(digits[upto - 1])
  }

  /** A number of hexadecimal digits that fits 32 bits. */
  function HexValue(digits: seq<byte>): Option<nat> {
    if digits == [] || exists k :: 0 <= k < |digits| && !IsHexDigit(digits[k]) then None
    else if HexNumber(digits, |digits|) < 0x1_0000_0000 then Some(HexNumber(digits, |digits|))
    else None
  }

  function Hex4(unit: nat): seq<byte>
    requires unit < 0x1_0000
  {
    [HexDigit(unit / 16 / 16 / 16), HexDigit(unit / 16 / 16 % 16), HexDigit(unit / 16 % 16), HexDigit(unit % 16)]
  }

  lemma DigitsSpell(h: seq<byte>, a: nat, b: nat, c: nat, d: nat)
    requires a < 16 && b < 16 && c < 16 && d < 16
    requires h == [HexDigit(a), HexDigit(b), HexDigit(c), HexDigit(d)]
    ensures HexNumber(h, 4) == 4096 * a + 256 * b + 16 * c + d
    ensures forall k :: 0 <= k < 4 ==> IsHexDigit(h[k])
  {
    assert HexNumber(h, 1) == a;
    assert HexNumber(h, 2) == 16 * a + b;
    assert HexNumber(h, 3) == 16 * (16 * a + b) + c;
  }

  lemma Nibbles(unit: nat, high: nat, higher: nat)
    requires high == unit / 16 && higher == high / 16
    ensures 4096 * (higher / 16) + 256 * (higher % 16) + 16 * (high % 16) + unit % 16 == unit
  {
    assert unit == 16 * high + unit % 16;
    assert high == 16 * higher + high % 16;
    assert higher == 16 * (higher / 16) + higher % 16;
  }

  lemma Hex4Parses(unit: nat)
    requires unit < 0x1_0000
    ensures HexValue(Hex4(unit)) == Some(unit)
  {
    Nibbles(unit, unit / 16, unit / 16 / 16);
    DigitsSpell(Hex4(unit), unit / 16 / 16 / 16, unit / 16 / 16 % 16, unit / 16 % 16, unit % 16);
  }

  // ---- Escaping ----

  /** A scalar value in UTF-16: itself, or a surrogate pair. */
  function Utf16(code: nat): (units: seq<nat>)
    requires IsScalar(code)
    ensures forall k :: 0 <= k < |units| ==> units[k] < 0x1_0000
  {
    if code < 0x1_0000 then [code]
    else [0xD800 + (code - 0x1_0000) / 1024, 0xDC00 + (code - 0x1_0000) % 1024]
  }

  function EscapedUnit(unit: nat): seq<byte>
    requires unit < 0x1_0000
  {
    [BACKSLASH, LOWER_U] + Hex4(unit)
  }

  function EscapedChar(c: char): seq<byte> {
    if c == '\"' then [BACKSLASH, 34]
    else if c == '\\' then [BACKSLASH, BACKSLASH]
    else if c == '\n' then [BACKSLASH, 110]
    else if c == '\r' then [BACKSLASH, 114]
    else if c == '\t' then [BACKSLASH, 116]
    else if ' ' <= c <= '~' then [c as nat]
    else
      var units := Utf16(c as nat);
      if |units| == 1 then EscapedUnit(units[0]) else EscapedUnit(units[0]) + EscapedUnit(units[1])
  }

  function Escaped(text: string): seq<byte> {
    if text == "" then [] else EscapedChar(text[0]) + Escaped(text[1..])
  }

  lemma EscapeAdvances(out: seq<byte>, text: string, i: nat)
    requires i < |text|
    ensures out + Escaped(text[i..]) == out + EscapedChar(text[i]) + Escaped(text[i + 1..])
  {
    assert text[i..][0] == text[i] && text[i..][1..] == text[i + 1..];
  }

  /** The escaping loop. */
  method AsciiJsonEscaped(text: string) returns (out: seq<byte>)
    ensures out == Escaped(text)
  {
    out := [];
    var i := 0;
    while i < |text|
      invariant i <= |text|
      invariant out + Escaped(text[i..]) == Escaped(text)
    {
      EscapeAdvances(out, text, i);
      out := out + EscapedChar(text[i]);
      i := i + 1;
    }
    assert out + Escaped(text[i..]) == out;
  }

  // ---- Unescaping ----

  predicate IsAsciiPunctuation(b: byte) {
    33 <= b <= 47 || 58 <= b <= 64 || 91 <= b <= 96 || 123 <= b <= 126
  }

  /** The escapes of one character after the backslash. */
  function Simple(kind: byte): Option<byte> {
    if kind == 110 then Some(10)
    else if kind == 114 then Some(13)
    else if kind == 116 then Some(9)
    else if kind == 48 then Some(0)
    else if kind == 98 then Some(8)
    else if kind == 102 then Some(12)
    else if kind == 118 then Some(11)
    else if kind == 101 then Some(27)
    else if IsAsciiPunctuation(kind) || kind == 32 then Some(kind)
    else None
  }

  /** The value of the digits between two positions, if both lie within `s`. */
  function HexBetween(s: seq<byte>, from: nat, to: nat): Option<nat>
    requires from <= to
  {
    if to <= |s| then HexValue(s[from..to]) else None
  }

  function PositionOf(s: seq<byte>, b: byte): Option<nat> {
    if s == [] then None
    else if s[0] == b then Some(0)
    else match PositionOf(s[1..], b) case None => None case Some(k) => Some(k + 1)
  }

  /** What decoding one step emits, and how far it moves. */
  datatype Step = Step(emitted: seq<byte>, length: nat)

  /** A decoded character, if the code is one. */
  function CharStep(code: nat, length: nat): Option<Step> {
    if IsScalar(code) then Some(Step(Utf8(code), length)) else None
  }

  function ByteEscape(s: seq<byte>): Option<Step> {
    match HexBetween(s, 2, 4)
    case Some(value) => Some(Step([value % 256], 4))
    case None => None
  }

  function BracedEscape(s: seq<byte>): Option<Step>
    requires |s| >= 3
  {
    match PositionOf(s[3..], 125)
    case None => None
    case Some(close) =>
      if 3 + close > |s| then None
      else
        match HexBetween(s, 3, 3 + close)
        case None => None
        case Some(code) => CharStep(code, 4 + close)
  }

  predicate IsHighSurrogate(unit: nat) { 0xD800 <= unit < 0xDC00 }
  predicate IsLowSurrogate(unit: nat) { 0xDC00 <= unit < 0xE000 }

  /** The low half of a surrogate pair, escaped right after the high one. */
  function LowHalf(s: seq<byte>): Option<nat> {
    if |s| > 7 && s[6] == BACKSLASH && s[7] == LOWER_U then
      match HexBetween(s, 8, 12)
      case Some(low) => if IsLowSurrogate(low) then Some(low) else None
      case None => None
    else None
  }

  function UnitEscape(s: seq<byte>): Option<Step> {
    match HexBetween(s, 2, 6)
    case None => None
    case Some(high) =>
      if IsHighSurrogate(high) && LowHalf(s).Some?
      then CharStep(0x1_0000 + (high - 0xD800) * 1024 + (LowHalf(s).value - 0xDC00), 12)
      else CharStep(high, 6)
  }

  function LongEscape(s: seq<byte>): Option<Step> {
    match HexBetween(s, 2, 10)
    case None => None
    case Some(code) => CharStep(code, 10)
  }

  function Coded(s: seq<byte>): Option<Step>
    requires |s| >= 2
  {
    if s[1] == 120 then ByteEscape(s)
    else if s[1] == LOWER_U && |s| > 2 && s[2] == 123 then BracedEscape(s)
    else if s[1] == LOWER_U then UnitEscape(s)
    else if s[1] == 85 then LongEscape(s)
    else None
  }

  lemma {:induction false} PositionFits(s: seq<byte>, b: byte)
    ensures PositionOf(s, b).Some? ==> PositionOf(s, b).value < |s| && s[PositionOf(s, b).value] == b
  {
    if s != [] && s[0] != b { PositionFits(s[1..], b); }
  }

  /** An escape is never shorter than what it stands for. */
  lemma CodedFits(s: seq<byte>)
    requires |s| >= 2 && Coded(s).Some?
    ensures 0 < Coded(s).value.length <= |s|
    ensures |Coded(s).value.emitted| <= Coded(s).value.length
  {
    if s[1] == LOWER_U && |s| > 2 && s[2] == 123 { PositionFits(s[3..], 125); }
  }

  /** One turn of the decoder at the start of `s`. */
  function Next(s: seq<byte>): Step {
    if s == [] then Step([], 0)
    else if s[0] != BACKSLASH || |s| == 1 then Step([s[0]], 1)
    else
      match Simple(s[1])
      case Some(b) => Step([b], 2)
      case None =>
        match Coded(s)
        case Some(step) => step
        case None => Step([s[0]], 1)
  }

  /** A turn moves forward, stays within its input, and emits no more than it reads. */
  predicate Moves(next: seq<byte> -> Step, s: seq<byte>) {
    s != [] ==> 0 < next(s).length <= |s| && |next(s).emitted| <= next(s).length
  }

  /** Turn after turn until nothing is left. */
  function Decoded(next: seq<byte> -> Step, s: seq<byte>): (r: seq<byte>)
    decreases |s|
  {
    if s == [] || !Moves(next, s) then [] else next(s).emitted + Decoded(next, s[next(s).length..])
  }

  lemma DecodedAdvances(next: seq<byte> -> Step, out: seq<byte>, bytes: seq<byte>, at: nat)
    requires at < |bytes| && Moves(next, bytes[at..])
    ensures var step := next(bytes[at..]);
            out + Decoded(next, bytes[at..]) == out + step.emitted + Decoded(next, bytes[at + step.length..])
  {
    var step := next(bytes[at..]);
    assert bytes[at..][step.length..] == bytes[at + step.length..];
  }

  /** The decoding loop, for any turn that moves. */
  method Decode(next: seq<byte> -> Step, bytes: seq<byte>) returns (out: seq<byte>)
    requires forall s :: Moves(next, s)
    ensures out == Decoded(next, bytes)
  {
    out := [];
    var at := 0;
    assert bytes[at..] == bytes;
    while at < |bytes|
      invariant at <= |bytes|
      invariant out + Decoded(next, bytes[at..]) == Decoded(next, bytes)
      decreases |bytes| - at
    {
      assert Moves(next, bytes[at..]);
      DecodedAdvances(next, out, bytes, at);
      var step := next(bytes[at..]);
      out, at := out + step.emitted, at + step.length;
    }
    assert bytes[at..] == [];
  }

  lemma NextMoves(s: seq<byte>)
    ensures Moves(Next, s)
  {
    if |s| >= 2 && Coded(s).Some? { CodedFits(s); }
  }

  /** Escapes replaced by what they stand for; anything unrecognised is kept as written. */
  function Unescaped(s: seq<byte>): seq<byte> { Decoded(Next, s) }

  method UnescapeBackslashes(bytes: seq<byte>) returns (out: seq<byte>)
    ensures out == Unescaped(bytes)
  {
    forall s ensures Moves(Next, s) { NextMoves(s); }
    out := Decode(Next, bytes);
  }

  /** Decoding never lengthens. */
  lemma {:induction false} DecodedIsNoLonger(next: seq<byte> -> Step, s: seq<byte>)
    ensures |Decoded(next, s)| <= |s|
    decreases |s|
  {
    if s != [] && Moves(next, s) { DecodedIsNoLonger(next, s[next(s).length..]); }
  }

  // ---- The round trip ----

  lemma EscapedUnitIsRead(s: seq<byte>, unit: nat)
    requires unit < 0x1_0000 && EscapedUnit(unit) <= s
    ensures |s| >= 6 && s[0] == BACKSLASH && s[1] == LOWER_U
    ensures s[2] != 123
    ensures HexBetween(s, 2, 6) == Some(unit)
  {
    assert s[..6] == EscapedUnit(unit);
    assert s[2..6] == s[..6][2..] == Hex4(unit);
    Hex4Parses(unit);
    assert s[2] == Hex4(unit)[0];
  }

  lemma PlaneZeroIsRead(s: seq<byte>, code: nat)
    requires IsScalar(code) && code < 0x1_0000 && EscapedUnit(code) <= s
    ensures Next(s) == Step(Utf8(code), 6)
  {
    EscapedUnitIsRead(s, code);
    assert Coded(s) == UnitEscape(s) == CharStep(code, 6);
  }

  lemma PairIsRead(s: seq<byte>, code: nat)
    requires IsScalar(code) && code >= 0x1_0000
    requires EscapedUnit(Utf16(code)[0]) + EscapedUnit(Utf16(code)[1]) <= s
    ensures Next(s) == Step(Utf8(code), 12)
  {
    var high, low := Utf16(code)[0], Utf16(code)[1];
    var first, second := EscapedUnit(high), EscapedUnit(low);
    assert s[..12] == first + second;
    assert first == s[..12][..6] == s[..6] && second == s[..12][6..] == s[6..12];
    EscapedUnitIsRead(s, high);
    assert s[6..][..6] == second;
    EscapedUnitIsRead(s[6..], low);
    assert s[8..12] == s[6..][2..6];
    assert s[6] == s[6..][0] && s[7] == s[6..][1];
    assert LowHalf(s) == Some(low);
    assert 0x1_0000 + (high - 0xD800) * 1024 + (low - 0xDC00) == code;
    assert Coded(s) == UnitEscape(s);
  }

  /** One escaped character is read back as its own bytes, whatever follows. */
  lemma EscapedCharIsRead(s: seq<byte>, c: char)
    requires EscapedChar(c) <= s
    ensures s != [] && Next(s) == Step(Utf8(c as nat), |EscapedChar(c)|)
  {
    var e := EscapedChar(c);
    assert s[..|e|] == e;
    assert s[0] == e[0] && s[1..|e|] == e[1..];
    if c in ['\"', '\\', '\n', '\r', '\t'] {
      assert s[1] == e[1];
    } else if ' ' <= c <= '~' {
    } else if (c as nat) < 0x1_0000 {
      PlaneZeroIsRead(s, c as nat);
    } else {
      PairIsRead(s, c as nat);
    }
  }

  /** Unescaping an escaped text gives its UTF-8 bytes, for every text. */
  lemma {:induction false} UnescapeUndoesEscape(text: string)
    ensures Unescaped(Escaped(text)) == Utf8Text(text)
  {
    if text != "" {
      var s := Escaped(text);
      EscapedCharIsRead(s, text[0]);
      NextMoves(s);
      assert s[|EscapedChar(text[0])|..] == Escaped(text[1..]);
      UnescapeUndoesEscape(text[1..]);
    }
  }

  // ---- What is written ----

  /** `code` in UTF-8: six bits in each byte after the first, and the rest behind the first one's mark. */
  predicate IsUtf8(code: nat, r: seq<byte>) {
    match |r|
    case 1 => r[0] == code < 0x80
    case 2 => 0x80 <= code < 0x800 && 0x80 <= r[1] < 0xC0 && 64 * (r[0] as int) + r[1] == code + 64 * 0xC0 + 0x80
    case 3 =>
      && 0x800 <= code < 0x1_0000 && 0x80 <= r[1] < 0xC0 && 0x80 <= r[2] < 0xC0
      && 4096 * (r[0] as int) + 64 * (r[1] as int) + r[2] == code + 4096 * 0xE0 + 64 * 0x80 + 0x80
    case 4 =>
      && 0x1_0000 <= code && 0x80 <= r[1] < 0xC0 && 0x80 <= r[2] < 0xC0 && 0x80 <= r[3] < 0xC0
      && 0x4_0000 * (r[0] as int) + 4096 * (r[1] as int) + 64 * (r[2] as int) + r[3] == code + 0x4_0000 * 0xF0 + 4096 * 0x80 + 64 * 0x80 + 0x80
    case _ => false
  }

  lemma Utf8IsStandard(code: nat)
    requires IsScalar(code)
    ensures IsUtf8(code, Utf8(code))
  {
    assert code / 4096 == code / 64 / 64 && code / 0x4_0000 == code / 4096 / 64;
  }

  predicate IsLowerDigit(b: byte, d: nat) { d < 16 && b == if d < 10 then 48 + d else 87 + d }

  predicate SpellUnit(r: seq<byte>, a: nat, b: nat, c: nat, d: nat) {
    && |r| == 6 && r[0] == 92 && r[1] == 117
    && IsLowerDigit(r[2], a) && IsLowerDigit(r[3], b) && IsLowerDigit(r[4], c) && IsLowerDigit(r[5], d)
  }

  /** A backslash, a `u` and four lower-case digits of this value. */
  ghost predicate WritesUnit(r: seq<byte>, unit: nat) {
    exists a: nat, b: nat, c: nat, d: nat :: SpellUnit(r, a, b, c, d) && 4096 * a + 256 * b + 16 * c + d == unit
  }

  /** The two halves of a surrogate pair. */
  ghost predicate WritesPair(r: seq<byte>, high: nat, low: nat) {
    && |r| == 12 && high < 1024 && low < 1024
    && WritesUnit(r[..6], 0xD800 + high) && WritesUnit(r[6..], 0xDC00 + low)
  }

  predicate IsAlphanumeric(b: byte) { 48 <= b <= 57 || 65 <= b <= 90 || 97 <= b <= 122 }

  /** The byte that one character after a backslash stands for: the usual controls, a blank, punctuation. */
  predicate StandsFor(kind: byte, value: byte) {
    || (kind as int == 'n' as int && value == 10) || (kind as int == 'r' as int && value == 13)
    || (kind as int == 't' as int && value == 9) || (kind as int == '0' as int && value == 0)
    || (kind as int == 'b' as int && value == 8) || (kind as int == 'f' as int && value == 12)
    || (kind as int == 'v' as int && value == 11) || (kind as int == 'e' as int && value == 27)
    || (value == kind && 32 <= kind < 127 && !IsAlphanumeric(kind))
  }

  /** How JSON in ASCII writes one character. */
  ghost predicate Writes(r: seq<byte>, c: char) {
    if c in {'\"', '\\', '\n', '\r', '\t'} then |r| == 2 && r[0] == 92 && StandsFor(r[1], c as nat)
    else if 32 <= c as nat <= 126 then r == [c as nat]
    else if c as nat < 0x1_0000 then WritesUnit(r, c as nat)
    else exists high: nat, low: nat :: WritesPair(r, high, low) && 0x1_0000 + 1024 * high + low == c as nat
  }

  /** One character after another. */
  ghost predicate WritesAll(r: seq<byte>, text: string)
    decreases |text|
  {
    if text == "" then r == []
    else exists k :: 0 <= k <= |r| && Writes(r[..k], text[0]) && WritesAll(r[k..], text[1..])
  }

  lemma UnitIsWritten(unit: nat)
    requires unit < 0x1_0000
    ensures WritesUnit(EscapedUnit(unit), unit)
  {
    Nibbles(unit, unit / 16, unit / 16 / 16);
    assert SpellUnit(EscapedUnit(unit), unit / 16 / 16 / 16, unit / 16 / 16 % 16, unit / 16 % 16, unit % 16);
  }

  lemma PairIsWritten(first: seq<byte>, second: seq<byte>, high: nat, low: nat)
    requires high < 1024 && low < 1024 && |first| == 6 && |second| == 6
    requires WritesUnit(first, 0xD800 + high) && WritesUnit(second, 0xDC00 + low)
    ensures WritesPair(first + second, high, low)
  {
    assert (first + second)[..6] == first && (first + second)[6..] == second;
  }

  lemma Halves(offset: nat, high: nat, low: nat)
    requires offset == 1024 * high + low && low < 1024
    ensures offset / 1024 == high && offset % 1024 == low
  {}

  lemma AstralIsPair(c: char, high: nat, low: nat)
    requires c as nat == 0x1_0000 + 1024 * high + low && high < 1024 && low < 1024
    ensures EscapedChar(c) == EscapedUnit(0xD800 + high) + EscapedUnit(0xDC00 + low)
  {
    Halves(c as nat - 0x1_0000, high, low);
    assert Utf16(c as nat) == [0xD800 + high, 0xDC00 + low];
  }

  lemma AstralIsWritten(c: char, high: nat, low: nat)
    requires c as nat == 0x1_0000 + 1024 * high + low && high < 1024 && low < 1024
    ensures WritesPair(EscapedChar(c), high, low)
  {
    AstralIsPair(c, high, low);
    var first, second := EscapedUnit(0xD800 + high), EscapedUnit(0xDC00 + low);
    UnitIsWritten(0xD800 + high);
    UnitIsWritten(0xDC00 + low);
    PairIsWritten(first, second, high, low);
  }

  lemma CharIsWritten(c: char)
    ensures Writes(EscapedChar(c), c)
  {
    if 0x1_0000 <= c as nat {
      var offset := c as nat - 0x1_0000;
      AstralIsWritten(c, offset / 1024, offset % 1024);
    } else if c as nat < 32 || c as nat > 126 {
      UnitIsWritten(c as nat);
    }
  }

  /** The escaped form of a text is what JSON in ASCII writes for it, character by character. */
  lemma {:induction false} EscapedExactly(text: string)
    ensures WritesAll(Escaped(text), text)
  {
    if text != "" {
      var first, rest := EscapedChar(text[0]), Escaped(text[1..]);
      CharIsWritten(text[0]);
      EscapedExactly(text[1..]);
      assert (first + rest)[..|first|] == first && (first + rest)[|first|..] == rest;
    }
  }

  lemma EscapedUnitIsPrintable(unit: nat)
    requires unit < 0x1_0000
    ensures |EscapedUnit(unit)| == 6 && forall k :: 0 <= k < 6 ==> 32 <= EscapedUnit(unit)[k] <= 126
  {}

  lemma EscapedCharIsBounded(c: char)
    ensures |EscapedChar(c)| <= 6 * |Utf8(c as nat)|
    ensures forall k :: 0 <= k < |EscapedChar(c)| ==> 32 <= EscapedChar(c)[k] <= 126
  {
    var units := Utf16(c as nat);
    EscapedUnitIsPrintable(units[0]);
    if |units| > 1 { EscapedUnitIsPrintable(units[1]); }
  }

  /** Escaping writes printable ASCII, at most six bytes for each byte of the text. */
  lemma {:induction false} EscapedIsBounded(text: string)
    ensures |Escaped(text)| <= 6 * |Utf8Text(text)|
    ensures forall k :: 0 <= k < |Escaped(text)| ==> 32 <= Escaped(text)[k] <= 126
  {
    if text != "" {
      EscapedIsBounded(text[1..]);
      EscapedCharIsBounded(text[0]);
    }
  }

  /** Bytes without a backslash are left alone. */
  lemma {:induction false} PlainBytesAreKept(s: seq<byte>)
    requires forall k :: 0 <= k < |s| ==> s[k] != BACKSLASH
    ensures Unescaped(s) == s
  {
    if s != [] {
      PlainBytesAreKept(s[1..]);
      NextMoves(s);
      assert s == [s[0]] + s[1..];
    }
  }

  /** One turn of the decoder over bytes it reads as `step`, whatever follows. */
  lemma DecodedTurn(read: seq<byte>, rest: seq<byte>, emitted: seq<byte>)
    requires read != [] && Next(read + rest) == Step(emitted, |read|)
    ensures Unescaped(read + rest) == emitted + Unescaped(rest)
  {
    NextMoves(read + rest);
    assert (read + rest)[|read|..] == rest;
  }

  lemma CharIsDecoded(c: char, rest: seq<byte>)
    ensures Unescaped(EscapedChar(c) + rest) == Utf8(c as nat) + Unescaped(rest)
  {
    EscapedCharIsRead(EscapedChar(c) + rest, c);
    DecodedTurn(EscapedChar(c), rest, Utf8(c as nat));
  }

  lemma {:induction false} UnescapeReadsEscaped(text: string, rest: seq<byte>)
    ensures Unescaped(Escaped(text) + rest) == Utf8Text(text) + Unescaped(rest)
    decreases |text|
  {
    if text == "" {
      assert Escaped(text) + rest == rest;
    } else {
      var e, more := EscapedChar(text[0]), Escaped(text[1..]) + rest;
      UnescapeReadsEscaped(text[1..], rest);
      Associates(e, Escaped(text[1..]), rest);
      CharIsDecoded(text[0], more);
      Associates(Utf8(text[0] as nat), Utf8Text(text[1..]), Unescaped(rest));
    }
  }

  lemma {:induction false} PlainIsKept(plain: seq<byte>, rest: seq<byte>)
    requires forall k :: 0 <= k < |plain| ==> plain[k] != BACKSLASH
    ensures Unescaped(plain + rest) == plain + Unescaped(rest)
    decreases |plain|
  {
    if plain == [] {
      assert plain + rest == rest;
    } else {
      PlainIsKept(plain[1..], rest);
      FirstThenRest(plain, rest);
      FirstThenRest(plain, Unescaped(rest));
      DecodedTurn([plain[0]], plain[1..] + rest, [plain[0]]);
    }
  }

  /** An escaped text is read wherever it stands after bytes without a backslash. */
  lemma UnescapeReadsWithin(plain: seq<byte>, text: string, rest: seq<byte>)
    requires forall k :: 0 <= k < |plain| ==> plain[k] != BACKSLASH
    ensures Unescaped(plain + (Escaped(text) + rest)) == plain + (Utf8Text(text) + Unescaped(rest))
  {
    UnescapeReadsEscaped(text, rest);
    PlainIsKept(plain, Escaped(text) + rest);
  }

  // ---- The escapes that JSON escaping does not write ----

  lemma SimpleEscapeIsRead(kind: byte, value: byte, rest: seq<byte>)
    requires StandsFor(kind, value)
    ensures Unescaped([BACKSLASH, kind] + rest) == [value] + Unescaped(rest)
  {
    DecodedTurn([BACKSLASH, kind], rest, [value]);
  }

  /** The byte is the hexadecimal digit `d`, in either case. */
  predicate Spells(b: byte, d: nat) {
    d < 16 && if d < 10 then b == 48 + d else b == 87 + d || b == 55 + d
  }

  predicate SpellsAll(digits: seq<byte>, values: seq<nat>) {
    |digits| == |values| && forall k :: 0 <= k < |digits| ==> Spells(digits[k], values[k])
  }

  /** The number that hexadecimal digits of these values spell. */
  function NumberOf(values: seq<nat>): nat {
    if values == [] then 0 else 16 * NumberOf(values[..|values| - 1]) + values[|values| - 1]
  }

  lemma {:induction false} SpelledNumber(digits: seq<byte>, values: seq<nat>, upto: nat)
    requires SpellsAll(digits, values) && upto <= |digits|
    ensures HexNumber(digits, upto) == NumberOf(values[..upto])
    decreases upto
  {
    if upto > 0 {
      SpelledNumber(digits, values, upto - 1);
      assert Spells(digits[upto - 1], values[upto - 1]);
      assert values[..upto][..upto - 1] == values[..upto - 1];
    }
  }

  lemma SpelledValue(digits: seq<byte>, values: seq<nat>)
    requires digits != [] && SpellsAll(digits, values) && NumberOf(values) < 0x1_0000_0000
    ensures HexValue(digits) == Some(NumberOf(values))
  {
    SpelledNumber(digits, values, |digits|);
    assert values[..|digits|] == values;
    forall k | 0 <= k < |digits| ensures IsHexDigit(digits[k]) { assert Spells(digits[k], values[k]); }
  }

  lemma Embedded(before: seq<byte>, digits: seq<byte>, after: seq<byte>)
    ensures (before + digits + after)[|before|..|before| + |digits|] == digits
  {}

  lemma TwoDigits(values: seq<nat>)
    requires |values| == 2
    ensures NumberOf(values) == 16 * values[0] + values[1]
  {
    assert NumberOf(values[..1][..0]) == 0;
    assert NumberOf(values[..1]) == values[0];
  }

  lemma ByteIsRead(digits: seq<byte>, values: seq<nat>)
    requires |digits| == 2 && SpellsAll(digits, values)
    ensures 16 * values[0] + values[1] < 256 && HexValue(digits) == Some(16 * values[0] + values[1])
  {
    assert Spells(digits[0], values[0]) && Spells(digits[1], values[1]);
    TwoDigits(values);
    SpelledValue(digits, values);
  }

  /** `\xHH` is one byte. */
  lemma ByteEscapeIsRead(digits: seq<byte>, values: seq<nat>, rest: seq<byte>)
    requires |digits| == 2 && SpellsAll(digits, values)
    ensures 16 * values[0] + values[1] < 256
    ensures Unescaped([BACKSLASH, 120] + digits + rest) == [16 * values[0] + values[1]] + Unescaped(rest)
  {
    ByteIsRead(digits, values);
    var s := [BACKSLASH, 120] + digits + rest;
    Embedded([BACKSLASH, 120], digits, rest);
    assert s[2..4] == digits;
    assert Coded(s) == ByteEscape(s);
    DecodedTurn([BACKSLASH, 120] + digits, rest, [16 * values[0] + values[1]]);
  }

  /** `\UHHHHHHHH` is a character. */
  lemma LongEscapeIsRead(digits: seq<byte>, values: seq<nat>, rest: seq<byte>)
    requires |digits| == 8 && SpellsAll(digits, values) && IsScalar(NumberOf(values))
    ensures Unescaped([BACKSLASH, 85] + digits + rest) == Utf8(NumberOf(values)) + Unescaped(rest)
  {
    SpelledValue(digits, values);
    var s := [BACKSLASH, 85] + digits + rest;
    Embedded([BACKSLASH, 85], digits, rest);
    assert s[2..10] == digits;
    assert Coded(s) == LongEscape(s);
    DecodedTurn([BACKSLASH, 85] + digits, rest, Utf8(NumberOf(values)));
  }

  /** `\uHHHH` is a character, unless it is half of a surrogate pair. */
  lemma ShortEscapeIsRead(digits: seq<byte>, values: seq<nat>, rest: seq<byte>)
    requires |digits| == 4 && SpellsAll(digits, values) && IsScalar(NumberOf(values))
    ensures Unescaped([BACKSLASH, LOWER_U] + digits + rest) == Utf8(NumberOf(values)) + Unescaped(rest)
  {
    SpelledValue(digits, values);
    var s := [BACKSLASH, LOWER_U] + digits + rest;
    Embedded([BACKSLASH, LOWER_U], digits, rest);
    assert s[2..6] == digits && s[2] == digits[0];
    assert Spells(digits[0], values[0]) && s[2] != 123;
    assert Coded(s) == UnitEscape(s);
    DecodedTurn([BACKSLASH, LOWER_U] + digits, rest, Utf8(NumberOf(values)));
  }

  lemma {:induction false} ClosesAfter(digits: seq<byte>, rest: seq<byte>)
    requires 125 !in digits
    ensures PositionOf(digits + [125] + rest, 125) == Some(|digits|)
  {
    var s := digits + [125] + rest;
    if digits != [] {
      ClosesAfter(digits[1..], rest);
      assert s[1..] == digits[1..] + [125] + rest;
    }
  }

  /** `\u{H...}` is a character, however many digits spell it. */
  lemma BracedEscapeIsRead(digits: seq<byte>, values: seq<nat>, rest: seq<byte>)
    requires digits != [] && SpellsAll(digits, values) && IsScalar(NumberOf(values))
    ensures Unescaped([BACKSLASH, LOWER_U, 123] + digits + [125] + rest) == Utf8(NumberOf(values)) + Unescaped(rest)
  {
    SpelledValue(digits, values);
    forall k | 0 <= k < |digits| ensures digits[k] != 125 { assert Spells(digits[k], values[k]); }
    var read := [BACKSLASH, LOWER_U, 123] + digits + [125];
    var s := read + rest;
    ClosesAfter(digits, rest);
    assert s[3..] == digits + [125] + rest;
    assert s[3..3 + |digits|] == digits;
    assert Coded(s) == BracedEscape(s);
    DecodedTurn(read, rest, Utf8(NumberOf(values)));
  }

  /** Two escaped halves of a surrogate pair are one character. */
  lemma PairEscapeIsRead(first: seq<byte>, high: seq<nat>, second: seq<byte>, low: seq<nat>, rest: seq<byte>)
    requires |first| == |second| == 4 && SpellsAll(first, high) && SpellsAll(second, low)
    requires 0xD800 <= NumberOf(high) < 0xDC00 && 0xDC00 <= NumberOf(low) < 0xE000
    ensures Unescaped([BACKSLASH, LOWER_U] + first + [BACKSLASH, LOWER_U] + second + rest)
            == Utf8(0x1_0000 + 1024 * (NumberOf(high) - 0xD800) + (NumberOf(low) - 0xDC00)) + Unescaped(rest)
  {
    SpelledValue(first, high);
    SpelledValue(second, low);
    var read := [BACKSLASH, LOWER_U] + first + [BACKSLASH, LOWER_U] + second;
    var s := read + rest;
    assert s[2..6] == first && s[2] == first[0] && s[6] == BACKSLASH && s[7] == LOWER_U && s[8..12] == second;
    assert Spells(first[0], high[0]) && s[2] != 123;
    assert Coded(s) == UnitEscape(s) && LowHalf(s) == Some(NumberOf(low));
    DecodedTurn(read, rest, Utf8(0x1_0000 + 1024 * (NumberOf(high) - 0xD800) + (NumberOf(low) - 0xDC00)));
  }

  /** Hexadecimal digits, at least one, that spell a number in some range. */
  ghost predicate SpellsIn(digits: seq<byte>, fits: nat -> bool) {
    digits != [] && exists values :: SpellsAll(digits, values) && fits(NumberOf(values))
  }

  lemma {:induction false} DigitsHaveValues(digits: seq<byte>) returns (values: seq<nat>)
    requires forall k :: 0 <= k < |digits| ==> IsHexDigit(digits[k])
    ensures SpellsAll(digits, values)
  {
    values := [];
    if digits != [] {
      var last := |digits| - 1;
      values := DigitsHaveValues(digits[..last]);
      assert forall k :: 0 <= k < last ==> digits[..last][k] == digits[k];
      assert Spells(digits[last], DigitValue(digits[last]));
      values := values + [DigitValue(digits[last])];
    }
  }

  lemma ValueIsSpelled(digits: seq<byte>, fits: nat -> bool)
    requires HexValue(digits).Some? && fits(HexValue(digits).value)
    ensures SpellsIn(digits, fits)
  {
    var values := DigitsHaveValues(digits);
    SpelledNumber(digits, values, |digits|);
    assert values[..|digits|] == values;
  }

  /** Braces close at the first closing brace, and hold digits that spell a character. */
  ghost predicate IsBraced(s: seq<byte>) {
    && |s| > 3 && s[2] == 123
    && exists close :: 3 <= close < |s| && s[close] == 125 && 125 !in s[3..close] && SpellsIn(s[3..close], IsScalar)
  }

  ghost predicate IsPair(s: seq<byte>) {
    && |s| >= 12 && SpellsIn(s[2..6], IsHighSurrogate)
    && s[6] == 92 && s[7] == 117 && SpellsIn(s[8..12], IsLowSurrogate)
  }

  /** The bytes start with one of the escapes there are. */
  ghost predicate IsEscape(s: seq<byte>) {
    && |s| >= 2 && s[0] == 92
    && (|| (exists value :: StandsFor(s[1], value))
        || (s[1] == 120 && |s| >= 4 && SpellsIn(s[2..4], (n: nat) => true))
        || (s[1] == 85 && |s| >= 10 && SpellsIn(s[2..10], IsScalar))
        || (s[1] == 117 && (IsBraced(s) || (|s| >= 6 && SpellsIn(s[2..6], IsScalar)) || IsPair(s))))
  }

  lemma {:induction false} FirstPosition(s: seq<byte>, b: byte)
    requires PositionOf(s, b).Some?
    ensures PositionOf(s, b).value < |s| && b !in s[..PositionOf(s, b).value]
  {
    if s[0] != b {
      FirstPosition(s[1..], b);
      var k := PositionOf(s[1..], b).value;
      assert s[..k + 1] == [s[0]] + s[1..][..k];
    }
  }

  lemma BracedIsEscape(s: seq<byte>)
    requires |s| >= 3 && s[2] == 123 && BracedEscape(s).Some?
    ensures IsBraced(s)
  {
    PositionFits(s[3..], 125);
    FirstPosition(s[3..], 125);
    var close := 3 + PositionOf(s[3..], 125).value;
    assert s[3..][..close - 3] == s[3..close];
    ValueIsSpelled(s[3..close], IsScalar);
  }

  lemma UnitIsEscape(s: seq<byte>)
    requires |s| >= 2 && UnitEscape(s).Some?
    ensures (|s| >= 6 && SpellsIn(s[2..6], IsScalar)) || IsPair(s)
  {
    var high := HexValue(s[2..6]).value;
    if IsHighSurrogate(high) {
      ValueIsSpelled(s[2..6], IsHighSurrogate);
      ValueIsSpelled(s[8..12], IsLowSurrogate);
    } else {
      ValueIsSpelled(s[2..6], IsScalar);
    }
  }

  lemma CodedIsEscape(s: seq<byte>)
    requires |s| >= 2 && s[0] == 92 && Coded(s).Some?
    ensures IsEscape(s)
  {
    if s[1] == 120 {
      ValueIsSpelled(s[2..4], (n: nat) => true);
    } else if s[1] == 85 {
      ValueIsSpelled(s[2..10], IsScalar);
    } else if |s| > 2 && s[2] == 123 {
      BracedIsEscape(s);
    } else {
      UnitIsEscape(s);
    }
  }

  /** A backslash that starts none of the escapes is kept, and what follows it is read on its own. */
  lemma UnreadIsKept(rest: seq<byte>)
    requires !IsEscape([92] + rest)
    ensures Unescaped([92] + rest) == [92] + Unescaped(rest)
  {
    var s := [92] + rest;
    if |s| >= 2 {
      forall value: byte ensures !StandsFor(s[1], value) {}
      assert !StandsFor(s[1], s[1]);
      assert !StandsFor(s[1], 10) && !StandsFor(s[1], 13) && !StandsFor(s[1], 9) && !StandsFor(s[1], 0);
      assert !StandsFor(s[1], 8) && !StandsFor(s[1], 12) && !StandsFor(s[1], 11) && !StandsFor(s[1], 27);
      if Coded(s).Some? { CodedIsEscape(s); }
    }
    DecodedTurn([92], rest, [92]);
  }
}
