/**
 * Texts as bytes: UTF-8 tells characters apart, and reading the bytes of a text gives the text back.
 */
module TextCodec {
  import opened EscapeCodec
  import opened Splitting
  import opened Wrappers

  predicate IsContinuation(b: byte) { 0x80 <= b < 0xC0 }

  /** How many bytes the character takes whose encoding starts with `b`. */
  function LeadLength(b: byte): nat {
    if b < 0x80 then 1 else if b < 0xE0 then 2 else if b < 0xF0 then 3 else 4
  }

  lemma Utf8Shape(code: nat)
    requires IsScalar(code)
    ensures !IsContinuation(Utf8(code)[0]) && LeadLength(Utf8(code)[0]) == |Utf8(code)|
    ensures forall k :: 0 < k < |Utf8(code)| ==> IsContinuation(Utf8(code)[k])
  {}

  lemma Regroup(code: nat)
    ensures code == code / 64 * 64 + code % 64
    ensures code / 64 == code / 4096 * 64 + code / 64 % 64
    ensures code / 4096 == code / 0x4_0000 * 64 + code / 4096 % 64
  {}

  lemma Utf8IsInjective(a: nat, b: nat)
    requires IsScalar(a) && IsScalar(b) && Utf8(a) == Utf8(b)
    ensures a == b
  {
    assert Utf8(a)[0] == Utf8(b)[0];
    if |Utf8(a)| == 2 {
      assert Utf8(a)[1] == Utf8(b)[1];
    } else if |Utf8(a)| == 3 {
      assert Utf8(a)[1] == Utf8(b)[1] && Utf8(a)[2] == Utf8(b)[2];
      Regroup(a);
      Regroup(b);
    } else if |Utf8(a)| == 4 {
      assert Utf8(a)[1] == Utf8(b)[1] && Utf8(a)[2] == Utf8(b)[2] && Utf8(a)[3] == Utf8(b)[3];
      Regroup(a);
      Regroup(b);
    }
  }

  lemma TextStep(text: string)
    requires text != ""
    ensures Utf8Text(text) == Utf8(text[0] as nat) + Utf8Text(text[1..])
    ensures |Utf8Text(text)| > 0
  {}

  lemma SamePrefix(x: Bytes, u: Bytes, y: Bytes, v: Bytes)
    requires |x| == |y| && x + u <= y + v
    ensures x == y && u <= v
  {
    assert x == (x + u)[..|x|] == (y + v)[..|x|] == y;
    assert u == (x + u)[|x|..] && v == (y + v)[|x|..];
  }

  /** A text whose bytes start with another text's bytes starts with that text. */
  lemma {:induction false} BytesPrefix(a: string, b: string)
    requires Utf8Text(a) <= Utf8Text(b)
    ensures a <= b
  {
    if a != "" {
      TextStep(a);
      assert b != "";
      TextStep(b);
      var x, y := Utf8(a[0] as nat), Utf8(b[0] as nat);
      Utf8Shape(a[0] as nat);
      Utf8Shape(b[0] as nat);
      assert x[0] == Utf8Text(a)[0] == Utf8Text(b)[0] == y[0];
      SamePrefix(x, Utf8Text(a[1..]), y, Utf8Text(b[1..]));
      Utf8IsInjective(a[0] as nat, b[0] as nat);
      BytesPrefix(a[1..], b[1..]);
      assert a == [a[0]] + a[1..] && b == [b[0]] + b[1..];
    }
  }

  lemma FirstOfBoth(a: string, b: string)
    requires a != ""
    ensures a + b != "" && (a + b)[0] == a[0] && (a + b)[1..] == a[1..] + b
  {}

  lemma {:induction false} BytesConcatenate(a: string, b: string)
    ensures Utf8Text(a + b) == Utf8Text(a) + Utf8Text(b)
  {
    if a == "" {
      assert a + b == b;
    } else {
      FirstOfBoth(a, b);
      TextStep(a);
      TextStep(a + b);
      BytesConcatenate(a[1..], b);
      Associates(Utf8(a[0] as nat), Utf8Text(a[1..]), Utf8Text(b));
    }
  }

  // ---- Reading ----

  /** What a byte adds to a character, without the bits that tell its place. */
  function Payload(b: byte, mark: nat): nat { if b >= mark then b - mark else 0 }

  /** The character that so many bytes encode, if they encode one. */
  function CodeOf(bytes: Bytes): nat {
    match |bytes|
    case 1 => bytes[0]
    case 2 => Payload(bytes[0], 0xC0) * 64 + Payload(bytes[1], 0x80)
    case 3 => (Payload(bytes[0], 0xE0) * 64 + Payload(bytes[1], 0x80)) * 64 + Payload(bytes[2], 0x80)
    case 4 =>
      ((Payload(bytes[0], 0xF0) * 64 + Payload(bytes[1], 0x80)) * 64 + Payload(bytes[2], 0x80)) * 64
      + Payload(bytes[3], 0x80)
    case _ => 0
  }

  lemma CodeOfUtf8(code: nat)
    requires IsScalar(code)
    ensures CodeOf(Utf8(code)) == code
  {
    Regroup(code);
  }

  const REPLACEMENT := '\U{FFFD}'

  /** The text of the bytes; a byte that starts no character is replaced. */
  function TextOf(bytes: Bytes): string {
    if bytes == [] then ""
    else
      var n := LeadLength(bytes[0]);
      if |bytes| < n || !IsScalar(CodeOf(bytes[..n])) then [REPLACEMENT] + TextOf(bytes[1..])
      else [CodeOf(bytes[..n]) as char] + TextOf(bytes[n..])
  }

  /** Reading the bytes of a text gives the text. */
  lemma {:induction false} TextOfUndoes(text: string)
    ensures TextOf(Utf8Text(text)) == text
  {
    if text != "" {
      var c, rest := Utf8(text[0] as nat), Utf8Text(text[1..]);
      TextStep(text);
      Utf8Shape(text[0] as nat);
      CodeOfUtf8(text[0] as nat);
      assert (c + rest)[0] == c[0] && (c + rest)[..|c|] == c && (c + rest)[|c|..] == rest;
      TextOfUndoes(text[1..]);
    }
  }
}
