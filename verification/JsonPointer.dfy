/**
 * JSON values and the pointers of RFC 6901 that address them.
 *
 * An object keeps its members in key order, as the program's map does; array positions in a pointer
 * are decimal numbers.
 */
module JsonPointer {
  import opened Wrappers
  import opened Ordering
  import opened Splitting

  datatype Member = Member(key: string, value: Value)

  datatype Value =
    | Null
    | Bool(flag: bool)
    | Number(text: string)
    | Str(text: string)
    | Arr(items: seq<Value>)
    | Obj(members: seq<Member>)

  /** Members are kept in strictly increasing key order, here and below. */
  ghost predicate WellFormed(v: Value)
    decreases v
  {
    match v
    case Arr(items) => forall i :: 0 <= i < |items| ==> WellFormed(items[i])
    case Obj(members) =>
      && (forall i, j :: 0 <= i < j < |members| ==>
            LexLe(members[i].key, members[j].key) && members[i].key != members[j].key)
      && (forall i :: 0 <= i < |members| ==> WellFormed(members[i].value))
    case _ => true
  }

  // ---- Array positions ----

  function Digit(d: nat): char
    requires d < 10
  {
    (48 + d) as char
  }

  predicate IsDigit(c: char) { '0' <= c <= '9' }

  function Decimal(n: nat): string {
    if n < 10 then [Digit(n)] else Decimal(n / 10) + [Digit(n % 10)]
  }

  function ParseNat(s: string): Option<nat> {
    if s == "" || !IsDigit(s[|s| - 1]) then None
    else
      var last := s[|s| - 1] as nat - 48;
      if |s| == 1 then Some(last)
      else
        match ParseNat(s[..|s| - 1])
        case None => None
        case Some(high) => Some(10 * high + last)
  }

  /** An array position has no sign and no leading zero. */
  function ParseIndex(s: string): Option<nat> {
    if s != "" && (s[0] == '+' || (s[0] == '0' && |s| != 1)) then None else ParseNat(s)
  }

  lemma {:induction false} ParseDecimal(n: nat)
    ensures ParseNat(Decimal(n)) == Some(n)
    ensures Decimal(n) != "" && IsDigit(Decimal(n)[0])
    ensures Decimal(n)[0] == '0' <==> n == 0
    ensures n == 0 ==> |Decimal(n)| == 1
  {
    if n >= 10 {
      ParseDecimal(n / 10);
      var d := Decimal(n);
      assert d[..|d| - 1] == Decimal(n / 10);
    }
  }

  lemma {:induction false} ParsedIsDecimal(s: string)
    requires ParseNat(s).Some? && (s[0] == '0' ==> |s| == 1)
    ensures s == Decimal(ParseNat(s).value)
    ensures s[0] != '0' ==> ParseNat(s).value > 0
    decreases |s|
  {
    if |s| > 1 {
      var shorter := s[..|s| - 1];
      assert shorter[0] == s[0];
      ParsedIsDecimal(shorter);
      assert s == shorter + [s[|s| - 1]];
    }
  }

  ghost function DigitValue(c: char): nat {
    if '0' <= c <= '9' then c as nat - '0' as nat else 0
  }

  /** The number that decimal digits spell. */
  ghost function SpelledBy(s: string): nat {
    if s == "" then 0 else 10 * SpelledBy(s[..|s| - 1]) + DigitValue(s[|s| - 1])
  }

  /** A position is written in decimal: digits only, no leading zero, and they spell it. */
  lemma {:induction false} DecimalIs(n: nat)
    ensures SpelledBy(Decimal(n)) == n && Decimal(n) != "" && (Decimal(n)[0] == '0' ==> n == 0 && |Decimal(n)| == 1)
    ensures forall k :: 0 <= k < |Decimal(n)| ==> '0' <= Decimal(n)[k] <= '9'
  {
    var d := Decimal(n);
    if n >= 10 {
      DecimalIs(n / 10);
      assert d[..|d| - 1] == Decimal(n / 10);
    } else {
      assert d[..0] == "" && SpelledBy(d) == 10 * SpelledBy(d[..0]) + DigitValue(d[0]);
    }
  }

  /** Positions and their texts correspond one to one. */
  lemma IndexesRoundTrip(s: string, n: nat)
    ensures ParseIndex(s) == Some(n) <==> s == Decimal(n)
  {
    ParseDecimal(n);
    if ParseIndex(s) == Some(n) { ParsedIsDecimal(s); }
  }

  // ---- Reference tokens ----

  function EscapeChar(c: char): string {
    if c == '~' then ['~', '0'] else if c == '/' then ['~', '1'] else [c]
  }

  /** A segment as it is pushed onto a pointer, without the leading slash. */
  function Escape(s: string): string {
    if s == "" then "" else EscapeChar(s[0]) + Escape(s[1..])
  }

  /** A tilde is written `~0`, a slash `~1`, and every other character as it is, one after another. */
  lemma {:induction false} EscapesAsTheStandard(s: string, t: string)
    ensures Escape("~") == "~0" && Escape("/") == "~1"
    ensures forall c: char :: c != '~' && c != '/' ==> Escape([c]) == [c]
    ensures Escape(s + t) == Escape(s) + Escape(t)
  {
    forall c: char ensures Escape([c]) == EscapeChar(c) { assert [c][1..] == ""; }
    if s == "" {
      assert s + t == t;
    } else {
      EscapesAsTheStandard(s[1..], t);
      FirstThenRest(s, t);
      Associates(EscapeChar(s[0]), Escape(s[1..]), Escape(t));
      assert ([s[0]] + (s[1..] + t))[1..] == s[1..] + t;
    }
  }

  lemma {:induction false} NoEscapes(s: string)
    requires forall k :: 0 <= k < |s| ==> s[k] != '~' && s[k] != '/'
    ensures Escape(s) == s
  {
    if s != "" { NoEscapes(s[1..]); }
  }

  /** Replace each `ab`, from the left, by `c`. */
  function ReplacePair(s: string, a: char, b: char, c: char): string {
    if |s| < 2 then s
    else if s[0] == a && s[1] == b then [c] + ReplacePair(s[2..], a, b, c)
    else [s[0]] + ReplacePair(s[1..], a, b, c)
  }

  /** A token is read by restoring slashes first and tildes second. */
  function Unescape(s: string): string {
    ReplacePair(ReplacePair(s, '~', '1', '/'), '~', '0', '~')
  }

  function EscapeTildes(s: string): string {
    if s == "" then ""
    else if s[0] == '~' then ['~', '0'] + EscapeTildes(s[1..])
    else [s[0]] + EscapeTildes(s[1..])
  }

  lemma {:induction false} RestoreSlashes(s: string)
    ensures ReplacePair(Escape(s), '~', '1', '/') == EscapeTildes(s)
  {
    if s != "" {
      RestoreSlashes(s[1..]);
      var rest := Escape(s[1..]);
      if s[0] == '~' {
        assert (['~', '0'] + rest)[1..] == ['0'] + rest;
        assert (['0'] + rest)[1..] == rest;
      } else if s[0] == '/' {
        assert (['~', '1'] + rest)[2..] == rest;
      } else {
        assert ([s[0]] + rest)[1..] == rest;
      }
    }
  }

  lemma {:induction false} RestoreTildes(s: string)
    ensures ReplacePair(EscapeTildes(s), '~', '0', '~') == s
  {
    if s != "" {
      RestoreTildes(s[1..]);
      var rest := EscapeTildes(s[1..]);
      assert s == [s[0]] + s[1..];
      if s[0] == '~' {
        assert (['~', '0'] + rest)[2..] == rest;
      } else {
        assert ([s[0]] + rest)[1..] == rest;
      }
    }
  }

  lemma UnescapeUndoesEscape(s: string)
    ensures Unescape(Escape(s)) == s
  {
    RestoreSlashes(s);
    RestoreTildes(s);
  }

  lemma {:induction false} EscapedIsSlashFree(s: string)
    ensures Free(Escape(s), '/')
  {
    if s != "" { EscapedIsSlashFree(s[1..]); }
  }

  lemma EscapeIsInjective(s: string, t: string)
    requires Escape(s) == Escape(t)
    ensures s == t
  {
    UnescapeUndoesEscape(s);
    UnescapeUndoesEscape(t);
  }

  // ---- Tokens joined by slashes ----

  /** Each token after a slash. */
  function Join(tokens: seq<string>): string {
    if tokens == [] then "" else ['/'] + (tokens[0] + Join(tokens[1..]))
  }

  lemma JoinStep(tokens: seq<string>)
    requires tokens != []
    ensures Join(tokens) != "" && Join(tokens)[0] == '/'
    ensures Join(tokens)[1..] == tokens[0] + Join(tokens[1..])
  {
    var rest := tokens[0] + Join(tokens[1..]);
    assert Join(tokens) == ['/'] + rest;
  }

  lemma SplitStep(token: string, joined: string)
    requires Free(token, '/') && (joined != "" ==> joined[0] == '/')
    ensures Split(token + joined, '/') == [token] + if joined == "" then [] else Split(joined[1..], '/')
  {
    SplitFree(token, '/');
    if joined == "" {
      assert token + joined == token;
    } else {
      SplitAt(token, '/', joined[1..]);
      assert joined == ['/'] + joined[1..];
    }
  }

  lemma {:induction false} SplitUndoesJoin(tokens: seq<string>)
    requires tokens != [] && AllFree(tokens, '/')
    ensures Split(Join(tokens)[1..], '/') == tokens
  {
    var token, rest := tokens[0], tokens[1..];
    assert tokens == [token] + rest;
    JoinStep(tokens);
    if rest != [] {
      SplitUndoesJoin(rest);
      JoinStep(rest);
    }
    SplitStep(token, Join(rest));
  }

  lemma Reassociate(head: string, token: string, middle: string, tail: string)
    ensures head + (token + (middle + tail)) == (head + (token + middle)) + tail
  {}

  lemma {:induction false} JoinConcatenates(a: seq<string>, b: seq<string>)
    ensures Join(a + b) == Join(a) + Join(b)
  {
    if a == [] {
      assert a + b == b;
    } else {
      JoinConcatenates(a[1..], b);
      Tail(a, b);
      Reassociate(['/'], a[0], Join(a[1..]), Join(b));
    }
  }

  lemma SlashesAlign(x: string, u: string, y: string, v: string)
    requires Free(x, '/') && Free(y, '/')
    requires u != "" && u[0] == '/' && (v != "" ==> v[0] == '/')
    requires x + u <= y + v
    ensures x == y && u <= v
  {
    var k := if |x| < |y| then |x| else |y|;
    assert (x + u)[k] == (y + v)[k];
    assert |x| == |y|;
    assert x == (x + u)[..|x|] == (y + v)[..|x|] == y;
    assert u == (x + u)[|x|..] && v == (y + v)[|x|..];
  }

  lemma DropHead(c: char, s: string, t: string)
    requires [c] + s <= [c] + t
    ensures s <= t
  {
    assert s == ([c] + s)[1..] && t == ([c] + t)[1..];
  }

  lemma {:induction false} JoinedPrefix(a: seq<string>, b: seq<string>)
    requires AllFree(a, '/') && AllFree(b, '/')
    requires Join(a) + ['/'] <= Join(b)
    ensures a < b
  {
    if a != [] {
      var u, v := Join(a[1..]) + ['/'], Join(b[1..]);
      assert Join(a) + ['/'] == ['/'] + (a[0] + u);
      DropHead('/', a[0] + u, b[0] + v);
      if b[1..] != [] { JoinStep(b[1..]); }
      if a[1..] != [] { JoinStep(a[1..]); }
      SlashesAlign(a[0], u, b[0], v);
      JoinedPrefix(a[1..], b[1..]);
      assert a == [a[0]] + a[1..] && b == [b[0]] + b[1..];
    }
  }

  lemma PrefixJoined(a: seq<string>, b: seq<string>)
    requires a < b
    ensures Join(a) + ['/'] <= Join(b)
  {
    var rest := b[|a|..];
    assert b == a + rest;
    JoinConcatenates(a, rest);
    JoinStep(rest);
  }

  // ---- Pointers ----

  type Path = seq<string>

  function Push(pointer: string, segment: string): string {
    pointer + (['/'] + Escape(segment))
  }

  function Tokens(path: Path): seq<string> {
    seq(|path|, (i: nat) requires i < |path| => Escape(path[i]))
  }

  /** The pointer of a path. */
  function Encode(path: Path): string {
    Join(Tokens(path))
  }

  function UnescapeAll(tokens: seq<string>): Path {
    seq(|tokens|, (i: nat) requires i < |tokens| => Unescape(tokens[i]))
  }

  /** A pointer is empty or starts with a slash. */
  function Decode(pointer: string): Option<Path> {
    if pointer == "" then Some([])
    else if pointer[0] != '/' then None
    else Some(UnescapeAll(Split(pointer[1..], '/')))
  }

  lemma TokensAreSlashFree(path: Path)
    ensures AllFree(Tokens(path), '/')
  {
    forall i | 0 <= i < |path| ensures Free(Tokens(path)[i], '/') {
      EscapedIsSlashFree(path[i]);
    }
  }

  /** Decoding gives back every path. */
  lemma DecodeUndoesEncode(path: Path)
    ensures Decode(Encode(path)) == Some(path)
  {
    if path != [] {
      var tokens := Tokens(path);
      TokensAreSlashFree(path);
      JoinStep(tokens);
      SplitUndoesJoin(tokens);
      forall i | 0 <= i < |path| ensures Unescape(tokens[i]) == path[i] {
        UnescapeUndoesEscape(path[i]);
      }
      assert UnescapeAll(tokens) == path;
    }
  }

  lemma EncodeIsInjective(p: Path, q: Path)
    requires Encode(p) == Encode(q)
    ensures p == q
  {
    DecodeUndoesEncode(p);
    DecodeUndoesEncode(q);
  }

  /** Pushing a segment onto a path's pointer gives the longer path's pointer. */
  lemma PushEncodes(path: Path, segment: string)
    ensures Push(Encode(path), segment) == Encode(path + [segment])
  {
    var token := Escape(segment);
    assert Tokens(path + [segment]) == Tokens(path) + [token];
    JoinConcatenates(Tokens(path), [token]);
    assert Join([token]) == ['/'] + (token + Join([token][1..]));
    assert token + Join([token][1..]) == token;
  }

  /** One pointer starts with another and a slash exactly when its path strictly extends the other. */
  lemma PointersNestAsPathsDo(p: Path, q: Path)
    ensures Encode(p) + ['/'] <= Encode(q) <==> p < q
  {
    var a, b := Tokens(p), Tokens(q);
    if p < q {
      assert a < b;
      PrefixJoined(a, b);
    }
    if Encode(p) + ['/'] <= Encode(q) {
      TokensAreSlashFree(p);
      TokensAreSlashFree(q);
      JoinedPrefix(a, b);
      forall i | 0 <= i < |p| ensures p[i] == q[i] {
        assert a[i] == b[i];
        EscapeIsInjective(p[i], q[i]);
      }
    }
  }

  // ---- Following a pointer ----

  /** The position of a key, or the number of members. */
  function Find(members: seq<Member>, key: string): (i: nat)
    ensures i <= |members|
    ensures i < |members| ==> members[i].key == key
    ensures forall k :: 0 <= k < i ==> members[k].key != key
  {
    if members == [] || members[0].key == key then 0 else 1 + Find(members[1..], key)
  }

  /** One step down, by a key or by an array position. */
  function Child(v: Value, segment: string): Option<Value> {
    match v
    case Obj(members) =>
      var i := Find(members, segment);
      if i < |members| then Some(members[i].value) else None
    case Arr(items) =>
      (match ParseIndex(segment)
       case Some(i) => if i < |items| then Some(items[i]) else None
       case None => None)
    case _ => None
  }

  function Resolve(v: Value, path: Path): Option<Value> {
    if path == [] then Some(v)
    else
      match Child(v, path[0])
      case None => None
      case Some(child) => Resolve(child, path[1..])
  }

  /** Lookup by pointer text. */
  function Lookup(v: Value, pointer: string): Option<Value> {
    match Decode(pointer)
    case None => None
    case Some(path) => Resolve(v, path)
  }

  lemma LookupFollowsPath(v: Value, path: Path)
    ensures Lookup(v, Encode(path)) == Resolve(v, path)
  {
    DecodeUndoesEncode(path);
  }

  lemma {:induction false} ResolveConcatenates(v: Value, p: Path, q: Path)
    ensures Resolve(v, p + q) == match Resolve(v, p) case None => None case Some(w) => Resolve(w, q)
  {
    if p == [] {
      assert p + q == q;
    } else if Child(v, p[0]).Some? {
      ResolveConcatenates(Child(v, p[0]).value, p[1..], q);
      assert (p + q)[1..] == p[1..] + q;
    }
  }

  /** In a well-formed object each member is found under its own key. */
  lemma MemberIsFound(members: seq<Member>, i: nat)
    requires WellFormed(Obj(members)) && i < |members|
    ensures Child(Obj(members), members[i].key) == Some(members[i].value)
  {
    var k := Find(members, members[i].key);
    assert k <= i;
  }

  /** A segment leads to the member with that key, or to the item at the position it spells. */
  lemma ChildExactly(v: Value, segment: string, child: Value)
    requires WellFormed(v)
    ensures Child(v, segment) == Some(child) <==>
              || (v.Obj? && Member(segment, child) in v.members)
              || (v.Arr? && exists i: nat :: i < |v.items| && v.items[i] == child && segment == Decimal(i))
  {
    match v
    case Obj(members) =>
      if i :| 0 <= i < |members| && members[i] == Member(segment, child) { MemberIsFound(members, i); }
      if Child(v, segment) == Some(child) { assert members[Find(members, segment)] == Member(segment, child); }
    case Arr(items) =>
      forall i: nat ensures ParseIndex(segment) == Some(i) <==> segment == Decimal(i) { IndexesRoundTrip(segment, i); }
    case _ =>
  }
}
