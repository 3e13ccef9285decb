/**
 * The ledger's string keys: percent-encoding of their components, and what a key says about the
 * resource it names.
 */
module StateKeys {
  import opened Splitting
  import opened Wrappers

  datatype Kind = ProxyKind | ConsumerKind | UpstreamKind | PluginConfigKind

  /** A resource's full identity. */
  datatype RowId = RowId(namespace: string, kind: Kind, id: string)

  const STATE_KEY_PREFIX := "__gitforgeops_state_key_v2"

  function KindName(kind: Kind): string {
    match kind
    case ProxyKind => "Proxy"
    case ConsumerKind => "Consumer"
    case UpstreamKind => "Upstream"
    case PluginConfigKind => "PluginConfig"
  }

  predicate IsKindName(s: string) {
    s == "Proxy" || s == "Consumer" || s == "Upstream" || s == "PluginConfig"
  }

  function ReplaceChar(s: string, c: char, text: string): string {
    if s == "" then "" else (if s[0] == c then text else [s[0]]) + ReplaceChar(s[1..], c, text)
  }

  function EncodeComponent(value: string): string {
    ReplaceChar(ReplaceChar(value, '%', "%25"), ':', "%3A")
  }

  function DecodedEscape(first: char, second: char): string {
    if first == '2' && second == '5' then "%"
    else if first == '3' && (second == 'A' || second == 'a') then ":"
    else ['%', first, second]
  }

  /** Reads `%25` and `%3A`; any other escape is kept, together with the two characters after it. */
  function DecodeComponent(s: string): string {
    if s == "" then ""
    else if s[0] != '%' then [s[0]] + DecodeComponent(s[1..])
    else if |s| < 3 then s
    else DecodedEscape(s[1], s[2]) + DecodeComponent(s[3..])
  }

  lemma DecodeStep(s: string)
    requires s != ""
    ensures s[0] != '%' ==> DecodeComponent(s) == [s[0]] + DecodeComponent(s[1..])
    ensures s[0] == '%' && |s| < 3 ==> DecodeComponent(s) == s + DecodeComponent("")
    ensures s[0] == '%' && |s| >= 3 ==> DecodeComponent(s) == DecodedEscape(s[1], s[2]) + DecodeComponent(s[3..])
  {}

  /** Decoding goes on where one turn ends. */
  lemma DecodeAdvances(out: string, emitted: string, value: string, at: nat, next: nat)
    requires at < next <= |value|
    requires DecodeComponent(value[at..]) == emitted + DecodeComponent(value[at..][next - at..])
    ensures out + DecodeComponent(value[at..]) == (out + emitted) + DecodeComponent(value[next..])
  {
    assert value[at..][next - at..] == value[next..];
    Associates(out, emitted, DecodeComponent(value[next..]));
  }

  method DecodeStateKeyComponent(value: string) returns (out: string)
    ensures out == DecodeComponent(value)
  {
    out := "";
    var at := 0;
    while at < |value|
      invariant at <= |value|
      invariant DecodeComponent(value) == out + DecodeComponent(value[at..])
    {
      DecodeStep(value[at..]);
      if value[at] != '%' {
        DecodeAdvances(out, [value[at]], value, at, at + 1);
        out := out + [value[at]];
        at := at + 1;
      } else if at + 2 < |value| {
        DecodeAdvances(out, DecodedEscape(value[at + 1], value[at + 2]), value, at, at + 3);
        out := out + DecodedEscape(value[at + 1], value[at + 2]);
        at := at + 3;
      } else {
        assert value[at..][|value| - at..] == "";
        DecodeAdvances(out, value[at..], value, at, |value|);
        out := out + value[at..];
        at := |value|;
      }
    }
  }

  /** The text before the first colon and the text after it. */
  function SplitOnce(s: string): Option<(string, string)> {
    if s == "" then None
    else if s[0] == ':' then Some(("", s[1..]))
    else
      match SplitOnce(s[1..])
      case None => None
      case Some((head, tail)) => Some(([s[0]] + head, tail))
  }

  function StateKey(row: RowId): string {
    STATE_KEY_PREFIX + ":" + (EncodeComponent(row.namespace) + ":" + (KindName(row.kind) + ":" + EncodeComponent(row.id)))
  }

  /** The three parts after the prefix, if the key is well formed. */
  function ParseStateKey(key: string): Option<(string, string, string)> {
    var prefixed := SplitOnce(key);
    if prefixed.None? || prefixed.value.0 != STATE_KEY_PREFIX then None
    else
      var scoped := SplitOnce(prefixed.value.1);
      if scoped.None? then None
      else
        var named := SplitOnce(scoped.value.1);
        if named.None? then None
        else if scoped.value.0 != "" && named.value.1 != "" && IsKindName(named.value.0)
        then Some((scoped.value.0, named.value.0, named.value.1))
        else None
  }

  function StateKeyNamespace(key: string): Option<string> {
    match ParseStateKey(key)
    case None => None
    case Some((namespace, _, _)) => Some(DecodeComponent(namespace))
  }

  // ---- Encoding ----

  function EncodeChar(c: char): string {
    if c == '%' then "%25" else if c == ':' then "%3A" else [c]
  }

  lemma ReplaceCons(x: char, rest: string, c: char, text: string)
    ensures ReplaceChar([x] + rest, c, text) == (if x == c then text else [x]) + ReplaceChar(rest, c, text)
  {
    assert ([x] + rest)[1..] == rest;
  }

  lemma {:induction false} ReplaceConcat(a: string, b: string, c: char, text: string)
    ensures ReplaceChar(a + b, c, text) == ReplaceChar(a, c, text) + ReplaceChar(b, c, text)
  {
    if a == "" {
      assert a + b == b;
    } else {
      ReplaceConcat(a[1..], b, c, text);
      FirstThenRest(a, b);
      ReplaceCons(a[0], a[1..] + b, c, text);
      ReplaceCons(a[0], a[1..], c, text);
      Associates(if a[0] == c then text else [a[0]], ReplaceChar(a[1..], c, text), ReplaceChar(b, c, text));
    }
  }

  lemma ReplaceNothing(s: string, c: char, text: string)
    requires c !in s
    ensures ReplaceChar(s, c, text) == s
  {
    if s != "" { ReplaceNothing(s[1..], c, text); }
  }

  lemma EncodeStep(value: string)
    requires value != ""
    ensures EncodeComponent(value) == EncodeChar(value[0]) + EncodeComponent(value[1..])
  {
    var first := if value[0] == '%' then "%25" else [value[0]];
    ReplaceConcat(first, ReplaceChar(value[1..], '%', "%25"), ':', "%3A");
    if value[0] == ':' {
      assert ReplaceChar([':'], ':', "%3A") == "%3A" + ReplaceChar([':'][1..], ':', "%3A");
    } else {
      ReplaceNothing(first, ':', "%3A");
    }
  }

  /** Encoded components never hold the separator, and are empty only for the empty component. */
  lemma {:induction false} EncodedIsPlain(value: string)
    ensures ':' !in EncodeComponent(value)
    ensures EncodeComponent(value) == "" <==> value == ""
  {
    if value != "" {
      EncodeStep(value);
      EncodedIsPlain(value[1..]);
    }
  }

  lemma {:induction false} DecodeUndoesEncode(value: string)
    ensures DecodeComponent(EncodeComponent(value)) == value
  {
    if value != "" {
      EncodeStep(value);
      DecodeUndoesEncode(value[1..]);
      var rest := EncodeComponent(value[1..]);
      var encoded := EncodeChar(value[0]) + rest;
      if value[0] == '%' || value[0] == ':' {
        assert encoded[3..] == rest;
      } else {
        assert encoded[1..] == rest;
      }
    }
  }

  // ---- Keys ----

  lemma {:induction false} SplitAtColon(head: string, tail: string)
    requires ':' !in head
    ensures SplitOnce(head + ":" + tail) == Some((head, tail))
  {
    var s := head + ":" + tail;
    if head == "" {
      assert s[1..] == tail;
    } else {
      SplitAtColon(head[1..], tail);
      assert s[1..] == head[1..] + ":" + tail;
      assert [s[0]] + head[1..] == head;
    }
  }

  lemma PrefixIsPlain()
    ensures ':' !in STATE_KEY_PREFIX
  {}

  lemma KindIsPlain(kind: Kind)
    ensures ':' !in KindName(kind) && IsKindName(KindName(kind))
  {}

  lemma KeyParts(row: RowId)
    ensures
      var named := KindName(row.kind) + ":" + EncodeComponent(row.id);
      var scoped := EncodeComponent(row.namespace) + ":" + named;
      && SplitOnce(StateKey(row)) == Some((STATE_KEY_PREFIX, scoped))
      && SplitOnce(scoped) == Some((EncodeComponent(row.namespace), named))
      && SplitOnce(named) == Some((KindName(row.kind), EncodeComponent(row.id)))
  {
    EncodedIsPlain(row.namespace);
    PrefixIsPlain();
    KindIsPlain(row.kind);
    var named := KindName(row.kind) + ":" + EncodeComponent(row.id);
    SplitAtColon(KindName(row.kind), EncodeComponent(row.id));
    SplitAtColon(EncodeComponent(row.namespace), named);
    SplitAtColon(STATE_KEY_PREFIX, EncodeComponent(row.namespace) + ":" + named);
  }

  /** A key gives back its row's namespace, unless the row has an empty namespace or id. */
  lemma KeyNamespace(row: RowId)
    ensures StateKeyNamespace(StateKey(row))
         == if row.namespace == "" || row.id == "" then None else Some(row.namespace)
  {
    KeyParts(row);
    KindIsPlain(row.kind);
    EncodedIsPlain(row.namespace);
    EncodedIsPlain(row.id);
    DecodeUndoesEncode(row.namespace);
  }

  lemma KindNamesDiffer(a: Kind, b: Kind)
    requires KindName(a) == KindName(b)
    ensures a == b
  {
    assert KindName(ProxyKind)[1] == 'r' && KindName(ConsumerKind)[1] == 'o';
    assert KindName(UpstreamKind)[1] == 'p' && KindName(PluginConfigKind)[1] == 'l';
  }

  /** No two rows share a key: a key in the ledger names exactly one row. */
  lemma KeysAreInjective(a: RowId, b: RowId)
    requires StateKey(a) == StateKey(b)
    ensures a == b
  {
    KeyParts(a);
    KeyParts(b);
    KindNamesDiffer(a.kind, b.kind);
    DecodeUndoesEncode(a.namespace);
    DecodeUndoesEncode(b.namespace);
    DecodeUndoesEncode(a.id);
    DecodeUndoesEncode(b.id);
  }

  /** A key, spelled out for names that hold no percent sign and no colon; these are written `%25` and `%3A`. */
  lemma KeyIsSpelled(row: RowId)
    requires '%' !in row.namespace && ':' !in row.namespace && '%' !in row.id && ':' !in row.id
    ensures StateKey(row)
            == "__gitforgeops_state_key_v2" + ":"
               + (row.namespace + ":"
                  + ((match row.kind
                      case ProxyKind => "Proxy"
                      case ConsumerKind => "Consumer"
                      case UpstreamKind => "Upstream"
                      case PluginConfigKind => "PluginConfig")
                     + ":" + row.id))
    ensures forall c: char :: EncodeComponent([c]) == if c == '%' then "%25" else if c == ':' then "%3A" else [c]
  {
    ReplaceNothing(row.namespace, '%', "%25");
    ReplaceNothing(row.namespace, ':', "%3A");
    ReplaceNothing(row.id, '%', "%25");
    ReplaceNothing(row.id, ':', "%3A");
    forall c: char ensures EncodeComponent([c]) == EncodeChar(c) {
      EncodeStep([c]);
      assert [c][1..] == "" && EncodeComponent("") == "";
    }
  }

  // ---- What is read, exactly ----

  /** `%25` is a percent sign, `%3A` in either case a colon; anything else stands as it is written. */
  lemma DecodesForms(first: char, second: char, rest: string)
    ensures DecodeComponent("%25" + rest) == "%" + DecodeComponent(rest)
    ensures DecodeComponent("%3A" + rest) == ":" + DecodeComponent(rest)
    ensures DecodeComponent("%3a" + rest) == ":" + DecodeComponent(rest)
    ensures [first, second] !in ["25", "3A", "3a"] ==>
              DecodeComponent(['%', first, second] + rest) == ['%', first, second] + DecodeComponent(rest)
    ensures first != '%' ==> DecodeComponent([first] + rest) == [first] + DecodeComponent(rest)
    ensures DecodeComponent("%") == "%" && DecodeComponent(['%', first]) == ['%', first]
  {
    assert ("%25" + rest)[3..] == rest && ("%3A" + rest)[3..] == rest && ("%3a" + rest)[3..] == rest;
    assert (['%', first, second] + rest)[3..] == rest && ([first] + rest)[1..] == rest;
    assert [first, second] == "25" || first != '2' || second != '5';
    assert [first, second] == "3A" || first != '3' || second != 'A';
    assert [first, second] == "3a" || first != '3' || second != 'a';
  }

  lemma {:induction false} SplitExactly(s: string, head: string, tail: string)
    ensures SplitOnce(s) == Some((head, tail)) <==> s == head + ":" + tail && ':' !in head
  {
    if s == head + ":" + tail && ':' !in head { SplitAtColon(head, tail); }
    if SplitOnce(s) == Some((head, tail)) && head != "" {
      SplitExactly(s[1..], head[1..], tail);
      assert s == [s[0]] + (head[1..] + ":" + tail) == head + ":" + tail;
    }
  }

  /** `key` is the prefix, a scope, the name of a kind and an id, with colons between, and none of them is empty. */
  ghost predicate Scopes(key: string, scope: string, kind: string, id: string) {
    && key == "__gitforgeops_state_key_v2" + ":" + (scope + ":" + (kind + ":" + id))
    && ':' !in scope && scope != "" && id != ""
    && kind in ["Proxy", "Consumer", "Upstream", "PluginConfig"]
  }

  lemma KindNamesArePlain(kind: string)
    requires kind in ["Proxy", "Consumer", "Upstream", "PluginConfig"]
    ensures ':' !in kind && IsKindName(kind)
  {}

  lemma ParsesExactly(key: string, scope: string, kind: string, id: string)
    ensures ParseStateKey(key) == Some((scope, kind, id)) <==> Scopes(key, scope, kind, id)
  {
    var named := kind + ":" + id;
    var scoped := scope + ":" + named;
    SplitExactly(key, STATE_KEY_PREFIX, scoped);
    SplitExactly(scoped, scope, named);
    SplitExactly(named, kind, id);
    PrefixIsPlain();
    if ParseStateKey(key) == Some((scope, kind, id)) {
      var rest := SplitOnce(key).value.1;
      SplitExactly(key, STATE_KEY_PREFIX, rest);
      SplitExactly(rest, scope, SplitOnce(rest).value.1);
      SplitExactly(SplitOnce(rest).value.1, kind, id);
    }
    if Scopes(key, scope, kind, id) { KindNamesArePlain(kind); }
  }

  /** A key has a namespace exactly when it is well formed, and then it is the decoded scope. */
  lemma NamespaceExactly(key: string, namespace: string)
    ensures StateKeyNamespace(key) == Some(namespace)
            <==> exists scope, kind, id :: Scopes(key, scope, kind, id) && DecodeComponent(scope) == namespace
  {
    forall scope, kind, id ensures ParseStateKey(key) == Some((scope, kind, id)) <==> Scopes(key, scope, kind, id) {
      ParsesExactly(key, scope, kind, id);
    }
    if StateKeyNamespace(key) == Some(namespace) {
      var (scope, kind, id) := ParseStateKey(key).value;
      assert Scopes(key, scope, kind, id);
    }
  }
}
