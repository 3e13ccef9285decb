/**
 * Packing dependency groups into request bodies below the gateway's size cap: what is packed is
 * exactly what was planned, in order, and the real serialized body respects the budget.
 */
module BatchSplit {
  import opened BatchPlanner
  import opened BatchGroups
  import opened EscapeCodec
  import opened GatewaySchema
  import opened Wrappers

  const BATCH_ENVELOPE_OVERHEAD := 512

  // ---- The serialized body ----

  const QUOTE: byte := 34
  const COMMA: byte := 44
  const COLON: byte := 58
  const OPEN_BRACKET: byte := 91
  const CLOSE_BRACKET: byte := 93
  const OPEN_BRACE: byte := 123
  const CLOSE_BRACE: byte := 125

  /** The items of a JSON array, with commas between them. */
  function Joined(items: seq<Bytes>): Bytes {
    if |items| == 0 then []
    else if |items| == 1 then items[0]
    else Joined(items[..|items| - 1]) + [COMMA] + items[|items| - 1]
  }

  /** One object member; an empty array is skipped. */
  function Field(name: string, items: seq<Bytes>): seq<Bytes> {
    if items == [] then []
    else [[QUOTE] + Utf8Text(name) + [QUOTE, COLON, OPEN_BRACKET] + Joined(items) + [CLOSE_BRACKET]]
  }

  function UpstreamTexts(s: seq<Upstream>): seq<Bytes> { seq(|s|, (i: nat) requires i < |s| => s[i].json) }
  function ConsumerTexts(s: seq<Consumer>): seq<Bytes> { seq(|s|, (i: nat) requires i < |s| => s[i].json) }
  function ProxyTexts(s: seq<Proxy>): seq<Bytes> { seq(|s|, (i: nat) requires i < |s| => s[i].json) }
  function PluginTexts(s: seq<PluginConfig>): seq<Bytes> { seq(|s|, (i: nat) requires i < |s| => s[i].json) }

  /** The bytes of a request body. */
  function Serialize(batch: BatchCreate): Bytes {
    [OPEN_BRACE]
    + Joined(Field("upstreams", UpstreamTexts(batch.upstreams))
             + Field("consumers", ConsumerTexts(batch.consumers))
             + Field("proxies", ProxyTexts(batch.proxies))
             + Field("plugin_configs", PluginTexts(batch.pluginConfigs)))
    + [CLOSE_BRACE]
  }

  // ---- Its length ----

  function TotalLength(items: seq<Bytes>): nat {
    if items == [] then 0 else TotalLength(items[..|items| - 1]) + |items[|items| - 1]|
  }

  lemma {:induction false} LengthsAdd(a: seq<Bytes>, b: seq<Bytes>)
    ensures TotalLength(a + b) == TotalLength(a) + TotalLength(b)
  {
    if b == [] {
      assert a + b == a;
    } else {
      LengthsAdd(a, b[..|b| - 1]);
      assert (a + b)[..|a + b| - 1] == a + b[..|b| - 1];
    }
  }

  lemma {:induction false} JoinedLength(items: seq<Bytes>)
    ensures |Joined(items)| == TotalLength(items) + if items == [] then 0 else |items| - 1
  {
    if |items| > 1 {
      JoinedLength(items[..|items| - 1]);
    } else if |items| == 1 {
      assert items[..0] == [];
    }
  }

  /** What a member adds to the body: its name, punctuation and items, or nothing. */
  function MemberBytes(name: string, items: seq<Bytes>): nat {
    if items == [] then 0 else |Utf8Text(name)| + 5 + TotalLength(items) + |items|
  }

  function BodyBytes(batch: BatchCreate): nat {
    MemberBytes("upstreams", UpstreamTexts(batch.upstreams)) + MemberBytes("consumers", ConsumerTexts(batch.consumers))
    + MemberBytes("proxies", ProxyTexts(batch.proxies)) + MemberBytes("plugin_configs", PluginTexts(batch.pluginConfigs))
  }

  lemma FieldBytes(name: string, items: seq<Bytes>)
    ensures |Field(name, items)| == (if items == [] then 0 else 1)
    ensures TotalLength(Field(name, items)) + |Field(name, items)| == MemberBytes(name, items)
  {
    JoinedLength(items);
    if items != [] {
      var text: Bytes := [QUOTE] + Utf8Text(name) + [QUOTE, COLON, OPEN_BRACKET] + Joined(items) + [CLOSE_BRACKET];
      var one: seq<Bytes> := [text];
      assert one[..0] == [];
      assert |text| == 1 + |Utf8Text(name)| + 3 + |Joined(items)| + 1;
    }
  }

  lemma JoinedMembers(a: seq<Bytes>, b: seq<Bytes>, c: seq<Bytes>, d: seq<Bytes>)
    ensures
      var all := a + b + c + d;
      |Joined(all)| + (if all == [] then 0 else 1)
      == (TotalLength(a) + |a|) + (TotalLength(b) + |b|) + (TotalLength(c) + |c|) + (TotalLength(d) + |d|)
  {
    LengthsAdd(a + b + c, d);
    LengthsAdd(a + b, c);
    LengthsAdd(a, b);
    JoinedLength(a + b + c + d);
  }

  /** Every member carries one comma but the last. */
  lemma SerializedLength(batch: BatchCreate)
    ensures |Serialize(batch)| == 2 + if batch.IsEmpty() then 0 else BodyBytes(batch) - 1
  {
    var u, c := UpstreamTexts(batch.upstreams), ConsumerTexts(batch.consumers);
    var x, p := ProxyTexts(batch.proxies), PluginTexts(batch.pluginConfigs);
    FieldBytes("upstreams", u);
    FieldBytes("consumers", c);
    FieldBytes("proxies", x);
    FieldBytes("plugin_configs", p);
    JoinedMembers(Field("upstreams", u), Field("consumers", c), Field("proxies", x), Field("plugin_configs", p));
  }

  // ---- What the body says ----

  /** The parts one after another, with a comma between each two. */
  ghost predicate CommaBetween(parts: seq<Bytes>, bytes: Bytes)
    decreases |parts|
  {
    if |parts| == 0 then bytes == []
    else if |parts| == 1 then bytes == parts[0]
    else exists before :: CommaBetween(parts[..|parts| - 1], before) && bytes == before + [44] + parts[|parts| - 1]
  }

  lemma {:induction false} JoinedHasCommas(parts: seq<Bytes>)
    ensures CommaBetween(parts, Joined(parts))
  {
    if |parts| > 1 { JoinedHasCommas(parts[..|parts| - 1]); }
  }

  /** `"name":[` the items with commas between them, and `]`. */
  ghost predicate IsMember(name: string, items: seq<Bytes>, bytes: Bytes) {
    exists inner :: CommaBetween(items, inner) && bytes == [34] + Utf8Text(name) + [34, 58, 91] + inner + [93]
  }

  /** The member of an array that holds something, or nothing. */
  ghost predicate IsOptional(name: string, items: seq<Bytes>, member: seq<Bytes>) {
    if items == [] then member == [] else |member| == 1 && IsMember(name, items, member[0])
  }

  lemma FieldIsOptional(name: string, items: seq<Bytes>)
    ensures IsOptional(name, items, Field(name, items))
  {
    JoinedHasCommas(items);
  }

  ghost predicate Texts<R>(rows: seq<R>, json: R -> Bytes, texts: seq<Bytes>) {
    |texts| == |rows| && forall i :: 0 <= i < |rows| ==> texts[i] == json(rows[i])
  }

  ghost predicate IsList<R>(name: string, rows: seq<R>, json: R -> Bytes, member: seq<Bytes>) {
    exists texts :: Texts(rows, json, texts) && IsOptional(name, texts, member)
  }

  lemma ListIs<R>(name: string, rows: seq<R>, json: R -> Bytes, texts: seq<Bytes>)
    requires Texts(rows, json, texts)
    ensures IsList(name, rows, json, Field(name, texts))
  {
    FieldIsOptional(name, texts);
  }

  ghost predicate WritesUpstreams(batch: BatchCreate, member: seq<Bytes>) {
    IsList("upstreams", batch.upstreams, (r: Upstream) => r.json, member)
  }

  lemma UpstreamsAreWritten(batch: BatchCreate)
    ensures WritesUpstreams(batch, Field("upstreams", UpstreamTexts(batch.upstreams)))
  {
    ListIs("upstreams", batch.upstreams, (r: Upstream) => r.json, UpstreamTexts(batch.upstreams));
  }

  ghost predicate WritesConsumers(batch: BatchCreate, member: seq<Bytes>) {
    IsList("consumers", batch.consumers, (r: Consumer) => r.json, member)
  }

  lemma ConsumersAreWritten(batch: BatchCreate)
    ensures WritesConsumers(batch, Field("consumers", ConsumerTexts(batch.consumers)))
  {
    ListIs("consumers", batch.consumers, (r: Consumer) => r.json, ConsumerTexts(batch.consumers));
  }

  ghost predicate WritesProxies(batch: BatchCreate, member: seq<Bytes>) {
    IsList("proxies", batch.proxies, (r: Proxy) => r.json, member)
  }

  lemma ProxiesAreWritten(batch: BatchCreate)
    ensures WritesProxies(batch, Field("proxies", ProxyTexts(batch.proxies)))
  {
    ListIs("proxies", batch.proxies, (r: Proxy) => r.json, ProxyTexts(batch.proxies));
  }

  ghost predicate WritesPluginConfigs(batch: BatchCreate, member: seq<Bytes>) {
    IsList("plugin_configs", batch.pluginConfigs, (r: PluginConfig) => r.json, member)
  }

  lemma PluginConfigsAreWritten(batch: BatchCreate)
    ensures WritesPluginConfigs(batch, Field("plugin_configs", PluginTexts(batch.pluginConfigs)))
  {
    ListIs("plugin_configs", batch.pluginConfigs, (r: PluginConfig) => r.json, PluginTexts(batch.pluginConfigs));
  }

  /** In braces, with commas between, the arrays that hold something, each under its name and in this order. */
  ghost predicate IsBody(batch: BatchCreate, bytes: Bytes, u: seq<Bytes>, c: seq<Bytes>, x: seq<Bytes>, p: seq<Bytes>,
                         inner: Bytes)
  {
    && WritesUpstreams(batch, u) && WritesConsumers(batch, c) && WritesProxies(batch, x) && WritesPluginConfigs(batch, p)
    && CommaBetween(u + c + x + p, inner) && bytes == [123] + inner + [125]
  }

  /** The body of a request is JSON, and says each row as it is. */
  lemma SerializesExactly(batch: BatchCreate)
    returns (u: seq<Bytes>, c: seq<Bytes>, x: seq<Bytes>, p: seq<Bytes>, inner: Bytes)
    ensures IsBody(batch, Serialize(batch), u, c, x, p, inner)
  {
    u, c := Field("upstreams", UpstreamTexts(batch.upstreams)), Field("consumers", ConsumerTexts(batch.consumers));
    x, p := Field("proxies", ProxyTexts(batch.proxies)), Field("plugin_configs", PluginTexts(batch.pluginConfigs));
    UpstreamsAreWritten(batch);
    ConsumersAreWritten(batch);
    ProxiesAreWritten(batch);
    PluginConfigsAreWritten(batch);
    inner := Joined(u + c + x + p);
    JoinedHasCommas(u + c + x + p);
  }

  lemma MemberBytesAdd(name: string, a: seq<Bytes>, b: seq<Bytes>, both: seq<Bytes>)
    requires |both| == |a| + |b| && both[..|a|] == a && both[|a|..] == b
    ensures MemberBytes(name, both) <= MemberBytes(name, a) + MemberBytes(name, b)
  {
    assert both == a + b;
    LengthsAdd(a, b);
  }

  lemma TextsAdd(a: BatchCreate, b: BatchCreate)
    ensures
      var m := a.Extend(b);
      && MemberBytes("upstreams", UpstreamTexts(m.upstreams))
         <= MemberBytes("upstreams", UpstreamTexts(a.upstreams)) + MemberBytes("upstreams", UpstreamTexts(b.upstreams))
      && MemberBytes("consumers", ConsumerTexts(m.consumers))
         <= MemberBytes("consumers", ConsumerTexts(a.consumers)) + MemberBytes("consumers", ConsumerTexts(b.consumers))
  {
    var m := a.Extend(b);
    MemberBytesAdd("upstreams", UpstreamTexts(a.upstreams), UpstreamTexts(b.upstreams), UpstreamTexts(m.upstreams));
    MemberBytesAdd("consumers", ConsumerTexts(a.consumers), ConsumerTexts(b.consumers), ConsumerTexts(m.consumers));
  }

  lemma MoreTextsAdd(a: BatchCreate, b: BatchCreate)
    ensures
      var m := a.Extend(b);
      && MemberBytes("proxies", ProxyTexts(m.proxies))
         <= MemberBytes("proxies", ProxyTexts(a.proxies)) + MemberBytes("proxies", ProxyTexts(b.proxies))
      && MemberBytes("plugin_configs", PluginTexts(m.pluginConfigs))
         <= MemberBytes("plugin_configs", PluginTexts(a.pluginConfigs)) + MemberBytes("plugin_configs", PluginTexts(b.pluginConfigs))
  {
    var m := a.Extend(b);
    MemberBytesAdd("proxies", ProxyTexts(a.proxies), ProxyTexts(b.proxies), ProxyTexts(m.proxies));
    MemberBytesAdd("plugin_configs", PluginTexts(a.pluginConfigs), PluginTexts(b.pluginConfigs), PluginTexts(m.pluginConfigs));
  }

  lemma BodyBytesAdd(a: BatchCreate, b: BatchCreate)
    ensures BodyBytes(a.Extend(b)) <= BodyBytes(a) + BodyBytes(b)
  {
    TextsAdd(a, b);
    MoreTextsAdd(a, b);
  }

  lemma EmptyIsFree(batch: BatchCreate)
    ensures batch.IsEmpty() <==> BodyBytes(batch) == 0
  {}

  /** One merged body is never longer than the two bodies it replaces. */
  lemma MergedBodyIsShorter(a: BatchCreate, b: BatchCreate)
    ensures |Serialize(a.Extend(b))| <= |Serialize(a)| + |Serialize(b)|
  {
    SerializedLength(a);
    SerializedLength(b);
    SerializedLength(a.Extend(b));
    BodyBytesAdd(a, b);
    EmptyIsFree(a);
    EmptyIsFree(b);
    EmptyIsFree(a.Extend(b));
  }

  function BodySize(batch: BatchCreate): nat { |Serialize(batch)| }

  function SizeSum(groups: seq<BatchCreate>, size: BatchCreate -> nat): nat { Total(groups, size, |groups|) }

  lemma SizeSumOnto(run: seq<BatchCreate>, group: BatchCreate, size: BatchCreate -> nat)
    ensures SizeSum(run + [group], size) == SizeSum(run, size) + size(group)
  {
    TotalPrefix(run, [group], size, |run|);
  }

  lemma MergeOnto(groups: seq<BatchCreate>, g: BatchCreate)
    ensures MergeAll(groups + [g]) == MergeAll(groups).Extend(g)
  {
    MergePrefix(groups, [g], |groups|);
  }

  lemma {:induction false} MergedRunIsShorter(groups: seq<BatchCreate>)
    requires groups != []
    ensures |Serialize(MergeAll(groups))| <= SizeSum(groups, BodySize)
    decreases |groups|
  {
    var last := |groups| - 1;
    assert groups == groups[..last] + [groups[last]];
    MergeOnto(groups[..last], groups[last]);
    SizeSumOnto(groups[..last], groups[last], BodySize);
    if last == 0 {
      assert groups[..0] == [] && EMPTY.Extend(groups[0]) == groups[0];
    } else {
      MergedRunIsShorter(groups[..last]);
      MergedBodyIsShorter(MergeAll(groups[..last]), groups[last]);
    }
  }

  /** Merging puts the resources of each group after those of the groups before it. */
  lemma MergedInOrder(groups: seq<BatchCreate>, g: BatchCreate)
    ensures MergeAll([]) == BatchCreate([], [], [], [])
    ensures
      var before, after := MergeAll(groups), MergeAll(groups + [g]);
      && after.upstreams == before.upstreams + g.upstreams && after.consumers == before.consumers + g.consumers
      && after.proxies == before.proxies + g.proxies && after.pluginConfigs == before.pluginConfigs + g.pluginConfigs
  {
    MergeOnto(groups, g);
  }

  // ---- Packing ----

  function Budget(maxBytes: nat): nat {
    if maxBytes > BATCH_ENVELOPE_OVERHEAD then maxBytes - BATCH_ENVELOPE_OVERHEAD else 1
  }

  function Flattened(runs: seq<seq<BatchCreate>>): seq<BatchCreate> {
    if runs == [] then [] else Flattened(runs[..|runs| - 1]) + runs[|runs| - 1]
  }

  /**
   * Greedy packing, run by run: consecutive groups fit the budget unless there is just one, and
   * the run before was closed only because this run's first group did not fit it.
   */
  ghost predicate RunOk(runs: seq<seq<BatchCreate>>, k: nat, budget: nat, size: BatchCreate -> nat)
    requires k < |runs|
  {
    && runs[k] != []
    && (|runs[k]| >= 2 ==> SizeSum(runs[k], size) <= budget)
    && (k > 0 ==> SizeSum(runs[k - 1], size) + size(runs[k][0]) > budget)
  }

  ghost predicate PackedRuns(runs: seq<seq<BatchCreate>>, budget: nat, size: BatchCreate -> nat) {
    forall k :: 0 <= k < |runs| ==> RunOk(runs, k, budget, size)
  }

  /** Put the next group in the open (last) run if it fits, else in a run of its own. */
  function PlaceNext(runs: seq<seq<BatchCreate>>, group: BatchCreate, budget: nat, size: BatchCreate -> nat)
    : (placed: seq<seq<BatchCreate>>)
    ensures placed != []
  {
    var last := |runs| - 1;
    if runs == [] || SizeSum(runs[last], size) + size(group) > budget then runs + [[group]]
    else runs[last := runs[last] + [group]]
  }

  function PackFirst(groups: seq<BatchCreate>, upto: nat, budget: nat, size: BatchCreate -> nat)
    : (runs: seq<seq<BatchCreate>>)
    requires upto <= |groups|
    ensures runs == [] <==> upto == 0
  {
    if upto == 0 then [] else PlaceNext(PackFirst(groups, upto - 1, budget, size), groups[upto - 1], budget, size)
  }

  lemma PlacingKeepsOrder(runs: seq<seq<BatchCreate>>, group: BatchCreate, budget: nat, size: BatchCreate -> nat)
    ensures Flattened(PlaceNext(runs, group, budget, size)) == Flattened(runs) + [group]
  {
    var placed, last := PlaceNext(runs, group, budget, size), |runs| - 1;
    if |placed| == |runs| {
      assert placed[..last] == runs[..last];
      assert Flattened(runs[..last]) + (runs[last] + [group]) == Flattened(runs) + [group];
    } else {
      assert placed[..|runs|] == runs;
    }
  }

  lemma PlacingStaysPacked(runs: seq<seq<BatchCreate>>, group: BatchCreate, budget: nat, size: BatchCreate -> nat)
    requires PackedRuns(runs, budget, size)
    ensures PackedRuns(PlaceNext(runs, group, budget, size), budget, size)
  {
    var placed, last := PlaceNext(runs, group, budget, size), |runs| - 1;
    forall k | 0 <= k < |placed| ensures RunOk(placed, k, budget, size) {
      if k < |runs| { assert RunOk(runs, k, budget, size); }
      if k == last && |placed| == |runs| { SizeSumOnto(runs[last], group, size); }
    }
  }

  lemma {:induction false} PackingIsGreedy(groups: seq<BatchCreate>, upto: nat, budget: nat, size: BatchCreate -> nat)
    requires upto <= |groups|
    ensures PackedRuns(PackFirst(groups, upto, budget, size), budget, size)
    ensures Flattened(PackFirst(groups, upto, budget, size)) == groups[..upto]
    decreases upto
  {
    if upto > 0 {
      PackingIsGreedy(groups, upto - 1, budget, size);
      PlacingKeepsOrder(PackFirst(groups, upto - 1, budget, size), groups[upto - 1], budget, size);
      PlacingStaysPacked(PackFirst(groups, upto - 1, budget, size), groups[upto - 1], budget, size);
      assert groups[..upto] == groups[..upto - 1] + [groups[upto - 1]];
    }
  }

  /** `chunks` are the merged runs. */
  ghost predicate Merged(chunks: seq<BatchCreate>, runs: seq<seq<BatchCreate>>) {
    |chunks| == |runs| && forall k :: 0 <= k < |runs| ==> chunks[k] == MergeAll(runs[k])
  }

  /** The loop's chunks: every closed run merged, and the open run merged and measured. */
  ghost predicate Tracks(runs: seq<seq<BatchCreate>>, chunks: seq<BatchCreate>, current: BatchCreate, currentBytes: nat,
                         size: BatchCreate -> nat)
  {
    if runs == [] then chunks == [] && current == EMPTY && currentBytes == 0
    else
      var last := |runs| - 1;
      && Merged(chunks, runs[..last])
      && current == MergeAll(runs[last]) && currentBytes == SizeSum(runs[last], size) && !current.IsEmpty()
  }

  lemma LoneGroup(group: BatchCreate, size: BatchCreate -> nat)
    ensures MergeAll([group]) == EMPTY.Extend(group) && SizeSum([group], size) == size(group)
  {
    MergeOnto([], group);
    SizeSumOnto([], group, size);
    assert [] + [group] == [group];
  }

  lemma TrackOpened(runs: seq<seq<BatchCreate>>, chunks: seq<BatchCreate>, current: BatchCreate, currentBytes: nat,
                    group: BatchCreate, budget: nat, size: BatchCreate -> nat)
    requires Tracks(runs, chunks, current, currentBytes, size) && !group.IsEmpty()
    requires runs != [] && currentBytes + size(group) > budget
    ensures Tracks(PlaceNext(runs, group, budget, size), chunks + [current], EMPTY.Extend(group), size(group), size)
  {
    LoneGroup(group, size);
    assert (runs + [[group]])[..|runs|] == runs;
  }

  lemma TrackJoined(runs: seq<seq<BatchCreate>>, chunks: seq<BatchCreate>, current: BatchCreate, currentBytes: nat,
                    group: BatchCreate, budget: nat, size: BatchCreate -> nat)
    requires Tracks(runs, chunks, current, currentBytes, size) && !group.IsEmpty()
    requires runs == [] || currentBytes + size(group) <= budget
    ensures Tracks(PlaceNext(runs, group, budget, size), chunks, current.Extend(group), currentBytes + size(group), size)
  {
    var placed, last := PlaceNext(runs, group, budget, size), |runs| - 1;
    if runs == [] {
      LoneGroup(group, size);
      assert placed[..0] == [];
    } else {
      MergeOnto(runs[last], group);
      SizeSumOnto(runs[last], group, size);
      assert placed[..last] == runs[..last];
    }
  }

  lemma TrackClosed(runs: seq<seq<BatchCreate>>, chunks: seq<BatchCreate>, current: BatchCreate, currentBytes: nat,
                    size: BatchCreate -> nat)
    requires runs != [] && Tracks(runs, chunks, current, currentBytes, size)
    ensures Merged(chunks + [current], runs)
  {
    var last, closed := |runs| - 1, chunks + [current];
    forall k | 0 <= k < |runs| ensures closed[k] == MergeAll(runs[k]) {
      if k < last { assert runs[..last][k] == runs[k]; }
    }
  }

  /** The packing loop, for any measure of a group. */
  method Pack(groups: seq<BatchCreate>, budget: nat, size: BatchCreate -> nat) returns (chunks: seq<BatchCreate>)
    requires forall g :: g in groups ==> !g.IsEmpty()
    ensures Merged(chunks, PackFirst(groups, |groups|, budget, size))
  {
    chunks := [];
    var current := EMPTY;
    var currentBytes: nat := 0;
    for i := 0 to |groups|
      invariant Tracks(PackFirst(groups, i, budget, size), chunks, current, currentBytes, size)
    {
      var group := groups[i];
      ghost var runs := PackFirst(groups, i, budget, size);
      if !current.IsEmpty() && currentBytes + size(group) > budget {
        TrackOpened(runs, chunks, current, currentBytes, group, budget, size);
        chunks := chunks + [current];
        current, currentBytes := EMPTY, 0;
      } else {
        TrackJoined(runs, chunks, current, currentBytes, group, budget, size);
      }
      current := current.Extend(group);
      currentBytes := currentBytes + size(group);
    }
    if !current.IsEmpty() {
      TrackClosed(PackFirst(groups, |groups|, budget, size), chunks, current, currentBytes, size);
      chunks := chunks + [current];
    }
  }

  ghost predicate IsSplit(batch: BatchCreate, maxBytes: nat, chunks: seq<BatchCreate>) {
    var groups := DependencyGroups(batch);
    Merged(chunks, PackFirst(groups, |groups|, Budget(maxBytes), BodySize))
  }

  /**
   * The serializer may refuse a group, and then nothing is split. It is asked for the groups in
   * order, and for each of them unless one is refused.
   */
  method SplitBatch(batch: BatchCreate, maxBytes: nat, serializes: BatchCreate -> bool)
    returns (result: Result<seq<BatchCreate>, BatchCreate>)
    ensures result.Ok? <==> forall g :: g in DependencyGroups(batch) ==> serializes(g)
    ensures result.Ok? ==> IsSplit(batch, maxBytes, result.value)
    ensures result.Err? ==> result.error in DependencyGroups(batch) && !serializes(result.error)
  {
    var groups := BatchDependencyGroups(batch);
    for i := 0 to |groups|
      invariant forall k :: 0 <= k < i ==> serializes(groups[k])
    {
      if !serializes(groups[i]) {
        return Err(groups[i]);
      }
    }
    forall g | g in groups ensures !g.IsEmpty() { GroupsAreNonEmpty(batch, g); }
    var chunks := Pack(groups, Budget(maxBytes), BodySize);
    return Ok(chunks);
  }

  // ---- What a split promises ----

  /** The chunks are consecutive whole groups, merged run by run. */
  lemma RunsOf(batch: BatchCreate, maxBytes: nat, chunks: seq<BatchCreate>) returns (runs: seq<seq<BatchCreate>>)
    requires IsSplit(batch, maxBytes, chunks)
    ensures Merged(chunks, runs) && Flattened(runs) == DependencyGroups(batch)
    ensures PackedRuns(runs, Budget(maxBytes), BodySize)
  {
    var groups := DependencyGroups(batch);
    runs := PackFirst(groups, |groups|, Budget(maxBytes), BodySize);
    PackingIsGreedy(groups, |groups|, Budget(maxBytes), BodySize);
    assert groups[..|groups|] == groups;
  }

  /** What the run's groups would take as bodies of their own. */
  function BytesOf(run: seq<BatchCreate>): nat { Total(run, (g: BatchCreate) => |Serialize(g)|, |run|) }

  lemma {:induction false} SameTotal(run: seq<BatchCreate>, a: BatchCreate -> nat, b: BatchCreate -> nat, upto: nat)
    requires upto <= |run| && forall g :: a(g) == b(g)
    ensures Total(run, a, upto) == Total(run, b, upto)
    decreases upto
  {
    if upto > 0 { SameTotal(run, a, b, upto - 1); }
  }

  lemma BytesOfIsSizeSum(run: seq<BatchCreate>)
    ensures BytesOf(run) == SizeSum(run, BodySize)
  {
    SameTotal(run, (g: BatchCreate) => |Serialize(g)|, BodySize, |run|);
  }

  /**
   * A chunk of two or more groups stays 512 bytes below the cap, and the run before was closed only
   * because this run's first group would have passed that; a cap of 512 bytes or less leaves every
   * group on its own.
   */
  ghost predicate RunFits(chunks: seq<BatchCreate>, runs: seq<seq<BatchCreate>>, k: nat, maxBytes: nat)
    requires k < |runs| == |chunks|
  {
    && runs[k] != []
    && (|runs[k]| >= 2 ==> |Serialize(chunks[k])| + 512 <= BytesOf(runs[k]) + 512 <= maxBytes)
    && (k > 0 && maxBytes > 512 ==> BytesOf(runs[k - 1]) + |Serialize(runs[k][0])| + 512 > maxBytes)
    && (maxBytes <= 512 ==> |runs[k]| == 1)
  }

  lemma BodiesHaveBraces(batch: BatchCreate)
    ensures |Serialize(batch)| >= 2
  {}

  lemma {:induction false} AtLeastTwo(run: seq<BatchCreate>, size: BatchCreate -> nat, upto: nat)
    requires upto <= |run| && forall g :: size(g) >= 2
    ensures Total(run, size, upto) >= 2 * upto
    decreases upto
  {
    if upto > 0 { AtLeastTwo(run, size, upto - 1); }
  }

  lemma {:induction false} BytesOfMany(run: seq<BatchCreate>)
    ensures BytesOf(run) >= 2 * |run|
  {
    var size := (g: BatchCreate) => |Serialize(g)|;
    forall g ensures size(g) >= 2 { BodiesHaveBraces(g); }
    AtLeastTwo(run, size, |run|);
  }

  lemma FitsTheCap(chunks: seq<BatchCreate>, runs: seq<seq<BatchCreate>>, k: nat, maxBytes: nat)
    requires Merged(chunks, runs) && PackedRuns(runs, Budget(maxBytes), BodySize) && k < |runs|
    ensures RunFits(chunks, runs, k, maxBytes)
  {
    assert RunOk(runs, k, Budget(maxBytes), BodySize);
    BytesOfIsSizeSum(runs[k]);
    MergedRunIsShorter(runs[k]);
    BytesOfMany(runs[k]);
    if k > 0 { BytesOfIsSizeSum(runs[k - 1]); }
  }

  /** The chunks are consecutive whole groups, merged run by run, each of which fits the cap. */
  lemma ChunksAreWholeGroups(batch: BatchCreate, maxBytes: nat, chunks: seq<BatchCreate>)
    returns (runs: seq<seq<BatchCreate>>)
    requires IsSplit(batch, maxBytes, chunks)
    ensures Merged(chunks, runs) && Flattened(runs) == DependencyGroups(batch)
    ensures forall k :: 0 <= k < |runs| ==> RunFits(chunks, runs, k, maxBytes)
  {
    runs := RunsOf(batch, maxBytes, chunks);
    forall k | 0 <= k < |runs| ensures RunFits(chunks, runs, k, maxBytes) { FitsTheCap(chunks, runs, k, maxBytes); }
  }

  lemma CopiesAdd(a: BatchCreate, b: BatchCreate, r: Resource)
    ensures Copies(a.Extend(b), r) == Copies(a, r) + Copies(b, r)
  {}

  /** A measure that adds up when batches are merged. */
  ghost predicate Additive(measure: BatchCreate -> nat) {
    && measure(EMPTY) == 0
    && forall a: BatchCreate, b: BatchCreate {:trigger a.Extend(b)} :: measure(a.Extend(b)) == measure(a) + measure(b)
  }

  lemma {:induction false} MergedMeasure(run: seq<BatchCreate>, measure: BatchCreate -> nat, upto: nat)
    requires upto <= |run| && Additive(measure)
    ensures measure(MergeFirst(run, upto)) == Total(run, measure, upto)
    decreases upto
  {
    if upto > 0 { MergedMeasure(run, measure, upto - 1); }
  }

  lemma {:induction false} MergedRuns(chunks: seq<BatchCreate>, runs: seq<seq<BatchCreate>>,
                                      measure: BatchCreate -> nat, upto: nat)
    requires upto <= |runs| && Merged(chunks, runs) && Additive(measure)
    ensures
      var groups := Flattened(runs[..upto]);
      Total(chunks, measure, upto) == Total(groups, measure, |groups|)
    decreases upto
  {
    if upto > 0 {
      MergedRuns(chunks, runs, measure, upto - 1);
      assert runs[..upto][..upto - 1] == runs[..upto - 1];
      TotalConcat(Flattened(runs[..upto - 1]), runs[upto - 1], measure, |runs[upto - 1]|);
      MergedMeasure(runs[upto - 1], measure, |runs[upto - 1]|);
    }
  }

  /** Every resource is in the chunks exactly as often as the batch lists it. */
  lemma ChunksConserve(batch: BatchCreate, maxBytes: nat, chunks: seq<BatchCreate>, r: Resource)
    requires IsSplit(batch, maxBytes, chunks)
    ensures TotalCopies(chunks, r) == Copies(batch, r)
  {
    var runs := ChunksAreWholeGroups(batch, maxBytes, chunks);
    var measure := b => Copies(b, r);
    forall a: BatchCreate, b: BatchCreate ensures measure(a.Extend(b)) == measure(a) + measure(b) {
      CopiesAdd(a, b, r);
    }
    MergedRuns(chunks, runs, measure, |runs|);
    assert runs[..|runs|] == runs;
    GroupsConserve(batch, r);
  }

  lemma {:induction false} RunsHoldGroups(runs: seq<seq<BatchCreate>>, k: nat, i: nat)
    requires k < |runs| && i < |runs[k]|
    ensures runs[k][i] in Flattened(runs)
    decreases |runs|
  {
    if k < |runs| - 1 { RunsHoldGroups(runs[..|runs| - 1], k, i); }
  }

  lemma {:induction false} FirstIsKept(run: seq<BatchCreate>, upto: nat)
    requires 0 < upto <= |run| && !run[0].IsEmpty()
    ensures !MergeFirst(run, upto).IsEmpty()
    decreases upto
  {
    if upto > 1 { FirstIsKept(run, upto - 1); }
  }

  /** No chunk is empty. */
  lemma ChunksAreNonEmpty(batch: BatchCreate, maxBytes: nat, chunks: seq<BatchCreate>, k: nat)
    requires IsSplit(batch, maxBytes, chunks) && k < |chunks|
    ensures !chunks[k].IsEmpty()
  {
    var runs := RunsOf(batch, maxBytes, chunks);
    assert RunOk(runs, k, Budget(maxBytes), BodySize);
    RunsHoldGroups(runs, k, 0);
    GroupsAreNonEmpty(batch, runs[k][0]);
    FirstIsKept(runs[k], |runs[k]|);
  }
}
