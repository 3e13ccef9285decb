/**
 * Planning of `POST /batch` creates: the dependency groups that must stay in one request.
 */
module BatchPlanner {
  import opened GatewaySchema
  import opened Wrappers
  import opened Ordering
  import opened UnionFind

  function Append<T>(a: seq<T>, b: seq<T>): (c: seq<T>)
    ensures c == a + b
  {
    if a == [] then b else if b == [] then a else a + b
  }

  datatype BatchCreate = BatchCreate(
    upstreams: seq<Upstream>, consumers: seq<Consumer>, proxies: seq<Proxy>, pluginConfigs: seq<PluginConfig>)
  {
    predicate IsEmpty() {
      upstreams == [] && consumers == [] && proxies == [] && pluginConfigs == []
    }

    function Extend(more: BatchCreate): BatchCreate {
      BatchCreate(Append(upstreams, more.upstreams), Append(consumers, more.consumers),
                  Append(proxies, more.proxies), Append(pluginConfigs, more.pluginConfigs))
    }
  }

  const EMPTY := BatchCreate([], [], [], [])

  // ---- What planning promises: components of the proxy/plugin relation ----

  datatype Node = PluginNode(plugin: PluginConfig) | ProxyNode(proxy: Proxy)

  /** The create of one needs the other: an association, or a proxy-scoped plugin's proxy. */
  predicate Related(plugin: PluginConfig, proxy: Proxy) {
    && plugin.namespace == proxy.namespace
    && (plugin.id in proxy.plugins || (plugin.scope.ProxyScope? && plugin.proxyId == Some(proxy.id)))
  }

  predicate RelatedNodes(u: Node, v: Node) {
    || (u.PluginNode? && v.ProxyNode? && Related(u.plugin, v.proxy))
    || (u.ProxyNode? && v.PluginNode? && Related(v.plugin, u.proxy))
  }

  predicate Holds(batch: BatchCreate, u: Node) {
    match u
    case PluginNode(plugin) => plugin in batch.pluginConfigs
    case ProxyNode(proxy) => proxy in batch.proxies
  }

  ghost predicate IsChain(batch: BatchCreate, chain: seq<Node>, u: Node, v: Node) {
    && chain != [] && chain[0] == u && chain[|chain| - 1] == v
    && (forall k :: 0 <= k < |chain| ==> Holds(batch, chain[k]))
    && (forall k :: 0 <= k < |chain| - 1 ==> RelatedNodes(chain[k], chain[k + 1]))
  }

  ghost predicate Linked(batch: BatchCreate, u: Node, v: Node) {
    exists chain :: IsChain(batch, chain, u, v)
  }

  ghost predicate TogetherIn(groups: seq<BatchCreate>, u: Node, v: Node) {
    exists g :: 0 <= g < |groups| && Holds(groups[g], u) && Holds(groups[g], v)
  }

  function PluginKey(p: PluginConfig): Key { (p.namespace, p.id) }
  function ProxyKey(x: Proxy): Key { (x.namespace, x.id) }
  function UpstreamKey(u: Upstream): Key { (u.namespace, u.id) }
  function ConsumerKey(c: Consumer): Key { (c.namespace, c.id) }

  /** No resource is listed twice, and no two of one kind share a namespace and id. */
  ghost predicate UniqueKeys(batch: BatchCreate) {
    && (forall p :: p in batch.pluginConfigs ==> multiset(batch.pluginConfigs)[p] == 1)
    && (forall p, q :: p in batch.pluginConfigs && q in batch.pluginConfigs && PluginKey(p) == PluginKey(q) ==> p == q)
    && (forall x :: x in batch.proxies ==> multiset(batch.proxies)[x] == 1)
    && (forall x, y :: x in batch.proxies && y in batch.proxies && ProxyKey(x) == ProxyKey(y) ==> x == y)
    && (forall u, v :: u in batch.upstreams && v in batch.upstreams && UpstreamKey(u) == UpstreamKey(v) ==> u == v)
    && (forall c, d :: c in batch.consumers && d in batch.consumers && ConsumerKey(c) == ConsumerKey(d) ==> c == d)
  }

  // ---- The plan as a function of the batch ----

  predicate PluginLe(a: PluginConfig, b: PluginConfig) { KeyLe(PluginKey(a), PluginKey(b)) }
  predicate ProxyLe(a: Proxy, b: Proxy) { KeyLe(ProxyKey(a), ProxyKey(b)) }
  predicate UpstreamLe(a: Upstream, b: Upstream) { KeyLe(UpstreamKey(a), UpstreamKey(b)) }
  predicate ConsumerLe(a: Consumer, b: Consumer) { KeyLe(ConsumerKey(a), ConsumerKey(b)) }

  function Sorted(batch: BatchCreate): BatchCreate {
    BatchCreate(StableSort(batch.upstreams, UpstreamLe), StableSort(batch.consumers, ConsumerLe),
                StableSort(batch.proxies, ProxyLe), StableSort(batch.pluginConfigs, PluginLe))
  }

  /** The index of each plugin config by key; of two with one key the later wins. */
  function PluginIndex(plugins: seq<PluginConfig>): map<Key, nat>
  {
    if plugins == [] then map[]
    else
      var last := |plugins| - 1;
      PluginIndex(plugins[..last])[PluginKey(plugins[last]) := last]
  }

  function ProxyIndex(proxies: seq<Proxy>): map<Key, nat>
  {
    if proxies == [] then map[]
    else
      var last := |proxies| - 1;
      ProxyIndex(proxies[..last])[ProxyKey(proxies[last]) := last]
  }

  lemma {:induction false} PluginIndexSpec(plugins: seq<PluginConfig>)
    ensures
      var index := PluginIndex(plugins);
      && (forall k :: k in index ==> index[k] < |plugins| && PluginKey(plugins[index[k]]) == k)
      && (forall i :: 0 <= i < |plugins| ==> PluginKey(plugins[i]) in index)
  {
    if plugins != [] { PluginIndexSpec(plugins[..|plugins| - 1]); }
  }

  lemma {:induction false} ProxyIndexSpec(proxies: seq<Proxy>)
    ensures
      var index := ProxyIndex(proxies);
      && (forall k :: k in index ==> index[k] < |proxies| && ProxyKey(proxies[index[k]]) == k)
      && (forall i :: 0 <= i < |proxies| ==> ProxyKey(proxies[i]) in index)
  {
    if proxies != [] { ProxyIndexSpec(proxies[..|proxies| - 1]); }
  }

  /** Joins for the first `upto` associations of the proxy numbered `node`. */
  function ProxyEdges(proxy: Proxy, node: nat, index: map<Key, nat>, upto: nat): seq<Edge>
    requires upto <= |proxy.plugins|
  {
    if upto == 0 then []
    else
      var key := (proxy.namespace, proxy.plugins[upto - 1]);
      var before := ProxyEdges(proxy, node, index, upto - 1);
      if key in index then before + [(index[key], node)] else before
  }

  function AssociationEdges(batch: BatchCreate, upto: nat): seq<Edge>
    requires upto <= |batch.proxies|
  {
    if upto == 0 then []
    else
      var proxy := batch.proxies[upto - 1];
      AssociationEdges(batch, upto - 1)
      + ProxyEdges(proxy, |batch.pluginConfigs| + (upto - 1), PluginIndex(batch.pluginConfigs), |proxy.plugins|)
  }

  /** The join for one proxy-scoped plugin config, if its proxy is in the batch. */
  function ScopeEdge(batch: BatchCreate, i: nat): seq<Edge>
    requires i < |batch.pluginConfigs|
  {
    var plugin := batch.pluginConfigs[i];
    var index := ProxyIndex(batch.proxies);
    if plugin.scope.ProxyScope? && plugin.proxyId.Some? && (plugin.namespace, plugin.proxyId.value) in index
    then [(i, |batch.pluginConfigs| + index[(plugin.namespace, plugin.proxyId.value)])]
    else []
  }

  /** Every association's join, then those of the first `upto` plugin configs' scopes. */
  function ScopeEdges(batch: BatchCreate, upto: nat): seq<Edge>
    requires upto <= |batch.pluginConfigs|
  {
    if upto == 0 then AssociationEdges(batch, |batch.proxies|)
    else ScopeEdges(batch, upto - 1) + ScopeEdge(batch, upto - 1)
  }

  function Size(batch: BatchCreate): nat { |batch.pluginConfigs| + |batch.proxies| }

  function Edges(batch: BatchCreate): seq<Edge> {
    ScopeEdges(batch, |batch.pluginConfigs|)
  }

  lemma {:induction false} ProxyEdgesSpec(proxy: Proxy, node: nat, index: map<Key, nat>, upto: nat, e: Edge)
    requires upto <= |proxy.plugins|
    ensures e in ProxyEdges(proxy, node, index, upto) <==>
      exists a :: 0 <= a < upto && (proxy.namespace, proxy.plugins[a]) in index
        && e == (index[(proxy.namespace, proxy.plugins[a])], node)
  {
    if upto > 0 { ProxyEdgesSpec(proxy, node, index, upto - 1, e); }
  }

  ghost predicate IsAssociationEdge(batch: BatchCreate, x: nat, e: Edge)
    requires x < |batch.proxies|
  {
    var proxy := batch.proxies[x];
    var index := PluginIndex(batch.pluginConfigs);
    exists a :: 0 <= a < |proxy.plugins| && (proxy.namespace, proxy.plugins[a]) in index
      && e == (index[(proxy.namespace, proxy.plugins[a])], |batch.pluginConfigs| + x)
  }

  lemma {:induction false} AssociationEdgesSpec(batch: BatchCreate, upto: nat, e: Edge)
    requires upto <= |batch.proxies|
    ensures e in AssociationEdges(batch, upto) <==> exists x :: 0 <= x < upto && IsAssociationEdge(batch, x, e)
  {
    if upto > 0 {
      AssociationEdgesSpec(batch, upto - 1, e);
      var proxy, index := batch.proxies[upto - 1], PluginIndex(batch.pluginConfigs);
      ProxyEdgesSpec(proxy, |batch.pluginConfigs| + (upto - 1), index, |proxy.plugins|, e);
      assert e in ProxyEdges(proxy, |batch.pluginConfigs| + (upto - 1), index, |proxy.plugins|)
        <==> IsAssociationEdge(batch, upto - 1, e);
      if x :| 0 <= x < upto && IsAssociationEdge(batch, x, e) {
        assert x == upto - 1 || x < upto - 1;
      }
    }
  }

  lemma {:induction false} ScopeEdgesSpec(batch: BatchCreate, upto: nat, e: Edge)
    requires upto <= |batch.pluginConfigs|
    ensures e in ScopeEdges(batch, upto) <==>
      e in AssociationEdges(batch, |batch.proxies|) || exists i :: 0 <= i < upto && e in ScopeEdge(batch, i)
  {
    if upto > 0 { ScopeEdgesSpec(batch, upto - 1, e); }
  }

  lemma {:induction false} EdgesInRange(batch: BatchCreate)
    ensures InRange(Size(batch), Edges(batch))
  {
    PluginIndexSpec(batch.pluginConfigs);
    ProxyIndexSpec(batch.proxies);
    forall k | 0 <= k < |Edges(batch)|
      ensures Edges(batch)[k].0 < Size(batch) && Edges(batch)[k].1 < Size(batch)
    {
      var e := Edges(batch)[k];
      AssociationEdgesSpec(batch, |batch.proxies|, e);
      ScopeEdgesSpec(batch, |batch.pluginConfigs|, e);
    }
  }

  /** The component label of every plugin config, then every proxy. */
  function ComponentLabels(batch: BatchCreate): (labels: seq<nat>)
    ensures |labels| == Size(batch)
  {
    EdgesInRange(batch);
    Labels(Size(batch), Edges(batch))
  }

  /** Those of the first `upto` items, numbered from `first`, whose label is `root`, in order. */
  function Labelled<T>(items: seq<T>, first: nat, labels: seq<nat>, root: nat, upto: nat): seq<T>
    requires upto <= |items| && first + |items| <= |labels|
  {
    if upto == 0 then []
    else
      var before := Labelled(items, first, labels, root, upto - 1);
      if labels[first + (upto - 1)] == root then before + [items[upto - 1]] else before
  }

  /** The component named `root`, of the first `i` plugin configs and `x` proxies. */
  function Filed(batch: BatchCreate, labels: seq<nat>, root: nat, i: nat, x: nat): BatchCreate
    requires |labels| == Size(batch) && i <= |batch.pluginConfigs| && x <= |batch.proxies|
  {
    BatchCreate([], [], Labelled(batch.proxies, |batch.pluginConfigs|, labels, root, x),
                Labelled(batch.pluginConfigs, 0, labels, root, i))
  }

  function Component(batch: BatchCreate, labels: seq<nat>, root: nat): BatchCreate
    requires |labels| == Size(batch)
  {
    Filed(batch, labels, root, |batch.pluginConfigs|, |batch.proxies|)
  }

  /** The non-empty components whose root is below `upto`, by ascending root. */
  function ComponentsBelow(batch: BatchCreate, labels: seq<nat>, upto: nat): seq<BatchCreate>
    requires |labels| == Size(batch)
  {
    if upto == 0 then []
    else
      var below, component := ComponentsBelow(batch, labels, upto - 1), Component(batch, labels, upto - 1);
      if component == EMPTY then below else below + [component]
  }

  function UpstreamGroups(upstreams: seq<Upstream>): (groups: seq<BatchCreate>)
    ensures |groups| == |upstreams|
    ensures forall i :: 0 <= i < |groups| ==> groups[i] == EMPTY.(upstreams := [upstreams[i]])
  {
    seq(|upstreams|, (i: nat) requires i < |upstreams| => EMPTY.(upstreams := [upstreams[i]]))
  }

  function ConsumerGroups(consumers: seq<Consumer>): (groups: seq<BatchCreate>)
    ensures |groups| == |consumers|
    ensures forall i :: 0 <= i < |groups| ==> groups[i] == EMPTY.(consumers := [consumers[i]])
  {
    seq(|consumers|, (i: nat) requires i < |consumers| => EMPTY.(consumers := [consumers[i]]))
  }

  function DependencyGroups(batch: BatchCreate): seq<BatchCreate> {
    var sorted := Sorted(batch);
    UpstreamGroups(sorted.upstreams) + ConsumerGroups(sorted.consumers)
    + ComponentsBelow(sorted, ComponentLabels(sorted), Size(sorted))
  }

  // ---- The planner itself ----

  function EntryAt(connected: map<nat, BatchCreate>, root: nat): BatchCreate {
    if root in connected then connected[root] else EMPTY
  }

  ghost predicate FiledAt(connected: map<nat, BatchCreate>, batch: BatchCreate, labels: seq<nat>,
                          i: nat, x: nat, root: nat)
    requires |labels| == Size(batch) && i <= |batch.pluginConfigs| && x <= |batch.proxies|
  {
    EntryAt(connected, root) == Filed(batch, labels, root, i, x) && (root in connected <==> EntryAt(connected, root) != EMPTY)
  }

  /** The component map after the first `i` plugin configs and `x` proxies were filed. */
  ghost predicate IsFiled(connected: map<nat, BatchCreate>, batch: BatchCreate, labels: seq<nat>, i: nat, x: nat)
    requires |labels| == Size(batch) && i <= |batch.pluginConfigs| && x <= |batch.proxies|
  {
    forall r :: FiledAt(connected, batch, labels, i, x, r)
  }

  lemma FilePlugin(connected: map<nat, BatchCreate>, batch: BatchCreate, labels: seq<nat>, i: nat)
    requires |labels| == Size(batch) && i < |batch.pluginConfigs|
    requires IsFiled(connected, batch, labels, i, 0)
    ensures
      var entry := EntryAt(connected, labels[i]);
      IsFiled(connected[labels[i] := entry.(pluginConfigs := entry.pluginConfigs + [batch.pluginConfigs[i]])],
              batch, labels, i + 1, 0)
  {
    var entry := EntryAt(connected, labels[i]);
    var after := connected[labels[i] := entry.(pluginConfigs := entry.pluginConfigs + [batch.pluginConfigs[i]])];
    var next := i + 1;
    forall r ensures FiledAt(after, batch, labels, next, 0, r) {
      assert FiledAt(connected, batch, labels, i, 0, r);
    }
  }

  method FilePlugins(batch: BatchCreate, parents: array<nat>, ghost labels: seq<nat>, ghost rank: seq<nat>)
    returns (connected: map<nat, BatchCreate>)
    requires parents.Length == |labels| == Size(batch) && Forest(parents[..], labels, rank)
    modifies parents
    ensures Forest(parents[..], labels, rank) && IsFiled(connected, batch, labels, |batch.pluginConfigs|, 0)
  {
    connected := map[];
    for i := 0 to |batch.pluginConfigs|
      invariant Forest(parents[..], labels, rank) && IsFiled(connected, batch, labels, i, 0)
    {
      var root := Root(parents, i, labels, rank);
      FilePlugin(connected, batch, labels, i);
      var entry := EntryAt(connected, root);
      connected := connected[root := entry.(pluginConfigs := entry.pluginConfigs + [batch.pluginConfigs[i]])];
    }
  }

  lemma FileProxy(connected: map<nat, BatchCreate>, batch: BatchCreate, labels: seq<nat>, x: nat)
    requires |labels| == Size(batch) && x < |batch.proxies|
    requires IsFiled(connected, batch, labels, |batch.pluginConfigs|, x)
    ensures
      var root := labels[|batch.pluginConfigs| + x];
      var entry := EntryAt(connected, root);
      IsFiled(connected[root := entry.(proxies := entry.proxies + [batch.proxies[x]])],
              batch, labels, |batch.pluginConfigs|, x + 1)
  {
    var p := |batch.pluginConfigs|;
    var entry := EntryAt(connected, labels[p + x]);
    var after := connected[labels[p + x] := entry.(proxies := entry.proxies + [batch.proxies[x]])];
    var next := x + 1;
    forall r ensures FiledAt(after, batch, labels, p, next, r) {
      assert FiledAt(connected, batch, labels, p, x, r);
    }
  }

  method FileProxies(batch: BatchCreate, parents: array<nat>, filed: map<nat, BatchCreate>,
                     ghost labels: seq<nat>, ghost rank: seq<nat>)
    returns (connected: map<nat, BatchCreate>)
    requires parents.Length == |labels| == Size(batch) && Forest(parents[..], labels, rank)
    requires IsFiled(filed, batch, labels, |batch.pluginConfigs|, 0)
    modifies parents
    ensures IsFiled(connected, batch, labels, |batch.pluginConfigs|, |batch.proxies|)
  {
    connected := filed;
    for x := 0 to |batch.proxies|
      invariant Forest(parents[..], labels, rank) && IsFiled(connected, batch, labels, |batch.pluginConfigs|, x)
    {
      var root := Root(parents, |batch.pluginConfigs| + x, labels, rank);
      FileProxy(connected, batch, labels, x);
      var entry := EntryAt(connected, root);
      connected := connected[root := entry.(proxies := entry.proxies + [batch.proxies[x]])];
    }
  }

  method JoinNext(parents: array<nat>, a: nat, b: nat, ghost joined: seq<Edge>, ghost rank: seq<nat>)
    returns (ghost rank': seq<nat>)
    requires InRange(parents.Length, joined) && a < parents.Length && b < parents.Length
    requires Forest(parents[..], Labels(parents.Length, joined), rank)
    modifies parents
    ensures InRange(parents.Length, joined + [(a, b)])
    ensures Forest(parents[..], Labels(parents.Length, joined + [(a, b)]), rank')
  {
    rank' := Join(parents, a, b, Labels(parents.Length, joined), rank);
    assert (joined + [(a, b)])[..|joined|] == joined;
  }

  method JoinAssociations(batch: BatchCreate, x: nat, parents: array<nat>, plugins: map<Key, nat>,
                          ghost joined: seq<Edge>, ghost rank: seq<nat>)
    returns (ghost joined': seq<Edge>, ghost rank': seq<nat>)
    requires x < |batch.proxies| && parents.Length == Size(batch) && plugins == PluginIndex(batch.pluginConfigs)
    requires forall k :: k in plugins ==> plugins[k] < parents.Length
    requires joined == AssociationEdges(batch, x) && InRange(parents.Length, joined)
    requires Forest(parents[..], Labels(parents.Length, joined), rank)
    modifies parents
    ensures joined' == AssociationEdges(batch, x + 1) && InRange(parents.Length, joined')
    ensures Forest(parents[..], Labels(parents.Length, joined'), rank')
  {
    joined', rank' := joined, rank;
    var proxy, node := batch.proxies[x], |batch.pluginConfigs| + x;
    for a := 0 to |proxy.plugins|
      invariant joined' == joined + ProxyEdges(proxy, node, plugins, a)
      invariant InRange(parents.Length, joined') && Forest(parents[..], Labels(parents.Length, joined'), rank')
    {
      var key := (proxy.namespace, proxy.plugins[a]);
      if key in plugins {
        rank' := JoinNext(parents, plugins[key], node, joined', rank');
        joined' := joined' + [(plugins[key], node)];
      }
    }
  }

  method JoinAllAssociations(batch: BatchCreate, parents: array<nat>, plugins: map<Key, nat>,
                             ghost joined: seq<Edge>, ghost rank: seq<nat>)
    returns (ghost joined': seq<Edge>, ghost rank': seq<nat>)
    requires parents.Length == Size(batch) && plugins == PluginIndex(batch.pluginConfigs)
    requires forall k :: k in plugins ==> plugins[k] < parents.Length
    requires joined == [] && Forest(parents[..], Labels(parents.Length, joined), rank)
    modifies parents
    ensures joined' == AssociationEdges(batch, |batch.proxies|) && InRange(parents.Length, joined')
    ensures Forest(parents[..], Labels(parents.Length, joined'), rank')
  {
    joined', rank' := joined, rank;
    for x := 0 to |batch.proxies|
      invariant joined' == AssociationEdges(batch, x) && InRange(parents.Length, joined')
      invariant Forest(parents[..], Labels(parents.Length, joined'), rank')
    {
      joined', rank' := JoinAssociations(batch, x, parents, plugins, joined', rank');
    }
  }

  method JoinScoped(batch: BatchCreate, i: nat, parents: array<nat>, proxies: map<Key, nat>,
                    ghost joined: seq<Edge>, ghost rank: seq<nat>)
    returns (ghost joined': seq<Edge>, ghost rank': seq<nat>)
    requires i < |batch.pluginConfigs| && parents.Length == Size(batch) && proxies == ProxyIndex(batch.proxies)
    requires InRange(parents.Length, joined) && Forest(parents[..], Labels(parents.Length, joined), rank)
    modifies parents
    ensures joined' == joined + ScopeEdge(batch, i) && InRange(parents.Length, joined')
    ensures Forest(parents[..], Labels(parents.Length, joined'), rank')
  {
    joined', rank' := joined, rank;
    var plugin := batch.pluginConfigs[i];
    if plugin.scope.ProxyScope? && plugin.proxyId.Some? && (plugin.namespace, plugin.proxyId.value) in proxies {
      ProxyIndexSpec(batch.proxies);
      var proxy := |batch.pluginConfigs| + proxies[(plugin.namespace, plugin.proxyId.value)];
      rank' := JoinNext(parents, i, proxy, joined, rank);
      joined' := joined + [(i, proxy)];
    }
  }

  method JoinScopes(batch: BatchCreate, parents: array<nat>, ghost joined: seq<Edge>, ghost rank: seq<nat>)
    returns (ghost joined': seq<Edge>, ghost rank': seq<nat>)
    requires parents.Length == Size(batch) && joined == AssociationEdges(batch, |batch.proxies|)
    requires InRange(parents.Length, joined) && Forest(parents[..], Labels(parents.Length, joined), rank)
    modifies parents
    ensures joined' == Edges(batch) && InRange(parents.Length, joined')
    ensures Forest(parents[..], Labels(parents.Length, joined'), rank')
  {
    joined', rank' := joined, rank;
    var proxies := ProxyIndex(batch.proxies);
    for i := 0 to |batch.pluginConfigs|
      invariant joined' == ScopeEdges(batch, i)
      invariant InRange(parents.Length, joined') && Forest(parents[..], Labels(parents.Length, joined'), rank')
    {
      joined', rank' := JoinScoped(batch, i, parents, proxies, joined', rank');
    }
  }

  lemma SingletonForest(n: nat, parents: seq<nat>) returns (rank: seq<nat>)
    requires |parents| == n && forall i :: 0 <= i < n ==> parents[i] == i
    ensures Forest(parents, Labels(n, []), rank)
  {
    rank := seq(n, i => 0);
    forall i | 0 <= i < n ensures LinkOk(parents, Labels(n, []), rank, i) {}
  }

  /** Join every related pair: the parent array ends up holding the component labels. */
  method JoinRelated(batch: BatchCreate) returns (parents: array<nat>, ghost rank: seq<nat>)
    ensures fresh(parents) && parents.Length == Size(batch)
    ensures Forest(parents[..], ComponentLabels(batch), rank)
  {
    var pluginCount := |batch.pluginConfigs|;
    var n := pluginCount + |batch.proxies|;
    parents := new nat[n](i => i);
    var plugins := PluginIndex(batch.pluginConfigs);
    PluginIndexSpec(batch.pluginConfigs);
    ghost var joined: seq<Edge> := [];
    rank := SingletonForest(n, parents[..]);
    joined, rank := JoinAllAssociations(batch, parents, plugins, joined, rank);
    joined, rank := JoinScopes(batch, parents, joined, rank);
  }

  method ConnectedComponents(batch: BatchCreate) returns (groups: seq<BatchCreate>)
    ensures groups == ComponentsBelow(batch, ComponentLabels(batch), Size(batch))
  {
    var parents, rank := JoinRelated(batch);
    ghost var labels := ComponentLabels(batch);
    var connected := FilePlugins(batch, parents, labels, rank);
    connected := FileProxies(batch, parents, connected, labels, rank);
    groups := [];
    for root := 0 to parents.Length
      invariant groups == ComponentsBelow(batch, labels, root)
    {
      assert FiledAt(connected, batch, labels, |batch.pluginConfigs|, |batch.proxies|, root);
      if root in connected {
        groups := groups + [connected[root]];
      }
    }
  }

  method BatchDependencyGroups(batch: BatchCreate) returns (groups: seq<BatchCreate>)
    ensures groups == DependencyGroups(batch)
  {
    var sorted := Sorted(batch);
    groups := [];
    for i := 0 to |sorted.upstreams|
      invariant groups == UpstreamGroups(sorted.upstreams)[..i]
    {
      groups := groups + [EMPTY.(upstreams := [sorted.upstreams[i]])];
    }
    for i := 0 to |sorted.consumers|
      invariant groups == UpstreamGroups(sorted.upstreams) + ConsumerGroups(sorted.consumers)[..i]
    {
      groups := groups + [EMPTY.(consumers := [sorted.consumers[i]])];
    }
    var components := ConnectedComponents(sorted);
    groups := groups + components;
  }
}
