/**
 * What the dependency groups are: the connected components of the proxy/plugin relation, each
 * resource filed once, whatever order the batch arrived in.
 */
module BatchGroups {
  import opened Wrappers
  import opened Ordering
  import opened UnionFind
  import opened BatchPlanner
  import opened GatewaySchema

  /** Two batches listing the same resources, in any order. */
  ghost predicate SameResources(a: BatchCreate, b: BatchCreate) {
    && multiset(a.upstreams) == multiset(b.upstreams) && multiset(a.consumers) == multiset(b.consumers)
    && multiset(a.proxies) == multiset(b.proxies) && multiset(a.pluginConfigs) == multiset(b.pluginConfigs)
  }

  lemma SameMembers<T>(s: seq<T>, t: seq<T>)
    requires multiset(s) == multiset(t)
    ensures forall x :: x in s <==> x in t
  {
    forall x ensures x in s <==> x in t {
      assert x in multiset(s) <==> x in multiset(t);
    }
  }

  lemma SameResourcesHold(a: BatchCreate, b: BatchCreate)
    requires SameResources(a, b)
    ensures forall u :: Holds(a, u) <==> Holds(b, u)
    ensures UniqueKeys(a) <==> UniqueKeys(b)
  {
    SameMembers(a.upstreams, b.upstreams);
    SameMembers(a.consumers, b.consumers);
    SameMembers(a.proxies, b.proxies);
    SameMembers(a.pluginConfigs, b.pluginConfigs);
  }

  lemma SortingKeepsResources(batch: BatchCreate)
    ensures SameResources(Sorted(batch), batch)
  {
    SortPermutes(batch.upstreams, UpstreamLe);
    SortPermutes(batch.consumers, ConsumerLe);
    SortPermutes(batch.proxies, ProxyLe);
    SortPermutes(batch.pluginConfigs, PluginLe);
  }

  lemma SameLinks(a: BatchCreate, b: BatchCreate, u: Node, v: Node)
    requires SameResources(a, b) && Linked(a, u, v)
    ensures Linked(b, u, v)
  {
    SameResourcesHold(a, b);
    var chain :| IsChain(a, chain, u, v);
    assert IsChain(b, chain, u, v);
  }

  // ---- Nodes and their numbers ----

  function NodeAt(batch: BatchCreate, i: nat): Node
    requires i < Size(batch)
  {
    if i < |batch.pluginConfigs| then PluginNode(batch.pluginConfigs[i])
    else ProxyNode(batch.proxies[i - |batch.pluginConfigs|])
  }

  lemma ListedTwice<T>(s: seq<T>, i: nat, j: nat)
    requires i < j < |s| && s[i] == s[j]
    ensures multiset(s)[s[i]] >= 2
  {
    assert s == s[..i] + [s[i]] + s[i + 1..j] + [s[j]] + s[j + 1..];
  }

  lemma ListedOnce<T>(s: seq<T>, i: nat, j: nat)
    requires i < |s| && j < |s| && s[i] == s[j] && multiset(s)[s[i]] == 1
    ensures i == j
  {
    if i < j {
      ListedTwice(s, i, j);
    } else if j < i {
      ListedTwice(s, j, i);
    }
  }

  lemma NumberingIsInjective(batch: BatchCreate, i: nat, j: nat)
    requires UniqueKeys(batch) && i < Size(batch) && j < Size(batch) && NodeAt(batch, i) == NodeAt(batch, j)
    ensures i == j
  {
    var p := |batch.pluginConfigs|;
    if i < p {
      ListedOnce(batch.pluginConfigs, i, j);
    } else {
      ListedOnce(batch.proxies, i - p, j - p);
    }
  }

  lemma Number(batch: BatchCreate, u: Node) returns (i: nat)
    requires Holds(batch, u)
    ensures i < Size(batch) && NodeAt(batch, i) == u
  {
    match u
    case PluginNode(plugin) => i :| i < |batch.pluginConfigs| && batch.pluginConfigs[i] == plugin;
    case ProxyNode(proxy) =>
      var x :| 0 <= x < |batch.proxies| && batch.proxies[x] == proxy;
      i := |batch.pluginConfigs| + x;
  }

  // ---- Joined pairs are the relation ----

  lemma PluginIndexed(batch: BatchCreate, key: Key, i: nat)
    requires UniqueKeys(batch) && i < |batch.pluginConfigs|
    ensures
      var index := PluginIndex(batch.pluginConfigs);
      (key in index && index[key] == i) <==> PluginKey(batch.pluginConfigs[i]) == key
  {
    PluginIndexSpec(batch.pluginConfigs);
    var index := PluginIndex(batch.pluginConfigs);
    if PluginKey(batch.pluginConfigs[i]) == key {
      ListedOnce(batch.pluginConfigs, i, index[key]);
    }
  }

  lemma ProxyIndexed(batch: BatchCreate, key: Key, x: nat)
    requires UniqueKeys(batch) && x < |batch.proxies|
    ensures
      var index := ProxyIndex(batch.proxies);
      (key in index && index[key] == x) <==> ProxyKey(batch.proxies[x]) == key
  {
    ProxyIndexSpec(batch.proxies);
    var index := ProxyIndex(batch.proxies);
    if ProxyKey(batch.proxies[x]) == key {
      ListedOnce(batch.proxies, x, index[key]);
    }
  }

  lemma AssociationIsEdge(batch: BatchCreate, i: nat, x: nat)
    requires UniqueKeys(batch) && i < |batch.pluginConfigs| && x < |batch.proxies|
    ensures
      var plugin, proxy := batch.pluginConfigs[i], batch.proxies[x];
      IsAssociationEdge(batch, x, (i, |batch.pluginConfigs| + x)) <==>
        plugin.namespace == proxy.namespace && plugin.id in proxy.plugins
  {
    var plugin, proxy := batch.pluginConfigs[i], batch.proxies[x];
    var index := PluginIndex(batch.pluginConfigs);
    forall a | 0 <= a < |proxy.plugins|
      ensures ((proxy.namespace, proxy.plugins[a]) in index && index[(proxy.namespace, proxy.plugins[a])] == i)
        <==> PluginKey(plugin) == (proxy.namespace, proxy.plugins[a])
    {
      PluginIndexed(batch, (proxy.namespace, proxy.plugins[a]), i);
    }
  }

  lemma AssociationEdgesAre(batch: BatchCreate, i: nat, j: nat)
    requires UniqueKeys(batch)
    ensures (i, j) in AssociationEdges(batch, |batch.proxies|) <==>
      (i < |batch.pluginConfigs| <= j < Size(batch)
       && IsAssociationEdge(batch, j - |batch.pluginConfigs|, (i, j)))
  {
    AssociationEdgesSpec(batch, |batch.proxies|, (i, j));
    PluginIndexSpec(batch.pluginConfigs);
    if x :| 0 <= x < |batch.proxies| && IsAssociationEdge(batch, x, (i, j)) {
      assert j == |batch.pluginConfigs| + x;
    }
  }

  lemma ScopeEdgeIs(batch: BatchCreate, k: nat, i: nat, j: nat)
    requires UniqueKeys(batch) && k < |batch.pluginConfigs|
    ensures (i, j) in ScopeEdge(batch, k) <==>
      (i == k && |batch.pluginConfigs| <= j < Size(batch)
       && var plugin, proxy := batch.pluginConfigs[i], batch.proxies[j - |batch.pluginConfigs|];
          plugin.namespace == proxy.namespace && plugin.scope.ProxyScope? && plugin.proxyId == Some(proxy.id))
  {
    ProxyIndexSpec(batch.proxies);
    var plugin := batch.pluginConfigs[k];
    if plugin.proxyId.Some? && |batch.pluginConfigs| <= j < Size(batch) {
      ProxyIndexed(batch, (plugin.namespace, plugin.proxyId.value), j - |batch.pluginConfigs|);
    }
  }

  lemma EdgeIsRelated(batch: BatchCreate, i: nat, j: nat)
    requires UniqueKeys(batch)
    ensures (i, j) in Edges(batch) <==>
      (i < |batch.pluginConfigs| <= j < Size(batch)
       && Related(batch.pluginConfigs[i], batch.proxies[j - |batch.pluginConfigs|]))
  {
    var p := |batch.pluginConfigs|;
    AssociationEdgesAre(batch, i, j);
    ScopeEdgesSpec(batch, p, (i, j));
    forall k | 0 <= k < p ensures (i, j) in ScopeEdge(batch, k) ==> i == k {
      ScopeEdgeIs(batch, k, i, j);
    }
    if i < p {
      ScopeEdgeIs(batch, i, i, j);
      if p <= j < Size(batch) { AssociationIsEdge(batch, i, j - p); }
    }
  }

  lemma {:induction false} AdjacentIsRelated(batch: BatchCreate, i: nat, j: nat)
    requires UniqueKeys(batch) && i < Size(batch) && j < Size(batch)
    ensures Adjacent(Edges(batch), i, j) <==> RelatedNodes(NodeAt(batch, i), NodeAt(batch, j))
  {
    EdgeIsRelated(batch, i, j);
    EdgeIsRelated(batch, j, i);
  }

  lemma {:induction false} PathIsChain(batch: BatchCreate, path: seq<nat>, i: nat, j: nat)
    requires UniqueKeys(batch) && i < Size(batch) && IsPath(Edges(batch), path, i, j)
    ensures j < Size(batch) && Linked(batch, NodeAt(batch, i), NodeAt(batch, j))
  {
    EdgesInRange(batch);
    forall k | 0 <= k < |path| ensures path[k] < Size(batch) {
      if k > 0 { assert Adjacent(Edges(batch), path[k - 1], path[k - 1 + 1]); }
    }
    var chain := seq(|path|, (k: nat) requires k < |path| => NodeAt(batch, path[k]));
    forall k | 0 <= k < |chain| - 1 ensures RelatedNodes(chain[k], chain[k + 1]) {
      AdjacentIsRelated(batch, path[k], path[k + 1]);
    }
    assert IsChain(batch, chain, NodeAt(batch, i), NodeAt(batch, j));
  }

  lemma {:induction false} ChainIsPath(batch: BatchCreate, chain: seq<Node>, i: nat, j: nat)
    requires UniqueKeys(batch) && i < Size(batch) && j < Size(batch)
    requires IsChain(batch, chain, NodeAt(batch, i), NodeAt(batch, j))
    ensures Connected(Edges(batch), i, j)
    decreases |chain|
  {
    if |chain| == 1 {
      NumberingIsInjective(batch, i, j);
      ConnectedRefl(Edges(batch), i);
    } else {
      var next := Number(batch, chain[1]);
      assert RelatedNodes(chain[0], chain[0 + 1]);
      AdjacentIsRelated(batch, i, next);
      assert IsPath(Edges(batch), [i, next], i, next);
      forall k | 0 <= k < |chain[1..]| - 1 ensures RelatedNodes(chain[1..][k], chain[1..][k + 1]) {
        assert RelatedNodes(chain[k + 1], chain[k + 1 + 1]);
      }
      assert IsChain(batch, chain[1..], chain[1], NodeAt(batch, j));
      ChainIsPath(batch, chain[1..], next, j);
      ConnectedTrans(Edges(batch), i, next, j);
    }
  }

  lemma LabelsAreLinks(batch: BatchCreate, i: nat, j: nat)
    requires UniqueKeys(batch) && i < Size(batch) && j < Size(batch)
    ensures ComponentLabels(batch)[i] == ComponentLabels(batch)[j] <==> Linked(batch, NodeAt(batch, i), NodeAt(batch, j))
  {
    EdgesInRange(batch);
    LabelsAreComponents(Size(batch), Edges(batch), i, j);
    if Connected(Edges(batch), i, j) {
      var path :| IsPath(Edges(batch), path, i, j);
      PathIsChain(batch, path, i, j);
    }
    if Linked(batch, NodeAt(batch, i), NodeAt(batch, j)) {
      var chain :| IsChain(batch, chain, NodeAt(batch, i), NodeAt(batch, j));
      ChainIsPath(batch, chain, i, j);
    }
  }

  // ---- Groups hold what shares a label ----

  lemma {:induction false} LabelledMember<T>(items: seq<T>, first: nat, labels: seq<nat>, root: nat, upto: nat, x: T)
    requires upto <= |items| && first + |items| <= |labels|
    ensures x in Labelled(items, first, labels, root, upto) <==>
      exists i :: 0 <= i < upto && items[i] == x && labels[first + i] == root
  {
    if upto > 0 { LabelledMember(items, first, labels, root, upto - 1, x); }
  }

  /** The node numbered `i` carries the label. */
  ghost predicate StandsAt(batch: BatchCreate, labels: seq<nat>, root: nat, u: Node, i: nat)
    requires |labels| == Size(batch)
  {
    i < Size(batch) && NodeAt(batch, i) == u && labels[i] == root
  }

  lemma PluginComponent(batch: BatchCreate, labels: seq<nat>, root: nat, plugin: PluginConfig)
    requires |labels| == Size(batch)
    ensures plugin in Component(batch, labels, root).pluginConfigs <==>
      exists i: nat :: StandsAt(batch, labels, root, PluginNode(plugin), i)
  {
    var p := |batch.pluginConfigs|;
    LabelledMember(batch.pluginConfigs, 0, labels, root, p, plugin);
    if i :| 0 <= i < p && batch.pluginConfigs[i] == plugin && labels[0 + i] == root {
      assert StandsAt(batch, labels, root, PluginNode(plugin), i);
    }
  }

  lemma ProxyComponent(batch: BatchCreate, labels: seq<nat>, root: nat, proxy: Proxy)
    requires |labels| == Size(batch)
    ensures proxy in Component(batch, labels, root).proxies <==>
      exists i: nat :: StandsAt(batch, labels, root, ProxyNode(proxy), i)
  {
    var p := |batch.pluginConfigs|;
    LabelledMember(batch.proxies, p, labels, root, |batch.proxies|, proxy);
    if x :| 0 <= x < |batch.proxies| && batch.proxies[x] == proxy && labels[p + x] == root {
      assert StandsAt(batch, labels, root, ProxyNode(proxy), p + x);
    }
    if i: nat :| StandsAt(batch, labels, root, ProxyNode(proxy), i) {
      assert labels[p + (i - p)] == root && batch.proxies[i - p] == proxy;
    }
  }

  lemma ComponentHolds(batch: BatchCreate, labels: seq<nat>, root: nat, u: Node)
    requires |labels| == Size(batch)
    ensures Holds(Component(batch, labels, root), u) <==> exists i: nat :: StandsAt(batch, labels, root, u, i)
  {
    match u
    case PluginNode(plugin) => PluginComponent(batch, labels, root, plugin);
    case ProxyNode(proxy) => ProxyComponent(batch, labels, root, proxy);
  }

  lemma {:induction false} ComponentsListed(batch: BatchCreate, labels: seq<nat>, upto: nat, g: BatchCreate)
    requires |labels| == Size(batch)
    ensures g in ComponentsBelow(batch, labels, upto) <==>
      g != EMPTY && exists root :: 0 <= root < upto && g == Component(batch, labels, root)
  {
    if upto > 0 { ComponentsListed(batch, labels, upto - 1, g); }
  }

  lemma GroupWithNode(batch: BatchCreate, g: BatchCreate, u: Node)
    requires g in DependencyGroups(batch) && Holds(g, u)
    ensures g in ComponentsBelow(Sorted(batch), ComponentLabels(Sorted(batch)), Size(Sorted(batch)))
  {}

  lemma LinkedShareGroup(batch: BatchCreate, u: Node, v: Node, i: nat, j: nat)
    requires i < Size(Sorted(batch)) && j < Size(Sorted(batch))
    requires NodeAt(Sorted(batch), i) == u && NodeAt(Sorted(batch), j) == v
    requires ComponentLabels(Sorted(batch))[i] == ComponentLabels(Sorted(batch))[j]
    ensures TogetherIn(DependencyGroups(batch), u, v)
  {
    var sorted, groups := Sorted(batch), DependencyGroups(batch);
    var labels := ComponentLabels(sorted);
    var g := Component(sorted, labels, labels[i]);
    assert StandsAt(sorted, labels, labels[i], u, i) && StandsAt(sorted, labels, labels[i], v, j);
    ComponentHolds(sorted, labels, labels[i], u);
    ComponentHolds(sorted, labels, labels[i], v);
    EdgesInRange(sorted);
    LabelsAreRoots(Size(sorted), Edges(sorted));
    ComponentsListed(sorted, labels, Size(sorted), g);
    assert g in groups;
  }

  lemma LabelOfMember(batch: BatchCreate, labels: seq<nat>, root: nat, u: Node, i: nat)
    requires UniqueKeys(batch) && |labels| == Size(batch) && i < Size(batch) && NodeAt(batch, i) == u
    requires Holds(Component(batch, labels, root), u)
    ensures labels[i] == root
  {
    ComponentHolds(batch, labels, root, u);
    var k: nat :| StandsAt(batch, labels, root, u, k);
    NumberingIsInjective(batch, i, k);
  }

  /**
   * The main result: two plugin configs or proxies of a batch land in one group exactly when a
   * chain of related resources of that batch links them.
   */
  lemma {:induction false} GroupsAreComponents(batch: BatchCreate, u: Node, v: Node)
    requires UniqueKeys(batch) && Holds(batch, u) && Holds(batch, v)
    ensures TogetherIn(DependencyGroups(batch), u, v) <==> Linked(batch, u, v)
  {
    var sorted, groups := Sorted(batch), DependencyGroups(batch);
    var labels := ComponentLabels(sorted);
    SortingKeepsResources(batch);
    SameResourcesHold(sorted, batch);
    var i := Number(sorted, u);
    var j := Number(sorted, v);
    LabelsAreLinks(sorted, i, j);
    if Linked(batch, u, v) {
      SameLinks(batch, sorted, u, v);
      LinkedShareGroup(batch, u, v, i, j);
    }
    if g :| 0 <= g < |groups| && Holds(groups[g], u) && Holds(groups[g], v) {
      GroupWithNode(batch, groups[g], u);
      ComponentsListed(sorted, labels, Size(sorted), groups[g]);
      var root :| 0 <= root < Size(sorted) && groups[g] == Component(sorted, labels, root);
      LabelOfMember(sorted, labels, root, u, i);
      LabelOfMember(sorted, labels, root, v, j);
      SameLinks(sorted, batch, u, v);
    }
  }

  /** The groups do not depend on the order the batch was listed in. */
  lemma OrderDoesNotMatter(a: BatchCreate, b: BatchCreate)
    requires UniqueKeys(a) && SameResources(a, b)
    ensures DependencyGroups(a) == DependencyGroups(b)
  {
    KeyLeIsOrder();
    SortingKeepsResources(a);
    SortingKeepsResources(b);
    SameResourcesHold(Sorted(a), a);
    SortSorts(a.upstreams, UpstreamLe);
    SortSorts(b.upstreams, UpstreamLe);
    SortedIsUnique(Sorted(a).upstreams, Sorted(b).upstreams, UpstreamLe);
    SortSorts(a.consumers, ConsumerLe);
    SortSorts(b.consumers, ConsumerLe);
    SortedIsUnique(Sorted(a).consumers, Sorted(b).consumers, ConsumerLe);
    SortSorts(a.proxies, ProxyLe);
    SortSorts(b.proxies, ProxyLe);
    SortedIsUnique(Sorted(a).proxies, Sorted(b).proxies, ProxyLe);
    SortSorts(a.pluginConfigs, PluginLe);
    SortSorts(b.pluginConfigs, PluginLe);
    SortedIsUnique(Sorted(a).pluginConfigs, Sorted(b).pluginConfigs, PluginLe);
  }

  // ---- Conservation ----

  /** The first `upto` groups as one batch. */
  function MergeFirst(groups: seq<BatchCreate>, upto: nat): BatchCreate
    requires upto <= |groups|
  {
    if upto == 0 then EMPTY else MergeFirst(groups, upto - 1).Extend(groups[upto - 1])
  }

  function MergeAll(groups: seq<BatchCreate>): BatchCreate { MergeFirst(groups, |groups|) }

  lemma {:induction false} MergePrefix(a: seq<BatchCreate>, b: seq<BatchCreate>, upto: nat)
    requires upto <= |a|
    ensures MergeFirst(a + b, upto) == MergeFirst(a, upto)
    decreases upto
  {
    if upto > 0 { MergePrefix(a, b, upto - 1); }
  }

  /** The weight of the first `upto` items. */
  ghost function Sum<T>(items: seq<T>, weight: T -> nat, upto: nat): nat
    requires upto <= |items|
  {
    if upto == 0 then 0 else Sum(items, weight, upto - 1) + weight(items[upto - 1])
  }

  /** A weight for each resource. */
  datatype Weights = Weights(upstream: Upstream -> nat, consumer: Consumer -> nat,
                             proxy: Proxy -> nat, plugin: PluginConfig -> nat)

  ghost function Weight(batch: BatchCreate, w: Weights): nat {
    Sum(batch.upstreams, w.upstream, |batch.upstreams|) + Sum(batch.consumers, w.consumer, |batch.consumers|)
    + Sum(batch.proxies, w.proxy, |batch.proxies|) + Sum(batch.pluginConfigs, w.plugin, |batch.pluginConfigs|)
  }

  /** The sum of `measure` over the first `upto` batches. */
  function Total(batches: seq<BatchCreate>, measure: BatchCreate -> nat, upto: nat): nat
    requires upto <= |batches|
  {
    if upto == 0 then 0 else Total(batches, measure, upto - 1) + measure(batches[upto - 1])
  }

  lemma {:induction false} TotalPrefix(a: seq<BatchCreate>, b: seq<BatchCreate>, measure: BatchCreate -> nat, upto: nat)
    requires upto <= |a|
    ensures Total(a + b, measure, upto) == Total(a, measure, upto)
    decreases upto
  {
    if upto > 0 { TotalPrefix(a, b, measure, upto - 1); }
  }

  lemma {:induction false} TotalConcat(a: seq<BatchCreate>, b: seq<BatchCreate>, measure: BatchCreate -> nat, upto: nat)
    requires upto <= |b|
    ensures Total(a + b, measure, |a| + upto) == Total(a, measure, |a|) + Total(b, measure, upto)
    decreases upto
  {
    if upto == 0 {
      TotalPrefix(a, b, measure, |a|);
    } else {
      TotalConcat(a, b, measure, upto - 1);
    }
  }

  /** The weight of what one root selects. */
  ghost function LabelledSum<T>(items: seq<T>, first: nat, labels: seq<nat>, root: nat, weight: T -> nat, upto: nat): nat
    requires upto <= |items| && first + |items| <= |labels|
  {
    if upto == 0 then 0
    else
      LabelledSum(items, first, labels, root, weight, upto - 1)
      + (if labels[first + (upto - 1)] == root then weight(items[upto - 1]) else 0)
  }

  /** The weight of what the first `count` roots select. */
  ghost function SelectedSum<T>(items: seq<T>, first: nat, labels: seq<nat>, count: nat, weight: T -> nat, upto: nat): nat
    requires upto <= |items| && first + |items| <= |labels|
  {
    if count == 0 then 0
    else
      SelectedSum(items, first, labels, count - 1, weight, upto)
      + LabelledSum(items, first, labels, count - 1, weight, upto)
  }

  lemma {:induction false} SumPrefix<T>(a: seq<T>, b: seq<T>, weight: T -> nat, upto: nat)
    requires upto <= |a|
    ensures Sum(a + b, weight, upto) == Sum(a, weight, upto)
    decreases upto
  {
    if upto > 0 { SumPrefix(a, b, weight, upto - 1); }
  }

  lemma {:induction false} LabelledSumIs<T>(items: seq<T>, first: nat, labels: seq<nat>, root: nat, weight: T -> nat, upto: nat)
    requires upto <= |items| && first + |items| <= |labels|
    ensures
      var selected := Labelled(items, first, labels, root, upto);
      Sum(selected, weight, |selected|) == LabelledSum(items, first, labels, root, weight, upto)
    decreases upto
  {
    if upto > 0 {
      LabelledSumIs(items, first, labels, root, weight, upto - 1);
      var before := Labelled(items, first, labels, root, upto - 1);
      SumPrefix(before, [items[upto - 1]], weight, |before|);
    }
  }

  lemma {:induction false} SelectedOnce<T>(items: seq<T>, first: nat, labels: seq<nat>, count: nat, weight: T -> nat, upto: nat)
    requires 0 < upto <= |items| && first + |items| <= |labels|
    ensures SelectedSum(items, first, labels, count, weight, upto)
         == SelectedSum(items, first, labels, count, weight, upto - 1)
            + (if labels[first + (upto - 1)] < count then weight(items[upto - 1]) else 0)
    decreases count
  {
    if count > 0 { SelectedOnce(items, first, labels, count - 1, weight, upto); }
  }

  lemma {:induction false} NothingSelected<T>(items: seq<T>, first: nat, labels: seq<nat>, count: nat, weight: T -> nat)
    requires first + |items| <= |labels|
    ensures SelectedSum(items, first, labels, count, weight, 0) == 0
    decreases count
  {
    if count > 0 { NothingSelected(items, first, labels, count - 1, weight); }
  }

  lemma {:induction false} EveryItemSelected<T>(items: seq<T>, first: nat, labels: seq<nat>, count: nat, weight: T -> nat,
                                                upto: nat)
    requires upto <= |items| && first + |items| <= |labels|
    requires forall i :: 0 <= i < |labels| ==> labels[i] < count
    ensures SelectedSum(items, first, labels, count, weight, upto) == Sum(items, weight, upto)
    decreases upto
  {
    if upto == 0 {
      NothingSelected(items, first, labels, count, weight);
    } else {
      EveryItemSelected(items, first, labels, count, weight, upto - 1);
      SelectedOnce(items, first, labels, count, weight, upto);
    }
  }

  /** The weight of one component. */
  ghost function ComponentWeight(batch: BatchCreate, labels: seq<nat>, root: nat, w: Weights): nat
    requires |labels| == Size(batch)
  {
    LabelledSum(batch.proxies, |batch.pluginConfigs|, labels, root, w.proxy, |batch.proxies|)
    + LabelledSum(batch.pluginConfigs, 0, labels, root, w.plugin, |batch.pluginConfigs|)
  }

  lemma WeightOfComponent(batch: BatchCreate, labels: seq<nat>, root: nat, w: Weights)
    requires |labels| == Size(batch)
    ensures Weight(Component(batch, labels, root), w) == ComponentWeight(batch, labels, root, w)
  {
    LabelledSumIs(batch.proxies, |batch.pluginConfigs|, labels, root, w.proxy, |batch.proxies|);
    LabelledSumIs(batch.pluginConfigs, 0, labels, root, w.plugin, |batch.pluginConfigs|);
  }

  lemma {:induction false} ComponentsTotal(batch: BatchCreate, labels: seq<nat>, upto: nat, w: Weights,
                                           measure: BatchCreate -> nat)
    requires |labels| == Size(batch) && measure(EMPTY) == 0
    requires forall r :: measure(Component(batch, labels, r)) == ComponentWeight(batch, labels, r, w)
    ensures
      var below := ComponentsBelow(batch, labels, upto);
      Total(below, measure, |below|)
        == SelectedSum(batch.proxies, |batch.pluginConfigs|, labels, upto, w.proxy, |batch.proxies|)
           + SelectedSum(batch.pluginConfigs, 0, labels, upto, w.plugin, |batch.pluginConfigs|)
    decreases upto
  {
    if upto > 0 {
      ComponentsTotal(batch, labels, upto - 1, w, measure);
      var below, g := ComponentsBelow(batch, labels, upto - 1), Component(batch, labels, upto - 1);
      TotalPrefix(below, [g], measure, |below|);
    }
  }

  lemma {:induction false} UpstreamsTotal(upstreams: seq<Upstream>, w: Weights, measure: BatchCreate -> nat, upto: nat)
    requires upto <= |upstreams|
    requires forall u :: measure(EMPTY.(upstreams := [u])) == w.upstream(u)
    ensures Total(UpstreamGroups(upstreams), measure, upto) == Sum(upstreams, w.upstream, upto)
    decreases upto
  {
    if upto > 0 { UpstreamsTotal(upstreams, w, measure, upto - 1); }
  }

  lemma {:induction false} ConsumersTotal(consumers: seq<Consumer>, w: Weights, measure: BatchCreate -> nat, upto: nat)
    requires upto <= |consumers|
    requires forall c :: measure(EMPTY.(consumers := [c])) == w.consumer(c)
    ensures Total(ConsumerGroups(consumers), measure, upto) == Sum(consumers, w.consumer, upto)
    decreases upto
  {
    if upto > 0 { ConsumersTotal(consumers, w, measure, upto - 1); }
  }

  lemma ComponentsWeigh(batch: BatchCreate, w: Weights, measure: BatchCreate -> nat)
    requires forall b :: measure(b) == Weight(b, w)
    ensures
      var comps := ComponentsBelow(batch, ComponentLabels(batch), Size(batch));
      Total(comps, measure, |comps|) == Sum(batch.proxies, w.proxy, |batch.proxies|)
        + Sum(batch.pluginConfigs, w.plugin, |batch.pluginConfigs|)
  {
    var labels, n := ComponentLabels(batch), Size(batch);
    forall r ensures measure(Component(batch, labels, r)) == ComponentWeight(batch, labels, r, w) {
      WeightOfComponent(batch, labels, r, w);
    }
    assert measure(EMPTY) == Weight(EMPTY, w);
    ComponentsTotal(batch, labels, n, w, measure);
    EdgesInRange(batch);
    LabelsAreRoots(n, Edges(batch));
    EveryItemSelected(batch.pluginConfigs, 0, labels, n, w.plugin, |batch.pluginConfigs|);
    EveryItemSelected(batch.proxies, |batch.pluginConfigs|, labels, n, w.proxy, |batch.proxies|);
  }

  lemma StandaloneWeigh(batch: BatchCreate, w: Weights, measure: BatchCreate -> nat)
    requires forall b :: measure(b) == Weight(b, w)
    ensures Total(UpstreamGroups(batch.upstreams), measure, |batch.upstreams|)
         == Sum(batch.upstreams, w.upstream, |batch.upstreams|)
    ensures Total(ConsumerGroups(batch.consumers), measure, |batch.consumers|)
         == Sum(batch.consumers, w.consumer, |batch.consumers|)
  {
    forall u ensures measure(EMPTY.(upstreams := [u])) == w.upstream(u) {
      assert Sum([u], w.upstream, 1) == w.upstream(u);
    }
    forall c ensures measure(EMPTY.(consumers := [c])) == w.consumer(c) {
      assert Sum([c], w.consumer, 1) == w.consumer(c);
    }
    UpstreamsTotal(batch.upstreams, w, measure, |batch.upstreams|);
    ConsumersTotal(batch.consumers, w, measure, |batch.consumers|);
  }

  lemma TotalOfThree(a: seq<BatchCreate>, b: seq<BatchCreate>, c: seq<BatchCreate>, measure: BatchCreate -> nat)
    ensures Total(a + b + c, measure, |a + b + c|)
         == Total(a, measure, |a|) + Total(b, measure, |b|) + Total(c, measure, |c|)
  {
    TotalConcat(a + b, c, measure, |c|);
    TotalConcat(a, b, measure, |b|);
  }

  /** However resources are weighed, the groups weigh what the sorted batch weighs. */
  lemma GroupsWeigh(batch: BatchCreate, w: Weights, measure: BatchCreate -> nat)
    requires forall b :: measure(b) == Weight(b, w)
    ensures
      var groups := DependencyGroups(batch);
      Total(groups, measure, |groups|) == measure(Sorted(batch))
  {
    var sorted := Sorted(batch);
    var ups, cons := UpstreamGroups(sorted.upstreams), ConsumerGroups(sorted.consumers);
    var comps := ComponentsBelow(sorted, ComponentLabels(sorted), Size(sorted));
    TotalOfThree(ups, cons, comps, measure);
    StandaloneWeigh(sorted, w, measure);
    ComponentsWeigh(sorted, w, measure);
  }

  // ---- Counting copies of one resource ----

  datatype Resource =
    | AnUpstream(upstream: Upstream) | AConsumer(consumer: Consumer)
    | AProxy(proxy: Proxy) | APlugin(plugin: PluginConfig)

  ghost function Copies(batch: BatchCreate, r: Resource): nat {
    match r
    case AnUpstream(u) => multiset(batch.upstreams)[u]
    case AConsumer(c) => multiset(batch.consumers)[c]
    case AProxy(x) => multiset(batch.proxies)[x]
    case APlugin(p) => multiset(batch.pluginConfigs)[p]
  }

  /** How often the batches list `r`, together. */
  ghost function TotalCopies(batches: seq<BatchCreate>, r: Resource): nat {
    Total(batches, b => Copies(b, r), |batches|)
  }

  ghost function Counting(r: Resource): Weights {
    Weights(u => if r == AnUpstream(u) then 1 else 0, c => if r == AConsumer(c) then 1 else 0,
            x => if r == AProxy(x) then 1 else 0, p => if r == APlugin(p) then 1 else 0)
  }

  lemma {:induction false} SumCounts<T>(items: seq<T>, weight: T -> nat, x: T, upto: nat)
    requires upto <= |items| && forall y :: weight(y) == if y == x then 1 else 0
    ensures Sum(items, weight, upto) == multiset(items[..upto])[x]
    decreases upto
  {
    if upto > 0 {
      SumCounts(items, weight, x, upto - 1);
      assert items[..upto] == items[..upto - 1] + [items[upto - 1]];
    }
  }

  lemma {:induction false} SumIsZero<T>(items: seq<T>, weight: T -> nat, upto: nat)
    requires upto <= |items| && forall y :: weight(y) == 0
    ensures Sum(items, weight, upto) == 0
    decreases upto
  {
    if upto > 0 { SumIsZero(items, weight, upto - 1); }
  }

  lemma WholeSum<T>(items: seq<T>, weight: T -> nat, x: T)
    requires forall y :: weight(y) == if y == x then 1 else 0
    ensures Sum(items, weight, |items|) == multiset(items)[x]
  {
    SumCounts(items, weight, x, |items|);
    assert items[..|items|] == items;
  }

  lemma CountingCounts(batch: BatchCreate, r: Resource)
    ensures Weight(batch, Counting(r)) == Copies(batch, r)
  {
    var w := Counting(r);
    if r.AnUpstream? { WholeSum(batch.upstreams, w.upstream, r.upstream); }
    else { SumIsZero(batch.upstreams, w.upstream, |batch.upstreams|); }
    if r.AConsumer? { WholeSum(batch.consumers, w.consumer, r.consumer); }
    else { SumIsZero(batch.consumers, w.consumer, |batch.consumers|); }
    if r.AProxy? { WholeSum(batch.proxies, w.proxy, r.proxy); }
    else { SumIsZero(batch.proxies, w.proxy, |batch.proxies|); }
    if r.APlugin? { WholeSum(batch.pluginConfigs, w.plugin, r.plugin); }
    else { SumIsZero(batch.pluginConfigs, w.plugin, |batch.pluginConfigs|); }
  }

  /** Every resource is in the groups exactly as often as the batch lists it. */
  lemma GroupsConserve(batch: BatchCreate, r: Resource)
    ensures TotalCopies(DependencyGroups(batch), r) == Copies(batch, r)
  {
    var measure := b => Copies(b, r);
    forall b ensures measure(b) == Weight(b, Counting(r)) {
      CountingCounts(b, r);
    }
    GroupsWeigh(batch, Counting(r), measure);
    SortingKeepsResources(batch);
  }

  /** No group is empty. */
  lemma GroupsAreNonEmpty(batch: BatchCreate, g: BatchCreate)
    requires g in DependencyGroups(batch)
    ensures !g.IsEmpty()
  {
    var sorted := Sorted(batch);
    ComponentsListed(sorted, ComponentLabels(sorted), Size(sorted), g);
  }

  /** Upstreams and consumers are grouped alone, ahead of every proxy and plugin config. */
  lemma StandaloneFirst(batch: BatchCreate, i: nat, j: nat)
    requires i < j < |DependencyGroups(batch)|
    requires DependencyGroups(batch)[j].upstreams != [] || DependencyGroups(batch)[j].consumers != []
    ensures DependencyGroups(batch)[i].proxies == [] && DependencyGroups(batch)[i].pluginConfigs == []
  {
    var sorted, groups := Sorted(batch), DependencyGroups(batch);
    var alone := |sorted.upstreams| + |sorted.consumers|;
    var comps := ComponentsBelow(sorted, ComponentLabels(sorted), Size(sorted));
    if j >= alone {
      assert groups[j] == comps[j - alone];
      ComponentsListed(sorted, ComponentLabels(sorted), Size(sorted), groups[j]);
    }
  }

  // ---- The order of groups, and within them ----

  /** Keys in ascending order. */
  ghost predicate Ascending(keys: seq<Key>) {
    forall i, j :: 0 <= i < j < |keys| ==>
      if keys[i].0 == keys[j].0 then ComesFirst(keys[i].1, keys[j].1) else ComesFirst(keys[i].0, keys[j].0)
  }

  function UpstreamKeys(s: seq<Upstream>): seq<Key> { seq(|s|, (i: nat) requires i < |s| => (s[i].namespace, s[i].id)) }
  function ConsumerKeys(s: seq<Consumer>): seq<Key> { seq(|s|, (i: nat) requires i < |s| => (s[i].namespace, s[i].id)) }
  function PluginKeys(s: seq<PluginConfig>): seq<Key> { seq(|s|, (i: nat) requires i < |s| => (s[i].namespace, s[i].id)) }
  function ProxyKeys(s: seq<Proxy>): seq<Key> { seq(|s|, (i: nat) requires i < |s| => (s[i].namespace, s[i].id)) }

  lemma SortedKeysAscend<T>(s: seq<T>, le: (T, T) -> bool, key: T -> Key, keys: seq<Key>)
    requires SortedBy(s, le) && |keys| == |s| && forall i :: 0 <= i < |s| ==> keys[i] == key(s[i])
    requires forall i, j :: 0 <= i < |s| && 0 <= j < |s| ==> (le(s[i], s[j]) <==> KeyLe(key(s[i]), key(s[j])))
    ensures Ascending(keys)
  {
    forall i, j | 0 <= i < j < |keys|
      ensures if keys[i].0 == keys[j].0 then ComesFirst(keys[i].1, keys[j].1) else ComesFirst(keys[i].0, keys[j].0)
    {
      assert le(s[i], s[j]);
      KeyLeIs(keys[i], keys[j]);
    }
  }

  /** Planning lists each kind in ascending order of namespace and id. */
  lemma SortingAscends(batch: BatchCreate)
    ensures var sorted := Sorted(batch);
            && Ascending(UpstreamKeys(sorted.upstreams)) && Ascending(ConsumerKeys(sorted.consumers))
            && Ascending(ProxyKeys(sorted.proxies)) && Ascending(PluginKeys(sorted.pluginConfigs))
  {
    KeyLeIsOrder();
    var sorted := Sorted(batch);
    SortSorts(batch.upstreams, UpstreamLe);
    SortSorts(batch.consumers, ConsumerLe);
    SortSorts(batch.proxies, ProxyLe);
    SortSorts(batch.pluginConfigs, PluginLe);
    SortedKeysAscend(sorted.upstreams, UpstreamLe, UpstreamKey, UpstreamKeys(sorted.upstreams));
    SortedKeysAscend(sorted.consumers, ConsumerLe, ConsumerKey, ConsumerKeys(sorted.consumers));
    SortedKeysAscend(sorted.proxies, ProxyLe, ProxyKey, ProxyKeys(sorted.proxies));
    SortedKeysAscend(sorted.pluginConfigs, PluginLe, PluginKey, PluginKeys(sorted.pluginConfigs));
  }

  /** `picked` are items of `s` at rising positions. */
  ghost predicate PickedInOrder<T>(s: seq<T>, picked: seq<T>, at: seq<nat>, upto: nat)
    requires upto <= |s|
  {
    && |at| == |picked|
    && (forall i :: 0 <= i < |at| ==> at[i] < upto && s[at[i]] == picked[i])
    && forall i, j :: 0 <= i < j < |at| ==> at[i] < at[j]
  }

  lemma PickedStays<T>(s: seq<T>, picked: seq<T>, at: seq<nat>, upto: nat)
    requires 0 < upto <= |s| && PickedInOrder(s, picked, at, upto - 1)
    ensures PickedInOrder(s, picked, at, upto)
  {}

  lemma PickedNext<T>(s: seq<T>, picked: seq<T>, at: seq<nat>, upto: nat)
    requires 0 < upto <= |s| && PickedInOrder(s, picked, at, upto - 1)
    ensures PickedInOrder(s, picked + [s[upto - 1]], at + [upto - 1], upto)
  {
    var longer, positions := picked + [s[upto - 1]], at + [upto - 1];
    forall i | 0 <= i < |positions| ensures positions[i] < upto && s[positions[i]] == longer[i] {
      if i < |at| { assert positions[i] == at[i] && longer[i] == picked[i]; }
    }
  }

  lemma {:induction false} LabelledInOrder<T>(items: seq<T>, first: nat, labels: seq<nat>, root: nat, upto: nat)
    returns (at: seq<nat>)
    requires upto <= |items| && first + |items| <= |labels|
    ensures PickedInOrder(items, Labelled(items, first, labels, root, upto), at, upto)
    decreases upto
  {
    at := [];
    if upto > 0 {
      at := LabelledInOrder(items, first, labels, root, upto - 1);
      var before := Labelled(items, first, labels, root, upto - 1);
      if labels[first + (upto - 1)] == root {
        PickedNext(items, before, at, upto);
        at := at + [upto - 1];
      } else {
        PickedStays(items, before, at, upto);
      }
    }
  }

  lemma PickedAscends(keys: seq<Key>, picked: seq<Key>, at: seq<nat>)
    requires Ascending(keys) && PickedInOrder(keys, picked, at, |keys|)
    ensures Ascending(picked)
  {
    forall i, j | 0 <= i < j < |picked|
      ensures if picked[i].0 == picked[j].0 then ComesFirst(picked[i].1, picked[j].1) else ComesFirst(picked[i].0, picked[j].0)
    {
      assert at[i] < at[j] && keys[at[i]] == picked[i] && keys[at[j]] == picked[j];
    }
  }

  /** The members of a component are in ascending order too. */
  lemma ComponentAscends(batch: BatchCreate, labels: seq<nat>, root: nat)
    requires |labels| == Size(batch)
    requires Ascending(ProxyKeys(batch.proxies)) && Ascending(PluginKeys(batch.pluginConfigs))
    ensures var component := Component(batch, labels, root);
            Ascending(ProxyKeys(component.proxies)) && Ascending(PluginKeys(component.pluginConfigs))
  {
    var p := LabelledInOrder(batch.pluginConfigs, 0, labels, root, |batch.pluginConfigs|);
    var x := LabelledInOrder(batch.proxies, |batch.pluginConfigs|, labels, root, |batch.proxies|);
    var component := Component(batch, labels, root);
    PickedAscends(PluginKeys(batch.pluginConfigs), PluginKeys(component.pluginConfigs), p);
    PickedAscends(ProxyKeys(batch.proxies), ProxyKeys(component.proxies), x);
  }

  /** `roots` rise, and each is the number of a member of its group. */
  ghost predicate RootedInOrder(batch: BatchCreate, groups: seq<BatchCreate>, roots: seq<nat>, upto: nat)
    requires upto <= Size(batch)
  {
    && |roots| == |groups|
    && (forall k :: 0 <= k < |roots| ==> roots[k] < upto && Holds(groups[k], NodeAt(batch, roots[k])))
    && forall k, l :: 0 <= k < l < |roots| ==> roots[k] < roots[l]
  }

  lemma RootIsHeld(batch: BatchCreate, root: nat)
    requires root < Size(batch) && Component(batch, ComponentLabels(batch), root) != EMPTY
    ensures Holds(Component(batch, ComponentLabels(batch), root), NodeAt(batch, root))
  {
    var labels := ComponentLabels(batch);
    var component := Component(batch, labels, root);
    var u := if component.pluginConfigs != [] then PluginNode(component.pluginConfigs[0])
             else ProxyNode(component.proxies[0]);
    ComponentHolds(batch, labels, root, u);
    var i: nat :| StandsAt(batch, labels, root, u, i);
    EdgesInRange(batch);
    LabelsAreRoots(Size(batch), Edges(batch));
    assert StandsAt(batch, labels, root, NodeAt(batch, root), root);
    ComponentHolds(batch, labels, root, NodeAt(batch, root));
  }

  lemma RootComesLast(batch: BatchCreate, groups: seq<BatchCreate>, roots: seq<nat>, group: BatchCreate, root: nat)
    requires root < Size(batch) && RootedInOrder(batch, groups, roots, root) && Holds(group, NodeAt(batch, root))
    ensures RootedInOrder(batch, groups + [group], roots + [root], root + 1)
  {}

  lemma RootedStep(batch: BatchCreate, groups: seq<BatchCreate>, roots: seq<nat>, group: BatchCreate, root: nat)
    returns (more: seq<nat>)
    requires root < Size(batch) && RootedInOrder(batch, groups, roots, root)
    requires group == Component(batch, ComponentLabels(batch), root)
    ensures RootedInOrder(batch, if group == EMPTY then groups else groups + [group], more, root + 1)
  {
    more := roots;
    if group != EMPTY {
      RootIsHeld(batch, root);
      RootComesLast(batch, groups, roots, group, root);
      more := roots + [root];
    }
  }

  lemma {:induction false} ComponentsAreRooted(batch: BatchCreate, upto: nat) returns (roots: seq<nat>)
    requires upto <= Size(batch)
    ensures RootedInOrder(batch, ComponentsBelow(batch, ComponentLabels(batch), upto), roots, upto)
    decreases upto
  {
    roots := [];
    if upto > 0 {
      var labels := ComponentLabels(batch);
      roots := ComponentsAreRooted(batch, upto - 1);
      roots := RootedStep(batch, ComponentsBelow(batch, labels, upto - 1), roots, Component(batch, labels, upto - 1), upto - 1);
    }
  }

  /** The groups before the components: upstreams one by one, then consumers. */
  ghost predicate StandAlone(sorted: BatchCreate, groups: seq<BatchCreate>) {
    && |groups| == |sorted.upstreams| + |sorted.consumers|
    && (forall i :: 0 <= i < |sorted.upstreams| ==> groups[i] == BatchCreate([sorted.upstreams[i]], [], [], []))
    && (forall i :: 0 <= i < |sorted.consumers| ==>
          groups[|sorted.upstreams| + i] == BatchCreate([], [sorted.consumers[i]], [], []))
  }

  lemma StandaloneListed(sorted: BatchCreate)
    ensures StandAlone(sorted, UpstreamGroups(sorted.upstreams) + ConsumerGroups(sorted.consumers))
  {}

  ghost predicate MembersAscend(group: BatchCreate) {
    Ascending(ProxyKeys(group.proxies)) && Ascending(PluginKeys(group.pluginConfigs))
  }

  lemma ComponentsAscend(batch: BatchCreate, g: BatchCreate)
    requires Ascending(ProxyKeys(batch.proxies)) && Ascending(PluginKeys(batch.pluginConfigs))
    requires g in ComponentsBelow(batch, ComponentLabels(batch), Size(batch))
    ensures MembersAscend(g)
  {
    ComponentsListed(batch, ComponentLabels(batch), Size(batch), g);
    var root :| 0 <= root < Size(batch) && g == Component(batch, ComponentLabels(batch), root);
    ComponentAscends(batch, ComponentLabels(batch), root);
  }

  /**
   * Upstreams one by one in ascending order, then consumers likewise, then the components, in the order
   * of one member of each; and every component lists its members in ascending order.
   */
  lemma GroupsAscend(batch: BatchCreate) returns (alone: seq<BatchCreate>, components: seq<BatchCreate>, roots: seq<nat>)
    ensures DependencyGroups(batch) == alone + components
    ensures StandAlone(Sorted(batch), alone)
    ensures Ascending(UpstreamKeys(Sorted(batch).upstreams)) && Ascending(ConsumerKeys(Sorted(batch).consumers))
    ensures RootedInOrder(Sorted(batch), components, roots, Size(Sorted(batch)))
    ensures forall g :: g in components ==> MembersAscend(g)
  {
    var sorted := Sorted(batch);
    SortingAscends(batch);
    alone := UpstreamGroups(sorted.upstreams) + ConsumerGroups(sorted.consumers);
    components := ComponentsBelow(sorted, ComponentLabels(sorted), Size(sorted));
    StandaloneListed(sorted);
    roots := ComponentsAreRooted(sorted, Size(sorted));
    forall g | g in components ensures MembersAscend(g) { ComponentsAscend(sorted, g); }
  }
}
