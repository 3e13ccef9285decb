/**
 * Which plugins the gateway runs for a proxy, and in which order.
 *
 * The catalogue of built-in plugins is a parameter: the priority of each name it knows.
 */
module PluginScope {
  import opened GatewaySchema
  import opened Ordering
  import opened Wrappers

  /** The priority of each built-in plugin, by name. */
  type Catalog = string -> Option<nat>

  const DEFAULT_PRIORITY := 5000

  predicate IsSizeLimiting(name: string) {
    name == "request_size_limiting" || name == "response_size_limiting"
  }

  function EffectivePriority(c: Catalog, plugin: PluginConfig): nat {
    match plugin.priorityOverride
    case Some(priority) => priority
    case None =>
      match c(plugin.pluginName)
      case Some(priority) => priority
      case None => DEFAULT_PRIORITY
  }

  predicate IsScopedTo(plugin: PluginConfig, proxy: Proxy) {
    match plugin.scope
    case Global => false
    case ProxyScope => plugin.proxyId == Some(proxy.id) && plugin.id in proxy.plugins
    case ProxyGroup => plugin.id in proxy.plugins
  }

  predicate IsEnabledFor(plugin: PluginConfig, proxy: Proxy) {
    plugin.enabled && plugin.namespace == proxy.namespace
  }

  // ---- The merge ----

  function EnabledFor(configs: seq<PluginConfig>, proxy: Proxy): seq<PluginConfig> {
    Filter(configs, (p: PluginConfig) => IsEnabledFor(p, proxy))
  }

  function ScopedFor(configs: seq<PluginConfig>, proxy: Proxy): seq<PluginConfig> {
    Filter(EnabledFor(configs, proxy), (p: PluginConfig) => IsScopedTo(p, proxy))
  }

  /** A scoped instance displaces globals of this name. */
  predicate Displaced(scoped: seq<PluginConfig>, name: string) {
    !IsSizeLimiting(name) && exists i :: 0 <= i < |scoped| && scoped[i].pluginName == name
  }

  function GlobalsFor(configs: seq<PluginConfig>, proxy: Proxy): seq<PluginConfig> {
    var scoped := ScopedFor(configs, proxy);
    Filter(EnabledFor(configs, proxy), (p: PluginConfig) => p.scope.Global? && !Displaced(scoped, p.pluginName))
  }

  function ByPriority(c: Catalog): (PluginConfig, PluginConfig) -> bool {
    (a: PluginConfig, b: PluginConfig) => EffectivePriority(c, a) <= EffectivePriority(c, b)
  }

  /** The surviving globals, then the scoped instances, sorted by priority. */
  function Effective(c: Catalog, configs: seq<PluginConfig>, proxy: Proxy): seq<PluginConfig> {
    StableSort(GlobalsFor(configs, proxy) + ScopedFor(configs, proxy), ByPriority(c))
  }

  /** The vector as the merge builds it. */
  method EffectivePlugins(c: Catalog, configs: seq<PluginConfig>, proxy: Proxy) returns (effective: seq<PluginConfig>)
    ensures effective == Effective(c, configs, proxy)
  {
    var enabled := EnabledFor(configs, proxy);
    var scoped := Filter(enabled, (p: PluginConfig) => IsScopedTo(p, proxy));
    effective := GlobalsFor(configs, proxy);
    effective := effective + scoped;
    effective := StableSort(effective, ByPriority(c));
  }

  // ---- The merge, said of each plugin ----

  /** `p` is enabled in the proxy's namespace, and attached: listed by the proxy, and its own if proxy-scoped. */
  predicate Attached(p: PluginConfig, proxy: Proxy) {
    && p.enabled && p.namespace == proxy.namespace && p.id in proxy.plugins
    && (p.scope.ProxyGroup? || (p.scope.ProxyScope? && p.proxyId == Some(proxy.id)))
  }

  /** `p` is global and enabled in the namespace, and no attached instance of its name replaces it. */
  predicate Unreplaced(configs: seq<PluginConfig>, proxy: Proxy, p: PluginConfig) {
    && p.enabled && p.namespace == proxy.namespace && p.scope.Global?
    && (|| p.pluginName in {"request_size_limiting", "response_size_limiting"}
        || !exists q :: q in configs && Attached(q, proxy) && q.pluginName == p.pluginName)
  }

  /** The rule: configured, and attached, or global and not replaced. */
  ghost predicate InEffect(configs: seq<PluginConfig>, proxy: Proxy, p: PluginConfig) {
    p in configs && (Attached(p, proxy) || Unreplaced(configs, proxy, p))
  }

  lemma ScopedMember(configs: seq<PluginConfig>, proxy: Proxy, p: PluginConfig)
    ensures p in ScopedFor(configs, proxy) <==> p in configs && Attached(p, proxy)
  {
    FilterMember(EnabledFor(configs, proxy), (p: PluginConfig) => IsScopedTo(p, proxy), p);
    FilterMember(configs, (p: PluginConfig) => IsEnabledFor(p, proxy), p);
  }

  lemma DisplacedExactly(configs: seq<PluginConfig>, proxy: Proxy, name: string)
    ensures Displaced(ScopedFor(configs, proxy), name)
            <==> !IsSizeLimiting(name) && exists q :: q in configs && Attached(q, proxy) && q.pluginName == name
  {
    var scoped := ScopedFor(configs, proxy);
    if q :| q in configs && Attached(q, proxy) && q.pluginName == name {
      ScopedMember(configs, proxy, q);
      var i :| 0 <= i < |scoped| && scoped[i] == q;
    }
    if i :| 0 <= i < |scoped| && scoped[i].pluginName == name {
      ScopedMember(configs, proxy, scoped[i]);
    }
  }

  lemma GlobalMember(configs: seq<PluginConfig>, proxy: Proxy, p: PluginConfig)
    ensures p in GlobalsFor(configs, proxy)
            <==> p in configs && IsEnabledFor(p, proxy) && p.scope.Global?
                 && !Displaced(ScopedFor(configs, proxy), p.pluginName)
  {
    var scoped := ScopedFor(configs, proxy);
    FilterMember(EnabledFor(configs, proxy),
                 (p: PluginConfig) => p.scope.Global? && !Displaced(scoped, p.pluginName), p);
    FilterMember(configs, (p: PluginConfig) => IsEnabledFor(p, proxy), p);
  }

  /** A plugin is in the effective list exactly when the rule puts it in effect. */
  lemma EffectiveIsExact(c: Catalog, configs: seq<PluginConfig>, proxy: Proxy, p: PluginConfig)
    ensures p in Effective(c, configs, proxy) <==> InEffect(configs, proxy, p)
  {
    var globals, scoped := GlobalsFor(configs, proxy), ScopedFor(configs, proxy);
    SortPermutes(globals + scoped, ByPriority(c));
    assert p in Effective(c, configs, proxy) <==> p in multiset(globals + scoped);
    ScopedMember(configs, proxy, p);
    GlobalMember(configs, proxy, p);
    DisplacedExactly(configs, proxy, p.pluginName);
  }

  /** The priority of a plugin: its own, or that of the built-in it names, or 5000. */
  predicate HasPriority(c: Catalog, p: PluginConfig, priority: nat) {
    match (p.priorityOverride, c(p.pluginName))
    case (Some(own), _) => priority == own
    case (None, Some(builtin)) => priority == builtin
    case (None, None) => priority == 5000
  }

  lemma GlobalsAreUnreplaced(configs: seq<PluginConfig>, proxy: Proxy)
    ensures GlobalsFor(configs, proxy) == Filter(configs, (p: PluginConfig) => Unreplaced(configs, proxy, p))
  {
    var enabled := (p: PluginConfig) => IsEnabledFor(p, proxy);
    var scoped := ScopedFor(configs, proxy);
    var global := (p: PluginConfig) => p.scope.Global? && !Displaced(scoped, p.pluginName);
    var unreplaced := (p: PluginConfig) => Unreplaced(configs, proxy, p);
    forall p | p in configs ensures unreplaced(p) <==> enabled(p) && global(p) {
      DisplacedExactly(configs, proxy, p.pluginName);
    }
    FilterOfFilter(configs, enabled, global, unreplaced);
  }

  lemma GlobalsAre(configs: seq<PluginConfig>, proxy: Proxy, c: Catalog, priority: nat)
    ensures Filter(GlobalsFor(configs, proxy), (p: PluginConfig) => HasPriority(c, p, priority))
            == Filter(configs, (p: PluginConfig) => Unreplaced(configs, proxy, p) && HasPriority(c, p, priority))
  {
    GlobalsAreUnreplaced(configs, proxy);
    FilterOfFilter(configs, (p: PluginConfig) => Unreplaced(configs, proxy, p),
                   (p: PluginConfig) => HasPriority(c, p, priority),
                   (p: PluginConfig) => Unreplaced(configs, proxy, p) && HasPriority(c, p, priority));
  }

  lemma ScopedAre(configs: seq<PluginConfig>, proxy: Proxy, c: Catalog, priority: nat)
    ensures Filter(ScopedFor(configs, proxy), (p: PluginConfig) => HasPriority(c, p, priority))
            == Filter(configs, (p: PluginConfig) => Attached(p, proxy) && HasPriority(c, p, priority))
  {
    var attached := (p: PluginConfig) => Attached(p, proxy);
    FilterOfFilter(configs, (p: PluginConfig) => IsEnabledFor(p, proxy), (p: PluginConfig) => IsScopedTo(p, proxy), attached);
    FilterOfFilter(configs, attached, (p: PluginConfig) => HasPriority(c, p, priority),
                   (p: PluginConfig) => Attached(p, proxy) && HasPriority(c, p, priority));
  }

  /**
   * The list is in priority order; among equals the globals come first, and each keep the order they are
   * configured in.
   */
  lemma EffectiveIsOrdered(c: Catalog, configs: seq<PluginConfig>, proxy: Proxy, priority: nat)
    ensures var list := Effective(c, configs, proxy);
            forall i, j, m, n :: 0 <= i < j < |list| && HasPriority(c, list[i], m) && HasPriority(c, list[j], n) ==> m <= n
    ensures Filter(Effective(c, configs, proxy), (p: PluginConfig) => HasPriority(c, p, priority))
            == Filter(configs, (p: PluginConfig) => Unreplaced(configs, proxy, p) && HasPriority(c, p, priority))
               + Filter(configs, (p: PluginConfig) => Attached(p, proxy) && HasPriority(c, p, priority))
  {
    var globals, scoped := GlobalsFor(configs, proxy), ScopedFor(configs, proxy);
    var same := (p: PluginConfig) => HasPriority(c, p, priority);
    SortSorts(globals + scoped, ByPriority(c));
    forall p ensures HasPriority(c, p, EffectivePriority(c, p)) {}
    SortIsStable(globals + scoped, ByPriority(c), same);
    FilterOfBoth(globals, scoped, same);
    GlobalsAre(configs, proxy, c, priority);
    ScopedAre(configs, proxy, c, priority);
  }

  lemma {:induction false} FilterSplits<T>(s: seq<T>, a: T -> bool, b: T -> bool, either: T -> bool)
    requires forall x :: x in s ==> !(a(x) && b(x)) && (either(x) <==> a(x) || b(x))
    ensures multiset(Filter(s, a)) + multiset(Filter(s, b)) == multiset(Filter(s, either))
  {
    if s != [] { FilterSplits(s[1..], a, b, either); }
  }

  /** Nothing is duplicated or lost: a plugin in effect appears as often as it is configured. */
  lemma EffectiveConserves(c: Catalog, configs: seq<PluginConfig>, proxy: Proxy)
    ensures multiset(Effective(c, configs, proxy))
            == multiset(Filter(configs, (p: PluginConfig) => Attached(p, proxy) || Unreplaced(configs, proxy, p)))
  {
    var attached := (p: PluginConfig) => Attached(p, proxy);
    var unreplaced := (p: PluginConfig) => Unreplaced(configs, proxy, p);
    GlobalsAreUnreplaced(configs, proxy);
    FilterOfFilter(configs, (p: PluginConfig) => IsEnabledFor(p, proxy), (p: PluginConfig) => IsScopedTo(p, proxy), attached);
    SortPermutes(GlobalsFor(configs, proxy) + ScopedFor(configs, proxy), ByPriority(c));
    FilterSplits(configs, attached, unreplaced,
                 (p: PluginConfig) => Attached(p, proxy) || Unreplaced(configs, proxy, p));
  }
}
