/** Whether the plugins in effect for a proxy authenticate every request it serves. */
module PluginAuth {
  import opened GatewaySchema
  import opened Ordering
  import opened PluginScope
  import opened Wrappers
  import LogSanitizer

  // ---- Protocols ----

  datatype Protocol = HttpRequest | Grpc | WebSocket | TcpStream | UdpStream
  datatype Transport = HttpFamily | TcpListener | UdpListener

  const HTTP_FAMILY_PROTOCOLS: seq<Protocol> := [HttpRequest, Grpc, WebSocket]

  function EffectiveScheme(proxy: Proxy): BackendScheme {
    match proxy.backendScheme
    case Some(scheme) => scheme
    case None => if proxy.listenPort.Some? then Tcp else Https
  }

  function TransportOf(proxy: Proxy): Transport {
    match EffectiveScheme(proxy)
    case Http => HttpFamily
    case Https => HttpFamily
    case Tcp => TcpListener
    case Tcps => TcpListener
    case Udp => UdpListener
    case Dtls => UdpListener
  }

  function RequestProtocols(transport: Transport): seq<Protocol> {
    match transport
    case HttpFamily => HTTP_FAMILY_PROTOCOLS
    case TcpListener => [TcpStream]
    case UdpListener => [UdpStream]
  }

  predicate ListenerCanEstablishIdentity(proxy: Proxy) {
    !proxy.passthrough && (TransportOf(proxy).HttpFamily? || proxy.frontendTls)
  }

  predicate IsAuthPlugin(name: string) {
    name in {"mtls_auth", "jwks_auth", "oauth2_introspection", "oidc_relying_party", "jwt_auth",
             "key_auth", "ldap_auth", "basic_auth", "hmac_auth", "soap_ws_security"}
  }

  function BuiltinAuthProtocols(name: string): set<Protocol> {
    if name == "mtls_auth" then {HttpRequest, Grpc, WebSocket, TcpStream, UdpStream}
    else if name == "soap_ws_security" then {HttpRequest}
    else if IsAuthPlugin(name) then {HttpRequest, Grpc, WebSocket}
    else {}
  }

  // ---- The allowlist ----

  function TrimStart(s: string): string {
    if s != "" && LogSanitizer.IsWhitespace(s[0]) then TrimStart(s[1..]) else s
  }

  function TrimEnd(s: string): string {
    if s != "" && LogSanitizer.IsWhitespace(s[|s| - 1]) then TrimEnd(s[..|s| - 1]) else s
  }

  function Trim(s: string): string { TrimEnd(TrimStart(s)) }

  predicate AllWhitespace(s: string) { forall k :: 0 <= k < |s| ==> LogSanitizer.IsWhitespace(s[k]) }

  lemma {:induction false} TrimStartIs(s: string) returns (before: string)
    ensures AllWhitespace(before) && s == before + TrimStart(s)
    ensures TrimStart(s) != "" ==> !LogSanitizer.IsWhitespace(TrimStart(s)[0])
  {
    before := "";
    if s != "" && LogSanitizer.IsWhitespace(s[0]) {
      var rest := TrimStartIs(s[1..]);
      before := [s[0]] + rest;
      assert s == [s[0]] + s[1..];
    }
  }

  lemma {:induction false} TrimEndIs(s: string) returns (after: string)
    ensures AllWhitespace(after) && s == TrimEnd(s) + after
    ensures TrimEnd(s) != "" ==> !LogSanitizer.IsWhitespace(TrimEnd(s)[|TrimEnd(s)| - 1])
  {
    after := "";
    if s != "" && LogSanitizer.IsWhitespace(s[|s| - 1]) {
      var rest := TrimEndIs(s[..|s| - 1]);
      after := rest + [s[|s| - 1]];
      assert s == s[..|s| - 1] + [s[|s| - 1]];
    }
  }

  /** Trimming takes whitespace off both ends, and leaves none there. */
  lemma TrimIs(s: string) returns (before: string, after: string)
    ensures AllWhitespace(before) && AllWhitespace(after) && s == before + Trim(s) + after
    ensures Trim(s) != "" ==>
              && !LogSanitizer.IsWhitespace(Trim(s)[0])
              && !LogSanitizer.IsWhitespace(Trim(s)[|Trim(s)| - 1])
  {
    before := TrimStartIs(s);
    after := TrimEndIs(TrimStart(s));
    assert s == before + (Trim(s) + after);
    if Trim(s) != "" { assert Trim(s)[0] == TrimStart(s)[0]; }
  }

  /** A declaration is a set of protocols; the order it lists them in is never looked at. */
  datatype AuthAllowlist = AuthAllowlist(names: seq<string>, customProtocols: map<string, set<Protocol>>)

  function TrimmedNames(names: seq<string>, upto: nat): seq<string>
    requires upto <= |names|
  {
    if upto == 0 then []
    else if Trim(names[upto - 1]) != "" then TrimmedNames(names, upto - 1) + [Trim(names[upto - 1])]
    else TrimmedNames(names, upto - 1)
  }

  /** The allowlist holds the trimmed names, and no blank one. */
  lemma {:induction false} TrimmedNamesAre(names: seq<string>, upto: nat, x: string)
    requires upto <= |names|
    ensures x in TrimmedNames(names, upto) <==> x != "" && exists i :: 0 <= i < upto && Trim(names[i]) == x
    decreases upto
  {
    if upto > 0 { TrimmedNamesAre(names, upto - 1, x); }
  }

  /** `declared` gives each trimmed name what all of the visited keys that trim to it allow. */
  ghost predicate Narrowed(custom: map<string, set<Protocol>>, visited: set<string>, declared: map<string, set<Protocol>>) {
    && (forall n :: n in declared <==> n != "" && exists k :: k in visited && k in custom && Trim(k) == n)
    && (forall n, p | n in declared ::
          p in declared[n] <==> forall k :: k in visited && k in custom && Trim(k) == n ==> p in custom[k])
  }

  lemma NarrowedStep(custom: map<string, set<Protocol>>, visited: set<string>, declared: map<string, set<Protocol>>, k: string)
    requires Narrowed(custom, visited, declared) && k in custom && k !in visited
    ensures var name := Trim(k);
            Narrowed(custom, visited + {k},
                     if name == "" then declared
                     else if name in declared then declared[name := declared[name] * custom[k]]
                     else declared[name := custom[k]])
  {
    var name := Trim(k);
    var after := if name == "" then declared
                 else if name in declared then declared[name := declared[name] * custom[k]]
                 else declared[name := custom[k]];
    forall n ensures n in after <==> n != "" && exists j :: j in visited + {k} && j in custom && Trim(j) == n {
      if n == name && n != "" { assert k in visited + {k} && Trim(k) == n; }
    }
    forall n, p | n in after
      ensures p in after[n] <==> forall j :: j in visited + {k} && j in custom && Trim(j) == n ==> p in custom[j]
    {}
  }

  /** Two declarations that trim to one name are narrowed to what both allow, whichever comes first. */
  method NewAllowlist(names: seq<string>, custom: map<string, set<Protocol>>) returns (auth: AuthAllowlist)
    ensures auth.names == TrimmedNames(names, |names|)
    ensures Narrowed(custom, custom.Keys, auth.customProtocols)
  {
    var declared: map<string, set<Protocol>> := map[];
    var todo := custom.Keys;
    ghost var visited: set<string> := {};
    while todo != {}
      invariant todo + visited == custom.Keys && todo !! visited
      invariant Narrowed(custom, visited, declared)
      decreases |todo|
    {
      var k :| k in todo;
      todo := todo - {k};
      NarrowedStep(custom, visited, declared, k);
      visited := visited + {k};
      var name := Trim(k);
      if name == "" {
        continue;
      }
      if name in declared {
        declared := declared[name := declared[name] * custom[k]];
      } else {
        declared := declared[name := custom[k]];
      }
    }
    var trimmed: seq<string> := [];
    for i := 0 to |names|
      invariant trimmed == TrimmedNames(names, i)
    {
      var name := Trim(names[i]);
      if name != "" { trimmed := trimmed + [name]; }
    }
    assert visited == custom.Keys;
    auth := AuthAllowlist(trimmed, declared);
  }

  function Protocols(c: Catalog, auth: AuthAllowlist, name: string): set<Protocol> {
    if c(name).Some? then BuiltinAuthProtocols(name)
    else if name in auth.customProtocols then auth.customProtocols[name]
    else {HttpRequest}
  }

  // ---- Coverage ----

  /** What coverage asks of a plugin name: is it allowlisted, and does the gateway run it on a protocol. */
  datatype Guards = Guards(allowed: string -> bool, runsOn: (string, Protocol) -> bool)

  function GuardsOf(c: Catalog, auth: AuthAllowlist): Guards {
    Guards((name: string) => name in auth.names, (name: string, p: Protocol) => p in Protocols(c, auth, name))
  }

  datatype AuthCoverage = AuthCoverage(
    transport: Transport,
    applicable: seq<PluginConfig>,
    conditional: seq<PluginConfig>,
    inapplicable: seq<PluginConfig>,
    uncovered: seq<Protocol>,
    listenerEstablishesIdentity: bool)

  predicate HttpPluginsAreInert(proxy: Proxy) { TransportOf(proxy).HttpFamily? && proxy.passthrough }

  predicate RunsOnAny(g: Guards, protocols: seq<Protocol>, name: string) {
    exists i :: 0 <= i < |protocols| && g.runsOn(name, protocols[i])
  }

  datatype AuthClass = NotAllowed | Applicable | Conditional | Inapplicable

  function ClassOf(g: Guards, protocols: seq<Protocol>, inert: bool, plugin: PluginConfig): AuthClass {
    if !g.allowed(plugin.pluginName) then NotAllowed
    else if inert || !RunsOnAny(g, protocols, plugin.pluginName) then Inapplicable
    else if plugin.conditional then Conditional
    else Applicable
  }

  function OfClass(g: Guards, protocols: seq<Protocol>, inert: bool, class_: AuthClass): PluginConfig -> bool {
    (p: PluginConfig) => ClassOf(g, protocols, inert, p) == class_
  }

  predicate CoveredBy(g: Guards, plugins: seq<PluginConfig>, protocol: Protocol) {
    exists i :: 0 <= i < |plugins| && g.runsOn(plugins[i].pluginName, protocol)
  }

  function NotCoveredBy(g: Guards, plugins: seq<PluginConfig>): Protocol -> bool {
    (protocol: Protocol) => !CoveredBy(g, plugins, protocol)
  }

  function Coverage(g: Guards, effective: seq<PluginConfig>, proxy: Proxy): AuthCoverage {
    var protocols := RequestProtocols(TransportOf(proxy));
    var inert := HttpPluginsAreInert(proxy);
    var applicable := Filter(effective, OfClass(g, protocols, inert, Applicable));
    AuthCoverage(TransportOf(proxy), applicable,
                 Filter(effective, OfClass(g, protocols, inert, Conditional)),
                 Filter(effective, OfClass(g, protocols, inert, Inapplicable)),
                 Filter(protocols, NotCoveredBy(g, applicable)),
                 ListenerCanEstablishIdentity(proxy))
  }

  lemma FilterGrows<T>(s: seq<T>, upto: nat, keep: T -> bool)
    requires upto < |s|
    ensures Filter(s[..upto + 1], keep)
            == if keep(s[upto]) then Filter(s[..upto], keep) + [s[upto]] else Filter(s[..upto], keep)
  {
    assert s[..upto + 1] == s[..upto] + [s[upto]];
    FilterAppends(s[..upto], s[upto], keep);
  }

  /** The classification loop. */
  method AuthCoverageOf(g: Guards, effective: seq<PluginConfig>, proxy: Proxy) returns (coverage: AuthCoverage)
    ensures coverage == Coverage(g, effective, proxy)
  {
    var protocols := RequestProtocols(TransportOf(proxy));
    var inert := HttpPluginsAreInert(proxy);
    var applicable: seq<PluginConfig>, conditional: seq<PluginConfig>, inapplicable: seq<PluginConfig> := [], [], [];
    for i := 0 to |effective|
      invariant applicable == Filter(effective[..i], OfClass(g, protocols, inert, Applicable))
      invariant conditional == Filter(effective[..i], OfClass(g, protocols, inert, Conditional))
      invariant inapplicable == Filter(effective[..i], OfClass(g, protocols, inert, Inapplicable))
    {
      var plugin := effective[i];
      FilterGrows(effective, i, OfClass(g, protocols, inert, Applicable));
      FilterGrows(effective, i, OfClass(g, protocols, inert, Conditional));
      FilterGrows(effective, i, OfClass(g, protocols, inert, Inapplicable));
      if !g.allowed(plugin.pluginName) {
        continue;
      }
      var runsOnListener := !inert && RunsOnAny(g, protocols, plugin.pluginName);
      if !runsOnListener {
        inapplicable := inapplicable + [plugin];
      } else if plugin.conditional {
        conditional := conditional + [plugin];
      } else {
        applicable := applicable + [plugin];
      }
    }
    assert effective[..|effective|] == effective;
    coverage := AuthCoverage(TransportOf(proxy), applicable, conditional, inapplicable,
                             Filter(protocols, NotCoveredBy(g, applicable)), ListenerCanEstablishIdentity(proxy));
  }

  predicate IsAuthenticated(coverage: AuthCoverage) {
    coverage.uncovered == [] && coverage.listenerEstablishesIdentity
  }

  /** Is there a reason an exemption cannot cover this proxy's gap? */
  predicate HasExemptionGap(g: Guards, coverage: AuthCoverage) {
    || !coverage.listenerEstablishesIdentity
    || Filter(coverage.uncovered, NotCoveredBy(g, coverage.conditional)) != []
  }

  // ---- What the tables mean ----

  predicate IsHttpListener(proxy: Proxy) {
    match proxy.backendScheme
    case None => proxy.listenPort.None?
    case Some(scheme) => scheme.Http? || scheme.Https?
  }

  /** The protocols a proxy's clients may speak: one of the streams, or the whole HTTP family. */
  predicate Serves(proxy: Proxy, protocol: Protocol) {
    match protocol
    case TcpStream =>
      (match proxy.backendScheme
       case None => proxy.listenPort.Some?
       case Some(scheme) => scheme.Tcp? || scheme.Tcps?)
    case UdpStream => proxy.backendScheme == Some(Udp) || proxy.backendScheme == Some(Dtls)
    case _ => IsHttpListener(proxy)
  }

  /** A listener that passes TLS through sees no identity, and a stream listener only behind its own TLS. */
  predicate GivesIdentity(proxy: Proxy) { !proxy.passthrough && (IsHttpListener(proxy) || proxy.frontendTls) }

  /**
   * Where an allowlisted plugin authenticates: mutual TLS everywhere, SOAP security on plain HTTP, the
   * other built-in authenticators on the HTTP family, other built-ins nowhere, and a custom plugin where
   * it is declared to, or else on plain HTTP.
   */
  predicate AuthenticatesOn(c: Catalog, auth: AuthAllowlist, name: string, protocol: Protocol) {
    if c(name).Some? then
      || name == "mtls_auth"
      || (name == "soap_ws_security" && protocol == HttpRequest)
      || (name in {"jwks_auth", "oauth2_introspection", "oidc_relying_party", "jwt_auth", "key_auth", "ldap_auth",
                   "basic_auth", "hmac_auth"}
          && (protocol == HttpRequest || protocol == Grpc || protocol == WebSocket))
    else if name in auth.customProtocols then protocol in auth.customProtocols[name]
    else protocol == HttpRequest
  }

  lemma TablesAreExact(proxy: Proxy, protocol: Protocol)
    ensures protocol in RequestProtocols(TransportOf(proxy)) <==> Serves(proxy, protocol)
    ensures ListenerCanEstablishIdentity(proxy) <==> GivesIdentity(proxy)
    ensures HttpPluginsAreInert(proxy) <==> IsHttpListener(proxy) && proxy.passthrough
  {}

  lemma ProtocolsAreExact(c: Catalog, auth: AuthAllowlist, name: string, protocol: Protocol)
    ensures protocol in Protocols(c, auth, name) <==> AuthenticatesOn(c, auth, name, protocol)
  {
    match protocol { case HttpRequest => case Grpc => case WebSocket => case TcpStream => case UdpStream => }
  }

  // ---- What coverage means ----

  /** An effective, allowlisted plugin the gateway runs on `protocol`, conditional or not. */
  ghost predicate Guarded(g: Guards, effective: seq<PluginConfig>, protocol: Protocol, conditional: bool) {
    exists p :: p in effective && g.allowed(p.pluginName) && p.conditional == conditional
                && g.runsOn(p.pluginName, protocol)
  }

  lemma EmptyFilter<T(!new)>(s: seq<T>, keep: T -> bool)
    ensures Filter(s, keep) == [] <==> forall x :: x in s ==> !keep(x)
  {
    forall x | x in s && keep(x) ensures Filter(s, keep) != [] { FilterMember(s, keep, x); }
    if Filter(s, keep) != [] { FilterMember(s, keep, Filter(s, keep)[0]); }
  }

  /** On a listener that is not inert, the plugins of a class cover exactly what such plugins run on. */
  lemma ClassCovers(g: Guards, effective: seq<PluginConfig>, protocols: seq<Protocol>, protocol: Protocol, conditional: bool)
    requires protocol in protocols
    ensures CoveredBy(g, Filter(effective, OfClass(g, protocols, false, if conditional then Conditional else Applicable)), protocol)
            <==> Guarded(g, effective, protocol, conditional)
  {
    var keep := OfClass(g, protocols, false, if conditional then Conditional else Applicable);
    var kept := Filter(effective, keep);
    if p :| p in effective && g.allowed(p.pluginName) && p.conditional == conditional && g.runsOn(p.pluginName, protocol) {
      var j :| 0 <= j < |protocols| && protocols[j] == protocol;
      assert RunsOnAny(g, protocols, p.pluginName);
      FilterMember(effective, keep, p);
      var i :| 0 <= i < |kept| && kept[i] == p;
    }
    if i :| 0 <= i < |kept| && g.runsOn(kept[i].pluginName, protocol) {
      FilterMember(effective, keep, kept[i]);
    }
  }

  /**
   * A proxy is authenticated exactly when its listener can establish an identity and every protocol
   * it serves has an unconditional allowlisted plugin in effect that runs on it.
   */
  lemma AuthenticatedExactly(g: Guards, effective: seq<PluginConfig>, proxy: Proxy)
    ensures IsAuthenticated(Coverage(g, effective, proxy))
            <==> GivesIdentity(proxy) && forall q :: Serves(proxy, q) ==> Guarded(g, effective, q, false)
  {
    forall q ensures q in RequestProtocols(TransportOf(proxy)) <==> Serves(proxy, q) { TablesAreExact(proxy, q); }
    TablesAreExact(proxy, HttpRequest);
    var protocols := RequestProtocols(TransportOf(proxy));
    var coverage := Coverage(g, effective, proxy);
    if ListenerCanEstablishIdentity(proxy) {
      assert !HttpPluginsAreInert(proxy);
      EmptyFilter(protocols, NotCoveredBy(g, coverage.applicable));
      forall q | q in protocols
        ensures NotCoveredBy(g, coverage.applicable)(q) <==> !Guarded(g, effective, q, false)
      {
        ClassCovers(g, effective, protocols, q, false);
      }
    }
  }

  /** No exemption gap: the listener establishes an identity, and every protocol is guarded at least conditionally. */
  lemma NoGapExactly(g: Guards, effective: seq<PluginConfig>, proxy: Proxy)
    ensures !HasExemptionGap(g, Coverage(g, effective, proxy))
            <==> GivesIdentity(proxy)
                 && forall q :: Serves(proxy, q) ==> Guarded(g, effective, q, false) || Guarded(g, effective, q, true)
  {
    forall q ensures q in RequestProtocols(TransportOf(proxy)) <==> Serves(proxy, q) { TablesAreExact(proxy, q); }
    TablesAreExact(proxy, HttpRequest);
    var protocols := RequestProtocols(TransportOf(proxy));
    var coverage := Coverage(g, effective, proxy);
    if ListenerCanEstablishIdentity(proxy) {
      assert !HttpPluginsAreInert(proxy);
      EmptyFilter(coverage.uncovered, NotCoveredBy(g, coverage.conditional));
      forall q | q in protocols
        ensures q in coverage.uncovered <==> !Guarded(g, effective, q, false)
        ensures NotCoveredBy(g, coverage.conditional)(q) <==> !Guarded(g, effective, q, true)
      {
        FilterMember(protocols, NotCoveredBy(g, coverage.applicable), q);
        ClassCovers(g, effective, protocols, q, false);
        ClassCovers(g, effective, protocols, q, true);
      }
      forall q | q in coverage.uncovered ensures q in protocols {
        FilterMember(protocols, NotCoveredBy(g, coverage.applicable), q);
      }
    }
  }

  lemma RunsOnServed(g: Guards, proxy: Proxy, name: string)
    ensures RunsOnAny(g, RequestProtocols(TransportOf(proxy)), name)
            <==> exists served :: Serves(proxy, served) && g.runsOn(name, served)
  {
    var protocols := RequestProtocols(TransportOf(proxy));
    forall served ensures served in protocols <==> Serves(proxy, served) { TablesAreExact(proxy, served); }
    if served :| Serves(proxy, served) && g.runsOn(name, served) {
      var i :| 0 <= i < |protocols| && protocols[i] == served;
    }
  }

  lemma CoveredExactly(g: Guards, plugins: seq<PluginConfig>, protocol: Protocol)
    ensures CoveredBy(g, plugins, protocol) <==> exists p :: p in plugins && g.runsOn(p.pluginName, protocol)
  {
    if p :| p in plugins && g.runsOn(p.pluginName, protocol) {
      var i :| 0 <= i < |plugins| && plugins[i] == p;
    }
  }

  /**
   * Which list an allowlisted plugin in effect is in, and which protocols are left uncovered. Behind a
   * passthrough HTTP listener no plugin runs.
   */
  lemma ClassesAreExact(g: Guards, effective: seq<PluginConfig>, proxy: Proxy, p: PluginConfig, q: Protocol)
    ensures
      var coverage := Coverage(g, effective, proxy);
      var runs := !(IsHttpListener(proxy) && proxy.passthrough)
                  && exists served :: Serves(proxy, served) && g.runsOn(p.pluginName, served);
      && (p in coverage.applicable <==> p in effective && g.allowed(p.pluginName) && runs && !p.conditional)
      && (p in coverage.conditional <==> p in effective && g.allowed(p.pluginName) && runs && p.conditional)
      && (p in coverage.inapplicable <==> p in effective && g.allowed(p.pluginName) && !runs)
      && (q in coverage.uncovered <==>
            Serves(proxy, q) && !exists r :: r in coverage.applicable && g.runsOn(r.pluginName, q))
      && (coverage.listenerEstablishesIdentity <==> GivesIdentity(proxy))
  {
    var protocols, inert := RequestProtocols(TransportOf(proxy)), HttpPluginsAreInert(proxy);
    var coverage := Coverage(g, effective, proxy);
    forall served ensures served in protocols <==> Serves(proxy, served) { TablesAreExact(proxy, served); }
    TablesAreExact(proxy, q);
    RunsOnServed(g, proxy, p.pluginName);
    FilterMember(effective, OfClass(g, protocols, inert, Applicable), p);
    FilterMember(effective, OfClass(g, protocols, inert, Conditional), p);
    FilterMember(effective, OfClass(g, protocols, inert, Inapplicable), p);
    FilterMember(protocols, NotCoveredBy(g, coverage.applicable), q);
    CoveredExactly(g, coverage.applicable, q);
  }

  /** The three lists partition the allowlisted plugins in effect. */
  lemma ClassesPartition(g: Guards, effective: seq<PluginConfig>, proxy: Proxy)
    ensures var coverage := Coverage(g, effective, proxy);
            multiset(coverage.applicable) + multiset(coverage.conditional) + multiset(coverage.inapplicable)
            == multiset(Filter(effective, (p: PluginConfig) => g.allowed(p.pluginName)))
  {
    var protocols := RequestProtocols(TransportOf(proxy));
    var inert := HttpPluginsAreInert(proxy);
    var running := (p: PluginConfig) =>
      OfClass(g, protocols, inert, Applicable)(p) || OfClass(g, protocols, inert, Conditional)(p);
    FilterSplits(effective, OfClass(g, protocols, inert, Applicable), OfClass(g, protocols, inert, Conditional), running);
    FilterSplits(effective, running, OfClass(g, protocols, inert, Inapplicable),
                 (p: PluginConfig) => g.allowed(p.pluginName));
  }

  /** An allowlisted plugin that the merge puts in effect and the gateway runs on `protocol`. */
  ghost predicate GuardedByRule(c: Catalog, configs: seq<PluginConfig>, proxy: Proxy, auth: AuthAllowlist,
                                protocol: Protocol, conditional: bool)
  {
    exists p :: InEffect(configs, proxy, p) && p.pluginName in auth.names && p.conditional == conditional
                && AuthenticatesOn(c, auth, p.pluginName, protocol)
  }

  lemma GuardedAsRuled(c: Catalog, configs: seq<PluginConfig>, proxy: Proxy, auth: AuthAllowlist,
                       protocol: Protocol, conditional: bool)
    ensures Guarded(GuardsOf(c, auth), Effective(c, configs, proxy), protocol, conditional)
            <==> GuardedByRule(c, configs, proxy, auth, protocol, conditional)
  {
    var g, effective := GuardsOf(c, auth), Effective(c, configs, proxy);
    if p :| p in effective && g.allowed(p.pluginName) && p.conditional == conditional && g.runsOn(p.pluginName, protocol) {
      EffectiveIsExact(c, configs, proxy, p);
      ProtocolsAreExact(c, auth, p.pluginName, protocol);
    }
    if p :| InEffect(configs, proxy, p) && p.pluginName in auth.names && p.conditional == conditional
            && AuthenticatesOn(c, auth, p.pluginName, protocol) {
      EffectiveIsExact(c, configs, proxy, p);
      ProtocolsAreExact(c, auth, p.pluginName, protocol);
      assert p in effective && g.allowed(p.pluginName) && g.runsOn(p.pluginName, protocol);
    }
  }

  /** From the configuration to the verdict, in terms of the merge rule and the allowlist alone. */
  lemma ProxyIsAuthenticatedExactly(c: Catalog, configs: seq<PluginConfig>, proxy: Proxy, auth: AuthAllowlist)
    ensures IsAuthenticated(Coverage(GuardsOf(c, auth), Effective(c, configs, proxy), proxy))
            <==> GivesIdentity(proxy) && forall q :: Serves(proxy, q) ==> GuardedByRule(c, configs, proxy, auth, q, false)
  {
    AuthenticatedExactly(GuardsOf(c, auth), Effective(c, configs, proxy), proxy);
    forall q ensures Guarded(GuardsOf(c, auth), Effective(c, configs, proxy), q, false)
                     <==> GuardedByRule(c, configs, proxy, auth, q, false)
    {
      GuardedAsRuled(c, configs, proxy, auth, q, false);
    }
  }
}
