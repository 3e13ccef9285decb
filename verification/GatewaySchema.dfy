/**
 * The resources of a gateway configuration, with what planning and plugin analysis read of them and
 * `json`, the bytes a resource serializes to.
 */
module GatewaySchema {
  import opened Wrappers

  datatype BackendScheme = Http | Https | Tcp | Tcps | Udp | Dtls

  datatype Scope = Global | ProxyScope | ProxyGroup

  datatype Upstream = Upstream(namespace: string, id: string, json: Bytes)

  datatype Consumer = Consumer(namespace: string, id: string, json: Bytes)

  /** `plugins` lists the ids of the associated plugin configs. */
  datatype Proxy = Proxy(
    namespace: string,
    id: string,
    plugins: seq<string>,
    listenPort: Option<nat>,
    backendScheme: Option<BackendScheme>,
    passthrough: bool,
    frontendTls: bool,
    json: Bytes)

  /** `conditional` says that the plugin carries a trigger. */
  datatype PluginConfig = PluginConfig(
    namespace: string,
    id: string,
    pluginName: string,
    enabled: bool,
    scope: Scope,
    proxyId: Option<string>,
    priorityOverride: Option<nat>,
    conditional: bool,
    json: Bytes)
}
