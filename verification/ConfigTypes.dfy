/** The routing part of the gateway configuration. */
module ConfigTypes {
  import opened Wrappers

  /** A parsed absolute URL; only its identity matters here. */
  datatype Url = Url(text: string)

  /** url.Parse followed by the test for a non-empty scheme and host: None when either rejects the text. */
  type UrlParser = string -> Option<Url>

  datatype LbNode = LbNode(id: string, upstream: string, weight: int, enabled: bool)

  datatype LbPool = LbPool(id: string, name: string, strategy: string, nodes: seq<LbNode>)

  datatype LbRouteRule = LbRouteRule(domain: string, poolId: string, fallbackPoolId: string, forceHttps: bool)

  datatype LoadBalancerConfig = LoadBalancerConfig(defaultPoolId: string, pools: seq<LbPool>, routes: seq<LbRouteRule>)

  datatype DomainRule = DomainRule(domain: string, upstream: string, forceHttps: bool)

  datatype RoutingConfig = RoutingConfig(defaultUpstream: string, domains: seq<DomainRule>)

  const EMPTY_ROUTING := RoutingConfig("", [])

  datatype Config = Config(routing: RoutingConfig, loadBalancer: LoadBalancerConfig)

  datatype RouteMatch = RouteMatch(domain: string, forceHttps: bool, target: Url)
}
