/** The slice of the Kubernetes core/v1 and networking/v1 objects that policy resolution reads.
    Go maps whose iteration order reaches the output (`MatchLabels`) are sequences of pairs
    with distinct keys, supplied in whatever order the map happened to iterate. */
module Api {
  import opened Wrappers

  /** Key/value pairs with no key repeated: a Go `map[string]string` in one iteration order. */
  predicate DistinctKeys(pairs: seq<(string, string)>)
  {
    forall i, j :: 0 <= i < j < |pairs| ==> pairs[i].0 != pairs[j].0
  }

  type LabelPairs = pairs: seq<(string, string)> | DistinctKeys(pairs)

  /** metav1.LabelSelectorRequirement; its operator semantics belong to the label library. */
  datatype Expression = Expression(key: string, operator: string, values: seq<string>)

  /** metav1.LabelSelector. */
  datatype LabelSelector = LabelSelector(matchLabels: LabelPairs, matchExpressions: seq<Expression>)

  /** The pod under inspection; only its labels take part in matching. */
  datatype Pod = Pod(namespace: string, name: string, labels: map<string, string>)

  /** intstr.IntOrString. */
  datatype PortValue = PortNumber(number: int) | PortName(name: string)

  /** networkingv1.NetworkPolicyPort: protocol, port and end of range are all pointers. */
  datatype PolicyPort = PolicyPort(protocol: Option<string>, port: Option<PortValue>, endPort: Option<int>)

  /** networkingv1.IPBlock. */
  datatype IPBlock = IPBlock(cidr: string, except: seq<string>)

  /** networkingv1.NetworkPolicyPeer: any combination of the three descriptors may be set. */
  datatype Peer = Peer(podSelector: Option<LabelSelector>, namespaceSelector: Option<LabelSelector>, ipBlock: Option<IPBlock>)

  /** An ingress rule (peers are its `From`) or an egress rule (peers are its `To`). */
  datatype Rule = Rule(ports: seq<PolicyPort>, peers: seq<Peer>)

  /** networkingv1.NetworkPolicySpec; `None` rule lists are Go nil slices. */
  datatype PolicySpec = PolicySpec(
    podSelector: LabelSelector,
    ingress: Option<seq<Rule>>,
    egress: Option<seq<Rule>>,
    policyTypes: seq<string>)

  datatype NetworkPolicy = NetworkPolicy(namespace: string, name: string, spec: PolicySpec)

  /** The two traffic directions a policy can govern. */
  datatype Direction = Ingress | Egress
  {
    /** The networkingv1.PolicyType constant, which is also the first column of a row. */
    function Name(): string
    {
      match this
      case Ingress => "Ingress"
      case Egress => "Egress"
    }
  }

  /** The rule list a policy declares for a direction. */
  function RulesFor(p: NetworkPolicy, d: Direction): Option<seq<Rule>>
  {
    match d
    case Ingress => p.spec.ingress
    case Egress => p.spec.egress
  }

  /** One data row of the output table: Direction, NetPol, Action, Port, Source/Destination. */
  datatype Row = Row(direction: string, policy: string, action: string, ports: string, peer: string)

  /** Every port of the rule has its `Port` set (the formatter dereferences it). */
  predicate PortsSet(rules: seq<Rule>)
  {
    forall k, m :: 0 <= k < |rules| && 0 <= m < |rules[k].ports| ==> rules[k].ports[m].port.Some?
  }

  /** Every rule list a policy declares satisfies `PortsSet`. */
  predicate PolicyPortsSet(p: NetworkPolicy)
  {
    (p.spec.ingress.Some? ==> PortsSet(p.spec.ingress.value)) &&
    (p.spec.egress.Some? ==> PortsSet(p.spec.egress.value))
  }
}
