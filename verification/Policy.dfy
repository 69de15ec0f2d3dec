/** The MultiNetworkPolicy the operator emits, and what it admits. */
module Policy {
  import opened Text

  datatype Option<+T> = None | Some(value: T)

  /** `intstr.IntOrString`: a port is a number or a name. */
  datatype IntOrString = IntVal(n: int) | StrVal(s: string) {
    function ToString(): string {
      match this
      case IntVal(n) => Itoa(n)
      case StrVal(s) => s
    }
  }

  /** `LabelSelectorRequirement` and the pod selector of a policy. */
  datatype Requirement = Requirement(key: string, operator: string, values: seq<string>)

  datatype Selector = Selector(matchLabels: map<string, string>, matchExpressions: seq<Requirement>)

  /** One allowed port. No protocol means TCP, no port means every port of the
      protocol, and an end port makes the entry an inclusive range. */
  datatype Port = Port(protocol: Option<string>, port: Option<IntOrString>, endPort: Option<int>)

  /** A peer; `None` stands for a peer without an IP block. */
  datatype Peer = Peer(ipBlock: Option<string>)

  datatype Rule = Rule(ports: seq<Port>, to: seq<Peer>)

  /** A destination: the CIDR it belongs to, the protocol, and the port with its number and name. */
  datatype Destination = Destination(cidr: string, protocol: string, port: int, portName: string)

  const PROTOCOLS: seq<string> := ["TCP", "UDP", "SCTP"]

  function ProtocolOf(p: Port): string {
    if p.protocol.Some? then p.protocol.value else "TCP"
  }

  predicate PortAdmits(p: Port, d: Destination) {
    && (p.protocol == Some(d.protocol) || (p.protocol == None && d.protocol == "TCP"))
    && match p.port
       case None => true
       case Some(IntVal(n)) => if p.endPort.Some? then n <= d.port <= p.endPort.value else d.port == n
       case Some(StrVal(s)) => d.portName == s
  }

  predicate PortsAdmit(ports: seq<Port>, d: Destination) {
    ports == [] || exists p :: p in ports && PortAdmits(p, d)
  }

  /** Whether a peer of the rule names this CIDR. */
  predicate Names(r: Rule, cidr: string) {
    cidr != "" && Peer(Some(cidr)) in r.to
  }

  /** An empty peer list, like an empty port list, places no restriction. */
  predicate RuleAdmits(r: Rule, d: Destination) {
    (r.to == [] || Names(r, d.cidr)) && PortsAdmit(r.ports, d)
  }

  predicate Admits(rules: seq<Rule>, d: Destination) {
    exists r :: r in rules && RuleAdmits(r, d)
  }

  /** The CIDRs a rule list mentions. */
  function Cidrs(rules: seq<Rule>): (s: set<string>)
    ensures forall c :: c in s <==> exists r :: r in rules && Names(r, c)
  {
    set r, p | r in rules && p in r.to && p.ipBlock.Some? && p.ipBlock.value != "" :: p.ipBlock.value
  }

  /** Every port entry of a rule list. */
  function PortsIn(rules: seq<Rule>): set<Port> {
    set r, p | r in rules && p in r.ports :: p
  }

  /** A protocol of the enumeration, and a port name that is a name: not the word the
      port keys use for "every port", and free of the separator of fingerprints. */
  predicate ValidPort(p: Port) {
    && ProtocolOf(p) in PROTOCOLS
    && (p.port.Some? && p.port.value.StrVal? ==> p.port.value.s != "Any" && ',' !in p.port.value.s)
  }

  predicate ValidPorts(ports: set<Port>) {
    forall p :: p in ports ==> ValidPort(p)
  }
}
