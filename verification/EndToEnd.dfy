/** What the applied policy admits, in terms of the spec and the ledgers. */
module EndToEnd {
  import opened Policy
  import opened PortKeys
  import opened Grants
  import opened NormaliserLaws
  import opened Ranges
  import opened Status
  import opened Compiler

  predicate SpecPortAdmits(p: SpecPort, d: Destination) {
    && p.protocol == d.protocol
    && match p.port
       case None => true
       case Some(n) => if p.endPort.Some? then n <= d.port <= p.endPort.value else d.port == n
  }

  /** A rule serves a CIDR that one of its names holds and its private-address flag allows. */
  ghost predicate Serves(parse: Parser, r: EgressRule, ips: Book, globalBlock: bool, cidr: string) {
    && Held(r.toFqdns, ips, cidr)
    && parse(cidr).Some? && Passes(parse(cidr).value, globalBlock, r.blockPrivateIPs)
  }

  ghost predicate RuleGrants(parse: Parser, r: EgressRule, ips: Book, globalBlock: bool, d: Destination) {
    && Serves(parse, r, ips, globalBlock, d.cidr)
    && (r.ports == [] || exists p :: p in r.ports && SpecPortAdmits(p, d))
  }

  /** The meaning of a spec over ledgers. */
  ghost predicate SpecAdmits(parse: Parser, spec: Spec, statuses: seq<FqdnStatus>, d: Destination) {
    exists r :: r in spec.egress && RuleGrants(parse, r, Lookup(statuses), spec.blockPrivateIPs, d)
  }

  function SpecPorts(egress: seq<EgressRule>): set<SpecPort> {
    set r, p | r in egress && p in r.ports :: p
  }

  /** The enumeration of protocols in the resource definition. */
  predicate KnownProtocols(egress: seq<EgressRule>) {
    forall p :: p in SpecPorts(egress) ==> p.protocol in PROTOCOLS
  }

  /** Ports with the same protocol and first port have the same end. */
  predicate EndsAgree(egress: seq<EgressRule>) {
    forall p, q | p in SpecPorts(egress) && q in SpecPorts(egress) ::
      p.protocol == q.protocol && p.port == q.port ==> p.endPort == q.endPort
  }

  // ------------------------------------------------------------------ compiling one rule

  /** The compiled rule names an address exactly when one of the rule's names holds it, it parses,
      and, if it is private, the rule's flag is off, or absent with the policy's off. */
  lemma CompiledNames(parse: Parser, r: EgressRule, ips: Book, globalBlock: bool, c: string)
    requires c != ""
    ensures var rule := CompileRule(parse, r, ips, globalBlock);
            rule.Some? && Names(rule.value, c) <==> Serves(parse, r, ips, globalBlock, c)
  {
    SortedPeersAre(parse, r.toFqdns, ips, globalBlock, r.blockPrivateIPs);
    assert Peer(Some(c)).ipBlock == Some(c);
  }

  /** A rule with a flag of its own compiles to the same whatever the policy's is. */
  lemma OwnFlagDecides(parse: Parser, r: EgressRule, ips: Book)
    requires r.blockPrivateIPs.Some?
    ensures CompileRule(parse, r, ips, true) == CompileRule(parse, r, ips, false)
  {
    SameAllowed(parse, r.toFqdns, ips, r.blockPrivateIPs);
  }

  lemma {:induction false} SameAllowed(parse: Parser, fqdns: seq<string>, ips: Book, ruleBlock: Option<bool>)
    requires ruleBlock.Some?
    ensures FqdnPeers(parse, fqdns, ips, true, ruleBlock) == FqdnPeers(parse, fqdns, ips, false, ruleBlock)
  {
    if fqdns != [] {
      var last := fqdns[|fqdns| - 1];
      SameAllowed(parse, fqdns[..|fqdns| - 1], ips, ruleBlock);
      if last in ips {
        SameAllowedEntries(parse, ips[last].addresses, ruleBlock);
      }
    }
  }

  lemma {:induction false} SameAllowedEntries(parse: Parser, entries: seq<Entry>, ruleBlock: Option<bool>)
    requires ruleBlock.Some?
    ensures EntryPeers(parse, entries, true, ruleBlock) == EntryPeers(parse, entries, false, ruleBlock)
  {
    if entries != [] {
      SameAllowedEntries(parse, entries[..|entries| - 1], ruleBlock);
    }
  }

  /** So where every rule has one, the policy's flag changes nothing. */
  lemma {:induction false} PolicyFlagIdle(parse: Parser, egress: seq<EgressRule>, ips: Book)
    requires forall r :: r in egress ==> r.blockPrivateIPs.Some?
    ensures CompileRules(parse, egress, ips, true) == CompileRules(parse, egress, ips, false)
  {
    if egress != [] {
      PolicyFlagIdle(parse, egress[..|egress| - 1], ips);
      OwnFlagDecides(parse, egress[|egress| - 1], ips);
    }
  }

  lemma CompiledPort(p: SpecPort, d: Destination)
    ensures PortAdmits(CompilePort(p), d) <==> SpecPortAdmits(p, d)
  {
  }

  lemma CompiledPorts(ports: seq<SpecPort>)
    ensures forall q :: q in CompilePorts(ports) <==> exists p :: p in ports && q == CompilePort(p)
  {
    forall p | p in ports ensures CompilePort(p) in CompilePorts(ports) {
      var i :| 0 <= i < |ports| && ports[i] == p;
      assert CompilePorts(ports)[i] == CompilePort(p);
    }
  }

  lemma CompiledPortsAdmit(ports: seq<SpecPort>, d: Destination)
    ensures PortsAdmit(CompilePorts(ports), d) <==> ports == [] || exists p :: p in ports && SpecPortAdmits(p, d)
  {
    CompiledPorts(ports);
    if p :| p in ports && SpecPortAdmits(p, d) {
      CompiledPort(p, d);
      assert CompilePort(p) in CompilePorts(ports);
    }
    if q :| q in CompilePorts(ports) && PortAdmits(q, d) {
      var p :| p in ports && q == CompilePort(p);
      CompiledPort(p, d);
    }
  }

  lemma {:induction false} CompiledFrom(parse: Parser, egress: seq<EgressRule>, ips: Book, globalBlock: bool)
    ensures forall rule :: rule in CompileRules(parse, egress, ips, globalBlock)
              <==> exists r :: r in egress && CompileRule(parse, r, ips, globalBlock) == Some(rule)
  {
    if egress != [] {
      var init, last := egress[..|egress| - 1], egress[|egress| - 1];
      assert egress == init + [last];
      CompiledFrom(parse, init, ips, globalBlock);
    }
  }

  lemma CompiledNamePeers(parse: Parser, egress: seq<EgressRule>, ips: Book, globalBlock: bool)
    ensures AllNamePeers(CompileRules(parse, egress, ips, globalBlock))
  {
    CompiledFrom(parse, egress, ips, globalBlock);
  }

  // ------------------------------------------------------------------ compiling a spec

  /** Compiling preserves meaning. */
  lemma CompileMeaning(parse: Parser, spec: Spec, statuses: seq<FqdnStatus>, d: Destination)
    requires parse("").None?
    ensures Admits(Compile(parse, spec, statuses), d) <==> SpecAdmits(parse, spec, statuses, d)
  {
    var ips, flag := Lookup(statuses), spec.blockPrivateIPs;
    var rules := Compile(parse, spec, statuses);
    CompiledFrom(parse, spec.egress, ips, flag);
    CompiledNamePeers(parse, spec.egress, ips, flag);
    if rule :| rule in rules && RuleAdmits(rule, d) {
      var r :| r in spec.egress && CompileRule(parse, r, ips, flag) == Some(rule);
      CompiledNames(parse, r, ips, flag, d.cidr);
      CompiledPortsAdmit(r.ports, d);
      assert RuleGrants(parse, r, ips, flag, d);
    }
    if r :| r in spec.egress && RuleGrants(parse, r, ips, flag, d) {
      CompiledNames(parse, r, ips, flag, d.cidr);
      CompiledPortsAdmit(r.ports, d);
      var rule := CompileRule(parse, r, ips, flag).value;
      assert rule in rules && RuleAdmits(rule, d);
    }
  }

  lemma CompiledPortOrigin(parse: Parser, spec: Spec, statuses: seq<FqdnStatus>, q: Port) returns (p: SpecPort)
    requires q in PortsIn(Compile(parse, spec, statuses))
    ensures p in SpecPorts(spec.egress) && q == CompilePort(p)
  {
    CompiledFrom(parse, spec.egress, Lookup(statuses), spec.blockPrivateIPs);
    var rule :| rule in Compile(parse, spec, statuses) && q in rule.ports;
    var r :| r in spec.egress && CompileRule(parse, r, Lookup(statuses), spec.blockPrivateIPs) == Some(rule);
    CompiledPorts(r.ports);
    p :| p in r.ports && q == CompilePort(p);
  }

  lemma CompiledPortsValid(parse: Parser, spec: Spec, statuses: seq<FqdnStatus>)
    requires KnownProtocols(spec.egress)
    ensures ValidPorts(PortsIn(Compile(parse, spec, statuses)))
  {
    forall q | q in PortsIn(Compile(parse, spec, statuses)) ensures ValidPort(q) {
      var p := CompiledPortOrigin(parse, spec, statuses, q);
    }
  }

  /** Compiled ports always carry a protocol and a number, so agreeing ends make keys agree. */
  lemma CompiledKeysAgree(parse: Parser, spec: Spec, statuses: seq<FqdnStatus>)
    requires KnownProtocols(spec.egress) && EndsAgree(spec.egress)
    ensures KeysAgree(PortsIn(Compile(parse, spec, statuses)))
  {
    var all := PortsIn(Compile(parse, spec, statuses));
    CompiledPortsValid(parse, spec, statuses);
    forall p, q | p in all && q in all && PortKey(p) == PortKey(q) ensures p == q {
      var a := CompiledPortOrigin(parse, spec, statuses, p);
      var b := CompiledPortOrigin(parse, spec, statuses, q);
      KeyInjective(p, q);
      assert a.protocol == b.protocol && a.port == b.port;
    }
  }

  /** End to end: the normalised policy admits a destination exactly when some rule lists a
      name whose ledger holds its CIDR, the rule's private-address flag lets it pass, and the
      rule has no ports or one that matches. */
  lemma PolicyMeaning(parse: Parser, spec: Spec, statuses: seq<FqdnStatus>, out: seq<Rule>, d: Destination)
    requires parse("").None?
    requires KnownProtocols(spec.egress) && EndsAgree(spec.egress)
    requires Canonical(TableOf(Compile(parse, spec, statuses)), out)
    ensures Admits(out, d) <==> SpecAdmits(parse, spec, statuses, d)
  {
    var rules := Compile(parse, spec, statuses);
    CompileMeaning(parse, spec, statuses, d);
    CompiledPortsValid(parse, spec, statuses);
    CompiledKeysAgree(parse, spec, statuses);
    CompiledNamePeers(parse, spec.egress, Lookup(statuses), spec.blockPrivateIPs);
    MeaningPreserved(rules, out, d);
  }

  /** Every policy that may be emitted means what the spec means. */
  ghost predicate PolicyMeansSpec(parse: Parser, spec: Spec, statuses: seq<FqdnStatus>) {
    forall out, d :: Canonical(TableOf(Compile(parse, spec, statuses)), out) ==>
      (Admits(out, d) <==> SpecAdmits(parse, spec, statuses, d))
  }

  /** Without agreeing ends: exactly when the compiled entries with the same keys cover each other. */
  lemma PolicyMeaningIff(parse: Parser, spec: Spec, statuses: seq<FqdnStatus>)
    requires parse("").None? && KnownProtocols(spec.egress)
    ensures PolicyMeansSpec(parse, spec, statuses) <==> RangesCover(Compile(parse, spec, statuses))
  {
    var rules := Compile(parse, spec, statuses);
    CompiledPortsValid(parse, spec, statuses);
    CompiledNamePeers(parse, spec.egress, Lookup(statuses), spec.blockPrivateIPs);
    MeaningIff(rules);
    forall d ensures Admits(rules, d) <==> SpecAdmits(parse, spec, statuses, d) {
      CompileMeaning(parse, spec, statuses, d);
    }
    MeansSame(parse, spec, statuses, rules);
  }

  lemma MeansSame(parse: Parser, spec: Spec, statuses: seq<FqdnStatus>, rules: seq<Rule>)
    requires rules == Compile(parse, spec, statuses)
    requires forall d :: Admits(rules, d) <==> SpecAdmits(parse, spec, statuses, d)
    ensures PolicyMeansSpec(parse, spec, statuses) <==> MeaningKept(rules)
  {
  }

  // ------------------------------------------------------------------ what the policy depends on

  /** The same names hold the same addresses: order, repetition and timestamps aside. */
  ghost predicate SameHoldings(ips: Book, ips': Book) {
    ips.Keys == ips'.Keys && forall f :: f in ips ==> AddressSet(ips[f].addresses) == AddressSet(ips'[f].addresses)
  }
}
