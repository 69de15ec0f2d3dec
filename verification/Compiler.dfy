/** From rules over names to rules over addresses (api/v1alpha1/networkpolicy_funcs.go:75-200). */
module Compiler {
  import opened Sorting
  import opened Policy
  import opened Status

  /** `NewCIDR` with `IsPrivate`: `None` when the text is no CIDR, else whether it is private. */
  type Parser = string -> Option<bool>

  /** The flag of the rule overrides the global one. */
  predicate EffectiveBlock(globalBlock: bool, ruleBlock: Option<bool>) {
    if ruleBlock.Some? then ruleBlock.value else globalBlock
  }

  /** `isAllowed`. */
  predicate IsAllowed(parse: Parser, cidr: string, globalBlock: bool, ruleBlock: Option<bool>) {
    parse(cidr).Some? && !(parse(cidr).value && EffectiveBlock(globalBlock, ruleBlock))
  }

  lemma AllowedIff(parse: Parser, globalBlock: bool, ruleBlock: Option<bool>)
    ensures forall c :: IsAllowed(parse, c, globalBlock, ruleBlock)
                        <==> parse(c).Some? && Passes(parse(c).value, globalBlock, ruleBlock)
  {
  }

  // ------------------------------------------------------------------ peers

  function EntryPeers(parse: Parser, entries: seq<Entry>, globalBlock: bool, ruleBlock: Option<bool>): seq<Peer> {
    if entries == [] then []
    else
      var last := entries[|entries| - 1];
      EntryPeers(parse, entries[..|entries| - 1], globalBlock, ruleBlock)
      + if IsAllowed(parse, last.address, globalBlock, ruleBlock) then [Peer(Some(last.address))] else []
  }

  function FqdnPeers(parse: Parser, fqdns: seq<string>, ips: Book,
                     globalBlock: bool, ruleBlock: Option<bool>): seq<Peer>
  {
    if fqdns == [] then []
    else
      var last := fqdns[|fqdns| - 1];
      FqdnPeers(parse, fqdns[..|fqdns| - 1], ips, globalBlock, ruleBlock)
      + if last in ips then EntryPeers(parse, ips[last].addresses, globalBlock, ruleBlock) else []
  }

  function PeerKey(p: Peer): string {
    if p.ipBlock.Some? then p.ipBlock.value else ""
  }

  lemma {:induction false} EntryPeersAre(parse: Parser, entries: seq<Entry>, globalBlock: bool, ruleBlock: Option<bool>)
    ensures forall p :: p in EntryPeers(parse, entries, globalBlock, ruleBlock) <==>
              p.ipBlock.Some? && p.ipBlock.value in AddressSet(entries)
              && IsAllowed(parse, p.ipBlock.value, globalBlock, ruleBlock)
  {
    if entries != [] {
      var init, last := entries[..|entries| - 1], entries[|entries| - 1];
      assert entries == init + [last];
      EntryPeersAre(parse, init, globalBlock, ruleBlock);
      assert AddressSet(entries) == AddressSet(init) + {last.address};
    }
  }

  /** Some listed name holds the address. */
  ghost predicate Held(fqdns: seq<string>, ips: Book, cidr: string) {
    exists f :: f in fqdns && f in ips && cidr in AddressSet(ips[f].addresses)
  }

  lemma {:induction false} FqdnPeersAre(parse: Parser, fqdns: seq<string>, ips: Book,
                                        globalBlock: bool, ruleBlock: Option<bool>)
    ensures forall p :: p in FqdnPeers(parse, fqdns, ips, globalBlock, ruleBlock) <==>
              p.ipBlock.Some? && Held(fqdns, ips, p.ipBlock.value)
              && IsAllowed(parse, p.ipBlock.value, globalBlock, ruleBlock)
  {
    if fqdns != [] {
      var init, last := fqdns[..|fqdns| - 1], fqdns[|fqdns| - 1];
      assert fqdns == init + [last];
      FqdnPeersAre(parse, init, ips, globalBlock, ruleBlock);
      if last in ips {
        EntryPeersAre(parse, ips[last].addresses, globalBlock, ruleBlock);
      }
      forall c
        ensures Held(fqdns, ips, c) <==> Held(init, ips, c) || (last in ips && c in AddressSet(ips[last].addresses))
      {
      }
    }
  }

  /** The peers in CIDR order; peers with one CIDR are equal, so there is only one such order. */
  function SortedPeers(parse: Parser, fqdns: seq<string>, ips: Book,
                       globalBlock: bool, ruleBlock: Option<bool>): seq<Peer>
  {
    Sorted(PeerKey, FqdnPeers(parse, fqdns, ips, globalBlock, ruleBlock))
  }

  lemma SortedPeersUnique(parse: Parser, fqdns: seq<string>, ips: Book,
                          globalBlock: bool, ruleBlock: Option<bool>, peers: seq<Peer>)
    requires multiset(peers) == multiset(FqdnPeers(parse, fqdns, ips, globalBlock, ruleBlock))
    requires SortedBy(PeerKey, peers)
    ensures peers == SortedPeers(parse, fqdns, ips, globalBlock, ruleBlock)
  {
    var raw := FqdnPeers(parse, fqdns, ips, globalBlock, ruleBlock);
    FqdnPeersAre(parse, fqdns, ips, globalBlock, ruleBlock);
    SortedIsSorted(PeerKey, raw);
    SameMultisetSameElements(peers, raw);
    forall i, j | 0 <= i < |peers| && 0 <= j < |peers| && PeerKey(peers[i]) == PeerKey(peers[j])
      ensures peers[i] == peers[j]
    {
      assert peers[i] in Elements(peers) && peers[j] in Elements(peers);
      assert peers[i] in raw && peers[j] in raw;
    }
    SortedUnique(PeerKey, peers, Sorted(PeerKey, raw));
  }

  /** The peers of a rule: the addresses its names hold that parse and pass its flags. */
  lemma SortedPeersAre(parse: Parser, fqdns: seq<string>, ips: Book, globalBlock: bool, ruleBlock: Option<bool>)
    ensures forall p :: p in SortedPeers(parse, fqdns, ips, globalBlock, ruleBlock) <==>
              && p.ipBlock.Some? && Held(fqdns, ips, p.ipBlock.value)
              && parse(p.ipBlock.value).Some? && Passes(parse(p.ipBlock.value).value, globalBlock, ruleBlock)
  {
    var raw := FqdnPeers(parse, fqdns, ips, globalBlock, ruleBlock);
    var peers := SortedPeers(parse, fqdns, ips, globalBlock, ruleBlock);
    FqdnPeersAre(parse, fqdns, ips, globalBlock, ruleBlock);
    AllowedIff(parse, globalBlock, ruleBlock);
    SortedIsSorted(PeerKey, raw);
    SameMultisetSameElements(peers, raw);
    forall p ensures p in peers <==> p in raw {
      assert p in peers <==> p in Elements(peers);
      assert p in raw <==> p in Elements(raw);
    }
  }

  /** `getPeers`. */
  method GetPeers(parse: Parser, fqdns: seq<string>, ips: Book, globalBlock: bool, ruleBlock: Option<bool>)
    returns (peers: seq<Peer>)
    ensures peers == SortedPeers(parse, fqdns, ips, globalBlock, ruleBlock)
    ensures forall p :: p in peers <==>
              && p.ipBlock.Some? && Held(fqdns, ips, p.ipBlock.value)
              && parse(p.ipBlock.value).Some? && Passes(parse(p.ipBlock.value).value, globalBlock, ruleBlock)
  {
    peers := [];
    for i := 0 to |fqdns|
      invariant peers == FqdnPeers(parse, fqdns[..i], ips, globalBlock, ruleBlock)
    {
      assert fqdns[..i + 1][..i] == fqdns[..i];
      var fqdn := fqdns[i];
      if fqdn in ips {
        ghost var before := peers;
        var entries := ips[fqdn].addresses;
        for j := 0 to |entries|
          invariant peers == before + EntryPeers(parse, entries[..j], globalBlock, ruleBlock)
        {
          assert entries[..j + 1][..j] == entries[..j];
          if IsAllowed(parse, entries[j].address, globalBlock, ruleBlock) {
            peers := peers + [Peer(Some(entries[j].address))];
          }
        }
        assert entries[..|entries|] == entries;
      }
    }
    assert fqdns[..|fqdns|] == fqdns;
    peers := Sort(PeerKey, peers);
    SortedPeersUnique(parse, fqdns, ips, globalBlock, ruleBlock, peers);
    SortedPeersAre(parse, fqdns, ips, globalBlock, ruleBlock);
  }

  // ------------------------------------------------------------------ rules

  function CompilePort(p: SpecPort): Port {
    Port(Some(p.protocol), if p.port.Some? then Some(IntVal(p.port.value)) else None, p.endPort)
  }

  function CompilePorts(ports: seq<SpecPort>): seq<Port> {
    seq(|ports|, i requires 0 <= i < |ports| => CompilePort(ports[i]))
  }

  /** A rule none of whose names holds an allowed address compiles to nothing, not to an
      unrestricted rule. */
  function CompileRule(parse: Parser, r: EgressRule, ips: Book, globalBlock: bool): Option<Rule> {
    var peers := SortedPeers(parse, r.toFqdns, ips, globalBlock, r.blockPrivateIPs);
    if peers == [] then None else Some(Rule(CompilePorts(r.ports), peers))
  }

  /** Port by port the same protocol, number and end. */
  predicate SamePortList(ports: seq<SpecPort>, compiled: seq<Port>) {
    && |compiled| == |ports|
    && forall i :: 0 <= i < |ports| ==>
         && compiled[i].protocol == Some(ports[i].protocol)
         && compiled[i].endPort == ports[i].endPort
         && compiled[i].port == match ports[i].port case None => None case Some(n) => Some(IntVal(n))
  }

  method ToRule(parse: Parser, r: EgressRule, ips: Book, globalBlock: bool) returns (rule: Option<Rule>)
    ensures rule == CompileRule(parse, r, ips, globalBlock)
    ensures rule.Some? ==> SamePortList(r.ports, rule.value.ports)
  {
    var peers := GetPeers(parse, r.toFqdns, ips, globalBlock, r.blockPrivateIPs);
    if |peers| == 0 {
      return None;
    }
    var ports := [];
    for i := 0 to |r.ports|
      invariant ports == CompilePorts(r.ports)[..i]
    {
      var p := r.ports[i];
      var number: Option<IntOrString> := None;
      if p.port.Some? {
        number := Some(IntVal(p.port.value));
      }
      ports := ports + [Port(Some(p.protocol), number, p.endPort)];
    }
    assert ports == CompilePorts(r.ports);
    rule := Some(Rule(ports, peers));
  }

  function CompileRules(parse: Parser, egress: seq<EgressRule>, ips: Book, globalBlock: bool): seq<Rule> {
    if egress == [] then []
    else
      var r := CompileRule(parse, egress[|egress| - 1], ips, globalBlock);
      CompileRules(parse, egress[..|egress| - 1], ips, globalBlock) + if r.Some? then [r.value] else []
  }

  function Compile(parse: Parser, spec: Spec, statuses: seq<FqdnStatus>): seq<Rule> {
    CompileRules(parse, spec.egress, Lookup(statuses), spec.blockPrivateIPs)
  }

  /** The egress part of `ToMultiNetworkPolicy`; `None` for a spec without rules. */
  method ToMultiNetworkPolicy(parse: Parser, spec: Spec, statuses: seq<FqdnStatus>) returns (egress: Option<seq<Rule>>)
    ensures egress == if spec.egress == [] then None else Some(Compile(parse, spec, statuses))
  {
    if |spec.egress| == 0 {
      return None;
    }
    var ips := LookupTable(statuses);
    var rules := [];
    for i := 0 to |spec.egress|
      invariant rules == CompileRules(parse, spec.egress[..i], ips, spec.blockPrivateIPs)
    {
      assert spec.egress[..i + 1][..i] == spec.egress[..i];
      var rule := ToRule(parse, spec.egress[i], ips, spec.blockPrivateIPs);
      if rule.Some? {
        rules := rules + [rule.value];
      }
    }
    assert spec.egress[..|spec.egress|] == spec.egress;
    egress := Some(rules);
  }

  // ------------------------------------------------------------------ the pod selector

  /** Of entries with one label the last stays. */
  function LabelsOf(pairs: seq<(string, string)>): map<string, string> {
    if pairs == [] then map[]
    else
      var last := pairs[|pairs| - 1];
      LabelsOf(pairs[..|pairs| - 1])[last.0 := last.1]
  }

  /** The pair is listed and no later one has its label. */
  predicate LastPair(pairs: seq<(string, string)>, name: string, value: string) {
    exists i :: 0 <= i < |pairs| && pairs[i] == (name, value) && forall j :: i < j < |pairs| ==> pairs[j].0 != name
  }

  lemma {:induction false} LabelsLast(pairs: seq<(string, string)>, name: string, value: string)
    ensures name in LabelsOf(pairs) && LabelsOf(pairs)[name] == value <==> LastPair(pairs, name, value)
  {
    if pairs != [] {
      var init, last := pairs[..|pairs| - 1], pairs[|pairs| - 1];
      LabelsLast(init, name, value);
      assert pairs[|init|] == last && forall i :: 0 <= i < |init| ==> pairs[i] == init[i];
    }
  }

  /** The selector part of `ToMultiNetworkPolicy`. */
  method ToSelector(pairs: seq<(string, string)>, requirements: seq<Requirement>) returns (selector: Selector)
    ensures selector == Selector(LabelsOf(pairs), requirements)
  {
    var labels := map[];
    for i := 0 to |pairs|
      invariant labels == LabelsOf(pairs[..i])
    {
      assert pairs[..i + 1][..i] == pairs[..i];
      labels := labels[pairs[i].0 := pairs[i].1];
    }
    assert pairs[..|pairs|] == pairs;
    var expressions: seq<Requirement> := [];
    for i := 0 to |requirements|
      invariant expressions == requirements[..i]
    {
      var values: seq<string> := [];
      for j := 0 to |requirements[i].values|
        invariant values == requirements[i].values[..j]
      {
        values := values + [requirements[i].values[j]];
      }
      assert requirements[i].values[..|requirements[i].values|] == requirements[i].values;
      expressions := expressions + [Requirement(requirements[i].key, requirements[i].operator, values)];
    }
    selector := Selector(labels, expressions);
  }

  // ------------------------------------------------------------------ names to resolve

  function NamesIn(egress: seq<EgressRule>): set<string> {
    set r, f | r in egress && f in r.toFqdns :: f
  }

  lemma NamesNext(egress: seq<EgressRule>, i: nat)
    requires i < |egress|
    ensures NamesIn(egress[..i + 1]) == NamesIn(egress[..i]) + Elements(egress[i].toFqdns)
  {
    TakeNext(egress, i);
  }

  /** `FQDNs`: every name once, in order, whatever the set's iteration order. */
  method Fqdns(spec: Spec) returns (fqdns: seq<string>)
    ensures fqdns == Ascending(NamesIn(spec.egress))
    ensures NoDuplicates(fqdns)
  {
    var names: set<string> := {};
    for i := 0 to |spec.egress|
      invariant names == NamesIn(spec.egress[..i])
    {
      var r := spec.egress[i];
      NamesNext(spec.egress, i);
      ghost var before := names;
      for j := 0 to |r.toFqdns|
        invariant names == before + Elements(r.toFqdns[..j])
      {
        assert r.toFqdns[..j + 1] == r.toFqdns[..j] + [r.toFqdns[j]];
        names := names + {r.toFqdns[j]};
      }
      assert r.toFqdns[..|r.toFqdns|] == r.toFqdns;
    }
    assert spec.egress[..|spec.egress|] == spec.egress;
    fqdns := ListSet(names);
    StrictHasNoDuplicates(fqdns);
  }

  method ListSet(names: set<string>) returns (r: seq<string>)
    ensures r == Ascending(names)
  {
    var list: seq<string> := [];
    var todo := names;
    ghost var done: set<string> := {};
    while todo != {}
      invariant todo <= names && done == names - todo
      invariant NoDuplicates(list) && Elements(list) == done
    {
      var f :| f in todo;
      assert f !in Elements(list);
      ExtendDistinct(list, f);
      list := list + [f];
      todo, done := todo - {f}, done + {f};
    }
    assert done == names;
    r := SortStrings(list);
  }
}
