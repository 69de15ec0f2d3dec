/** End ports in terms of the spec alone: which policies keep their ranges, and emit one list of
    rules, whatever their names resolve to. Which rules name an address depends only on the names
    that hold it and on whether it is private, so the conditions range over sets of names. */
module SpecEnds {
  import opened Sorting
  import opened Policy
  import opened PortKeys
  import opened Grants
  import opened NormaliserLaws
  import opened Ranges
  import opened Status
  import opened Compiler
  import opened EndToEnd

  // ------------------------------------------------------------------ the rules that name an address

  /** The rule names an address of this kind that exactly these names hold. */
  predicate RuleServes(r: EgressRule, globalBlock: bool, names: set<string>, private: bool) {
    (exists f :: f in r.toFqdns && f in names) && Passes(private, globalBlock, r.blockPrivateIPs)
  }

  function Serving(egress: seq<EgressRule>, globalBlock: bool, names: set<string>, private: bool): seq<EgressRule> {
    if egress == [] then []
    else
      var last := egress[|egress| - 1];
      Serving(egress[..|egress| - 1], globalBlock, names, private)
      + if RuleServes(last, globalBlock, names, private) then [last] else []
  }

  /** Their port entries, one after another. */
  function EntriesOf(rs: seq<EgressRule>): seq<Port> {
    if rs == [] then [] else EntriesOf(rs[..|rs| - 1]) + CompilePorts(rs[|rs| - 1].ports)
  }

  predicate Unlimited(rs: seq<EgressRule>) {
    exists r :: r in rs && r.ports == []
  }

  function KeysIn(ports: seq<Port>): set<string> {
    set p | p in ports :: PortKey(p)
  }

  /** Both limited, with the same keys once protocol-wide entries have absorbed theirs. */
  predicate AlikeLimited(rs: seq<EgressRule>, qs: seq<EgressRule>) {
    !Unlimited(rs) && !Unlimited(qs) && Uncovered(KeysIn(EntriesOf(rs))) == Uncovered(KeysIn(EntriesOf(qs)))
  }

  // ------------------------------------------------------------------ the conditions

  /** All entries of the one and the last entries of the other cover each other. */
  predicate PairCovers(rs: seq<EgressRule>, qs: seq<EgressRule>) {
    && EntriesCovered(Elements(EntriesOf(rs)), LastEntries(EntriesOf(qs)))
    && EntriesCovered(LastEntries(EntriesOf(qs)), Elements(EntriesOf(rs)))
  }

  /** The entries left of a limited list: the last of each key that is not absorbed. */
  function KeptEntries(ports: seq<Port>): set<Port> {
    set p | p in LastEntries(ports) && PortKey(p) in Uncovered(KeysIn(ports))
  }

  /** Whatever two addresses the names may hold: if the rules naming them come to the same keys,
      their entries cover each other. */
  predicate SpecCovers(spec: Spec) {
    forall f: set<string>, g: set<string>, a: bool, b: bool | f <= NamesIn(spec.egress) && g <= NamesIn(spec.egress) ::
      CoversAt(spec, f, g, a, b)
  }

  predicate CoversAt(spec: Spec, f: set<string>, g: set<string>, a: bool, b: bool) {
    var rs, qs := Serving(spec.egress, spec.blockPrivateIPs, f, a), Serving(spec.egress, spec.blockPrivateIPs, g, b);
    rs != [] && qs != [] && AlikeLimited(rs, qs) ==> PairCovers(rs, qs)
  }

  /** Likewise, the entries left are the same, end ports included. */
  predicate SpecDetermines(spec: Spec) {
    forall f: set<string>, g: set<string>, a: bool, b: bool | f <= NamesIn(spec.egress) && g <= NamesIn(spec.egress) ::
      DeterminesAt(spec, f, g, a, b)
  }

  predicate DeterminesAt(spec: Spec, f: set<string>, g: set<string>, a: bool, b: bool) {
    var rs, qs := Serving(spec.egress, spec.blockPrivateIPs, f, a), Serving(spec.egress, spec.blockPrivateIPs, g, b);
    rs != [] && qs != [] && AlikeLimited(rs, qs) ==> KeptEntries(EntriesOf(rs)) == KeptEntries(EntriesOf(qs))
  }

  // ------------------------------------------------------------------ what compiled rules offer an address

  /** The names that hold an address. */
  function Holders(ips: Book, c: string): set<string> {
    set f | f in ips && c in AddressSet(ips[f].addresses)
  }

  lemma {:induction false} ServingWithin(egress: seq<EgressRule>, globalBlock: bool,
                                         names: set<string>, private: bool, all: set<string>)
    requires NamesIn(egress) <= all
    ensures Serving(egress, globalBlock, names, private) == Serving(egress, globalBlock, names * all, private)
  {
    if egress != [] {
      var init, last := egress[..|egress| - 1], egress[|egress| - 1];
      assert egress == init + [last];
      assert NamesIn(init) <= NamesIn(egress);
      ServingWithin(init, globalBlock, names, private, all);
      assert forall f :: f in last.toFqdns ==> f in NamesIn(egress);
    }
  }

  lemma ServesHeld(parse: Parser, r: EgressRule, ips: Book, globalBlock: bool, c: string)
    requires parse(c).Some?
    ensures Serves(parse, r, ips, globalBlock, c) <==> RuleServes(r, globalBlock, Holders(ips, c), parse(c).value)
  {
  }

  /** The rules offer the address exactly the entries of these. */
  ghost predicate OffersThese(rules: seq<Rule>, c: string, rs: seq<EgressRule>) {
    && EntriesFor(rules, c) == EntriesOf(rs)
    && (OffersAll(rules, c) <==> Unlimited(rs))
    && (c in Cidrs(rules) <==> rs != [])
  }

  lemma OffersTheseNext(rules: seq<Rule>, c: string, rs: seq<EgressRule>,
                        rule: Option<Rule>, serves: bool, r: EgressRule)
    requires OffersThese(rules, c, rs)
    requires serves <==> rule.Some? && Names(rule.value, c)
    requires serves ==> rule.value.ports == CompilePorts(r.ports)
    ensures OffersThese(rules + (if rule.Some? then [rule.value] else []), c, rs + if serves then [r] else [])
  {
    if rule.Some? {
      AppendOffer(rules, rule.value, c);
    } else {
      assert rules + [] == rules;
    }
    if serves {
      AppendServing(rs, r);
      assert |CompilePorts(r.ports)| == |r.ports|;
    } else {
      assert rs + [] == rs;
      assert EntriesFor(rules, c) + [] == EntriesFor(rules, c);
    }
  }

  /** The compiled rules offer an address the entries of the rules that name it. */
  lemma {:induction false} CompiledServing(parse: Parser, egress: seq<EgressRule>,
                                           ips: Book, globalBlock: bool, c: string)
    requires c != "" && parse(c).Some?
    ensures OffersThese(CompileRules(parse, egress, ips, globalBlock), c,
                        Serving(egress, globalBlock, Holders(ips, c), parse(c).value))
  {
    if egress != [] {
      var init, last := egress[..|egress| - 1], egress[|egress| - 1];
      CompiledServing(parse, init, ips, globalBlock, c);
      CompiledNames(parse, last, ips, globalBlock, c);
      ServesHeld(parse, last, ips, globalBlock, c);
      OffersTheseNext(CompileRules(parse, init, ips, globalBlock), c,
                      Serving(init, globalBlock, Holders(ips, c), parse(c).value),
                      CompileRule(parse, last, ips, globalBlock),
                      RuleServes(last, globalBlock, Holders(ips, c), parse(c).value), last);
    }
  }

  lemma AppendOffer(rules: seq<Rule>, rule: Rule, c: string)
    ensures EntriesFor(rules + [rule], c) == EntriesFor(rules, c) + if Names(rule, c) then rule.ports else []
    ensures OffersAll(rules + [rule], c) <==> OffersAll(rules, c) || (Names(rule, c) && rule.ports == [])
    ensures c in Cidrs(rules + [rule]) <==> c in Cidrs(rules) || Names(rule, c)
  {
    assert (rules + [rule])[..|rules|] == rules;
    assert forall r :: r in rules + [rule] <==> r in rules || r == rule;
  }

  lemma AppendServing(rs: seq<EgressRule>, r: EgressRule)
    ensures EntriesOf(rs + [r]) == EntriesOf(rs) + CompilePorts(r.ports)
    ensures Unlimited(rs + [r]) <==> Unlimited(rs) || r.ports == []
  {
    assert (rs + [r])[..|rs|] == rs;
    assert forall x :: x in rs + [r] <==> x in rs || x == r;
  }

  // ------------------------------------------------------------------ the conditions for one ledger

  lemma CompiledCidr(parse: Parser, spec: Spec, statuses: seq<FqdnStatus>, c: string)
    requires c in Cidrs(Compile(parse, spec, statuses))
    ensures c != "" && parse(c).Some?
  {
    var ips := Lookup(statuses);
    CompiledFrom(parse, spec.egress, ips, spec.blockPrivateIPs);
    var rule :| rule in Compile(parse, spec, statuses) && Names(rule, c);
    var r :| r in spec.egress && CompileRule(parse, r, ips, spec.blockPrivateIPs) == Some(rule);
    CompiledNames(parse, r, ips, spec.blockPrivateIPs, c);
  }

  /** The rules that name an address, by the names of the spec that hold it. */
  function ServingAddress(spec: Spec, ips: Book, c: string, private: bool): seq<EgressRule> {
    Serving(spec.egress, spec.blockPrivateIPs, Holders(ips, c) * NamesIn(spec.egress), private)
  }

  lemma AddressServed(parse: Parser, spec: Spec, statuses: seq<FqdnStatus>, c: string)
    requires c != "" && parse(c).Some?
    ensures OffersThese(Compile(parse, spec, statuses), c, ServingAddress(spec, Lookup(statuses), c, parse(c).value))
  {
    CompiledServing(parse, spec.egress, Lookup(statuses), spec.blockPrivateIPs, c);
    ServingWithin(spec.egress, spec.blockPrivateIPs, Holders(Lookup(statuses), c),
                  parse(c).value, NamesIn(spec.egress));
  }

  lemma OfferedThese(rules: seq<Rule>, c: string, rs: seq<EgressRule>)
    requires OffersThese(rules, c, rs)
    ensures Offered(rules, c) == Elements(EntriesOf(rs)) && OfferedKeys(rules, c) == KeysIn(EntriesOf(rs))
  {
    EntriesOffered(rules, c);
    assert Offered(rules, c) == Elements(EntriesOf(rs));
  }

  lemma AlikeKeys(rules: seq<Rule>, c: string, e: string, rs: seq<EgressRule>, qs: seq<EgressRule>)
    requires OffersThese(rules, c, rs) && OffersThese(rules, e, qs)
    ensures SameKeys(rules, c, e) && !OffersAll(rules, c) <==> AlikeLimited(rs, qs)
  {
    OfferedThese(rules, c, rs);
    OfferedThese(rules, e, qs);
  }

  /** The spec's condition gives that of the compiled rules, whatever the ledgers. */
  lemma CoversAlways(parse: Parser, spec: Spec, statuses: seq<FqdnStatus>)
    requires SpecCovers(spec)
    ensures RangesCover(Compile(parse, spec, statuses))
  {
    var rules, ips := Compile(parse, spec, statuses), Lookup(statuses);
    forall c, e | c in Cidrs(rules) && e in Cidrs(rules) && SameKeys(rules, c, e) && !OffersAll(rules, c)
      ensures EntriesCovered(Offered(rules, c), LastEntries(EntriesFor(rules, e)))
      ensures EntriesCovered(LastEntries(EntriesFor(rules, e)), Offered(rules, c))
    {
      CompiledCidr(parse, spec, statuses, c);
      CompiledCidr(parse, spec, statuses, e);
      AddressServed(parse, spec, statuses, c);
      AddressServed(parse, spec, statuses, e);
      var rs, qs := ServingAddress(spec, ips, c, parse(c).value), ServingAddress(spec, ips, e, parse(e).value);
      OfferedThese(rules, c, rs);
      AlikeKeys(rules, c, e, rs, qs);
      assert CoversAt(spec, Holders(ips, c) * NamesIn(spec.egress), Holders(ips, e) * NamesIn(spec.egress),
                      parse(c).value, parse(e).value);
    }
  }

  /** Ledgers in which two addresses are held by these names show the condition there. */
  lemma CoversNeeded(parse: Parser, spec: Spec, statuses: seq<FqdnStatus>, x: string, y: string)
    requires RangesCover(Compile(parse, spec, statuses))
    requires x != "" && y != "" && parse(x).Some? && parse(y).Some?
    ensures CoversAt(spec, Holders(Lookup(statuses), x) * NamesIn(spec.egress),
                     Holders(Lookup(statuses), y) * NamesIn(spec.egress), parse(x).value, parse(y).value)
  {
    var rules, ips := Compile(parse, spec, statuses), Lookup(statuses);
    AddressServed(parse, spec, statuses, x);
    AddressServed(parse, spec, statuses, y);
    var rs, qs := ServingAddress(spec, ips, x, parse(x).value), ServingAddress(spec, ips, y, parse(y).value);
    AlikeKeys(rules, x, y, rs, qs);
    OfferedThese(rules, x, rs);
  }

  lemma AbsorbedValues(m: map<string, Port>)
    requires KeyedBy(PortKey, m)
    ensures Absorbed(Only(m)).ports.Keys == Uncovered(m.Keys)
    ensures Absorbed(Only(m)).ports.Values == set p | p in m.Values && PortKey(p) in Uncovered(m.Keys)
  {
    UncoveredIs(m.Keys);
    var n := Absorbed(Only(m)).ports;
    forall p | p in m.Values && PortKey(p) in Uncovered(m.Keys) ensures p in n.Values {
      assert n[PortKey(p)] == p;
    }
    forall p | p in n.Values ensures p in m.Values && PortKey(p) in Uncovered(m.Keys) {
      var k :| k in n && n[k] == p;
      assert m[k] == p;
    }
  }

  lemma KeyedByValues(m: map<string, Port>, n: map<string, Port>)
    requires KeyedBy(PortKey, m) && KeyedBy(PortKey, n) && m.Keys == n.Keys
    ensures m == n <==> m.Values == n.Values
  {
    if m.Values == n.Values {
      forall k | k in m ensures m[k] == n[k] {
        assert m[k] in n.Values;
        var j :| j in n && n[j] == m[k];
      }
    }
  }

  /** What the table holds for a limited address. */
  lemma TableKept(rules: seq<Rule>, c: string, rs: seq<EgressRule>)
    requires OffersThese(rules, c, rs) && c in Cidrs(rules)
    ensures TableOf(rules)[c].Only? <==> !Unlimited(rs)
    ensures !Unlimited(rs) ==>
              && KeyedBy(PortKey, TableOf(rules)[c].ports)
              && TableOf(rules)[c].ports.Keys == Uncovered(KeysIn(EntriesOf(rs)))
              && TableOf(rules)[c].ports.Values == KeptEntries(EntriesOf(rs))
  {
    GrantedIs(rules, c);
    GrantedEntries(rules, c);
    var entries := EntriesOf(rs);
    KeyedKeys(entries);
    KeyedLast(entries);
    if !Unlimited(rs) {
      AbsorbedValues(Keyed(entries));
    }
  }

  lemma DeterminesPair(rules: seq<Rule>, c: string, e: string, rs: seq<EgressRule>, qs: seq<EgressRule>)
    requires OffersThese(rules, c, rs) && OffersThese(rules, e, qs) && c in Cidrs(rules) && e in Cidrs(rules)
    ensures var t := TableOf(rules);
            (t[c].Only? && t[e].Only? && t[c].ports.Keys == t[e].ports.Keys ==> t[c] == t[e])
            <==> (AlikeLimited(rs, qs) ==> KeptEntries(EntriesOf(rs)) == KeptEntries(EntriesOf(qs)))
  {
    TableKept(rules, c, rs);
    TableKept(rules, e, qs);
    if AlikeLimited(rs, qs) {
      KeyedByValues(TableOf(rules)[c].ports, TableOf(rules)[e].ports);
    }
  }

  lemma DeterminesAlways(parse: Parser, spec: Spec, statuses: seq<FqdnStatus>)
    requires SpecDetermines(spec)
    ensures KeysDetermine(TableOf(Compile(parse, spec, statuses)))
  {
    var rules, ips := Compile(parse, spec, statuses), Lookup(statuses);
    var t := TableOf(rules);
    forall c, e | c in t && e in t && t[c].Only? && t[e].Only? && t[c].ports.Keys == t[e].ports.Keys
      ensures t[c] == t[e]
    {
      CompiledCidr(parse, spec, statuses, c);
      CompiledCidr(parse, spec, statuses, e);
      AddressServed(parse, spec, statuses, c);
      AddressServed(parse, spec, statuses, e);
      DeterminesPair(rules, c, e, ServingAddress(spec, ips, c, parse(c).value),
                     ServingAddress(spec, ips, e, parse(e).value));
      assert DeterminesAt(spec, Holders(ips, c) * NamesIn(spec.egress), Holders(ips, e) * NamesIn(spec.egress),
                          parse(c).value, parse(e).value);
    }
  }

  lemma DeterminesNeeded(parse: Parser, spec: Spec, statuses: seq<FqdnStatus>, x: string, y: string)
    requires KeysDetermine(TableOf(Compile(parse, spec, statuses)))
    requires x != "" && y != "" && parse(x).Some? && parse(y).Some?
    ensures DeterminesAt(spec, Holders(Lookup(statuses), x) * NamesIn(spec.egress),
                         Holders(Lookup(statuses), y) * NamesIn(spec.egress), parse(x).value, parse(y).value)
  {
    var rules, ips := Compile(parse, spec, statuses), Lookup(statuses);
    AddressServed(parse, spec, statuses, x);
    AddressServed(parse, spec, statuses, y);
    var rs, qs := ServingAddress(spec, ips, x, parse(x).value), ServingAddress(spec, ips, y, parse(y).value);
    if rs != [] && qs != [] {
      DeterminesPair(rules, x, y, rs, qs);
    }
  }

  /** Under the spec's condition the applied policy means what the spec means. */
  lemma SpecMeaning(parse: Parser, spec: Spec, statuses: seq<FqdnStatus>, out: seq<Rule>, d: Destination)
    requires parse("").None? && KnownProtocols(spec.egress) && SpecCovers(spec)
    requires Canonical(TableOf(Compile(parse, spec, statuses)), out)
    ensures Admits(out, d) <==> SpecAdmits(parse, spec, statuses, d)
  {
    CoversAlways(parse, spec, statuses);
    PolicyMeaningIff(parse, spec, statuses);
  }

  // ------------------------------------------------------------------ what the policy depends on

  lemma SameGranted(rules: seq<Rule>, rules': seq<Rule>, c: string, rs: seq<EgressRule>)
    requires OffersThese(rules, c, rs) && OffersThese(rules', c, rs)
    ensures (c in Cidrs(rules) <==> c in Cidrs(rules')) && Granted(rules, c) == Granted(rules', c)
  {
    GrantedIs(rules, c);
    GrantedIs(rules', c);
    GrantedEntries(rules, c);
    GrantedEntries(rules', c);
  }

  lemma SameOffersHeld(parse: Parser, spec: Spec, statuses: seq<FqdnStatus>, statuses': seq<FqdnStatus>, c: string)
    requires SameHoldings(Lookup(statuses), Lookup(statuses')) && c in Cidrs(Compile(parse, spec, statuses))
    ensures c in Cidrs(Compile(parse, spec, statuses'))
    ensures Granted(Compile(parse, spec, statuses), c) == Granted(Compile(parse, spec, statuses'), c)
  {
    CompiledCidr(parse, spec, statuses, c);
    AddressServed(parse, spec, statuses, c);
    AddressServed(parse, spec, statuses', c);
    assert Holders(Lookup(statuses), c) == Holders(Lookup(statuses'), c);
    SameGranted(Compile(parse, spec, statuses), Compile(parse, spec, statuses'), c,
                ServingAddress(spec, Lookup(statuses), c, parse(c).value));
  }

  /** Ledgers that hold the same addresses, whatever the order, repetition and timestamps of their
      entries, give the identical table, hence the same lists of rules that may be emitted. */
  lemma PolicyDependsOnHoldings(parse: Parser, spec: Spec, statuses: seq<FqdnStatus>, statuses': seq<FqdnStatus>)
    requires SameHoldings(Lookup(statuses), Lookup(statuses'))
    ensures TableOf(Compile(parse, spec, statuses)) == TableOf(Compile(parse, spec, statuses'))
    ensures Cidrs(Compile(parse, spec, statuses)) == Cidrs(Compile(parse, spec, statuses'))
  {
    var rules, rules' := Compile(parse, spec, statuses), Compile(parse, spec, statuses');
    forall c | c in Cidrs(rules) ensures c in Cidrs(rules') && Granted(rules, c) == Granted(rules', c) {
      SameOffersHeld(parse, spec, statuses, statuses', c);
    }
    forall c | c in Cidrs(rules') ensures c in Cidrs(rules) {
      SameOffersHeld(parse, spec, statuses', statuses, c);
    }
  }
}
