/** What each CIDR is granted by a rule list, and the canonical rule list for such grants.
    This is the specification the in-place normaliser is proved against. */
module Grants {
  import opened Sorting
  import opened Policy
  import opened PortKeys

  /** Every port, or the listed ports under their keys. */
  datatype Grant = AllPorts | Only(ports: map<string, Port>)

  type Table = map<string, Grant>

  /** Ports under their keys; of entries with the same key the last stays. */
  function Keyed(ports: seq<Port>): map<string, Port> {
    if ports == [] then map[]
    else
      var last := ports[|ports| - 1];
      Keyed(ports[..|ports| - 1])[PortKey(last) := last]
  }

  /** A grant after one more rule mentions the CIDR: all-ports latches. */
  function Merge(g: Grant, ports: seq<Port>): Grant {
    if g.AllPorts? || ports == [] then AllPorts else Only(g.ports + Keyed(ports))
  }

  function Granted(rules: seq<Rule>, cidr: string): Grant {
    if rules == [] then Only(map[])
    else
      var before := Granted(rules[..|rules| - 1], cidr);
      var last := rules[|rules| - 1];
      if Names(last, cidr) then Merge(before, last.ports) else before
  }

  /** The key is a specific port of a protocol whose "any" key is present. */
  predicate Covered(keys: set<string>, key: string) {
    exists proto :: proto in PROTOCOLS && CoveredBy(keys, key, proto)
  }

  predicate CoveredBy(keys: set<string>, key: string, proto: string) {
    AnyKey(proto) in keys && proto + ":" <= key && key != AnyKey(proto)
  }

  /** The keys but for those under a protocol that is there as a whole. */
  function Uncovered(keys: set<string>): set<string> {
    set k | k in keys
            && !("TCP:Any" in keys && "TCP:" <= k && k != "TCP:Any")
            && !("UDP:Any" in keys && "UDP:" <= k && k != "UDP:Any")
            && !("SCTP:Any" in keys && "SCTP:" <= k && k != "SCTP:Any")
  }

  lemma UncoveredIs(keys: set<string>)
    ensures forall k :: k in Uncovered(keys) <==> k in keys && !Covered(keys, k)
  {
    forall k ensures Covered(keys, k) <==>
        CoveredBy(keys, k, "TCP") || CoveredBy(keys, k, "UDP") || CoveredBy(keys, k, "SCTP")
    {
      assert PROTOCOLS[0] == "TCP" && PROTOCOLS[1] == "UDP" && PROTOCOLS[2] == "SCTP";
      assert forall p :: p in PROTOCOLS ==> p == "TCP" || p == "UDP" || p == "SCTP";
    }
    assert AnyKey("TCP") == "TCP:Any" && AnyKey("UDP") == "UDP:Any" && AnyKey("SCTP") == "SCTP:Any";
    assert "TCP" + ":" == "TCP:" && "UDP" + ":" == "UDP:" && "SCTP" + ":" == "SCTP:";
  }

  function Absorbed(g: Grant): Grant {
    if g.AllPorts? then g
    else Only(map k | k in g.ports && !Covered(g.ports.Keys, k) :: g.ports[k])
  }

  /** The absorbed grant of every mentioned CIDR. */
  function TableOf(rules: seq<Rule>): Table {
    map c | c in Cidrs(rules) :: Absorbed(Granted(rules, c))
  }

  // ------------------------------------------------------------------ canonical rule list

  function KeySet(g: Grant): set<string> {
    if g.AllPorts? then {} else g.ports.Keys
  }

  ghost function Fingerprint(g: Grant): string {
    KeysFingerprint(KeySet(g))
  }

  /** The ports of a grant in the order of their keys; none for all ports. */
  ghost function PortList(g: Grant): seq<Port> {
    if g.AllPorts? then [] else Listing(g.ports)
  }

  ghost function Fingerprints(t: Table): map<string, string> {
    map c | c in t :: Fingerprint(t[c])
  }

  ghost function PortLists(t: Table): map<string, seq<Port>> {
    map c | c in t :: PortList(t[c])
  }

  function PeersOf(cidrs: seq<string>): seq<Peer> {
    seq(|cidrs|, i requires 0 <= i < |cidrs| => Peer(Some(cidrs[i])))
  }

  /** The CIDRs with this fingerprint. */
  function Members(prints: map<string, string>, f: string): set<string> {
    set c | c in prints && prints[c] == f
  }

  /** A representative CIDR for each fingerprint. */
  ghost predicate Represents(prints: map<string, string>, rep: map<string, string>) {
    && rep.Keys == prints.Values
    && forall f :: f in rep ==> rep[f] in prints && prints[rep[f]] == f
  }

  /** The rule of one fingerprint: all its CIDRs in increasing order, under its representative's ports. */
  ghost function LayoutRule(prints: map<string, string>, ports: seq<Port>, f: string): Rule {
    Rule(ports, PeersOf(Ascending(Members(prints, f))))
  }

  /** One rule per fingerprint, in increasing order of fingerprints. */
  ghost function Layout(prints: map<string, string>, lists: map<string, seq<Port>>, rep: map<string, string>): seq<Rule>
    requires prints.Keys == lists.Keys && Represents(prints, rep)
  {
    var fs := Ascending(prints.Values);
    seq(|fs|, i requires 0 <= i < |fs| =>
      assert fs[i] in Elements(fs);
      LayoutRule(prints, lists[rep[fs[i]]], fs[i]))
  }

  /** The normal form: what the normaliser may emit for this table. The representatives,
      and nothing else, depend on map iteration order. */
  ghost predicate Canonical(t: Table, rules: seq<Rule>) {
    exists rep :: Represents(Fingerprints(t), rep) && rules == Layout(Fingerprints(t), PortLists(t), rep)
  }

  // ------------------------------------------------------------------ facts about grants

  lemma {:induction false} KeyedKeys(ports: seq<Port>)
    ensures Keyed(ports).Keys == set p | p in ports :: PortKey(p)
    ensures forall k :: k in Keyed(ports) ==> Keyed(ports)[k] in ports && PortKey(Keyed(ports)[k]) == k
  {
    if ports != [] {
      var init, last := ports[..|ports| - 1], ports[|ports| - 1];
      KeyedKeys(init);
      assert ports == init + [last];
      assert forall p :: p in ports <==> p in init || p == last;
    }
  }

  lemma MergeTwice(g: Grant, ports: seq<Port>)
    ensures Merge(Merge(g, ports), ports) == Merge(g, ports)
  {
    if Merge(g, ports).Only? {
      assert (g.ports + Keyed(ports)) + Keyed(ports) == g.ports + Keyed(ports);
    }
  }

  /** The ports a rule list offers one CIDR. */
  function Offered(rules: seq<Rule>, cidr: string): set<Port> {
    set r, p | r in rules && Names(r, cidr) && p in r.ports :: p
  }

  predicate OffersAll(rules: seq<Rule>, cidr: string) {
    exists r :: r in rules && Names(r, cidr) && r.ports == []
  }

  lemma OffersNext(rules: seq<Rule>, cidr: string)
    requires rules != []
    ensures var init, last := rules[..|rules| - 1], rules[|rules| - 1];
            && Offered(rules, cidr) == Offered(init, cidr) + (if Names(last, cidr) then set p | p in last.ports else {})
            && (OffersAll(rules, cidr) <==> OffersAll(init, cidr) || (Names(last, cidr) && last.ports == []))
  {
    var init, last := rules[..|rules| - 1], rules[|rules| - 1];
    assert rules == init + [last];
    assert forall r :: r in rules <==> r in init || r == last;
  }

  /** The grant, pointwise: all ports iff some rule naming the CIDR lists none; otherwise
      exactly the keys of the ports offered to it, each with one of the ports of that key. */
  lemma {:induction false} GrantedIs(rules: seq<Rule>, cidr: string)
    ensures Granted(rules, cidr).AllPorts? <==> OffersAll(rules, cidr)
    ensures Granted(rules, cidr).Only? ==>
              && KeySet(Granted(rules, cidr)) == (set p | p in Offered(rules, cidr) :: PortKey(p))
              && forall k :: k in Granted(rules, cidr).ports ==>
                   && Granted(rules, cidr).ports[k] in Offered(rules, cidr)
                   && PortKey(Granted(rules, cidr).ports[k]) == k
  {
    if rules != [] {
      var init, last := rules[..|rules| - 1], rules[|rules| - 1];
      OffersNext(rules, cidr);
      GrantedIs(init, cidr);
      KeyedKeys(last.ports);
    }
  }

  /** A CIDR some rule names is granted something: a port set never runs empty, so no
      limited grant can be mistaken for an unlimited one. */
  lemma GrantedSomething(rules: seq<Rule>, cidr: string)
    requires cidr in Cidrs(rules)
    ensures Granted(rules, cidr).AllPorts? || KeySet(Granted(rules, cidr)) != {}
  {
    GrantedIs(rules, cidr);
    var r :| r in rules && Names(r, cidr);
    if r.ports != [] {
      var p := r.ports[0];
      assert p in r.ports;
      assert p in Offered(rules, cidr);
      assert !OffersAll(rules, cidr) ==> PortKey(p) in KeySet(Granted(rules, cidr));
    }
  }

  lemma AnyKeyUncovered(keys: set<string>, proto: string)
    requires proto in PROTOCOLS
    ensures !Covered(keys, AnyKey(proto))
  {
    assert proto == "TCP" || proto == "UDP" || proto == "SCTP";
    var k := AnyKey(proto);
    forall q | q in PROTOCOLS ensures !CoveredBy(keys, k, q) {
      assert q == "TCP" || q == "UDP" || q == "SCTP";
      if q + ":" <= k {
        assert k[0] == q[0];
      }
    }
  }

  lemma AbsorbedKeys(g: Grant)
    ensures KeySet(Absorbed(g)) == Uncovered(KeySet(g))
    ensures KeySet(g) != {} ==> KeySet(Absorbed(g)) != {}
  {
    UncoveredIs(KeySet(g));
    if g.Only? && KeySet(g) != {} {
      var k :| k in KeySet(g);
      if Covered(KeySet(g), k) {
        var proto :| proto in PROTOCOLS && CoveredBy(KeySet(g), k, proto);
        AnyKeyUncovered(KeySet(g), proto);
        assert AnyKey(proto) in KeySet(Absorbed(g));
      } else {
        assert k in KeySet(Absorbed(g));
      }
    }
  }

  lemma AbsorbedTwice(g: Grant)
    ensures Absorbed(Absorbed(g)) == Absorbed(g)
  {
    if g.Only? {
      var a := Absorbed(g);
      assert a.ports.Keys <= g.ports.Keys;
      assert forall k :: k in a.ports ==> !Covered(a.ports.Keys, k);
      assert Absorbed(a).ports == a.ports;
    }
  }

  lemma TableSomething(rules: seq<Rule>)
    ensures forall c :: c in TableOf(rules) ==> TableOf(rules)[c].AllPorts? || KeySet(TableOf(rules)[c]) != {}
  {
    forall c | c in TableOf(rules) ensures TableOf(rules)[c].AllPorts? || KeySet(TableOf(rules)[c]) != {} {
      GrantedSomething(rules, c);
      AbsorbedKeys(Granted(rules, c));
    }
  }
}
