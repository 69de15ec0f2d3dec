/** What every normal form guarantees: meaning, partition, determinism and idempotence. */
module NormaliserLaws {
  import opened Sorting
  import opened Policy
  import opened PortKeys
  import opened Grants
  import opened Regroup

  /** Keys and port names hold no separator of fingerprints. */
  ghost predicate CommaFreePorts(ports: set<Port>) {
    forall p :: p in ports ==> ',' !in PortKey(p)
  }

  /** What tables of comma-free rule lists have in common. */
  ghost predicate SoundGrant(g: Grant) {
    g.Only? ==> KeyedBy(PortKey, g.ports) && g.ports != map[] && CommaFree(g.ports.Keys)
  }

  ghost predicate Sound(t: Table) {
    "" !in t && forall c :: c in t ==> SoundGrant(t[c])
  }

  lemma TableSound(rules: seq<Rule>)
    requires CommaFreePorts(PortsIn(rules))
    ensures Sound(TableOf(rules))
  {
    forall c | c in Cidrs(rules) ensures SoundGrant(Absorbed(Granted(rules, c))) {
      GrantedIs(rules, c);
      GrantedSomething(rules, c);
      AbsorbedKeys(Granted(rules, c));
      var g := Granted(rules, c);
      if g.Only? {
        forall k | k in g.ports ensures ',' !in k {
          assert g.ports[k] in Offered(rules, c);
          assert g.ports[k] in PortsIn(rules);
        }
      }
    }
  }

  /** Sound grants have equal fingerprints exactly when they grant the same keys. */
  lemma SameFingerprint(g: Grant, h: Grant)
    requires SoundGrant(g) && SoundGrant(h)
    ensures Fingerprint(g) == Fingerprint(h) <==> g.AllPorts? == h.AllPorts? && KeySet(g) == KeySet(h)
  {
    forall k | k in KeySet(g) + KeySet(h) ensures ':' in k {
      KeyHasColon(if k in KeySet(g) then g.ports[k] else h.ports[k]);
    }
    FingerprintFaithful(KeySet(g), KeySet(h));
    assert g.Only? ==> KeySet(g) != {};
    assert h.Only? ==> KeySet(h) != {};
  }

  // ------------------------------------------------------------------ layout facts

  /** Rule i of a layout names exactly the CIDRs of its fingerprint. */
  lemma LayoutNames(prints: map<string, string>, lists: map<string, seq<Port>>,
                    rep: map<string, string>, i: nat, c: string)
    requires prints.Keys == lists.Keys && Represents(prints, rep) && "" !in prints
    requires i < |Ascending(prints.Values)|
    ensures Names(Layout(prints, lists, rep)[i], c) <==> c in prints && prints[c] == Ascending(prints.Values)[i]
  {
    LayoutAt(prints, lists, rep, i);
    var f := Ascending(prints.Values)[i];
    var cs := Ascending(Members(prints, f));
    assert Names(LayoutRule(prints, lists[rep[f]], f), c) <==> c != "" && c in cs by {
      if c in cs {
        var k :| 0 <= k < |cs| && cs[k] == c;
        assert PeersOf(cs)[k] == Peer(Some(c));
      }
    }
    assert c in cs <==> c in Elements(cs);
  }

  /** The rule that names a CIDR: one and only one. */
  lemma LayoutWhere(prints: map<string, string>, lists: map<string, seq<Port>>, rep: map<string, string>, c: string)
    returns (i: nat)
    requires prints.Keys == lists.Keys && Represents(prints, rep) && "" !in prints && c in prints
    ensures i < |Layout(prints, lists, rep)| && prints[c] in rep && rep[prints[c]] in lists
    ensures Layout(prints, lists, rep)[i].ports == lists[rep[prints[c]]]
    ensures forall j :: 0 <= j < |Layout(prints, lists, rep)| ==> (Names(Layout(prints, lists, rep)[j], c) <==> j == i)
  {
    var fs := Ascending(prints.Values);
    assert prints[c] in Elements(fs);
    i :| 0 <= i < |fs| && fs[i] == prints[c];
    StrictHasNoDuplicates(fs);
    LayoutAt(prints, lists, rep, i);
    forall j | 0 <= j < |fs| ensures Names(Layout(prints, lists, rep)[j], c) <==> j == i {
      LayoutNames(prints, lists, rep, j, c);
    }
  }

  lemma CanonicalWhere(t: Table, rules: seq<Rule>, c: string) returns (i: nat, d: string)
    requires Sound(t) && Canonical(t, rules) && c in t
    ensures i < |rules| && d in t && Fingerprint(t[d]) == Fingerprint(t[c])
    ensures rules[i].ports == PortList(t[d])
    ensures forall j :: 0 <= j < |rules| ==> (Names(rules[j], c) <==> j == i)
  {
    var prints, lists := Fingerprints(t), PortLists(t);
    var rep :| Represents(prints, rep) && rules == Layout(prints, lists, rep);
    i := LayoutWhere(prints, lists, rep, c);
    d := rep[prints[c]];
  }

  lemma OnlyTableCidrs(t: Table, rules: seq<Rule>, r: Rule, c: string)
    requires Sound(t) && Canonical(t, rules) && r in rules && Names(r, c)
    ensures c in t
  {
    var prints, lists := Fingerprints(t), PortLists(t);
    var rep :| Represents(prints, rep) && rules == Layout(prints, lists, rep);
    var i :| 0 <= i < |rules| && rules[i] == r;
    LayoutNames(prints, lists, rep, i, c);
  }

  lemma TableCidrNamed(t: Table, rules: seq<Rule>, c: string)
    requires Sound(t) && Canonical(t, rules) && c in t
    ensures c in Cidrs(rules)
  {
    var i, _ := CanonicalWhere(t, rules, c);
    assert rules[i] in rules && Names(rules[i], c);
  }

  lemma CanonicalCidrs(t: Table, rules: seq<Rule>)
    requires Sound(t) && Canonical(t, rules)
    ensures Cidrs(rules) == t.Keys
  {
    forall c | c in Cidrs(rules) ensures c in t.Keys {
      var r :| r in rules && Names(r, c);
      OnlyTableCidrs(t, rules, r, c);
    }
    forall c | c in t.Keys ensures c in Cidrs(rules) {
      TableCidrNamed(t, rules, c);
    }
  }

  // ------------------------------------------------------------------ key-level meaning

  /** The keys offered to a CIDR. */
  function OfferedKeys(rules: seq<Rule>, c: string): set<string> {
    set p | p in Offered(rules, c) :: PortKey(p)
  }

  /** The table says what the rules offer the CIDR. */
  ghost predicate Tabulates(rules: seq<Rule>, t: Table, c: string) {
    && (c in t <==> c in Cidrs(rules))
    && (c in t ==> (t[c].AllPorts? <==> OffersAll(rules, c)))
    && (c in t && t[c].Only? ==> KeySet(t[c]) == Uncovered(OfferedKeys(rules, c)))
  }

  lemma TableTabulates(rules: seq<Rule>, c: string)
    ensures Tabulates(rules, TableOf(rules), c)
  {
    GrantedIs(rules, c);
    AbsorbedKeys(Granted(rules, c));
  }

  /** Normalising changes no CIDR's keys, end ports aside: it lists the same CIDRs; one may
      use every port after iff it may before, in particular no limited CIDR ends up under an
      empty port list; and otherwise it gets the union of the keys of all rules naming it,
      less those its "any" keys cover. */
  lemma KeysPreserved(rules: seq<Rule>, out: seq<Rule>, c: string)
    requires CommaFreePorts(PortsIn(rules)) && Canonical(TableOf(rules), out)
    ensures c in Cidrs(out) <==> c in Cidrs(rules)
    ensures OffersAll(out, c) <==> OffersAll(rules, c)
    ensures !OffersAll(rules, c) ==> OfferedKeys(out, c) == Uncovered(OfferedKeys(rules, c))
  {
    TableSound(rules);
    TableTabulates(rules, c);
    CanonicalKeys(rules, TableOf(rules), out, c);
  }

  lemma CanonicalKeys(rules: seq<Rule>, t: Table, out: seq<Rule>, c: string)
    requires Sound(t) && Tabulates(rules, t, c) && Canonical(t, out)
    ensures c in Cidrs(out) <==> c in Cidrs(rules)
    ensures OffersAll(out, c) <==> OffersAll(rules, c)
    ensures !OffersAll(rules, c) ==> OfferedKeys(out, c) == Uncovered(OfferedKeys(rules, c))
  {
    if c in t {
      TableCidrNamed(t, out, c);
      CanonicalOffers(t, out, c);
    } else {
      NotNamed(t, out, c);
      NothingOffered(rules, out, c);
    }
  }

  lemma NothingOffered(rules: seq<Rule>, out: seq<Rule>, c: string)
    requires c !in Cidrs(rules) && c !in Cidrs(out)
    ensures !OffersAll(out, c) && !OffersAll(rules, c)
    ensures OfferedKeys(out, c) == {} == Uncovered(OfferedKeys(rules, c))
  {
    OffersNothing(rules, c);
    OffersNothing(out, c);
  }

  lemma NotNamed(t: Table, out: seq<Rule>, c: string)
    requires Sound(t) && Canonical(t, out) && c !in t
    ensures c !in Cidrs(out)
  {
    CanonicalCidrs(t, out);
  }

  lemma OffersNothing(rules: seq<Rule>, c: string)
    requires c !in Cidrs(rules)
    ensures !OffersAll(rules, c) && OfferedKeys(rules, c) == {}
  {
  }

  // ------------------------------------------------------------------ absorption, entry by entry

  lemma AnyKeyIff(p: Port, proto: string)
    requires ValidPort(p) && proto in PROTOCOLS
    ensures PortKey(p) == AnyKey(proto) <==> ProtocolOf(p) == proto && p.port.None?
    ensures proto + ":" <= PortKey(p) <==> ProtocolOf(p) == proto
  {
    assert proto == "TCP" || proto == "UDP" || proto == "SCTP";
    KeyStartsWithProtocol(p);
    if proto + ":" <= PortKey(p) {
      KeyProtocol(p, proto);
    }
    assert proto + ":" <= AnyKey(proto);
    var s := if p.port.Some? then p.port.value.ToString() else "Any";
    assert PortKey(p) == (ProtocolOf(p) + ":") + s;
    assert AnyKey(proto) == (proto + ":") + "Any";
    if PortKey(p) == AnyKey(proto) {
      assert s == PortKey(p)[|proto| + 1..] == "Any";
      assert s[0] in s && s[0] == 'A';
    }
  }

  /** An entry is kept when it has no port, or none of its protocol is without one. */
  predicate KeptBeside(ports: set<Port>, p: Port) {
    p.port.None? || forall q :: q in ports && ProtocolOf(q) == ProtocolOf(p) ==> q.port.Some?
  }

  lemma CoveredPort(ports: set<Port>, keys: set<string>, p: Port)
    requires ValidPorts(ports) && p in ports && keys == set q | q in ports :: PortKey(q)
    ensures PortKey(p) in Uncovered(keys) <==> KeptBeside(ports, p)
  {
    UncoveredIs(keys);
    forall proto | proto in PROTOCOLS
      ensures CoveredBy(keys, PortKey(p), proto) <==>
                && ProtocolOf(p) == proto && p.port.Some?
                && exists q :: q in ports && ProtocolOf(q) == proto && q.port.None?
    {
      AnyKeyIff(p, proto);
      forall q | q in ports ensures PortKey(q) == AnyKey(proto) <==> ProtocolOf(q) == proto && q.port.None? {
        AnyKeyIff(q, proto);
      }
    }
    assert ProtocolOf(p) in PROTOCOLS;
  }

  lemma KeptKeys(ports: set<Port>, k: string)
    requires ValidPorts(ports)
    ensures k in Uncovered(set q | q in ports :: PortKey(q))
            <==> exists p :: p in ports && PortKey(p) == k && KeptBeside(ports, p)
  {
    var keys := set q | q in ports :: PortKey(q);
    forall p | p in ports ensures PortKey(p) in Uncovered(keys) <==> KeptBeside(ports, p) {
      CoveredPort(ports, keys, p);
    }
  }

  /** Entry by entry: a limited CIDR is emitted a key exactly when an entry with it is offered that
      has no port, or whose protocol no offered entry has without a port. */
  lemma PortsPreserved(rules: seq<Rule>, out: seq<Rule>, c: string, k: string)
    requires ValidPorts(PortsIn(rules)) && Canonical(TableOf(rules), out) && !OffersAll(rules, c)
    ensures k in OfferedKeys(out, c)
            <==> exists p :: p in Offered(rules, c) && PortKey(p) == k && KeptBeside(Offered(rules, c), p)
  {
    ValidCommaFree(PortsIn(rules));
    KeysPreserved(rules, out, c);
    OfferedValid(rules, c);
    KeptKeys(Offered(rules, c), k);
  }

  lemma OfferedValid(rules: seq<Rule>, c: string)
    requires ValidPorts(PortsIn(rules))
    ensures ValidPorts(Offered(rules, c))
  {
    assert Offered(rules, c) <= PortsIn(rules);
  }

  /** The ports of an emitted rule are those of one CIDR. */
  lemma EmittedPorts(t: Table, out: seq<Rule>, r: Rule) returns (c: string)
    requires Canonical(t, out) && r in out
    ensures c in t && r.ports == PortList(t[c])
  {
    var prints, lists := Fingerprints(t), PortLists(t);
    var rep :| Represents(prints, rep) && out == Layout(prints, lists, rep);
    var i :| 0 <= i < |out| && out[i] == r;
    LayoutAt(prints, lists, rep, i);
    c := rep[Ascending(prints.Values)[i]];
  }

  lemma TableEntries(rules: seq<Rule>, c: string)
    requires c in TableOf(rules)
    ensures forall p :: p in PortList(TableOf(rules)[c]) ==>
              p in Offered(rules, c) && PortKey(p) in Uncovered(OfferedKeys(rules, c))
  {
    GrantedIs(rules, c);
    AbsorbedKeys(Granted(rules, c));
    if Granted(rules, c).Only? {
      ListingHolds(Absorbed(Granted(rules, c)).ports);
    }
  }

  lemma KeptTogether(ports: set<Port>, keys: set<string>, p: Port, q: Port)
    requires ValidPorts(ports) && p in ports && q in ports && keys == set r | r in ports :: PortKey(r)
    requires PortKey(p) in Uncovered(keys) && PortKey(q) in Uncovered(keys) && ProtocolOf(p) == ProtocolOf(q)
    ensures p.port.None? <==> q.port.None?
  {
    CoveredPort(ports, keys, p);
    CoveredPort(ports, keys, q);
  }

  /** No emitted rule holds an entry with a port beside one of its protocol without. */
  lemma NoneBeside(rules: seq<Rule>, out: seq<Rule>, r: Rule, p: Port, q: Port)
    requires ValidPorts(PortsIn(rules)) && Canonical(TableOf(rules), out)
    requires r in out && p in r.ports && q in r.ports && ProtocolOf(p) == ProtocolOf(q)
    ensures p.port.None? <==> q.port.None?
  {
    var c := EmittedPorts(TableOf(rules), out, r);
    NoneTogether(rules, c, r.ports, p, q);
  }

  lemma NoneTogether(rules: seq<Rule>, c: string, ports: seq<Port>, p: Port, q: Port)
    requires ValidPorts(PortsIn(rules)) && c in TableOf(rules) && ports == PortList(TableOf(rules)[c])
    requires p in ports && q in ports && ProtocolOf(p) == ProtocolOf(q)
    ensures p.port.None? <==> q.port.None?
  {
    TableEntries(rules, c);
    OfferedValid(rules, c);
    KeptTogether(Offered(rules, c), OfferedKeys(rules, c), p, q);
  }

  /** A normal form offers a CIDR the keys its table gives it. */
  lemma CanonicalOffers(t: Table, out: seq<Rule>, c: string)
    requires Sound(t) && Canonical(t, out) && c in t
    ensures OffersAll(out, c) <==> t[c].AllPorts?
    ensures t[c].Only? ==> OfferedKeys(out, c) == KeySet(t[c])
  {
    var i, d := CanonicalWhere(t, out, c);
    SameFingerprint(t[c], t[d]);
    OfferedOnce(out, i, c);
    PortListOffers(t[d]);
  }

  lemma PortListOffers(g: Grant)
    requires SoundGrant(g)
    ensures PortList(g) == [] <==> g.AllPorts?
    ensures g.Only? ==> (set p | p in Elements(PortList(g)) :: PortKey(p)) == KeySet(g)
  {
    if g.Only? {
      ListingElements(PortKey, g.ports);
      assert |PortList(g)| > 0;
    }
  }

  lemma OfferedOnce(rules: seq<Rule>, i: nat, c: string)
    requires i < |rules| && forall j :: 0 <= j < |rules| ==> (Names(rules[j], c) <==> j == i)
    ensures Offered(rules, c) == Elements(rules[i].ports)
    ensures OffersAll(rules, c) <==> rules[i].ports == []
  {
    assert rules[i] in rules;
    assert forall r :: r in rules && Names(r, c) ==> r == rules[i];
  }

  lemma ListingElements<T>(key: T -> string, m: map<string, T>)
    requires KeyedBy(key, m)
    ensures forall x :: x in Listing(m) <==> key(x) in m && m[key(x)] == x
    ensures (set x | x in Listing(m) :: key(x)) == m.Keys
  {
    var ks := Ascending(m.Keys);
    forall i | 0 <= i < |ks| ensures ks[i] in m && Listing(m)[i] == m[ks[i]] {
      assert ks[i] in Elements(ks);
    }
    forall k | k in m ensures m[k] in Listing(m) {
      assert k in Elements(ks);
      var i :| 0 <= i < |ks| && ks[i] == k;
      assert Listing(m)[i] == m[k];
    }
  }

  // ------------------------------------------------------------------ packet-level meaning

  ghost predicate GrantAdmits(g: Grant, d: Destination) {
    g.AllPorts? || exists k :: k in g.ports && PortAdmits(g.ports[k], d)
  }

  ghost predicate AllNamePeers(rules: seq<Rule>) {
    forall r :: r in rules ==> r.to != []
  }

  /** The unabsorbed grant of a CIDR admits what the rules do. */
  lemma GrantedAdmits(rules: seq<Rule>, d: Destination)
    requires KeysAgree(PortsIn(rules)) && AllNamePeers(rules)
    ensures Admits(rules, d) <==> d.cidr in Cidrs(rules) && GrantAdmits(Granted(rules, d.cidr), d)
  {
    var c := d.cidr;
    GrantedIs(rules, c);
    var g := Granted(rules, c);
    assert Offered(rules, c) <= PortsIn(rules);
    if Admits(rules, d) {
      var r :| r in rules && RuleAdmits(r, d);
      if r.ports != [] && g.Only? {
        var p :| p in r.ports && PortAdmits(p, d);
        assert p in Offered(rules, c);
        var k := PortKey(p);
        assert k in KeySet(g);
        assert g.ports[k] == p;
      }
    }
    if c in Cidrs(rules) && GrantAdmits(g, d) {
      if g.AllPorts? {
        var r :| r in rules && Names(r, c) && r.ports == [];
        assert RuleAdmits(r, d);
      } else {
        var k :| k in g.ports && PortAdmits(g.ports[k], d);
        var r :| r in rules && Names(r, c) && g.ports[k] in r.ports;
        assert RuleAdmits(r, d);
      }
    }
  }

  /** Absorbing specific ports under an "any" entry of their protocol loses and adds nothing. */
  lemma AbsorbedAdmits(g: Grant, d: Destination)
    requires g.Only? ==> KeyedBy(PortKey, g.ports) && ValidPorts(g.ports.Values)
    ensures GrantAdmits(Absorbed(g), d) <==> GrantAdmits(g, d)
  {
    if g.Only? {
      forall k | k in g.ports && PortAdmits(g.ports[k], d) ensures GrantAdmits(Absorbed(g), d) {
        if Covered(g.ports.Keys, k) {
          var proto :| proto in PROTOCOLS && CoveredBy(g.ports.Keys, k, proto);
          CoverAdmits(g.ports, k, proto, d);
          AnyKeyUncovered(g.ports.Keys, proto);
          assert AnyKey(proto) in Absorbed(g).ports;
        } else {
          assert k in Absorbed(g).ports;
        }
      }
    }
  }

  lemma CoverAdmits(ports: map<string, Port>, k: string, proto: string, d: Destination)
    requires KeyedBy(PortKey, ports) && ValidPorts(ports.Values)
    requires k in ports && proto in PROTOCOLS && CoveredBy(ports.Keys, k, proto) && PortAdmits(ports[k], d)
    ensures PortAdmits(ports[AnyKey(proto)], d)
  {
    var any := ports[AnyKey(proto)];
    assert any in ports.Values && ports[k] in ports.Values;
    assert proto == "TCP" || proto == "UDP" || proto == "SCTP";
    KeyProtocol(ports[k], proto);
    AnyAdmits(any, proto, d);
  }

  /** A valid port with an "any" key has no port, so it admits its whole protocol. */
  lemma AnyAdmits(p: Port, proto: string, d: Destination)
    requires ValidPort(p) && proto in PROTOCOLS && PortKey(p) == AnyKey(proto) && d.protocol == proto
    ensures PortAdmits(p, d)
  {
    AnyKeyIff(p, proto);
  }

  lemma PortListAdmits(g: Grant, d: Destination)
    requires SoundGrant(g)
    ensures PortsAdmit(PortList(g), d) <==> GrantAdmits(g, d)
  {
    if g.Only? {
      PortListOffers(g);
      ListingHolds(g.ports);
    }
  }

  lemma ListingHolds(m: map<string, Port>)
    requires KeyedBy(PortKey, m)
    ensures forall p :: p in Listing(m) <==> p in m.Values
    ensures forall k :: k in m ==> m[k] in Listing(m)
  {
    ListingElements(PortKey, m);
    forall k | k in m ensures m[k] in Listing(m) {
      assert PortKey(m[k]) == k;
    }
  }

  lemma CanonicalNamesPeers(t: Table, out: seq<Rule>)
    requires Sound(t) && Canonical(t, out)
    ensures AllNamePeers(out)
  {
    var prints, lists := Fingerprints(t), PortLists(t);
    var rep :| Represents(prints, rep) && out == Layout(prints, lists, rep);
    forall r | r in out ensures r.to != [] {
      var i :| 0 <= i < |out| && out[i] == r;
      LayoutAt(prints, lists, rep, i);
      var f := Ascending(prints.Values)[i];
      assert rep[f] in Members(prints, f);
      assert |Members(prints, f)| > 0;
    }
  }

  lemma TablePorts(rules: seq<Rule>, c: string)
    requires c in Cidrs(rules)
    ensures TableOf(rules)[c].Only? ==>
              && TableOf(rules)[c].ports.Values <= PortsIn(rules)
              && KeyedBy(PortKey, TableOf(rules)[c].ports)
  {
    GrantedIs(rules, c);
    assert Offered(rules, c) <= PortsIn(rules);
  }

  /** A port set with agreeing entries is determined by its keys. */
  lemma SamePorts(all: set<Port>, m: map<string, Port>, n: map<string, Port>)
    requires KeysAgree(all) && m.Values <= all && n.Values <= all
    requires KeyedBy(PortKey, m) && KeyedBy(PortKey, n) && m.Keys == n.Keys
    ensures m == n
  {
    forall k | k in m ensures m[k] == n[k] {
      assert k in n && m[k] in m.Values && n[k] in n.Values;
      assert PortKey(m[k]) == k == PortKey(n[k]);
    }
  }

  /** Normalising preserves meaning: exactly the same destinations are admitted. */
  lemma MeaningPreserved(rules: seq<Rule>, out: seq<Rule>, d: Destination)
    requires ValidPorts(PortsIn(rules)) && KeysAgree(PortsIn(rules)) && AllNamePeers(rules)
    requires Canonical(TableOf(rules), out)
    ensures Admits(out, d) <==> Admits(rules, d)
  {
    ValidCommaFree(PortsIn(rules));
    TableSound(rules);
    AgreementDetermines(rules);
    CanonicalAdmits(TableOf(rules), out, d);
    GrantedAdmits(rules, d);
    if d.cidr in Cidrs(rules) {
      TableAdmits(rules, d);
    }
  }

  /** CIDRs with the same keys have the same entries under them, end ports included. */
  predicate KeysDetermine(t: Table) {
    forall c, d :: c in t && d in t && t[c].Only? && t[d].Only? && t[c].ports.Keys == t[d].ports.Keys ==> t[c] == t[d]
  }

  lemma SamePrintSameGrant(t: Table, c: string, d: string)
    requires Sound(t) && KeysDetermine(t) && c in t && d in t
    requires Fingerprint(t[c]) == Fingerprint(t[d])
    ensures t[c] == t[d]
  {
    SameFingerprint(t[c], t[d]);
  }

  /** Agreeing end ports over the whole policy are enough. */
  lemma AgreementDetermines(rules: seq<Rule>)
    requires KeysAgree(PortsIn(rules))
    ensures KeysDetermine(TableOf(rules))
  {
    forall c, d | c in Cidrs(rules) && d in Cidrs(rules) && TableOf(rules)[c].Only? && TableOf(rules)[d].Only?
                  && TableOf(rules)[c].ports.Keys == TableOf(rules)[d].ports.Keys
      ensures TableOf(rules)[c] == TableOf(rules)[d]
    {
      TablePorts(rules, c);
      TablePorts(rules, d);
      SamePorts(PortsIn(rules), TableOf(rules)[c].ports, TableOf(rules)[d].ports);
    }
  }

  lemma AdmitsNothing(rules: seq<Rule>, d: Destination)
    requires AllNamePeers(rules) && d.cidr !in Cidrs(rules)
    ensures !Admits(rules, d)
  {
  }

  lemma ServesNothing(t: Table, out: seq<Rule>, d: Destination)
    requires Sound(t) && Canonical(t, out) && d.cidr !in t
    ensures !Admits(out, d)
  {
    CanonicalNamesPeers(t, out);
    CanonicalCidrs(t, out);
    AdmitsNothing(out, d);
  }

  lemma CanonicalAdmits(t: Table, out: seq<Rule>, d: Destination)
    requires Sound(t) && KeysDetermine(t) && Canonical(t, out)
    ensures Admits(out, d) <==> d.cidr in t && GrantAdmits(t[d.cidr], d)
  {
    if d.cidr in t {
      CanonicalNamesPeers(t, out);
      AdmitsAsTabled(t, out, d);
    } else {
      ServesNothing(t, out, d);
    }
  }

  lemma AdmitsAsTabled(t: Table, out: seq<Rule>, d: Destination)
    requires Sound(t) && KeysDetermine(t) && Canonical(t, out) && AllNamePeers(out) && d.cidr in t
    ensures Admits(out, d) <==> GrantAdmits(t[d.cidr], d)
  {
    var i, e := CanonicalWhere(t, out, d.cidr);
    SamePrintSameGrant(t, d.cidr, e);
    PortListAdmits(t[e], d);
    AdmitsOnce(out, i, d);
  }

  lemma ValidCommaFree(ports: set<Port>)
    requires ValidPorts(ports)
    ensures CommaFreePorts(ports)
  {
    forall p | p in ports ensures ',' !in PortKey(p) {
      ValidKeyCommaFree(p);
    }
  }

  lemma TableAdmits(rules: seq<Rule>, d: Destination)
    requires ValidPorts(PortsIn(rules)) && d.cidr in Cidrs(rules)
    ensures GrantAdmits(TableOf(rules)[d.cidr], d) <==> GrantAdmits(Granted(rules, d.cidr), d)
  {
    var g := Granted(rules, d.cidr);
    GrantedIs(rules, d.cidr);
    assert Offered(rules, d.cidr) <= PortsIn(rules);
    AbsorbedAdmits(g, d);
  }

  lemma AdmitsOnce(rules: seq<Rule>, i: nat, d: Destination)
    requires i < |rules| && AllNamePeers(rules)
    requires forall j :: 0 <= j < |rules| ==> (Names(rules[j], d.cidr) <==> j == i)
    ensures Admits(rules, d) <==> PortsAdmit(rules[i].ports, d)
  {
    assert rules[i] in rules && RuleAdmits(rules[i], d) == PortsAdmit(rules[i].ports, d);
    if r :| r in rules && RuleAdmits(r, d) {
      var j :| 0 <= j < |rules| && rules[j] == r;
    }
  }
}
