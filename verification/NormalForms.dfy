/** How far the normal form is fixed by the rules: determinism, idempotence, partition. */
module NormalForms {
  import opened Text
  import opened Sorting
  import opened Policy
  import opened PortKeys
  import opened Grants
  import opened Regroup
  import opened NormaliserLaws

  // ------------------------------------------------------------------ determinism

  /** Map iteration order does not show in the result. */
  ghost predicate OrderHidden(t: Table) {
    forall out, out' :: Canonical(t, out) && Canonical(t, out') ==> out == out'
  }

  lemma {:induction false} SomeRepresentatives(prints: map<string, string>) returns (rep: map<string, string>)
    ensures Represents(prints, rep)
  {
    rep := map f | f in prints.Values :: AnyMember(prints, f);
  }

  ghost function AnyMember(prints: map<string, string>, f: string): (c: string)
    requires f in prints.Values
    ensures c in prints && prints[c] == f
  {
    var c :| c in prints && prints[c] == f;
    c
  }

  lemma SameLayout(prints: map<string, string>, lists: map<string, seq<Port>>,
                   lists': map<string, seq<Port>>, rep: map<string, string>, rep': map<string, string>)
    requires prints.Keys == lists.Keys == lists'.Keys && Represents(prints, rep) && Represents(prints, rep')
    requires forall f :: f in rep ==> lists[rep[f]] == lists'[rep'[f]]
    ensures Layout(prints, lists, rep) == Layout(prints, lists', rep')
  {
    var fs := Ascending(prints.Values);
    forall i | 0 <= i < |fs| ensures Layout(prints, lists, rep)[i] == Layout(prints, lists', rep')[i] {
      LayoutAt(prints, lists, rep, i);
      LayoutAt(prints, lists', rep', i);
    }
  }

  lemma SamePrintSameList(t: Table, c: string, d: string)
    requires Sound(t) && KeysDetermine(t) && c in t && d in t && Fingerprints(t)[c] == Fingerprints(t)[d]
    ensures PortLists(t)[c] == PortLists(t)[d]
  {
    SamePrintSameGrant(t, c, d);
  }

  lemma SamePicks(t: Table, rep: map<string, string>, rep': map<string, string>)
    requires Sound(t) && KeysDetermine(t)
    requires Represents(Fingerprints(t), rep) && Represents(Fingerprints(t), rep')
    ensures forall f :: f in rep ==> PortLists(t)[rep[f]] == PortLists(t)[rep'[f]]
  {
    forall f | f in rep ensures PortLists(t)[rep[f]] == PortLists(t)[rep'[f]] {
      SamePrintSameList(t, rep[f], rep'[f]);
    }
  }

  lemma CanonicalUnique(t: Table, out: seq<Rule>, out': seq<Rule>)
    requires Sound(t) && KeysDetermine(t)
    requires Canonical(t, out) && Canonical(t, out')
    ensures out == out'
  {
    var rep := CanonicalLayout(t, out);
    var rep' := CanonicalLayout(t, out');
    SamePicks(t, rep, rep');
    SameLayout(Fingerprints(t), PortLists(t), PortLists(t), rep, rep');
  }

  lemma ListingWithin(m: map<string, Port>, n: map<string, Port>)
    requires KeyedBy(PortKey, m) && KeyedBy(PortKey, n) && Listing(m) == Listing(n)
    ensures forall k :: k in m ==> k in n && n[k] == m[k]
  {
    ListingHolds(m);
    ListingElements(PortKey, n);
    forall k | k in m ensures k in n && n[k] == m[k] {
      assert m[k] in Listing(n);
    }
  }

  lemma MutuallyWithin<K, V>(m: map<K, V>, n: map<K, V>)
    requires forall k :: k in m ==> k in n && n[k] == m[k]
    requires forall k :: k in n ==> k in m && m[k] == n[k]
    ensures m == n
  {
    assert m.Keys == n.Keys;
  }

  lemma ListingInjective(m: map<string, Port>, n: map<string, Port>)
    requires KeyedBy(PortKey, m) && KeyedBy(PortKey, n) && Listing(m) == Listing(n)
    ensures m == n
  {
    ListingWithin(m, n);
    ListingWithin(n, m);
    MutuallyWithin(m, n);
  }

  /** Of two CIDRs with one fingerprint but different port lists, either may be picked. */
  lemma LayoutsDiffer(prints: map<string, string>, lists: map<string, seq<Port>>, c: string, d: string)
    returns (rc: map<string, string>, rd: map<string, string>)
    requires prints.Keys == lists.Keys && c in prints && d in prints && prints[c] == prints[d] && lists[c] != lists[d]
    ensures Represents(prints, rc) && Represents(prints, rd)
    ensures Layout(prints, lists, rc) != Layout(prints, lists, rd)
  {
    var rep := SomeRepresentatives(prints);
    rc, rd := rep[prints[c] := c], rep[prints[d] := d];
    Repick(prints, rep, c);
    Repick(prints, rep, d);
    var i := IndexIn(prints.Values, prints[c]);
    LayoutAt(prints, lists, rc, i);
    LayoutAt(prints, lists, rd, i);
    assert Layout(prints, lists, rc)[i].ports == lists[c];
    assert Layout(prints, lists, rd)[i].ports == lists[d];
  }

  lemma Repick(prints: map<string, string>, rep: map<string, string>, c: string)
    requires Represents(prints, rep) && c in prints
    ensures Represents(prints, rep[prints[c] := c]) && prints[c] in prints.Values
  {
  }

  lemma IndexIn(s: set<string>, x: string) returns (i: nat)
    requires x in s
    ensures i < |Ascending(s)| && Ascending(s)[i] == x
  {
    assert x in Elements(Ascending(s));
    i :| 0 <= i < |Ascending(s)| && Ascending(s)[i] == x;
  }

  lemma Undetermined(t: Table, c: string, d: string)
    requires Sound(t) && c in t && d in t && t[c].Only? && t[d].Only?
    requires t[c].ports.Keys == t[d].ports.Keys && t[c] != t[d]
    ensures !OrderHidden(t)
  {
    SameFingerprint(t[c], t[d]);
    if PortList(t[c]) == PortList(t[d]) {
      ListingInjective(t[c].ports, t[d].ports);
    }
    var rc, rd := LayoutsDiffer(Fingerprints(t), PortLists(t), c, d);
    assert Canonical(t, Layout(Fingerprints(t), PortLists(t), rc));
    assert Canonical(t, Layout(Fingerprints(t), PortLists(t), rd));
  }

  /** The emitted rules do not depend on map iteration order exactly when CIDRs with the
      same keys carry the same end ports. */
  lemma DeterministicIff(rules: seq<Rule>)
    requires CommaFreePorts(PortsIn(rules))
    ensures OrderHidden(TableOf(rules)) <==> KeysDetermine(TableOf(rules))
  {
    var t := TableOf(rules);
    TableSound(rules);
    if KeysDetermine(t) {
      forall out, out' | Canonical(t, out) && Canonical(t, out') ensures out == out' {
        CanonicalUnique(t, out, out');
      }
    } else {
      var c, d :| c in t && d in t && t[c].Only? && t[d].Only? && t[c].ports.Keys == t[d].ports.Keys && t[c] != t[d];
      Undetermined(t, c, d);
    }
  }

  // ------------------------------------------------------------------ order and duplication of the input

  /** Both lists offer every CIDR the same: order, repetition and splitting of rules aside. */
  ghost predicate SameOffers(rules: seq<Rule>, rules': seq<Rule>) {
    && Cidrs(rules) == Cidrs(rules')
    && forall c :: (OffersAll(rules, c) <==> OffersAll(rules', c))
                   && (!OffersAll(rules, c) ==> Offered(rules, c) == Offered(rules', c))
  }

  lemma SameGrant(rules: seq<Rule>, rules': seq<Rule>, c: string)
    requires KeysAgree(PortsIn(rules)) && SameOffers(rules, rules')
    ensures Granted(rules, c) == Granted(rules', c)
  {
    GrantedIs(rules, c);
    GrantedIs(rules', c);
    if !OffersAll(rules, c) {
      var m, n := Granted(rules, c).ports, Granted(rules', c).ports;
      assert Offered(rules, c) <= PortsIn(rules);
      assert m.Keys == n.Keys;
      SamePorts(Offered(rules, c), m, n);
    }
  }

  /** Rule lists that offer the same normalise to the identical list. */
  lemma SameNormalForm(rules: seq<Rule>, rules': seq<Rule>, out: seq<Rule>, out': seq<Rule>)
    requires KeysAgree(PortsIn(rules)) && CommaFreePorts(PortsIn(rules))
    requires SameOffers(rules, rules')
    requires Canonical(TableOf(rules), out) && Canonical(TableOf(rules'), out')
    ensures out == out'
  {
    forall c | c in Cidrs(rules) ensures TableOf(rules)[c] == TableOf(rules')[c] {
      SameGrant(rules, rules', c);
    }
    assert TableOf(rules) == TableOf(rules');
    TableSound(rules);
    AgreementDetermines(rules);
    CanonicalUnique(TableOf(rules), out, out');
  }

  // ------------------------------------------------------------------ idempotence

  lemma {:induction false} GrantedOnce(rules: seq<Rule>, i: nat, c: string)
    requires i < |rules| && forall j :: 0 <= j < |rules| ==> (Names(rules[j], c) <==> j == i)
    ensures Granted(rules, c) == Merge(Only(map[]), rules[i].ports)
  {
    var init := rules[..|rules| - 1];
    if i == |rules| - 1 {
      forall r | r in init ensures !Names(r, c) {
        var j :| 0 <= j < |init| && init[j] == r;
        assert rules[j] == r;
      }
      Normaliser.NothingGranted(init, c);
    } else {
      GrantedOnce(init, i, c);
    }
  }

  lemma KeyedListing(m: map<string, Port>)
    requires KeyedBy(PortKey, m)
    ensures Keyed(Listing(m)) == m
  {
    var ps := Listing(m);
    KeyedKeys(ps);
    ListingElements(PortKey, m);
    assert Keyed(ps).Keys == m.Keys;
    forall k | k in m ensures Keyed(ps)[k] == m[k] {
      assert Keyed(ps)[k] in ps && PortKey(Keyed(ps)[k]) == k;
    }
  }

  lemma MergePortList(g: Grant)
    requires SoundGrant(g)
    ensures Merge(Only(map[]), PortList(g)) == g
  {
    if g.Only? {
      KeyedListing(g.ports);
      assert |Listing(g.ports)| > 0;
      assert map[] + g.ports == g.ports;
    }
  }

  /** Nothing covered is left in a grant. */
  ghost predicate Settled(t: Table) {
    forall c :: c in t ==> Absorbed(t[c]) == t[c]
  }

  lemma TableSettled(rules: seq<Rule>)
    ensures Settled(TableOf(rules))
  {
    forall c | c in Cidrs(rules) ensures Absorbed(Absorbed(Granted(rules, c))) == Absorbed(Granted(rules, c)) {
      AbsorbedTwice(Granted(rules, c));
    }
  }

  /** A normal form grants each CIDR what its fingerprint's representative had. */
  lemma TableOfCanonical(t: Table, rep: map<string, string>, out: seq<Rule>, c: string)
    requires Sound(t) && Settled(t) && c in t
    requires Represents(Fingerprints(t), rep) && out == Layout(Fingerprints(t), PortLists(t), rep)
    ensures c in Cidrs(out) && Fingerprints(t)[c] in rep && rep[Fingerprints(t)[c]] in t
    ensures TableOf(out)[c] == t[rep[Fingerprints(t)[c]]]
  {
    TableCidrNamed(t, out, c);
    var i := LayoutWhere(Fingerprints(t), PortLists(t), rep, c);
    var d := rep[Fingerprints(t)[c]];
    GrantedOnce(out, i, c);
    MergePortList(t[d]);
  }

  /** Normalising a second time changes nothing, whatever the end ports are. */
  lemma Idempotent(rules: seq<Rule>, out: seq<Rule>, again: seq<Rule>)
    requires CommaFreePorts(PortsIn(rules))
    requires Canonical(TableOf(rules), out) && Canonical(TableOf(out), again)
    ensures again == out
  {
    TableSound(rules);
    TableSettled(rules);
    CanonicalAgain(TableOf(rules), out, again);
  }

  lemma CanonicalAgain(t: Table, out: seq<Rule>, again: seq<Rule>)
    requires Sound(t) && Settled(t)
    requires Canonical(t, out) && Canonical(TableOf(out), again)
    ensures again == out
  {
    var rep := CanonicalLayout(t, out);
    TableEchoes(t, rep, out);
    SameCidrsTabled(t, out);
    EchoCanonical(t, Fingerprints(t), rep, TableOf(out), again);
  }

  lemma SameCidrsTabled(t: Table, out: seq<Rule>)
    requires Sound(t) && Canonical(t, out)
    ensures TableOf(out).Keys == t.Keys
  {
    CanonicalCidrs(t, out);
  }

  lemma EchoAt(t: Table, rep: map<string, string>, out: seq<Rule>, c: string)
    requires Sound(t) && Settled(t) && c in t
    requires Represents(Fingerprints(t), rep) && out == Layout(Fingerprints(t), PortLists(t), rep)
    ensures Echoes(t, Fingerprints(t), rep, TableOf(out), c)
  {
    TableOfCanonical(t, rep, out, c);
  }

  lemma TableEchoes(t: Table, rep: map<string, string>, out: seq<Rule>)
    requires Sound(t) && Settled(t)
    requires Represents(Fingerprints(t), rep) && out == Layout(Fingerprints(t), PortLists(t), rep)
    ensures forall c :: c in t ==> Echoes(t, Fingerprints(t), rep, TableOf(out), c)
  {
    forall c | c in t ensures Echoes(t, Fingerprints(t), rep, TableOf(out), c) {
      EchoAt(t, rep, out, c);
    }
  }

  lemma EchoCanonical(t: Table, prints: map<string, string>, rep: map<string, string>, u: Table, again: seq<Rule>)
    requires prints == Fingerprints(t) && Represents(prints, rep) && u.Keys == t.Keys
    requires forall c :: c in t ==> Echoes(t, prints, rep, u, c)
    requires Canonical(u, again)
    ensures again == Layout(prints, PortLists(t), rep)
  {
    var rep' := CanonicalLayout(u, again);
    EchoLayout(t, prints, rep, u, rep');
  }

  lemma EchoLayout(t: Table, prints: map<string, string>, rep: map<string, string>, u: Table, rep': map<string, string>)
    requires prints == Fingerprints(t) && Represents(prints, rep) && u.Keys == t.Keys
    requires forall c :: c in t ==> Echoes(t, prints, rep, u, c)
    requires Represents(Fingerprints(u), rep')
    ensures Layout(Fingerprints(u), PortLists(u), rep') == Layout(prints, PortLists(t), rep)
  {
    EchoPrints(t, prints, rep, u);
    EchoLists(t, prints, rep, u, rep');
    SameLayout(prints, PortLists(t), PortLists(u), rep, rep');
  }

  /** The second table gives a CIDR what the first gave its representative. */
  ghost predicate Echoes(t: Table, prints: map<string, string>, rep: map<string, string>, u: Table, c: string) {
    c in u && c in prints && prints[c] in rep && rep[prints[c]] in t && u[c] == t[rep[prints[c]]]
  }

  lemma EchoPrints(t: Table, prints: map<string, string>, rep: map<string, string>, u: Table)
    requires prints == Fingerprints(t) && Represents(prints, rep) && u.Keys == t.Keys
    requires forall c :: c in t ==> Echoes(t, prints, rep, u, c)
    ensures Fingerprints(u) == prints
  {
    forall c | c in u ensures Fingerprint(u[c]) == prints[c] {
      EchoPrint(t, prints, rep, u, c);
    }
  }

  lemma EchoPrint(t: Table, prints: map<string, string>, rep: map<string, string>, u: Table, c: string)
    requires prints == Fingerprints(t) && Represents(prints, rep) && Echoes(t, prints, rep, u, c)
    ensures Fingerprint(u[c]) == prints[c]
  {
    assert prints[rep[prints[c]]] == prints[c];
  }

  lemma EchoLists(t: Table, prints: map<string, string>, rep: map<string, string>, u: Table, rep': map<string, string>)
    requires prints == Fingerprints(t) && Represents(prints, rep) && Represents(prints, rep') && u.Keys == t.Keys
    requires forall c :: c in prints ==> Echoes(t, prints, rep, u, c)
    ensures forall f :: f in rep ==>
        f in rep' && rep[f] in t && rep'[f] in u && PortLists(t)[rep[f]] == PortLists(u)[rep'[f]]
  {
    forall f | f in rep
      ensures f in rep' && rep[f] in t && rep'[f] in u && PortLists(t)[rep[f]] == PortLists(u)[rep'[f]]
    {
      assert Echoes(t, prints, rep, u, rep'[f]);
    }
  }

  // ------------------------------------------------------------------ partition and counting

  /** The CIDRs of all peers, rule after rule. */
  function Listed(rules: seq<Rule>): seq<string> {
    if rules == [] then [] else Listed(rules[..|rules| - 1]) + CidrsOf(rules[|rules| - 1].to)
  }

  predicate BlocksOnly(r: Rule) {
    forall p :: p in r.to ==> p.ipBlock.Some?
  }

  function CidrsOf(peers: seq<Peer>): seq<string> {
    seq(|peers|, i requires 0 <= i < |peers| => if peers[i].ipBlock.Some? then peers[i].ipBlock.value else "")
  }

  lemma LayoutPeers(prints: map<string, string>, lists: map<string, seq<Port>>, rep: map<string, string>, i: nat)
    requires prints.Keys == lists.Keys && Represents(prints, rep)
    requires i < |Layout(prints, lists, rep)|
    ensures var cs := Ascending(Members(prints, Ascending(prints.Values)[i]));
            && BlocksOnly(Layout(prints, lists, rep)[i])
            && CidrsOf(Layout(prints, lists, rep)[i].to) == cs
            && NoDuplicates(cs)
  {
    LayoutAt(prints, lists, rep, i);
    StrictHasNoDuplicates(Ascending(Members(prints, Ascending(prints.Values)[i])));
  }

  lemma LayoutBlocks(prints: map<string, string>, lists: map<string, seq<Port>>, rep: map<string, string>)
    requires prints.Keys == lists.Keys && Represents(prints, rep)
    ensures forall r :: r in Layout(prints, lists, rep) ==> BlocksOnly(r)
  {
    var out := Layout(prints, lists, rep);
    forall r | r in out ensures BlocksOnly(r) {
      var i :| 0 <= i < |out| && out[i] == r;
      LayoutPeers(prints, lists, rep, i);
    }
  }

  lemma AppendDistinct(a: seq<string>, b: seq<string>)
    requires NoDuplicates(a) && NoDuplicates(b) && Elements(a) !! Elements(b)
    ensures NoDuplicates(a + b) && Elements(a + b) == Elements(a) + Elements(b)
  {
    forall i, j | 0 <= i < j < |a + b| ensures (a + b)[i] != (a + b)[j] {
      if i < |a| <= j {
        assert a[i] in Elements(a) && b[j - |a|] in Elements(b);
      }
    }
  }

  /** CIDRs whose fingerprint is among the first `n`. */
  ghost function MembersUpTo(prints: map<string, string>, n: nat): set<string>
    requires n <= |Ascending(prints.Values)|
  {
    set c | c in prints && prints[c] in Elements(Ascending(prints.Values)[..n])
  }

  lemma MembersNext(prints: map<string, string>, n: nat)
    requires n < |Ascending(prints.Values)|
    ensures MembersUpTo(prints, n + 1) == MembersUpTo(prints, n) + Members(prints, Ascending(prints.Values)[n])
    ensures MembersUpTo(prints, n) !! Members(prints, Ascending(prints.Values)[n])
  {
    var fs := Ascending(prints.Values);
    TakeNext(fs, n);
    StrictHasNoDuplicates(fs);
    assert forall f :: f in fs[..n + 1] <==> f in fs[..n] || f == fs[n];
  }

  lemma ListedNext(out: seq<Rule>, n: nat, before: set<string>, members: set<string>)
    requires n < |out| && before !! members
    requires NoDuplicates(Listed(out[..n])) && Elements(Listed(out[..n])) == before
    requires NoDuplicates(CidrsOf(out[n].to)) && Elements(CidrsOf(out[n].to)) == members
    ensures NoDuplicates(Listed(out[..n + 1])) && Elements(Listed(out[..n + 1])) == before + members
  {
    assert out[..n + 1][..n] == out[..n];
    AppendDistinct(Listed(out[..n]), CidrsOf(out[n].to));
  }

  lemma {:induction false} ListedPrefix(prints: map<string, string>, lists: map<string, seq<Port>>,
                                        rep: map<string, string>, n: nat)
    requires prints.Keys == lists.Keys && Represents(prints, rep)
    requires n <= |Layout(prints, lists, rep)|
    ensures NoDuplicates(Listed(Layout(prints, lists, rep)[..n]))
    ensures Elements(Listed(Layout(prints, lists, rep)[..n])) == MembersUpTo(prints, n)
  {
    if n > 0 {
      var k := n - 1;
      var f := Ascending(prints.Values)[k];
      ListedPrefix(prints, lists, rep, k);
      LayoutPeers(prints, lists, rep, k);
      MembersNext(prints, k);
      StrictHasNoDuplicates(Ascending(Members(prints, f)));
      ListedNext(Layout(prints, lists, rep), k, MembersUpTo(prints, k), Members(prints, f));
    }
  }

  lemma {:induction false} ListedCount(rules: seq<Rule>)
    ensures |Listed(rules)| == PeerCount(rules)
  {
    if rules != [] {
      ListedCount(rules[..|rules| - 1]);
    }
  }

  lemma LayoutPartition(prints: map<string, string>, lists: map<string, seq<Port>>, rep: map<string, string>)
    requires prints.Keys == lists.Keys && Represents(prints, rep)
    ensures forall r :: r in Layout(prints, lists, rep) ==> BlocksOnly(r)
    ensures NoDuplicates(Listed(Layout(prints, lists, rep)))
    ensures Elements(Listed(Layout(prints, lists, rep))) == prints.Keys
  {
    var out := Layout(prints, lists, rep);
    LayoutBlocks(prints, lists, rep);
    ListedPrefix(prints, lists, rep, |out|);
    assert out[..|out|] == out;
    MembersAll(prints);
  }

  lemma CanonicalLayout(t: Table, out: seq<Rule>) returns (rep: map<string, string>)
    requires Canonical(t, out)
    ensures Represents(Fingerprints(t), rep) && out == Layout(Fingerprints(t), PortLists(t), rep)
  {
    rep :| Represents(Fingerprints(t), rep) && out == Layout(Fingerprints(t), PortLists(t), rep);
  }

  /** The peers of the emitted rules list every CIDR of the input, once; so the peer count
      the operator reports is the number of different CIDRs. */
  lemma Partition(rules: seq<Rule>, out: seq<Rule>)
    requires Canonical(TableOf(rules), out)
    ensures forall r :: r in out ==> BlocksOnly(r)
    ensures NoDuplicates(Listed(out)) && Elements(Listed(out)) == Cidrs(rules)
    ensures PeerCount(out) == |Cidrs(rules)|
  {
    var rep := CanonicalLayout(TableOf(rules), out);
    LayoutPartition(Fingerprints(TableOf(rules)), PortLists(TableOf(rules)), rep);
    ListedCount(out);
    NoDuplicatesCard(Listed(out));
  }

  lemma MembersAll(prints: map<string, string>)
    ensures MembersUpTo(prints, |Ascending(prints.Values)|) == prints.Keys
  {
    var fs := Ascending(prints.Values);
    assert fs[..|fs|] == fs;
    assert forall c :: c in prints ==> prints[c] in prints.Values;
  }

  /** The CIDRs of the rule, and its ports by key. */
  predicate InOrder(r: Rule) {
    StrictlySorted(CidrsOf(r.to)) && StrictlySorted(Keys(r.ports))
  }

  /** What is emitted is in order: the CIDRs of a rule, its ports by key, the rules by fingerprint. */
  lemma EmittedOrder(rules: seq<Rule>, out: seq<Rule>, i: nat, j: nat)
    requires Canonical(TableOf(rules), out) && i < |out| && j < |out|
    ensures InOrder(out[i])
    ensures i < j ==> PrintsBefore(out[i], out[j])
  {
    TableWellKeyed(rules);
    LayoutOrder(TableOf(rules), out, i, j);
  }

  lemma LayoutOrder(t: Table, out: seq<Rule>, i: nat, j: nat)
    requires WellKeyedTable(t) && Canonical(t, out) && i < |out| && j < |out|
    ensures InOrder(out[i])
    ensures i < j ==> PrintsBefore(out[i], out[j])
  {
    var rep := CanonicalLayout(t, out);
    RuleOrder(t, rep, i);
    RuleOrder(t, rep, j);
  }

  function Printed(ports: seq<Port>): string {
    if ports == [] then "All ports" else Join(Keys(ports), ',')
  }

  predicate PrintsBefore(r: Rule, s: Rule) {
    Less(Printed(r.ports), Printed(s.ports))
  }

  lemma RuleOrder(t: Table, rep: map<string, string>, i: nat)
    requires WellKeyedTable(t) && Represents(Fingerprints(t), rep)
    requires i < |Layout(Fingerprints(t), PortLists(t), rep)|
    ensures var rule := Layout(Fingerprints(t), PortLists(t), rep)[i];
            && InOrder(rule)
            && Printed(rule.ports) == Ascending(Fingerprints(t).Values)[i]
  {
    var prints := Fingerprints(t);
    LayoutAt(prints, PortLists(t), rep, i);
    var f := Ascending(prints.Values)[i];
    var cidrs := Ascending(Members(prints, f));
    assert CidrsOf(PeersOf(cidrs)) == cidrs;
    PortOrder(t[rep[f]]);
  }

  lemma PortOrder(g: Grant)
    requires WellKeyed(g)
    ensures StrictlySorted(Keys(PortList(g))) && Printed(PortList(g)) == Fingerprint(g)
  {
    if g.Only? {
      ListingKeys(PortKey, g.ports);
      assert Keys(PortList(g)) == Ascending(g.ports.Keys);
      assert |PortList(g)| == |g.ports.Keys|;
    } else {
      assert Keys([]) == [];
    }
  }

  /** Different emitted rules list different keys, and no rule is without peers. */
  lemma RulesDiffer(rules: seq<Rule>, out: seq<Rule>, i: nat, j: nat)
    requires Canonical(TableOf(rules), out) && i < |out| && j < |out|
    ensures out[i].to != []
    ensures Keys(out[i].ports) == Keys(out[j].ports) ==> i == j
  {
    TableWellKeyed(rules);
    LayoutDiffers(TableOf(rules), out, i, j);
  }

  lemma LayoutDiffers(t: Table, out: seq<Rule>, i: nat, j: nat)
    requires WellKeyedTable(t) && Canonical(t, out) && i < |out| && j < |out|
    ensures out[i].to != []
    ensures Keys(out[i].ports) == Keys(out[j].ports) ==> i == j
  {
    var rep := CanonicalLayout(t, out);
    LayoutPrint(t, rep, i);
    LayoutPrint(t, rep, j);
    StrictHasNoDuplicates(Ascending(Fingerprints(t).Values));
  }

  /** The ports of rule i print as the i-th fingerprint. */
  lemma LayoutPrint(t: Table, rep: map<string, string>, i: nat)
    requires WellKeyedTable(t) && Represents(Fingerprints(t), rep)
    requires i < |Layout(Fingerprints(t), PortLists(t), rep)|
    ensures var rule := Layout(Fingerprints(t), PortLists(t), rep)[i];
            && rule.to != []
            && KeysFingerprint(Elements(Keys(rule.ports))) == Ascending(Fingerprints(t).Values)[i]
  {
    var prints := Fingerprints(t);
    LayoutAt(prints, PortLists(t), rep, i);
    var f := Ascending(prints.Values)[i];
    PrintOfPorts(t[rep[f]]);
    assert rep[f] in Members(prints, f);
    assert |Ascending(Members(prints, f))| > 0;
  }

  lemma PrintOfPorts(g: Grant)
    requires WellKeyed(g)
    ensures KeysFingerprint(Elements(Keys(PortList(g)))) == Fingerprint(g)
  {
    if g.Only? {
      ListingKeys(PortKey, g.ports);
    } else {
      assert Elements(Keys([])) == {};
    }
  }

  /** The operator's "empty rules" outcome: no rule is left exactly when the count is zero. */
  lemma EmptyIffNothingCounted(rules: seq<Rule>, out: seq<Rule>)
    requires Canonical(TableOf(rules), out)
    ensures out == [] <==> PeerCount(out) == 0
  {
    TableWellKeyed(rules);
    SomeCounted(TableOf(rules), out);
  }

  lemma SomeCounted(t: Table, out: seq<Rule>)
    requires WellKeyedTable(t) && Canonical(t, out)
    ensures out != [] ==> PeerCount(out) > 0
  {
    if out != [] {
      LayoutDiffers(t, out, |out| - 1, |out| - 1);
      LastCounts(out);
    }
  }

  lemma LastCounts(out: seq<Rule>)
    requires out != [] && out[|out| - 1].to != []
    ensures PeerCount(out) > 0
  {
  }
}
