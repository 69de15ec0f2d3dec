/** Stages 2 to 4 of the normaliser (pkg/utils/networkpolicy.go:116-225): port lists and
    fingerprints per CIDR, CIDRs gathered by fingerprint, sorted rules. */
module Regroup {
  import opened Sorting
  import opened Policy
  import opened PortKeys
  import opened Grants
  import opened Normaliser

  datatype Grouping = Grouping(cidr: string, fingerprint: string)

  ghost predicate WellKeyed(g: Grant) {
    g.Only? ==> KeyedBy(PortKey, g.ports)
  }

  ghost predicate WellKeyedTable(t: Table) {
    forall c :: c in t ==> WellKeyed(t[c])
  }

  lemma TableWellKeyed(rules: seq<Rule>)
    ensures WellKeyedTable(TableOf(rules))
  {
    forall c | c in Cidrs(rules) ensures WellKeyed(Absorbed(Granted(rules, c))) {
      GrantedIs(rules, c);
    }
  }

  // ------------------------------------------------------------------ stage 2

  /** The ports of one port set, picked in any order and sorted by key. */
  method PortSlice(ps: PortSet) returns (slice: seq<Port>)
    requires WellKeyed(ps.View())
    ensures slice == PortList(ps.View())
    ensures NoDuplicates(Keys(slice)) && Elements(Keys(slice)) == KeySet(ps.View())
  {
    slice := [];
    if ps.allowAll || ps.ports == map[] {
      assert Elements(Keys(slice)) == {};
    } else {
      slice := PickPorts(ps.ports);
      ghost var unsorted := slice;
      slice := Sort(PortKey, slice);
      SortedListing(PortKey, unsorted, ps.ports, slice);
      ListingKeys(PortKey, ps.ports);
    }
  }

  /** The values of the map, in any order. */
  method PickPorts(ports: map<string, Port>) returns (slice: seq<Port>)
    requires KeyedBy(PortKey, ports)
    ensures Lists(PortKey, slice, ports.Keys, ports)
  {
    slice := [];
    var todo := ports.Keys;
    ghost var done: set<string> := {};
    assert Elements(KeysOf(PortKey, slice)) == {};
    while todo != {}
      invariant todo <= ports.Keys && done == ports.Keys - todo
      invariant Lists(PortKey, slice, done, ports)
    {
      var k :| k in todo;
      ListsNext(PortKey, slice, done, ports, k);
      slice := slice + [ports[k]];
      todo, done := todo - {k}, done + {k};
    }
    assert done == ports.Keys;
  }

  /** One grouping per CIDR dealt with, at the recorded position. */
  ghost predicate Grouped(prints: map<string, string>, pos: map<string, nat>, gs: seq<Grouping>) {
    && (forall c :: c in pos ==> pos[c] < |gs| && gs[pos[c]].cidr == c)
    && (forall i :: 0 <= i < |gs| ==> gs[i].cidr in pos && pos[gs[i].cidr] == i)
    && (forall i :: 0 <= i < |gs| ==> gs[i].cidr in prints && gs[i].fingerprint == prints[gs[i].cidr])
  }

  /** Each fingerprint seen has the port list of its representative. */
  ghost predicate Sliced(prints: map<string, string>, lists: map<string, seq<Port>>,
                         done: set<string>, rep: map<string, string>, slices: map<string, seq<Port>>)
  {
    && rep.Keys == slices.Keys
    && (forall c :: c in done ==> c in prints && prints[c] in rep)
    && forall f :: f in rep ==>
         var c := rep[f];
         c in done && c in prints && prints[c] == f && c in lists && slices[f] == lists[c]
  }

  lemma GroupedNext(prints: map<string, string>, pos: map<string, nat>, gs: seq<Grouping>, c: string)
    requires Grouped(prints, pos, gs) && c in prints && c !in pos
    ensures Grouped(prints, pos[c := |gs|], gs + [Grouping(c, prints[c])])
  {
  }

  lemma SlicedNext(prints: map<string, string>, lists: map<string, seq<Port>>, done: set<string>,
                   rep: map<string, string>, slices: map<string, seq<Port>>, c: string)
    requires Sliced(prints, lists, done, rep, slices) && c in prints && c in lists
    ensures var f := prints[c];
            if f in slices then Sliced(prints, lists, done + {c}, rep, slices)
            else Sliced(prints, lists, done + {c}, rep[f := c], slices[f := lists[c]])
  {
  }

  /** The groupings, counts, port lists and representatives collected so far. */
  datatype Groups = Groups(
    groupings: seq<Grouping>, counts: map<string, nat>, slices: map<string, seq<Port>>)

  /** Ghost: where each CIDR's grouping is, and which CIDR's ports each fingerprint got. */
  datatype Trace = Trace(pos: map<string, nat>, rep: map<string, string>)

  ghost predicate Collected(prints: map<string, string>, lists: map<string, seq<Port>>, gs: Groups, tr: Trace) {
    && Grouped(prints, tr.pos, gs.groupings)
    && Sliced(prints, lists, tr.pos.Keys, tr.rep, gs.slices)
    && gs.counts.Keys == gs.slices.Keys
  }

  /** Records one more CIDR; the first CIDR of a fingerprint supplies its port list. */
  function AddGroup(gs: Groups, cidr: string, f: string, slice: seq<Port>): Groups {
    Groups(gs.groupings + [Grouping(cidr, f)],
           gs.counts[f := (if f in gs.counts then gs.counts[f] else 0) + 1],
           if f in gs.slices then gs.slices else gs.slices[f := slice])
  }

  function AddTrace(gs: Groups, tr: Trace, cidr: string, f: string): Trace {
    Trace(tr.pos[cidr := |gs.groupings|], if f in gs.slices then tr.rep else tr.rep[f := cidr])
  }

  lemma CollectedNext(prints: map<string, string>, lists: map<string, seq<Port>>, gs: Groups, tr: Trace, cidr: string)
    requires Collected(prints, lists, gs, tr) && cidr !in tr.pos && cidr in prints && cidr in lists
    ensures Collected(prints, lists, AddGroup(gs, cidr, prints[cidr], lists[cidr]),
                      AddTrace(gs, tr, cidr, prints[cidr]))
    ensures AddTrace(gs, tr, cidr, prints[cidr]).pos.Keys == tr.pos.Keys + {cidr}
  {
    GroupedNext(prints, tr.pos, gs.groupings, cidr);
    SlicedNext(prints, lists, tr.pos.Keys, tr.rep, gs.slices, cidr);
    assert tr.pos[cidr := |gs.groupings|].Keys == tr.pos.Keys + {cidr};
  }

  /** The fingerprint and port list of every port set of the map. */
  ghost predicate Printed(m: Exploded, prints: map<string, string>, lists: map<string, seq<Port>>)
    reads m.Values
  {
    && m.Keys == prints.Keys == lists.Keys
    && forall c {:trigger PrintedOne(m[c], prints[c], lists[c])} :: c in m ==> PrintedOne(m[c], prints[c], lists[c])
  }

  ghost predicate PrintedOne(ps: PortSet, f: string, list: seq<Port>)
    reads ps
  {
    WellKeyed(ps.View()) && f == Fingerprint(ps.View()) && list == PortList(ps.View())
  }

  method GroupByFingerprint(m: Exploded, ghost prints: map<string, string>, ghost lists: map<string, seq<Port>>)
    returns (gs: Groups, ghost tr: Trace)
    requires Printed(m, prints, lists)
    ensures Collected(prints, lists, gs, tr) && tr.pos.Keys == prints.Keys
  {
    gs, tr := Groups([], map[], map[]), Trace(map[], map[]);
    var todo := m.Keys;
    while todo != {}
      invariant todo <= m.Keys && tr.pos.Keys == m.Keys - todo
      invariant Collected(prints, lists, gs, tr)
    {
      var cidr :| cidr in todo;
      var slice, f := SliceAndPrintOf(m, cidr, prints, lists);
      CollectedNext(prints, lists, gs, tr, cidr);
      gs, tr := AddGroup(gs, cidr, f, slice), AddTrace(gs, tr, cidr, f);
      todo := todo - {cidr};
    }
  }

  method SliceAndPrintOf(m: Exploded, cidr: string, ghost prints: map<string, string>,
                         ghost lists: map<string, seq<Port>>)
    returns (slice: seq<Port>, f: string)
    requires Printed(m, prints, lists) && cidr in m
    ensures slice == lists[cidr] && f == prints[cidr]
  {
    assert PrintedOne(m[cidr], prints[cidr], lists[cidr]);
    slice, f := SliceAndPrint(m[cidr]);
  }

  method SliceAndPrint(ps: PortSet) returns (slice: seq<Port>, f: string)
    requires WellKeyed(ps.View())
    ensures slice == PortList(ps.View()) && f == Fingerprint(ps.View())
  {
    slice := PortSlice(ps);
    f := PortsFingerprint(slice);
  }

  // ------------------------------------------------------------------ stage 3

  ghost function CidrsWith(gs: seq<Grouping>, f: string): set<string> {
    set g | g in gs && g.fingerprint == f :: g.cidr
  }

  method FillCidrs(gs: seq<Grouping>, counts: map<string, nat>) returns (m: map<string, seq<string>>)
    requires forall i :: 0 <= i < |gs| ==> gs[i].fingerprint in counts
    requires forall i, j :: 0 <= i < j < |gs| ==> gs[i].cidr != gs[j].cidr
    ensures m.Keys == counts.Keys
    ensures forall f :: f in m ==> NoDuplicates(m[f]) && Elements(m[f]) == CidrsWith(gs, f)
  {
    m := map[];
    var todo := counts.Keys;
    while todo != {}
      invariant todo <= counts.Keys && m.Keys == counts.Keys - todo
      invariant forall f :: f in m ==> m[f] == []
    {
      var f :| f in todo;
      m := m[f := []];
      todo := todo - {f};
    }
    for i := 0 to |gs|
      invariant m.Keys == counts.Keys
      invariant forall f :: f in m ==> NoDuplicates(m[f]) && Elements(m[f]) == CidrsWith(gs[..i], f)
    {
      var g := gs[i];
      FillNext(gs, i, m[g.fingerprint]);
      m := m[g.fingerprint := m[g.fingerprint] + [g.cidr]];
    }
    assert gs[..|gs|] == gs;
  }

  lemma FillNext(gs: seq<Grouping>, i: nat, cidrs: seq<string>)
    requires i < |gs|
    requires forall i, j :: 0 <= i < j < |gs| ==> gs[i].cidr != gs[j].cidr
    requires NoDuplicates(cidrs) && Elements(cidrs) == CidrsWith(gs[..i], gs[i].fingerprint)
    ensures NoDuplicates(cidrs + [gs[i].cidr])
    ensures Elements(cidrs + [gs[i].cidr]) == CidrsWith(gs[..i + 1], gs[i].fingerprint)
    ensures forall f :: f != gs[i].fingerprint ==> CidrsWith(gs[..i + 1], f) == CidrsWith(gs[..i], f)
  {
    assert gs[..i + 1] == gs[..i] + [gs[i]];
    assert forall g :: g in gs[..i + 1] <==> g in gs[..i] || g == gs[i];
    assert gs[i].cidr !in Elements(cidrs);
    ExtendDistinct(cidrs, gs[i].cidr);
  }

  // ------------------------------------------------------------------ stage 4

  lemma CidrsWithMembers(prints: map<string, string>, pos: map<string, nat>, gs: seq<Grouping>, f: string)
    requires Grouped(prints, pos, gs) && pos.Keys == prints.Keys
    ensures CidrsWith(gs, f) == Members(prints, f)
  {
    forall c | c in Members(prints, f) ensures c in CidrsWith(gs, f) {
      assert c in pos;
      assert gs[pos[c]] in gs;
    }
  }

  /** The keys of a map in increasing order. */
  method SortedKeys(m: map<string, seq<string>>) returns (r: seq<string>)
    ensures r == Ascending(m.Keys)
  {
    var keys: seq<string> := [];
    var todo := m.Keys;
    ghost var done: set<string> := {};
    while todo != {}
      invariant todo <= m.Keys && done == m.Keys - todo
      invariant NoDuplicates(keys) && Elements(keys) == done
    {
      var f :| f in todo;
      assert f !in Elements(keys);
      ExtendDistinct(keys, f);
      keys := keys + [f];
      todo, done := todo - {f}, done + {f};
    }
    assert done == m.Keys;
    r := SortStrings(keys);
  }

  method MakePeers(cidrs: seq<string>) returns (peers: seq<Peer>)
    ensures peers == PeersOf(cidrs)
  {
    peers := [];
    for k := 0 to |cidrs|
      invariant peers == PeersOf(cidrs)[..k]
    {
      peers := peers + [Peer(Some(cidrs[k]))];
    }
  }

  method BuildRule(cidrs: seq<string>, slice: seq<Port>) returns (rule: Rule)
    requires NoDuplicates(cidrs)
    ensures rule == Rule(slice, PeersOf(Ascending(Elements(cidrs))))
  {
    var sorted := SortStrings(cidrs);
    var peers := MakePeers(sorted);
    rule := Rule(slice, peers);
  }

  lemma FingerprintsFound(prints: map<string, string>, lists: map<string, seq<Port>>,
                          rep: map<string, string>, slices: map<string, seq<Port>>)
    requires Sliced(prints, lists, prints.Keys, rep, slices)
    ensures slices.Keys == prints.Values && Represents(prints, rep)
  {
  }

  lemma LayoutAt(prints: map<string, string>, lists: map<string, seq<Port>>, rep: map<string, string>, i: nat)
    requires prints.Keys == lists.Keys && Represents(prints, rep)
    requires i < |Ascending(prints.Values)|
    ensures var f := Ascending(prints.Values)[i];
            && f in prints.Values
            && Layout(prints, lists, rep)[i] == LayoutRule(prints, lists[rep[f]], f)
  {
    assert Ascending(prints.Values)[i] in Elements(Ascending(prints.Values));
  }

  /** Each fingerprint with its CIDRs. */
  ghost predicate Gathered(prints: map<string, string>, cidrsOf: map<string, seq<string>>) {
    && cidrsOf.Keys == prints.Values
    && forall f :: f in cidrsOf ==> NoDuplicates(cidrsOf[f]) && Elements(cidrsOf[f]) == Members(prints, f)
  }

  method GatherCidrs(gs: Groups, ghost prints: map<string, string>,
                     ghost lists: map<string, seq<Port>>, ghost tr: Trace)
    returns (cidrsOf: map<string, seq<string>>)
    requires Collected(prints, lists, gs, tr) && tr.pos.Keys == prints.Keys
    ensures Gathered(prints, cidrsOf)
  {
    FingerprintsFound(prints, lists, tr.rep, gs.slices);
    cidrsOf := FillCidrs(gs.groupings, gs.counts);
    forall f | f in cidrsOf ensures Elements(cidrsOf[f]) == Members(prints, f) {
      CidrsWithMembers(prints, tr.pos, gs.groupings, f);
    }
  }

  method LayOut(cidrsOf: map<string, seq<string>>, slices: map<string, seq<Port>>, ghost prints: map<string, string>,
                ghost lists: map<string, seq<Port>>, ghost rep: map<string, string>)
    returns (rules: seq<Rule>)
    requires prints.Keys == lists.Keys && Represents(prints, rep) && Gathered(prints, cidrsOf)
    requires slices == map f | f in rep :: lists[rep[f]]
    ensures rules == Layout(prints, lists, rep)
  {
    var fingerprints := SortedKeys(cidrsOf);
    ghost var layout := Layout(prints, lists, rep);
    rules := [];
    for i := 0 to |fingerprints|
      invariant rules == layout[..i]
    {
      LayoutAt(prints, lists, rep, i);
      TakeNext(layout, i);
      var rule := BuildRule(cidrsOf[fingerprints[i]], slices[fingerprints[i]]);
      assert rule == layout[i];
      rules := rules + [rule];
    }
  }

  lemma PrintedTable(m: Exploded, t: Table)
    requires Holds(m, t) && WellKeyedTable(t)
    ensures Printed(m, Fingerprints(t), PortLists(t))
  {
  }

  lemma SlicesAre(prints: map<string, string>, lists: map<string, seq<Port>>,
                  rep: map<string, string>, slices: map<string, seq<Port>>)
    requires prints.Keys == lists.Keys && Sliced(prints, lists, prints.Keys, rep, slices)
    ensures slices == map f | f in rep :: lists[rep[f]]
  {
  }

  method LayOutGroups(m: Exploded, ghost prints: map<string, string>, ghost lists: map<string, seq<Port>>)
    returns (rules: seq<Rule>, ghost rep: map<string, string>)
    requires Printed(m, prints, lists)
    ensures Represents(prints, rep) && rules == Layout(prints, lists, rep)
  {
    ghost var tr;
    var gs;
    gs, tr := GroupByFingerprint(m, prints, lists);
    rep := tr.rep;
    FingerprintsFound(prints, lists, rep, gs.slices);
    SlicesAre(prints, lists, rep, gs.slices);
    var cidrsOf := GatherCidrs(gs, prints, lists, tr);
    rules := LayOut(cidrsOf, gs.slices, prints, lists, rep);
  }

  method BuildRules(m: Exploded, ghost t: Table) returns (rules: seq<Rule>)
    requires Holds(m, t) && WellKeyedTable(t)
    ensures Canonical(t, rules)
  {
    PrintedTable(m, t);
    ghost var rep;
    rules, rep := LayOutGroups(m, Fingerprints(t), PortLists(t));
  }

  // ------------------------------------------------------------------ the whole pass

  /** The MultiNetworkPolicy object the pass rewrites. */
  class MultiNetworkPolicy {
    var egress: seq<Rule>

    constructor (egress: seq<Rule>)
      ensures this.egress == egress
    {
      this.egress := egress;
    }

    /** `CountUniqueAddresses`. */
    method CountUniqueAddresses() returns (count: nat)
      ensures count == PeerCount(egress)
    {
      count := 0;
      for i := 0 to |egress|
        invariant count == PeerCount(egress[..i])
      {
        assert egress[..i + 1][..i] == egress[..i];
        count := count + |egress[i].to|;
      }
      assert egress[..|egress|] == egress;
    }

    /** `IsEmpty`; the operator never writes ingress rules. */
    predicate IsEmpty()
      reads this
    {
      egress == []
    }
  }

  function PeerCount(rules: seq<Rule>): nat {
    if rules == [] then 0 else PeerCount(rules[..|rules| - 1]) + |rules[|rules| - 1].to|
  }

  lemma NothingToNormalise()
    ensures Canonical(TableOf([]), [])
  {
    var t := TableOf([]);
    assert t == map[];
    assert Represents(Fingerprints(t), map[]);
    assert Layout(Fingerprints(t), PortLists(t), map[]) == [];
  }

  lemma RawAbsorbed(rules: seq<Rule>)
    ensures TableOf(rules) == map c | c in RawTable(rules) :: Absorbed(RawTable(rules)[c])
  {
  }

  method RemoveDuplicateCIDRs(mnp: MultiNetworkPolicy?)
    modifies mnp
    ensures mnp != null ==> Canonical(TableOf(old(mnp.egress)), mnp.egress)
  {
    if mnp == null {
      return;
    }
    if |mnp.egress| == 0 {
      NothingToNormalise();
      return;
    }
    var m := Explode(mnp.egress);
    AbsorbAll(m, RawTable(mnp.egress));
    RawAbsorbed(mnp.egress);
    TableWellKeyed(mnp.egress);
    var rules := BuildRules(m, TableOf(mnp.egress));
    mnp.egress := rules;
  }
}
