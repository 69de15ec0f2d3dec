/** `RemoveDuplicateCIDRsInMultiNetworkPolicy` (pkg/utils/networkpolicy.go:11-225), in place.
    Map iteration is an arbitrary pick, so nothing here depends on its order. */
module Normaliser {
  import opened Sorting
  import opened Policy
  import opened PortKeys
  import opened Grants

  /** The mutable port set behind each CIDR of the exploded map. */
  class PortSet {
    var allowAll: bool
    var ports: map<string, Port>

    function View(): Grant
      reads this
    {
      if allowAll then AllPorts else Only(ports)
    }

    constructor ()
      ensures View() == Only(map[])
    {
      allowAll, ports := false, map[];
    }

    /** One rule mentions the CIDR. */
    method Add(rulePorts: seq<Port>)
      modifies this
      ensures View() == Merge(old(View()), rulePorts)
    {
      if allowAll {
        return;
      }
      if |rulePorts| == 0 {
        allowAll, ports := true, map[];
        return;
      }
      for k := 0 to |rulePorts|
        invariant !allowAll && ports == old(ports) + Keyed(rulePorts[..k])
      {
        var p := rulePorts[k];
        assert rulePorts[..k + 1][..k] == rulePorts[..k];
        ports := ports[PortKey(p) := p];
      }
      assert rulePorts[..|rulePorts|] == rulePorts;
    }

    /** Deletes, while iterating, the specific ports of a protocol whose "any" key is present. */
    method AbsorbProtocol(proto: string)
      requires !allowAll
      modifies this
      ensures !allowAll
      ensures ports == map k | k in old(ports) && !CoveredBy(old(ports).Keys, k, proto) :: old(ports)[k]
    {
      var anyKey := AnyKey(proto);
      if anyKey !in ports {
        assert ports == map k | k in ports && !CoveredBy(ports.Keys, k, proto) :: ports[k];
        return;
      }
      var todo := ports.Keys;
      while todo != {}
        invariant !allowAll && todo <= old(ports).Keys
        invariant ports == map k | k in old(ports) && (k in todo || !CoveredBy(old(ports).Keys, k, proto)) ::
            old(ports)[k]
      {
        var k :| k in todo;
        if proto + ":" <= k && k != anyKey {
          ports := ports - {k};
        }
        todo := todo - {k};
      }
    }

    method Absorb()
      modifies this
      ensures View() == Absorbed(old(View())) && KeySet(View()) == Uncovered(KeySet(old(View())))
    {
      AbsorbedKeys(View());
      if allowAll || ports == map[] {
        return;
      }
      ghost var before := ports;
      for i := 0 to |PROTOCOLS|
        invariant !allowAll
        invariant ports == map k | k in before && !CoveredByFirst(before.Keys, k, i) :: before[k]
      {
        AnyKeysSurvive(before.Keys, i);
        AbsorbProtocol(PROTOCOLS[i]);
      }
    }
  }

  /** Covered by one of the first `n` protocols. */
  ghost predicate CoveredByFirst(keys: set<string>, key: string, n: nat)
    requires n <= |PROTOCOLS|
  {
    exists i :: 0 <= i < n && CoveredBy(keys, key, PROTOCOLS[i])
  }

  /** Absorbing one protocol leaves the "any" keys of the others in place. */
  lemma AnyKeysSurvive(keys: set<string>, n: nat)
    requires n < |PROTOCOLS|
    ensures !CoveredByFirst(keys, AnyKey(PROTOCOLS[n]), n)
  {
    AnyKeyUncovered(keys, PROTOCOLS[n]);
  }

  type Exploded = map<string, PortSet>

  ghost predicate Separate(m: Exploded) {
    forall c, d :: c in m && d in m && c != d ==> m[c] != m[d]
  }

  /** The map holds these grants, each in its own port set. */
  ghost predicate Holds(m: Exploded, t: Table)
    reads m.Values
  {
    m.Keys == t.Keys && Separate(m) && forall c :: c in m ==> m[c].View() == t[c]
  }

  /** The grants after all peers of `done` and the first `j` peers of `rule`. */
  ghost function PartTable(done: seq<Rule>, rule: Rule, j: nat): Table
    requires j <= |rule.to|
  {
    var part := Rule(rule.ports, rule.to[..j]);
    map c | c in Cidrs(done + [part]) :: Granted(done + [part], c)
  }

  ghost function RawTable(rules: seq<Rule>): Table {
    map c | c in Cidrs(rules) :: Granted(rules, c)
  }

  lemma Snoc(done: seq<Rule>, rule: Rule)
    ensures forall c :: c in Cidrs(done + [rule]) <==> c in Cidrs(done) || Names(rule, c)
    ensures forall c :: Granted(done + [rule], c) ==
                        if Names(rule, c) then Merge(Granted(done, c), rule.ports) else Granted(done, c)
  {
    var all := done + [rule];
    assert all[..|all| - 1] == done;
    assert forall r :: r in all <==> r in done || r == rule;
  }

  lemma PartStart(done: seq<Rule>, rule: Rule)
    ensures PartTable(done, rule, 0) == RawTable(done)
  {
    Snoc(done, Rule(rule.ports, rule.to[..0]));
  }

  lemma PartEnd(done: seq<Rule>, rule: Rule)
    ensures PartTable(done, rule, |rule.to|) == RawTable(done + [rule])
  {
    assert Rule(rule.ports, rule.to[..|rule.to|]) == rule;
  }

  /** A table after one more mention of a CIDR. */
  function Mentioned(t: Table, cidr: string, ports: seq<Port>): Table {
    t[cidr := Merge(if cidr in t then t[cidr] else Only(map[]), ports)]
  }

  /** What the part table gives one CIDR, `None` if it does not list it. */
  ghost function PartGrant(done: seq<Rule>, rule: Rule, j: nat, c: string): Option<Grant>
    requires j <= |rule.to|
  {
    if c != "" && Peer(Some(c)) in rule.to[..j] then Some(Merge(Granted(done, c), rule.ports))
    else if c in Cidrs(done) then Some(Granted(done, c))
    else None
  }

  ghost function At(t: Table, c: string): Option<Grant> {
    if c in t then Some(t[c]) else None
  }

  lemma PartAt(done: seq<Rule>, rule: Rule, j: nat, c: string)
    requires j <= |rule.to|
    ensures At(PartTable(done, rule, j), c) == PartGrant(done, rule, j, c)
  {
    Snoc(done, Rule(rule.ports, rule.to[..j]));
  }

  lemma SameTable(t: Table, u: Table)
    requires forall c :: At(t, c) == At(u, c)
    ensures t == u
  {
    assert forall c :: c in t ==> At(t, c) == At(u, c);
    assert forall c :: c in u ==> At(t, c) == At(u, c);
  }

  /** What one CIDR is given after a peer with this block. */
  ghost function After(g: Option<Grant>, block: Option<string>, ports: seq<Port>, c: string): Option<Grant> {
    if c != "" && block == Some(c) then Some(Merge(if g.Some? then g.value else Only(map[]), ports)) else g
  }

  /** One more peer changes its own CIDR only, and naming a CIDR twice in a rule is naming it once. */
  lemma PartGrantNext(done: seq<Rule>, rule: Rule, j: nat, c: string)
    requires j < |rule.to|
    ensures PartGrant(done, rule, j + 1, c) == After(PartGrant(done, rule, j, c), rule.to[j].ipBlock, rule.ports, c)
  {
    assert rule.to[..j + 1] == rule.to[..j] + [rule.to[j]];
    MergeTwice(Granted(done, c), rule.ports);
    if c !in Cidrs(done) { NothingGranted(done, c); }
  }

  lemma PartNext(done: seq<Rule>, rule: Rule, j: nat)
    requires j < |rule.to|
    ensures var t, u, block := PartTable(done, rule, j), PartTable(done, rule, j + 1), rule.to[j].ipBlock;
            u == if block.None? || block.value == "" then t else Mentioned(t, block.value, rule.ports)
  {
    var t, u, block := PartTable(done, rule, j), PartTable(done, rule, j + 1), rule.to[j].ipBlock;
    var v := if block.None? || block.value == "" then t else Mentioned(t, block.value, rule.ports);
    forall c ensures At(u, c) == At(v, c) {
      PartAt(done, rule, j, c);
      PartAt(done, rule, j + 1, c);
      PartGrantNext(done, rule, j, c);
      assert At(v, c) == After(At(t, c), block, rule.ports, c);
    }
    SameTable(u, v);
  }

  lemma {:induction false} NothingGranted(rules: seq<Rule>, cidr: string)
    requires cidr !in Cidrs(rules)
    ensures Granted(rules, cidr) == Only(map[])
  {
    if rules != [] {
      var init, last := rules[..|rules| - 1], rules[|rules| - 1];
      assert rules == init + [last];
      assert last in rules && forall r :: r in init ==> r in rules;
      NothingGranted(init, cidr);
    }
  }

  /** Looks the port set of a CIDR up, allocating it on first sight, and adds the rule's ports. */
  method Mention(m: Exploded, cidr: string, rulePorts: seq<Port>, ghost t: Table) returns (r: Exploded)
    requires Holds(m, t)
    modifies m.Values
    ensures fresh(r.Values - m.Values)
    ensures Holds(r, Mentioned(t, cidr, rulePorts))
  {
    r := m;
    if cidr !in m {
      var ps := new PortSet();
      r := m[cidr := ps];
    }
    var ps := r[cidr];
    assert forall c :: c in r && c != cidr ==> c in m && r[c] == m[c] && r[c] != ps;
    ps.Add(rulePorts);
  }

  /** The peers of one rule, on top of the rules done. */
  method ExplodeRule(m: Exploded, rule: Rule, ghost done: seq<Rule>) returns (r: Exploded)
    requires Holds(m, RawTable(done))
    modifies m.Values
    ensures fresh(r.Values - m.Values)
    ensures Holds(r, RawTable(done + [rule]))
  {
    r := m;
    PartStart(done, rule);
    for j := 0 to |rule.to|
      invariant fresh(r.Values - m.Values) && Holds(r, PartTable(done, rule, j))
    {
      PartNext(done, rule, j);
      var peer := rule.to[j];
      if peer.ipBlock.None? || peer.ipBlock.value == "" {
        continue;
      }
      r := Mention(r, peer.ipBlock.value, rule.ports, PartTable(done, rule, j));
    }
    PartEnd(done, rule);
  }

  /** Stage 1: explode the rules into one port set per CIDR. */
  method Explode(egress: seq<Rule>) returns (m: Exploded)
    ensures fresh(m.Values)
    ensures Holds(m, RawTable(egress))
  {
    m := map[];
    ghost var done: seq<Rule> := [];
    for i := 0 to |egress|
      invariant done == egress[..i]
      invariant fresh(m.Values) && Holds(m, RawTable(done))
    {
      m := ExplodeRule(m, egress[i], done);
      TakeNext(egress, i);
      done := done + [egress[i]];
    }
    assert done == egress;
  }

  /** Stage 1.5: absorb, port set by port set. */
  method AbsorbAll(m: Exploded, ghost t: Table)
    requires Holds(m, t)
    modifies m.Values
    ensures Holds(m, map c | c in t :: Absorbed(t[c]))
  {
    var todo := m.Keys;
    while todo != {}
      invariant todo <= m.Keys
      invariant forall c :: c in m ==> m[c].View() == if c in todo then t[c] else Absorbed(t[c])
    {
      var c :| c in todo;
      m[c].Absorb();
      todo := todo - {c};
    }
  }
}
