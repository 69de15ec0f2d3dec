/** Port ranges. The keys leave the end port out (pkg/utils/networkpolicy.go:227-237), so ranges
    survive the normaliser only under a condition; this module says exactly when. */
module Ranges {
  import opened Text
  import opened Sorting
  import opened Policy
  import opened PortKeys
  import opened Grants
  import opened NormaliserLaws
  import opened NormalForms

  // ------------------------------------------------------------------ when ranges survive

  /** Whatever the iteration order, exactly the same destinations are admitted after as before. */
  ghost predicate MeaningKept(rules: seq<Rule>) {
    forall out, d :: Canonical(TableOf(rules), out) ==> (Admits(out, d) <==> Admits(rules, d))
  }

  // ------------------------------------------------------------------ entries covering entries

  predicate SpansNumber(q: Port, n: int) {
    match q.port
    case None => true
    case Some(IntVal(m)) => if q.endPort.Some? then m <= n <= q.endPort.value else n == m
    case Some(StrVal(_)) => false
  }

  /** Everything the entry admits some other one admits: of a range, port by port. */
  predicate EntryCovered(p: Port, others: set<Port>) {
    match p.port
    case None => exists q :: q in others && ProtocolOf(q) == ProtocolOf(p) && q.port.None?
    case Some(StrVal(s)) =>
      exists q :: q in others && ProtocolOf(q) == ProtocolOf(p) && (q.port.None? || q.port == Some(StrVal(s)))
    case Some(IntVal(n)) =>
      var last := if p.endPort.Some? then p.endPort.value else n;
      forall x :: n <= x <= last ==> NumberCovered(ProtocolOf(p), x, others)
  }

  predicate NumberCovered(protocol: string, x: int, others: set<Port>) {
    exists q :: q in others && ProtocolOf(q) == protocol && SpansNumber(q, x)
  }

  predicate EntriesCovered(ports: set<Port>, others: set<Port>) {
    forall p :: p in ports ==> EntryCovered(p, others)
  }

  ghost predicate SetAdmits(ports: set<Port>, d: Destination) {
    exists p :: p in ports && PortAdmits(p, d)
  }

  /** A number beyond all ranges and a name longer than all names. */
  lemma {:induction false} Outside(ports: set<Port>) returns (n: int, name: string)
    ensures forall q :: q in ports && q.port.Some? && q.port.value.IntVal? ==> !SpansNumber(q, n)
    ensures forall q :: q in ports && q.port.Some? && q.port.value.StrVal? ==> |q.port.value.s| < |name|
    ensures forall q :: q in ports && q.port.Some? && q.port.value.IntVal? ==>
              q.port.value.n < n && (q.endPort.Some? ==> q.endPort.value < n)
  {
    if ports == {} {
      n, name := 0, "";
    } else {
      var p :| p in ports;
      n, name := Outside(ports - {p});
      if p.port.Some? && p.port.value.IntVal? {
        n := if p.port.value.n >= n then p.port.value.n + 1 else n;
        n := if p.endPort.Some? && p.endPort.value >= n then p.endPort.value + 1 else n;
      }
      if p.port.Some? && p.port.value.StrVal? && |p.port.value.s| >= |name| {
        name := p.port.value.s + "x";
      }
    }
  }

  lemma CoveredAdmits(p: Port, others: set<Port>, d: Destination)
    requires EntryCovered(p, others) && PortAdmits(p, d)
    ensures SetAdmits(others, d)
  {
    if p.port.Some? && p.port.value.IntVal? {
      assert NumberCovered(ProtocolOf(p), d.port, others);
      var q :| q in others && ProtocolOf(q) == ProtocolOf(p) && SpansNumber(q, d.port);
    }
  }

  lemma AdmitsCovered(p: Port, others: set<Port>, cidr: string)
    requires forall d: Destination :: d.cidr == cidr && PortAdmits(p, d) ==> SetAdmits(others, d)
    ensures EntryCovered(p, others)
  {
    var n, name := Outside(others);
    match p.port {
      case None =>
        var d := Destination(cidr, ProtocolOf(p), n, name);
        assert PortAdmits(p, d);
      case Some(StrVal(s)) =>
        var d := Destination(cidr, ProtocolOf(p), n, s);
        assert PortAdmits(p, d);
      case Some(IntVal(m)) =>
        var last := if p.endPort.Some? then p.endPort.value else m;
        forall x | m <= x <= last
          ensures NumberCovered(ProtocolOf(p), x, others)
        {
          var d := Destination(cidr, ProtocolOf(p), x, name);
          assert PortAdmits(p, d);
          var q :| q in others && PortAdmits(q, d);
          assert SpansNumber(q, x);
        }
    }
  }

  /** Covering is what admitting no less comes to. */
  lemma CoverIff(ports: set<Port>, others: set<Port>, cidr: string)
    ensures EntriesCovered(ports, others)
            <==> forall d: Destination :: d.cidr == cidr && SetAdmits(ports, d) ==> SetAdmits(others, d)
  {
    if EntriesCovered(ports, others) {
      forall d: Destination | d.cidr == cidr && SetAdmits(ports, d) ensures SetAdmits(others, d) {
        var p :| p in ports && PortAdmits(p, d);
        CoveredAdmits(p, others, d);
      }
    }
    if forall d: Destination :: d.cidr == cidr && SetAdmits(ports, d) ==> SetAdmits(others, d) {
      forall p | p in ports ensures EntryCovered(p, others) {
        AdmitsCovered(p, others, cidr);
      }
    }
  }

  // ------------------------------------------------------------------ the condition

  /** The port entries of the rules that name the CIDR, one after another. */
  function EntriesFor(rules: seq<Rule>, c: string): seq<Port> {
    if rules == [] then []
    else
      var last := rules[|rules| - 1];
      EntriesFor(rules[..|rules| - 1], c) + if Names(last, c) then last.ports else []
  }

  /** Of entries with the same key the last one. */
  function LastEntries(ports: seq<Port>): set<Port> {
    set i | 0 <= i < |ports| && (forall j :: i < j < |ports| ==> PortKey(ports[j]) != PortKey(ports[i])) :: ports[i]
  }

  /** The rules offer these CIDRs the same uncovered keys. */
  predicate SameKeys(rules: seq<Rule>, c: string, e: string) {
    && (OffersAll(rules, c) <==> OffersAll(rules, e))
    && (!OffersAll(rules, c) ==> Uncovered(OfferedKeys(rules, c)) == Uncovered(OfferedKeys(rules, e)))
  }

  /** Of two limited CIDRs with the same keys (and of each with itself), all entries offered to one
      and the last entries offered to the other cover each other. */
  predicate RangesCover(rules: seq<Rule>) {
    forall c, e :: c in Cidrs(rules) && e in Cidrs(rules) && SameKeys(rules, c, e) && !OffersAll(rules, c) ==>
      && EntriesCovered(Offered(rules, c), LastEntries(EntriesFor(rules, e)))
      && EntriesCovered(LastEntries(EntriesFor(rules, e)), Offered(rules, c))
  }

  lemma LastNext(init: seq<Port>, last: Port)
    ensures LastEntries(init + [last]) == {last} + set p | p in LastEntries(init) && PortKey(p) != PortKey(last)
  {
    var ports := init + [last];
    forall p | p in LastEntries(ports) && p != last ensures p in LastEntries(init) && PortKey(p) != PortKey(last) {
      var i :| 0 <= i < |ports| && ports[i] == p && forall j :: i < j < |ports| ==> PortKey(ports[j]) != PortKey(p);
      assert ports[|init|] == last && init[i] == p;
      assert forall j :: i < j < |init| ==> init[j] == ports[j];
    }
    forall p | p in LastEntries(init) && PortKey(p) != PortKey(last) ensures p in LastEntries(ports) {
      var i :| 0 <= i < |init| && init[i] == p && forall j :: i < j < |init| ==> PortKey(init[j]) != PortKey(p);
      assert ports[i] == p;
    }
    assert ports[|init|] == last;
  }

  lemma ValuesNext(m: map<string, Port>, last: Port)
    requires KeyedBy(PortKey, m)
    ensures m[PortKey(last) := last].Values == {last} + set p | p in m.Values && PortKey(p) != PortKey(last)
  {
    var n := m[PortKey(last) := last];
    assert n[PortKey(last)] == last;
    forall p | p in m.Values && PortKey(p) != PortKey(last) ensures p in n.Values {
      assert n[PortKey(p)] == p;
    }
  }

  lemma {:induction false} KeyedLast(ports: seq<Port>)
    ensures Keyed(ports).Values == LastEntries(ports)
  {
    if ports != [] {
      var init, last := ports[..|ports| - 1], ports[|ports| - 1];
      assert ports == init + [last];
      KeyedLast(init);
      KeyedKeys(init);
      LastNext(init, last);
      ValuesNext(Keyed(init), last);
    }
  }

  lemma KeyedNext(init: seq<Port>, last: Port)
    ensures Keyed(init + [last]) == Keyed(init)[PortKey(last) := last]
  {
    assert (init + [last])[..|init|] == init;
  }

  lemma UpdateSum<K, V>(m: map<K, V>, n: map<K, V>, k: K, v: V)
    ensures m + n[k := v] == (m + n)[k := v]
  {
  }

  lemma {:induction false} KeyedConcat(a: seq<Port>, b: seq<Port>)
    ensures Keyed(a + b) == Keyed(a) + Keyed(b)
  {
    if b == [] {
      assert a + b == a;
    } else {
      var init, last := b[..|b| - 1], b[|b| - 1];
      KeyedConcat(a, init);
      KeyedNext(init, last);
      KeyedNext(a + init, last);
      UpdateSum(Keyed(a), Keyed(init), PortKey(last), last);
      assert b == init + [last] && a + b == a + init + [last];
    }
  }

  lemma {:induction false} EntriesOffered(rules: seq<Rule>, c: string)
    ensures Elements(EntriesFor(rules, c)) == Offered(rules, c)
  {
    if rules != [] {
      OffersNext(rules, c);
      EntriesOffered(rules[..|rules| - 1], c);
    }
  }

  /** What the normaliser keeps of a limited CIDR's entries: the last of each key. */
  lemma {:induction false} GrantedEntries(rules: seq<Rule>, c: string)
    ensures !OffersAll(rules, c) ==> Granted(rules, c) == Only(Keyed(EntriesFor(rules, c)))
  {
    if rules != [] {
      var init, last := rules[..|rules| - 1], rules[|rules| - 1];
      OffersNext(rules, c);
      GrantedEntries(init, c);
      KeyedConcat(EntriesFor(init, c), if Names(last, c) then last.ports else []);
    }
  }

  /** Some entry offered to the CIDR of the destination matches it. */
  ghost predicate OfferAdmits(rules: seq<Rule>, d: Destination) {
    OffersAll(rules, d.cidr) || SetAdmits(Offered(rules, d.cidr), d)
  }

  lemma GrantAdmitsLast(rules: seq<Rule>, e: string, d: Destination)
    ensures GrantAdmits(Granted(rules, e), d)
        <==> OffersAll(rules, e) || SetAdmits(LastEntries(EntriesFor(rules, e)), d)
  {
    GrantedIs(rules, e);
    GrantedEntries(rules, e);
    KeyedLast(EntriesFor(rules, e));
    var m := Keyed(EntriesFor(rules, e));
    if !OffersAll(rules, e) {
      if SetAdmits(m.Values, d) {
        var p :| p in m.Values && PortAdmits(p, d);
        var k :| k in m && m[k] == p;
      }
      if k :| k in m && PortAdmits(m[k], d) {
        assert m[k] in m.Values;
      }
    }
  }

  /** The condition in terms of destinations. */
  ghost predicate AgreesAt(rules: seq<Rule>, e: string, d: Destination) {
    d.cidr in Cidrs(rules) && e in Cidrs(rules) && SameKeys(rules, d.cidr, e) ==>
      (GrantAdmits(Granted(rules, e), d) <==> OfferAdmits(rules, d))
  }

  ghost predicate RangesAgree(rules: seq<Rule>) {
    forall e, d :: AgreesAt(rules, e, d)
  }

  lemma AgreeFromCover(rules: seq<Rule>, e: string, d: Destination)
    requires RangesCover(rules)
    ensures AgreesAt(rules, e, d)
  {
    GrantAdmitsLast(rules, e, d);
    if d.cidr in Cidrs(rules) && e in Cidrs(rules) && SameKeys(rules, d.cidr, e) && !OffersAll(rules, d.cidr) {
      CoverIff(Offered(rules, d.cidr), LastEntries(EntriesFor(rules, e)), d.cidr);
      CoverIff(LastEntries(EntriesFor(rules, e)), Offered(rules, d.cidr), d.cidr);
    }
  }

  lemma CoverFromAgree(rules: seq<Rule>, c: string, e: string)
    requires RangesAgree(rules) && c in Cidrs(rules) && e in Cidrs(rules) && SameKeys(rules, c, e)
        && !OffersAll(rules, c)
    ensures EntriesCovered(Offered(rules, c), LastEntries(EntriesFor(rules, e)))
    ensures EntriesCovered(LastEntries(EntriesFor(rules, e)), Offered(rules, c))
  {
    var offered, kept := Offered(rules, c), LastEntries(EntriesFor(rules, e));
    forall d: Destination | d.cidr == c ensures SetAdmits(offered, d) <==> SetAdmits(kept, d) {
      AgreeAt(rules, e, d);
    }
    CoverIff(offered, kept, c);
    CoverIff(kept, offered, c);
  }

  lemma AgreeAt(rules: seq<Rule>, e: string, d: Destination)
    requires RangesAgree(rules) && d.cidr in Cidrs(rules) && e in Cidrs(rules)
    requires SameKeys(rules, d.cidr, e) && !OffersAll(rules, d.cidr)
    ensures SetAdmits(Offered(rules, d.cidr), d) <==> SetAdmits(LastEntries(EntriesFor(rules, e)), d)
  {
    GrantAdmitsLast(rules, e, d);
    assert AgreesAt(rules, e, d);
  }

  lemma CoverIsAgree(rules: seq<Rule>)
    ensures RangesCover(rules) <==> RangesAgree(rules)
  {
    if RangesCover(rules) {
      forall e, d ensures AgreesAt(rules, e, d) {
        AgreeFromCover(rules, e, d);
      }
    }
    if RangesAgree(rules) {
      forall c, e | c in Cidrs(rules) && e in Cidrs(rules) && SameKeys(rules, c, e) && !OffersAll(rules, c)
        ensures EntriesCovered(Offered(rules, c), LastEntries(EntriesFor(rules, e)))
        ensures EntriesCovered(LastEntries(EntriesFor(rules, e)), Offered(rules, c))
      {
        CoverFromAgree(rules, c, e);
      }
    }
  }

  // ------------------------------------------------------------------ its exactness

  lemma OffersAdmit(rules: seq<Rule>, d: Destination)
    requires AllNamePeers(rules)
    ensures Admits(rules, d) <==> d.cidr in Cidrs(rules) && OfferAdmits(rules, d)
  {
    if r :| r in rules && RuleAdmits(r, d) {
      if r.ports != [] {
        var p :| p in r.ports && PortAdmits(p, d);
        assert p in Offered(rules, d.cidr);
      }
    }
    if OfferAdmits(rules, d) {
      if OffersAll(rules, d.cidr) {
        var r :| r in rules && Names(r, d.cidr) && r.ports == [];
        assert RuleAdmits(r, d);
      } else {
        var p :| p in Offered(rules, d.cidr) && PortAdmits(p, d);
        var r :| r in rules && Names(r, d.cidr) && p in r.ports;
        assert RuleAdmits(r, d);
      }
    }
  }

  lemma SameKeysPrint(rules: seq<Rule>, c: string, e: string)
    requires CommaFreePorts(PortsIn(rules)) && c in Cidrs(rules) && e in Cidrs(rules)
    ensures Fingerprint(TableOf(rules)[c]) == Fingerprint(TableOf(rules)[e]) <==> SameKeys(rules, c, e)
  {
    var t := TableOf(rules);
    TableSound(rules);
    TableTabulates(rules, c);
    TableTabulates(rules, e);
    SameFingerprint(t[c], t[e]);
  }

  /** Absorption does not change what any CIDR's grant admits, whose destination it may be. */
  lemma TableAdmitsAny(rules: seq<Rule>, e: string, d: Destination)
    requires ValidPorts(PortsIn(rules)) && e in Cidrs(rules)
    ensures GrantAdmits(TableOf(rules)[e], d) <==> GrantAdmits(Granted(rules, e), d)
  {
    GrantedIs(rules, e);
    assert Offered(rules, e) <= PortsIn(rules);
    AbsorbedAdmits(Granted(rules, e), d);
  }

  /** In a normal form a CIDR gets the grant of one with its fingerprint. */
  lemma ServedAs(t: Table, out: seq<Rule>, d: Destination) returns (e: string)
    requires Sound(t) && Canonical(t, out) && d.cidr in t
    ensures e in t && Fingerprint(t[e]) == Fingerprint(t[d.cidr])
    ensures Admits(out, d) <==> GrantAdmits(t[e], d)
  {
    CanonicalNamesPeers(t, out);
    var i;
    i, e := CanonicalWhere(t, out, d.cidr);
    AdmitsOnce(out, i, d);
    PortListAdmits(t[e], d);
  }

  lemma ServedAlike(rules: seq<Rule>, out: seq<Rule>, d: Destination)
    requires ValidPorts(PortsIn(rules)) && Sound(TableOf(rules)) && CommaFreePorts(PortsIn(rules))
    requires RangesAgree(rules) && Canonical(TableOf(rules), out) && d.cidr in Cidrs(rules)
    ensures Admits(out, d) <==> OfferAdmits(rules, d)
  {
    var e := ServedAs(TableOf(rules), out, d);
    SameKeysPrint(rules, d.cidr, e);
    TableAdmitsAny(rules, e, d);
    assert AgreesAt(rules, e, d);
  }

  lemma MeaningIfRanges(rules: seq<Rule>, out: seq<Rule>, d: Destination)
    requires ValidPorts(PortsIn(rules)) && AllNamePeers(rules) && RangesAgree(rules)
    requires Canonical(TableOf(rules), out)
    ensures Admits(out, d) <==> Admits(rules, d)
  {
    ValidCommaFree(PortsIn(rules));
    TableSound(rules);
    OffersAdmit(rules, d);
    if d.cidr in Cidrs(rules) {
      ServedAlike(rules, out, d);
    } else {
      ServesNothing(TableOf(rules), out, d);
    }
  }

  lemma RangesIfMeaning(rules: seq<Rule>, e: string, d: Destination)
    requires ValidPorts(PortsIn(rules)) && AllNamePeers(rules) && MeaningKept(rules)
    ensures AgreesAt(rules, e, d)
  {
    if d.cidr in Cidrs(rules) && e in Cidrs(rules) && SameKeys(rules, d.cidr, e) {
      ValidCommaFree(PortsIn(rules));
      TableSound(rules);
      OffersAdmit(rules, d);
      SameKeysPrint(rules, d.cidr, e);
      var out := PickOther(TableOf(rules), d.cidr, e, d);
      TableAdmitsAny(rules, e, d);
    }
  }

  /** Normalising keeps the meaning of a rule list, ranges included, exactly when entries with
      the same keys cover each other. */
  lemma MeaningIff(rules: seq<Rule>)
    requires ValidPorts(PortsIn(rules)) && AllNamePeers(rules)
    ensures MeaningKept(rules) <==> RangesCover(rules)
  {
    CoverIsAgree(rules);
    if RangesAgree(rules) {
      forall out, d | Canonical(TableOf(rules), out) ensures Admits(out, d) <==> Admits(rules, d) {
        MeaningIfRanges(rules, out, d);
      }
    }
    if MeaningKept(rules) {
      forall e, d ensures AgreesAt(rules, e, d) {
        RangesIfMeaning(rules, e, d);
      }
    }
  }

  // ------------------------------------------------------------------ end ports with equal keys

  function NumberPort(n: int, end: Option<int>): Port {
    Port(Some("TCP"), Some(IntVal(n)), end)
  }

  lemma NumberPortValid(n: int, end: Option<int>)
    ensures ValidPort(NumberPort(n, end)) && ',' !in PortKey(NumberPort(n, end))
    ensures PortKey(NumberPort(n, end)) == "TCP:" + Itoa(n)
    ensures forall keys :: keys == {"TCP:" + Itoa(n)} ==> !Covered(keys, "TCP:" + Itoa(n))
  {
    assert PROTOCOLS[0] == "TCP";
    ValidKeyCommaFree(NumberPort(n, end));
    var k := "TCP:" + Itoa(n);
    forall proto | proto in PROTOCOLS ensures !CoveredBy({k}, k, proto) {
    }
  }

  /** A grant that is one numbered port stays as it is. */
  lemma SingleGrant(rules: seq<Rule>, c: string, n: int, end: Option<int>)
    requires c in Cidrs(rules)
    requires Granted(rules, c) == Only(map[PortKey(NumberPort(n, end)) := NumberPort(n, end)])
    ensures TableOf(rules)[c] == Granted(rules, c)
  {
    NumberPortValid(n, end);
  }

  lemma KeyedOne(p: Port)
    ensures Keyed([p]) == map[PortKey(p) := p]
  {
    assert [p][..0] == [];
  }

  /** A range and then its first port alone, for one CIDR. */
  function LossRules(c: string, n: int, m: int): seq<Rule> {
    [Rule([NumberPort(n, Some(m)), NumberPort(n, None)], [Peer(Some(c))])]
  }

  /** Range lost: of two entries of one CIDR with the same protocol and first port, the later
      one replaces the earlier, and the ports only the earlier covered are no longer admitted. */
  lemma RangeLost(c: string, n: int, m: int)
    requires c != "" && n < m
    ensures ValidPorts(PortsIn(LossRules(c, n, m)))
    ensures Admits(LossRules(c, n, m), Destination(c, "TCP", m, ""))
    ensures forall out :: Canonical(TableOf(LossRules(c, n, m)), out) ==> !Admits(out, Destination(c, "TCP", m, ""))
  {
    LosingRule(c, n, m);
    forall out | Canonical(TableOf(LossRules(c, n, m)), out) ensures !Admits(out, Destination(c, "TCP", m, "")) {
      LosingOut(c, n, m, out);
    }
  }

  lemma LosingOut(c: string, n: int, m: int, out: seq<Rule>)
    requires c != "" && n < m && Canonical(TableOf(LossRules(c, n, m)), out)
    ensures !Admits(out, Destination(c, "TCP", m, ""))
  {
    LosingRule(c, n, m);
    LosingTable(c, n, m);
    ValidCommaFree(PortsIn(LossRules(c, n, m)));
    TableSound(LossRules(c, n, m));
    OnlyThatPort(TableOf(LossRules(c, n, m)), out, NumberPort(n, None), Destination(c, "TCP", m, ""));
  }

  lemma LosingTable(c: string, n: int, m: int)
    requires c != "" && n < m
    ensures c in Cidrs(LossRules(c, n, m))
    ensures forall x :: x in Cidrs(LossRules(c, n, m)) ==>
              TableOf(LossRules(c, n, m))[x] == Only(map[PortKey(NumberPort(n, None)) := NumberPort(n, None)])
  {
    LosingRule(c, n, m);
    LastWins(c, NumberPort(n, Some(m)), NumberPort(n, None));
    SingleGrant(LossRules(c, n, m), c, n, None);
  }

  lemma LosingRule(c: string, n: int, m: int)
    requires c != "" && n < m
    ensures ValidPorts(PortsIn(LossRules(c, n, m))) && Admits(LossRules(c, n, m), Destination(c, "TCP", m, ""))
    ensures c in Cidrs(LossRules(c, n, m)) && PortKey(NumberPort(n, Some(m))) == PortKey(NumberPort(n, None))
  {
    var p, q := NumberPort(n, Some(m)), NumberPort(n, None);
    var r, d := Rule([p, q], [Peer(Some(c))]), Destination(c, "TCP", m, "");
    NumberPortValid(n, None);
    NumberPortValid(n, Some(m));
    assert r in [r] && p in r.ports && PortAdmits(p, d) && Names(r, c) && RuleAdmits(r, d);
  }

  lemma LastWins(c: string, p: Port, q: Port)
    requires c != "" && PortKey(p) == PortKey(q)
    ensures Granted([Rule([p, q], [Peer(Some(c))])], c) == Only(map[PortKey(q) := q])
  {
    var r := Rule([p, q], [Peer(Some(c))]);
    assert [r][..0] == [] && [p, q][..1] == [p];
    KeyedOne(p);
    assert Keyed([p, q]) == map[PortKey(q) := q];
    assert map[] + Keyed([p, q]) == map[PortKey(q) := q];
  }

  /** If every CIDR is granted that one port, a normal form admits what the port admits. */
  lemma OnlyThatPort(t: Table, out: seq<Rule>, p: Port, d: Destination)
    requires Sound(t) && Canonical(t, out) && d.cidr in t
    requires forall x :: x in t ==> t[x] == Only(map[PortKey(p) := p])
    ensures Admits(out, d) <==> PortAdmits(p, d)
  {
    var rep := CanonicalLayout(t, out);
    LayoutAdmits(t, rep, d);
    OnlyGrantAdmits(p, d);
  }

  lemma OnlyGrantAdmits(p: Port, d: Destination)
    ensures GrantAdmits(Only(map[PortKey(p) := p]), d) <==> PortAdmits(p, d)
  {
    var m := map[PortKey(p) := p];
    assert PortKey(p) in m;
  }

  /** One port for one CIDR, and a range starting there for another. */
  function LeakRules(a: string, b: string, n: int, m: int): seq<Rule> {
    [Rule([NumberPort(n, None)], [Peer(Some(a))]), Rule([NumberPort(n, Some(m))], [Peer(Some(b))])]
  }

  /** Range leaked: two CIDRs with equal keys share a rule, so one may get the other's range. */
  lemma RangeLeaked(a: string, b: string, n: int, m: int)
    requires a != "" && b != "" && a != b && n < m
    ensures ValidPorts(PortsIn(LeakRules(a, b, n, m)))
    ensures !Admits(LeakRules(a, b, n, m), Destination(a, "TCP", m, ""))
    ensures exists out :: Canonical(TableOf(LeakRules(a, b, n, m)), out) && Admits(out, Destination(a, "TCP", m, ""))
  {
    LeakPorts(a, b, n, m);
    var out := LeakOut(a, b, n, m);
  }

  lemma LeakOut(a: string, b: string, n: int, m: int) returns (out: seq<Rule>)
    requires a != "" && b != "" && a != b && n < m
    ensures Canonical(TableOf(LeakRules(a, b, n, m)), out) && Admits(out, Destination(a, "TCP", m, ""))
  {
    LeakPorts(a, b, n, m);
    LeakGrants(a, b, n, m);
    TableSound(LeakRules(a, b, n, m));
    NumberPortValid(n, None);
    NumberPortValid(n, Some(m));
    out := PickSingle(TableOf(LeakRules(a, b, n, m)), a, b, NumberPort(n, None), NumberPort(n, Some(m)),
                      Destination(a, "TCP", m, ""));
  }

  lemma PickSingle(t: Table, a: string, b: string, p: Port, q: Port, d: Destination) returns (out: seq<Rule>)
    requires Sound(t) && a in t && b in t && d.cidr == a && PortKey(p) == PortKey(q) && PortAdmits(q, d)
    requires t[a] == Only(map[PortKey(p) := p]) && t[b] == Only(map[PortKey(q) := q])
    ensures Canonical(t, out) && Admits(out, d)
  {
    SameFingerprint(t[a], t[b]);
    OnlyGrantAdmits(q, d);
    out := PickOther(t, a, b, d);
  }

  lemma LeakPorts(a: string, b: string, n: int, m: int)
    requires a != "" && b != "" && a != b && n < m
    ensures ValidPorts(PortsIn(LeakRules(a, b, n, m))) && CommaFreePorts(PortsIn(LeakRules(a, b, n, m)))
    ensures !Admits(LeakRules(a, b, n, m), Destination(a, "TCP", m, ""))
  {
    var rules := LeakRules(a, b, n, m);
    assert forall p :: p in PortsIn(rules) ==> p == NumberPort(n, None) || p == NumberPort(n, Some(m));
    NumberPortValid(n, None);
    NumberPortValid(n, Some(m));
  }

  lemma LeakGrants(a: string, b: string, n: int, m: int)
    requires a != "" && b != "" && a != b && n < m
    ensures var t, p, q := TableOf(LeakRules(a, b, n, m)), NumberPort(n, None), NumberPort(n, Some(m));
            && a in t && t[a] == Only(map[PortKey(p) := p])
            && b in t && t[b] == Only(map[PortKey(q) := q])
  {
    var rules := LeakRules(a, b, n, m);
    assert Names(rules[0], a) && Names(rules[1], b) && !Names(rules[0], b) && !Names(rules[1], a);
    OfferedOnce(rules, 0, a);
    OfferedOnce(rules, 1, b);
    SingleOffer(rules, a, n, None);
    SingleOffer(rules, b, n, Some(m));
  }

  /** Of two CIDRs with one fingerprint, one may get the other's grant. */
  lemma PickOther(t: Table, a: string, b: string, d: Destination) returns (out: seq<Rule>)
    requires Sound(t) && a in t && b in t && d.cidr == a
    requires Fingerprints(t)[a] == Fingerprints(t)[b]
    ensures Canonical(t, out) && (Admits(out, d) <==> GrantAdmits(t[b], d))
  {
    var rep := SomeRepresentatives(Fingerprints(t));
    Repick(Fingerprints(t), rep, b);
    var rb := rep[Fingerprints(t)[b] := b];
    LayoutAdmits(t, rb, d);
    out := Layout(Fingerprints(t), PortLists(t), rb);
  }

  lemma SingleOffer(rules: seq<Rule>, c: string, n: int, end: Option<int>)
    requires c in Cidrs(rules) && Offered(rules, c) == {NumberPort(n, end)} && !OffersAll(rules, c)
    ensures TableOf(rules)[c] == Only(map[PortKey(NumberPort(n, end)) := NumberPort(n, end)])
  {
    GrantedIs(rules, c);
    SingleGrant(rules, c, n, end);
  }

  /** In a layout a CIDR gets what its representative is granted. */
  lemma LayoutAdmits(t: Table, rep: map<string, string>, d: Destination)
    requires Sound(t) && d.cidr in t && Represents(Fingerprints(t), rep)
    ensures Canonical(t, Layout(Fingerprints(t), PortLists(t), rep))
    ensures Fingerprints(t)[d.cidr] in rep && rep[Fingerprints(t)[d.cidr]] in t
    ensures Admits(Layout(Fingerprints(t), PortLists(t), rep), d)
            <==> GrantAdmits(t[rep[Fingerprints(t)[d.cidr]]], d)
  {
    var out := Layout(Fingerprints(t), PortLists(t), rep);
    assert Canonical(t, out);
    CanonicalNamesPeers(t, out);
    var i := LayoutWhere(Fingerprints(t), PortLists(t), rep, d.cidr);
    AdmitsOnce(out, i, d);
    PortListAdmits(t[rep[Fingerprints(t)[d.cidr]]], d);
  }
}
