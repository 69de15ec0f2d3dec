/** Properties of whole rounds. */
module RoundLaws {
  import opened Sorting
  import opened Policy
  import opened Grants
  import opened Regroup
  import opened NormaliserLaws
  import opened NormalForms
  import opened Status
  import opened Compiler
  import opened EndToEnd
  import opened SpecEnds
  import opened Ledger
  import opened History
  import opened Bookkeeping
  import opened Reconcile

  // ------------------------------------------------------------------ one name

  lemma ListsSameMultiset<T>(key: T -> string, s: seq<T>, t: seq<T>, m: map<string, T>)
    requires Lists(key, s, m.Keys, m) && Lists(key, t, m.Keys, m)
    ensures multiset(s) == multiset(t)
  {
    SortedIsSorted(key, s);
    SortedIsSorted(key, t);
    SortedListing(key, s, m, Sorted(key, s));
    SortedListing(key, t, m, Sorted(key, t));
  }

  /** The order of the map iteration is all that two retention passes can differ in. */
  lemma RetainedUnique(entries: seq<Entry>, was: Missing, answer: set<string>,
                       limit: int, now: int, a: seq<Entry>, b: seq<Entry>)
    requires Retained(entries, was, answer, limit, now, a) && Retained(entries, was, answer, limit, now, b)
    ensures multiset(a) == multiset(b)
  {
    var first := FirstPass(entries, was, answer, limit, now);
    var rest := Leftover(was, AddressSet(first), limit, now);
    ListsSameMultiset(AddressOf, a[|first|..], b[|first|..], rest);
    assert a == first + a[|first|..] && b == first + b[|first|..];
  }

  lemma RoundOfUnique(prev: Book, res: Result, retry: int, limit: int, now: int, a: FqdnStatus, b: FqdnStatus)
    requires RoundOf(prev, res, retry, limit, now, a) && RoundOf(prev, res, retry, limit, now, b)
    ensures StoredAs(a, b)
  {
    if limit > 0 {
      var u := Updated(Before(prev, res.fqdn), res, retry, now);
      RetainedUnique(u.addresses, OldMissing(prev, res.fqdn), FreshOf(res), limit, now, a.addresses, b.addresses);
    }
  }

  /** A round leaves one entry per address, whatever was stored. */
  lemma RoundOfFaithful(prev: Book, res: Result, retry: int, limit: int, now: int, a: FqdnStatus)
    requires RoundOf(prev, res, retry, limit, now, a)
    ensures KeyFaithful(AddressOf, a.addresses)
  {
    if limit > 0 {
      RetentionRefines(prev, res, retry, limit, now, a);
      forall i, j | 0 <= i < |a.addresses| && 0 <= j < |a.addresses|
          && AddressOf(a.addresses[i]) == AddressOf(a.addresses[j])
        ensures a.addresses[i] == a.addresses[j]
      {
        assert a.addresses[i] in a.addresses && a.addresses[j] in a.addresses;
      }
    }
  }

  // ------------------------------------------------------------------ all names

  lemma LeftDistinct(before: seq<FqdnStatus>, results: seq<Result>,
                     retry: int, limit: int, now: int, left: seq<FqdnStatus>)
    requires DistinctResults(results) && RoundAll(Lookup(before), results, retry, limit, now, left)
    ensures forall i :: 0 <= i < |left| ==> left[i].fqdn == results[i].fqdn
    ensures DistinctFqdns(left) && FaithfulAll(left)
  {
    forall i | 0 <= i < |left| ensures left[i].fqdn == results[i].fqdn && KeyFaithful(AddressOf, left[i].addresses) {
      LookupNamed(before);
      RoundOfFaithful(Lookup(before), results[i], retry, limit, now, left[i]);
    }
  }

  /** The status of a result's name after the round. */
  lemma LeftOf(before: seq<FqdnStatus>, results: seq<Result>, retry: int,
               limit: int, now: int, left: seq<FqdnStatus>, r: Result)
    requires DistinctResults(results) && RoundAll(Lookup(before), results, retry, limit, now, left) && r in results
    ensures r.fqdn in Lookup(left) && RoundOf(Lookup(before), r, retry, limit, now, Lookup(left)[r.fqdn])
  {
    LeftDistinct(before, results, retry, limit, now, left);
    LookupFinds(left);
    var i :| 0 <= i < |results| && results[i] == r;
    assert left[i] in left;
  }

  /** The statuses left are those of the results' names. */
  lemma LeftNames(before: seq<FqdnStatus>, results: seq<Result>,
                  retry: int, limit: int, now: int, left: seq<FqdnStatus>)
    requires DistinctResults(results) && RoundAll(Lookup(before), results, retry, limit, now, left)
    ensures Lookup(left).Keys == set r | r in results :: r.fqdn
  {
    LeftDistinct(before, results, retry, limit, now, left);
    LookupFinds(left);
    forall r | r in results ensures r.fqdn in Lookup(left) {
      LeftOf(before, results, retry, limit, now, left, r);
    }
    forall f | f in Lookup(left) ensures exists r :: r in results && r.fqdn == f {
      var i :| 0 <= i < |left| && left[i] == Lookup(left)[f];
      assert results[i] in results;
    }
  }

  lemma LeftUpToOrder(before: seq<FqdnStatus>, results: seq<Result>, results': seq<Result>,
                      retry: int, limit: int, now: int, left: seq<FqdnStatus>, left': seq<FqdnStatus>)
    requires multiset(results) == multiset(results') && DistinctResults(results) && DistinctResults(results')
    requires RoundAll(Lookup(before), results, retry, limit, now, left)
    requires RoundAll(Lookup(before), results', retry, limit, now, left')
    ensures SameUpToOrder(Lookup(left), Lookup(left'))
  {
    LeftNames(before, results, retry, limit, now, left);
    LeftNames(before, results', retry, limit, now, left');
    SameMultisetSameElements(results, results');
    assert forall r :: r in results <==> r in Elements(results);
    assert forall r :: r in results' <==> r in Elements(results');
    forall f | f in Lookup(left) ensures f in Lookup(left') && StoredAs(Lookup(left)[f], Lookup(left')[f]) {
      var r :| r in results && r.fqdn == f;
      LeftOf(before, results, retry, limit, now, left, r);
      LeftOf(before, results', retry, limit, now, left', r);
      RoundOfUnique(Lookup(before), r, retry, limit, now, Lookup(left)[f], Lookup(left')[f]);
    }
  }

  lemma StoredHolds(a: FqdnStatus, b: FqdnStatus)
    requires StoredAs(a, b)
    ensures AddressSet(a.addresses) == AddressSet(b.addresses)
    ensures a.addresses == [] <==> b.addresses == []
  {
    SameMultisetSameElements(a.addresses, b.addresses);
    assert forall e :: e in a.addresses <==> e in Elements(a.addresses);
    assert forall e :: e in b.addresses <==> e in Elements(b.addresses);
  }

  lemma OrderHolds(m: Book, n: Book)
    requires SameUpToOrder(m, n)
    ensures SameHoldings(m, n) && ActiveNames(m) == ActiveNames(n)
  {
    forall f | f in m ensures AddressSet(m[f].addresses) == AddressSet(n[f].addresses)
                              && (m[f].addresses == [] <==> n[f].addresses == [])
    {
      StoredHolds(m[f], n[f]);
    }
  }

  /** Results in another order are still about different names. */
  lemma DistinctPermuted(a: seq<Result>, b: seq<Result>)
    requires multiset(a) == multiset(b) && DistinctResults(a)
    ensures DistinctResults(b)
  {
    SameMultisetSameElements(a, b);
    assert NoDuplicates(a);
    NoDuplicatesCard(a);
    forall i, j | 0 <= i < j < |b| ensures b[i].fqdn != b[j].fqdn {
      assert b[i] in Elements(b) && b[j] in Elements(b);
      var x :| 0 <= x < |a| && a[x] == b[i];
      var y :| 0 <= y < |a| && a[y] == b[j];
      if b[i] == b[j] {
        CountBounded(b, i, j);
      }
    }
  }

  // ------------------------------------------------------------------ confluence

  /** CIDRs with the same keys carry the same end ports in the compiled rules. */
  ghost predicate EndsDetermined(parse: Parser, spec: Spec, left: seq<FqdnStatus>) {
    KeysDetermine(TableOf(Compile(parse, spec, left)))
  }

  /** Agreeing ends in the spec are enough. */
  lemma EndsAgreeDetermine(parse: Parser, spec: Spec, left: seq<FqdnStatus>)
    requires KnownProtocols(spec.egress) && EndsAgree(spec.egress)
    ensures EndsDetermined(parse, spec, left)
  {
    CompiledKeysAgree(parse, spec, left);
    AgreementDetermines(Compile(parse, spec, left));
  }

  /** The reported status with this message in its Resolved condition. */
  function WithMessage(st: PolicyStatus, message: string): PolicyStatus
    requires st.resolved.Condition?
  {
    st.(resolved := st.resolved.(message := message))
  }

  /** The conditions' truth values changed at the same times. */
  ghost predicate SameSince(st: PolicyStatus, st': PolicyStatus) {
    && st.resolved.Condition? && st'.resolved.Condition? && st.resolved.since == st'.resolved.since
    && st.ready.Condition? && st'.ready.Condition? && st.ready.since == st'.ready.since
  }

  /** Rounds that leave the same statuses up to order report the same, but for the aggregate
      message, and emit the same where ends are determined. */
  lemma SameReport(parse: Parser, o: Occasion, results: seq<Result>,
                   e: Effect, o': Occasion, results': seq<Result>, e': Effect)
    requires KnownProtocols(o.src.spec.egress) && o'.src == o.src && o'.applyError == o.applyError
    requires |AllCidrs(results)| == |AllCidrs(results')| && Aggregate(results) == Aggregate(results')
    requires DistinctResults(results) && DistinctResults(results')
    requires Effects(parse, o, results, e) && Effects(parse, o', results', e')
    requires SameUpToOrder(Lookup(e.left), Lookup(e'.left)) && SameSince(e.report, e'.report)
    ensures e'.report == WithMessage(e.report, AggregateMessage(results'))
    ensures EndsDetermined(parse, o.src.spec, e.left) ==> e'.egress == e.egress
  {
    LeftDistinct(o.before.fqdns, results, o.src.spec.retryTimeout, o.src.retention, o.now, e.left);
    LeftDistinct(o'.before.fqdns, results', o.src.spec.retryTimeout, o.src.retention, o'.now, e'.left);
    SameRules(parse, o.src.spec, e.left, e'.left, e.egress, e'.egress);
    SameCounts(e.left, e'.left);
    TidiedUnique(e.left, e'.left, e.report.fqdns, e'.report.fqdns);
    SameStatuses(o, results, e, o', results', e');
  }

  lemma SameCounts(left: seq<FqdnStatus>, left': seq<FqdnStatus>)
    requires DistinctFqdns(left) && DistinctFqdns(left') && SameUpToOrder(Lookup(left), Lookup(left'))
    ensures ActiveCount(left) == ActiveCount(left') && |left| == |left'|
  {
    OrderHolds(Lookup(left), Lookup(left'));
    ActiveMeans(left);
    ActiveMeans(left');
    assert |Lookup(left).Keys| == |Lookup(left)| && |Lookup(left').Keys| == |Lookup(left')|;
  }

  lemma SameStatuses(o: Occasion, results: seq<Result>, e: Effect, o': Occasion, results': seq<Result>, e': Effect)
    requires Reports(o, results, e) && Reports(o', results', e') && o'.src == o.src && o'.applyError == o.applyError
    requires e.report.fqdns == e'.report.fqdns && SameSince(e.report, e'.report)
    requires ActiveCount(e.left) == ActiveCount(e'.left) && |e.left| == |e'.left|
    requires PeerCount(e.egress) == PeerCount(e'.egress) && (e.egress == [] <==> e'.egress == [])
    requires |AllCidrs(results)| == |AllCidrs(results')| && Aggregate(results) == Aggregate(results')
    ensures e'.report == WithMessage(e.report, AggregateMessage(results'))
  {
    SameResolved(o, results, e.report.resolved, o', results', e'.report.resolved);
    SameReady(o, e.egress, e.report.ready, o', e'.egress, e'.report.ready);
  }

  lemma SameResolved(o: Occasion, results: seq<Result>, c: Condition<Reason>,
                     o': Occasion, results': seq<Result>, c': Condition<Reason>)
    requires o'.src == o.src && Aggregate(results) == Aggregate(results')
    requires c == ResolvedOf(o.src, o.before.resolved, results, o.now)
    requires c' == ResolvedOf(o'.src, o'.before.resolved, results', o'.now) && c'.since == c.since
    ensures c' == c.(message := AggregateMessage(results'))
  {
  }

  lemma SameReady(o: Occasion, egress: seq<Rule>, c: Condition<ReadyReason>,
                  o': Occasion, egress': seq<Rule>, c': Condition<ReadyReason>)
    requires o'.src == o.src && o'.applyError == o.applyError && (egress == [] <==> egress' == [])
    requires c == ReadyOf(o.src, o.before.ready, o.applyError, egress, o.now)
    requires c' == ReadyOf(o'.src, o'.before.ready, o'.applyError, egress', o'.now) && c'.since == c.since
    ensures c' == c
  {
  }

  /** The rules emitted for them have equal counts, and are equal if ends are determined. */
  lemma SameRules(parse: Parser, spec: Spec, left: seq<FqdnStatus>,
                  left': seq<FqdnStatus>, egress: seq<Rule>, egress': seq<Rule>)
    requires KnownProtocols(spec.egress) && SameUpToOrder(Lookup(left), Lookup(left'))
    requires Canonical(TableOf(Compile(parse, spec, left)), egress)
    requires Canonical(TableOf(Compile(parse, spec, left')), egress')
    ensures PeerCount(egress) == PeerCount(egress') && (egress == [] <==> egress' == [])
    ensures EndsDetermined(parse, spec, left) ==> egress == egress'
  {
    OrderHolds(Lookup(left), Lookup(left'));
    PolicyDependsOnHoldings(parse, spec, left, left');
    CompiledPortsValid(parse, spec, left);
    SameForms(Compile(parse, spec, left), Compile(parse, spec, left'), egress, egress');
  }

  lemma SameForms(rules: seq<Rule>, rules': seq<Rule>, a: seq<Rule>, b: seq<Rule>)
    requires ValidPorts(PortsIn(rules)) && TableOf(rules) == TableOf(rules') && Cidrs(rules) == Cidrs(rules')
    requires Canonical(TableOf(rules), a) && Canonical(TableOf(rules'), b)
    ensures PeerCount(a) == PeerCount(b) && (a == [] <==> b == [])
    ensures KeysDetermine(TableOf(rules)) ==> a == b
  {
    Partition(rules, a);
    Partition(rules', b);
    EmptyIffNothingCounted(rules, a);
    EmptyIffNothingCounted(rules', b);
    ValidCommaFree(PortsIn(rules));
    TableSound(rules);
    if KeysDetermine(TableOf(rules)) {
      CanonicalUnique(TableOf(rules), a, b);
    }
  }

  lemma SameTimes(o: Occasion, results: seq<Result>, e: Effect, results': seq<Result>, e': Effect)
    requires Reports(o, results, e) && Reports(o, results', e')
    requires Aggregate(results) == Aggregate(results') && (e.egress == [] <==> e'.egress == [])
    ensures SameSince(e.report, e'.report)
  {
  }

  /** Neither the order of the results nor any map iteration shows: the same answers give the
      identical reported status, but for the message where the worst failures quote differently,
      and the identical rules where ends are determined. */
  lemma Confluence(parse: Parser, o: Occasion, results: seq<Result>, results': seq<Result>, e: Effect, e': Effect)
    requires KnownProtocols(o.src.spec.egress)
    requires multiset(results) == multiset(results') && DistinctResults(results)
    requires Effects(parse, o, results, e) && Effects(parse, o, results', e')
    ensures e.report.resolved.Condition? && e'.report == WithMessage(e.report, AggregateMessage(results'))
    ensures OneSample(results) ==> e'.report == e.report
    ensures EndsDetermined(parse, o.src.spec, e.left) ==> e'.egress == e.egress
  {
    DistinctPermuted(results, results');
    LeftUpToOrder(o.before.fqdns, results, results', o.src.spec.retryTimeout, o.src.retention, o.now, e.left, e'.left);
    AggregatePermuted(results, results');
    CidrCountPermuted(results, results');
    SameRules(parse, o.src.spec, e.left, e'.left, e.egress, e'.egress);
    SameTimes(o, results, e, results', e');
    SameReport(parse, o, results, e, o, results', e');
    if OneSample(results) {
      MessagePermuted(results, results');
    }
  }

  /** Every order of these results leads to this report. */
  ghost predicate ReportOrderHidden(parse: Parser, o: Occasion, results: seq<Result>, st: PolicyStatus) {
    forall results', e' :: multiset(results') == multiset(results) && Effects(parse, o, results', e') ==>
        e'.report == st
  }

  /** An effect with the i-th result first. */
  function HoistEffect(results: seq<Result>, e: Effect, i: nat): Effect
    requires i < |results| == |e.left| && e.report.resolved.Condition?
  {
    Effect(Hoist(e.left, i), e.egress, WithMessage(e.report, AggregateMessage(Hoist(results, i))))
  }

  lemma HoistedRound(prev: Book, results: seq<Result>, retry: int, limit: int, now: int, left: seq<FqdnStatus>, i: nat)
    requires RoundAll(prev, results, retry, limit, now, left) && i < |results|
    ensures RoundAll(prev, Hoist(results, i), retry, limit, now, Hoist(left, i))
  {
    forall k | 0 <= k < |results| ensures RoundOf(prev, Hoist(results, i)[k], retry, limit, now, Hoist(left, i)[k]) {
      HoistAt(results, i, k);
      HoistAt(left, i, k);
    }
  }

  lemma HoistedReport(o: Occasion, results: seq<Result>, e: Effect, i: nat)
    requires Reports(o, results, e) && i < |results| == |e.left|
    requires ActiveCount(Hoist(e.left, i)) == ActiveCount(e.left)
    ensures Reports(o, Hoist(results, i), HoistEffect(results, e, i))
  {
    HoistMultiset(results, i);
    HoistMultiset(e.left, i);
    CidrCountPermuted(results, Hoist(results, i));
    AggregatePermuted(results, Hoist(results, i));
    var mid :| Tidy(e.left, mid, e.report.fqdns);
    assert Tidy(Hoist(e.left, i), mid, e.report.fqdns);
  }

  lemma HoistedEffect(parse: Parser, o: Occasion, results: seq<Result>, e: Effect, i: nat)
    requires DistinctResults(results) && Effects(parse, o, results, e) && i < |results|
    ensures Effects(parse, o, Hoist(results, i), HoistEffect(results, e, i))
  {
    var src, before, h := o.src, o.before.fqdns, Hoist(results, i);
    var left := Hoist(e.left, i);
    HoistMultiset(results, i);
    DistinctPermuted(results, h);
    HoistedRound(Lookup(before), results, src.spec.retryTimeout, src.retention, o.now, e.left, i);
    LeftUpToOrder(before, results, h, src.spec.retryTimeout, src.retention, o.now, e.left, left);
    OrderHolds(Lookup(e.left), Lookup(left));
    PolicyDependsOnHoldings(parse, src.spec, e.left, left);
    LeftDistinct(before, results, src.spec.retryTimeout, src.retention, o.now, e.left);
    LeftDistinct(before, h, src.spec.retryTimeout, src.retention, o.now, left);
    SameCounts(e.left, left);
    HoistedReport(o, results, e, i);
  }

  /** The reported status hides the order of the results exactly when the worst failures quote
      the same. */
  lemma ReportOrderIff(parse: Parser, o: Occasion, results: seq<Result>, e: Effect)
    requires KnownProtocols(o.src.spec.egress) && DistinctResults(results) && Effects(parse, o, results, e)
    ensures ReportOrderHidden(parse, o, results, e.report) <==> OneSample(results)
  {
    if OneSample(results) {
      forall results', e' | multiset(results') == multiset(results) && Effects(parse, o, results', e')
        ensures e'.report == e.report
      {
        Confluence(parse, o, results, results', e, e');
      }
    } else {
      var r, s :| r in results && s in results && WorstFailure(results, r) && WorstFailure(results, s)
                  && Sample(r) != Sample(s);
      var i, j := TwoMessages(results, r, s);
      HoistMultiset(results, i);
      HoistMultiset(results, j);
      HoistedEffect(parse, o, results, e, i);
      HoistedEffect(parse, o, results, e, j);
      var a, b := HoistEffect(results, e, i), HoistEffect(results, e, j);
      assert a.report.resolved.message != b.report.resolved.message;
    }
  }

  /** A round that leaves these statuses can emit only one list of rules. */
  ghost predicate EmitsOne(parse: Parser, src: Source, before: seq<FqdnStatus>,
                           results: seq<Result>, now: int, left: seq<FqdnStatus>)
  {
    forall a, b |
      && Computes(parse, src, before, results, now, left, a)
      && Computes(parse, src, before, results, now, left, b) ::
      a == b
  }

  /** The condition is exact: without it two iteration orders emit different rules. */
  lemma ConfluenceIff(parse: Parser, src: Source, before: seq<FqdnStatus>,
                      results: seq<Result>, now: int, left: seq<FqdnStatus>)
    requires KnownProtocols(src.spec.egress) && DistinctResults(results)
    requires RoundAll(Lookup(before), results, src.spec.retryTimeout, src.retention, now, left)
    ensures EmitsOne(parse, src, before, results, now, left) <==> EndsDetermined(parse, src.spec, left)
  {
    EmitsForms(parse, src, before, results, now, left, TableOf(Compile(parse, src.spec, left)));
    CompiledPortsValid(parse, src.spec, left);
    ValidDeterministicIff(Compile(parse, src.spec, left));
  }

  lemma ValidDeterministicIff(rules: seq<Rule>)
    requires ValidPorts(PortsIn(rules))
    ensures OrderHidden(TableOf(rules)) <==> KeysDetermine(TableOf(rules))
  {
    ValidCommaFree(PortsIn(rules));
    DeterministicIff(rules);
  }

  lemma EmitsForms(parse: Parser, src: Source, before: seq<FqdnStatus>,
                   results: seq<Result>, now: int, left: seq<FqdnStatus>, t: Table)
    requires RoundAll(Lookup(before), results, src.spec.retryTimeout, src.retention, now, left)
    requires t == TableOf(Compile(parse, src.spec, left))
    ensures EmitsOne(parse, src, before, results, now, left) <==> OrderHidden(t)
  {
    assert forall a :: Computes(parse, src, before, results, now, left, a) <==> Canonical(t, a);
  }

  // ------------------------------------------------------------------ the order inside one answer

  /** The same answer, its CIDRs possibly in another order. */
  ghost predicate SameAnswer(r: Result, r': Result) {
    r' == r.(cidrs := r'.cidrs) && multiset(r'.cidrs) == multiset(r.cidrs)
  }

  ghost predicate SameAnswers(results: seq<Result>, results': seq<Result>) {
    |results'| == |results| && forall i :: 0 <= i < |results| ==> SameAnswer(results[i], results'[i])
  }

  lemma {:induction false} FreshPermuted(a: seq<string>, b: seq<string>)
    requires multiset(a) == multiset(b)
    ensures multiset(FreshEntries(a)) == multiset(FreshEntries(b))
  {
    SameMultisetSameElements(a, b);
    if a != [] {
      assert a[0] in Elements(a);
      var i :| 0 <= i < |b| && b[i] == a[0];
      WithoutMultiset(a, 0);
      WithoutMultiset(b, i);
      FreshPermuted(Without(a, 0), Without(b, i));
      FreshWithout(a, 0);
      FreshWithout(b, i);
    }
  }

  lemma FreshWithout(cidrs: seq<string>, i: nat)
    requires i < |cidrs|
    ensures multiset(FreshEntries(cidrs)) == multiset(FreshEntries(Without(cidrs, i))) + multiset{Entry(cidrs[i], None)}
  {
    var s := FreshEntries(cidrs);
    assert FreshEntries(Without(cidrs, i)) == Without(s, i) && s[i] == Entry(cidrs[i], None);
    WithoutMultiset(s, i);
    assert s[i] in multiset(s);
  }

  lemma SameFresh(r: Result, r': Result)
    requires SameAnswer(r, r')
    ensures FreshOf(r) == FreshOf(r')
  {
    assert forall c :: c in r.cidrs <==> c in multiset(r.cidrs);
    assert forall c :: c in r'.cidrs <==> c in multiset(r'.cidrs);
  }

  lemma RoundOfAlike(prev: Book, r: Result, r': Result, retry: int, limit: int, now: int, a: FqdnStatus, b: FqdnStatus)
    requires SameAnswer(r, r') && RoundOf(prev, r, retry, limit, now, a) && RoundOf(prev, r', retry, limit, now, b)
    ensures StoredAs(a, b)
  {
    SameFresh(r, r');
    if r.reason != Success {
      assert RoundOf(prev, r, retry, limit, now, b);
      RoundOfUnique(prev, r, retry, limit, now, a, b);
    } else {
      FreshPermuted(r.cidrs, r'.cidrs);
      if limit > 0 {
        SuccessAlike(OldMissing(prev, r.fqdn), r, r', limit, now, a.addresses, b.addresses);
      } else {
        WipedFresh(FreshEntries(r.cidrs), r.cidrs);
        WipedFresh(FreshEntries(r'.cidrs), r'.cidrs);
      }
    }
  }

  lemma SuccessAlike(was: Missing, r: Result, r': Result, limit: int, now: int, a: seq<Entry>, b: seq<Entry>)
    requires r.reason == r'.reason == Success && FreshOf(r) == FreshOf(r')
    requires multiset(FreshEntries(r.cidrs)) == multiset(FreshEntries(r'.cidrs))
    requires Retained(FreshEntries(r.cidrs), was, FreshOf(r), limit, now, a)
    requires Retained(FreshEntries(r'.cidrs), was, FreshOf(r'), limit, now, b)
    ensures multiset(a) == multiset(b)
  {
    var first, second := FreshEntries(r.cidrs), FreshEntries(r'.cidrs);
    FreshSet(r.cidrs);
    FreshSet(r'.cidrs);
    FreshSplit(first, was, FreshOf(r), limit, now, a);
    FreshSplit(second, was, FreshOf(r), limit, now, b);
    ListsSameMultiset(AddressOf, a[|first|..], b[|second|..], Leftover(was, FreshOf(r), limit, now));
    assert a == first + a[|first|..] && b == second + b[|second|..];
  }

  lemma LeftAlike(before: seq<FqdnStatus>, results: seq<Result>, results': seq<Result>,
                  retry: int, limit: int, now: int, left: seq<FqdnStatus>, left': seq<FqdnStatus>)
    requires SameAnswers(results, results') && DistinctResults(results)
    requires RoundAll(Lookup(before), results, retry, limit, now, left)
    requires RoundAll(Lookup(before), results', retry, limit, now, left')
    ensures DistinctResults(results') && SameUpToOrder(Lookup(left), Lookup(left'))
  {
    assert forall i :: 0 <= i < |results| ==> SameAnswer(results[i], results'[i]);
    LeftDistinct(before, results, retry, limit, now, left);
    LeftDistinct(before, results', retry, limit, now, left');
    forall i | 0 <= i < |left| ensures StoredAs(left[i], left'[i]) {
      RoundOfAlike(Lookup(before), results[i], results'[i], retry, limit, now, left[i], left'[i]);
    }
    LookupAlike(left, left');
  }

  lemma {:induction false} LookupAlike(left: seq<FqdnStatus>, left': seq<FqdnStatus>)
    requires |left'| == |left| && forall i :: 0 <= i < |left| ==> StoredAs(left[i], left'[i])
    ensures SameUpToOrder(Lookup(left), Lookup(left'))
  {
    if left != [] {
      LookupAlike(left[..|left| - 1], left'[..|left| - 1]);
    }
  }

  lemma {:induction false} ReportedAlike(results: seq<Result>, results': seq<Result>)
    requires SameAnswers(results, results')
    ensures |AllCidrs(results)| == |AllCidrs(results')| && SuccessCount(results) == SuccessCount(results')
    ensures Worst(results) == Worst(results')
  {
    if results != [] {
      var n := |results| - 1;
      assert SameAnswer(results[n], results'[n]);
      assert |multiset(results[n].cidrs)| == |results[n].cidrs| && |multiset(results'[n].cidrs)| == |results'[n].cidrs|;
      ReportedAlike(results[..n], results'[..n]);
      assert Worst(results[..n]) != -1 ==> SameAnswer(results[Worst(results[..n])], results'[Worst(results[..n])]);
    }
  }

  lemma QuotedAlike(results: seq<Result>, results': seq<Result>)
    requires SameAnswers(results, results') && Worst(results) == Worst(results') != -1
    ensures Sample(results[Worst(results)]) == Sample(results'[Worst(results')])
  {
    assert SameAnswer(results[Worst(results)], results'[Worst(results)]);
  }

  lemma AggregateAlike(results: seq<Result>, results': seq<Result>)
    requires |results| == |results'| && SuccessCount(results) == SuccessCount(results')
    ensures Aggregate(results) == Aggregate(results')
  {
    SuccessBounds(results);
    SuccessBounds(results');
  }

  lemma MessageAlike(results: seq<Result>, results': seq<Result>)
    requires SameAnswers(results, results')
    ensures AggregateMessage(results) == AggregateMessage(results') && Aggregate(results) == Aggregate(results')
  {
    ReportedAlike(results, results');
    AggregateAlike(results, results');
    if Worst(results) != -1 {
      QuotedAlike(results, results');
    }
  }

  /** Nor does the order of the CIDRs inside the answers show: in the reported status, in the
      grants behind the rules, or, where ends are determined, in the rules. */
  lemma AnswerOrderHidden(parse: Parser, o: Occasion, results: seq<Result>,
                          results': seq<Result>, e: Effect, e': Effect)
    requires KnownProtocols(o.src.spec.egress)
    requires SameAnswers(results, results') && DistinctResults(results)
    requires Effects(parse, o, results, e) && Effects(parse, o, results', e')
    ensures e'.report == e.report
    ensures TableOf(Compile(parse, o.src.spec, e'.left)) == TableOf(Compile(parse, o.src.spec, e.left))
    ensures EndsDetermined(parse, o.src.spec, e.left) ==> e'.egress == e.egress
  {
    LeftAlike(o.before.fqdns, results, results', o.src.spec.retryTimeout, o.src.retention, o.now, e.left, e'.left);
    ReportedAlike(results, results');
    MessageAlike(results, results');
    SameRules(parse, o.src.spec, e.left, e'.left, e.egress, e'.egress);
    OrderHolds(Lookup(e.left), Lookup(e'.left));
    PolicyDependsOnHoldings(parse, o.src.spec, e'.left, e.left);
    SameTimes(o, results, e, results', e');
    SameReport(parse, o, results, e, o, results', e');
  }

  // ------------------------------------------------------------------ bookkeeping

  lemma NamesKept(left: seq<FqdnStatus>, fqdns: seq<FqdnStatus>)
    requires DistinctFqdns(left) && Tidied(left, fqdns)
    ensures DistinctFqdns(fqdns) && |fqdns| == |left|
    ensures ActiveCount(fqdns) == ActiveCount(left)
    ensures (set s | s in fqdns :: s.fqdn) == Lookup(left).Keys
  {
    TidiedKeeps(left, fqdns);
    OrderHolds(Lookup(left), Lookup(fqdns));
    ActiveMeans(left);
    ActiveMeans(fqdns);
    LookupFinds(fqdns);
  }

  predicate AllSucceeded(results: seq<Result>) {
    forall r :: r in results ==> r.reason == Success
  }

  lemma AggregateMeans(results: seq<Result>)
    ensures Aggregate(results) == Success <==> AllSucceeded(results)
    ensures Aggregate(results) == Failure <==> results != [] && forall r :: r in results ==> r.reason != Success
    ensures Aggregate(results) == PartialSuccess
            <==> !AllSucceeded(results) && exists r :: r in results && r.reason == Success
  {
    assert results != [] ==> results[0] in results;
  }

  /** The Resolved condition holds when every lookup succeeded and tells none from some; it dates
      from when its truth value last changed. */
  lemma ResolvedMeans(o: Occasion, results: seq<Result>, e: Effect)
    requires Reports(o, results, e)
    ensures var c, was := e.report.resolved, o.before.resolved;
            && c.Condition? && c.generation == o.src.generation
            && (c.holds <==> AllSucceeded(results)) && (c.reason == Success <==> AllSucceeded(results))
            && (c.reason == Failure <==> results != [] && forall r :: r in results ==> r.reason != Success)
            && (c.reason == PartialSuccess
                <==> !AllSucceeded(results) && exists r :: r in results && r.reason == Success)
            && c.since == if was.Condition? && was.holds == AllSucceeded(results) then was.since else o.now
  {
    AggregateMeans(results);
  }

  /** The Ready condition holds when the object was applied, and tells an empty policy. */
  lemma ReadyMeans(o: Occasion, results: seq<Result>, e: Effect)
    requires Reports(o, results, e)
    ensures var c, was := e.report.ready, o.before.ready;
            && c.Condition? && c.generation == o.src.generation == e.report.observed
            && (c.holds <==> o.applyError.None?)
            && (c.reason == ReadyFailure <==> o.applyError.Some?)
            && (c.reason == EmptyRules <==> o.applyError.None? && e.egress == [])
            && (c.reason == ReadySuccess ==> c.message == "Network policy was successfully applied.")
            && (o.applyError.Some? ==> c.message == "Network policy failed to apply: " + o.applyError.value + ".")
            && c.since == if was.Condition? && was.holds == o.applyError.None? then was.since else o.now
    ensures var message :=
              "Network policy has no FQDNs resolved to valid IP addresses, the default egress deny-all is in effect.";
            e.report.ready.reason == EmptyRules ==> e.report.ready.message == message
  {
  }

  /** The reported total counts every CIDR of every result. */
  lemma TotalMeans(o: Occasion, results: seq<Result>, e: Effect)
    requires Reports(o, results, e)
    ensures e.report.total == Sum((r: Result) => |r.cidrs|, results)
  {
    CidrCount(results);
  }

  /** The reported status: one entry per resolved name; every name is active or failing, and
      active ones are those holding an address; the applied count is the number of different
      CIDRs of the compiled rules; and on a successful apply the outcome is "empty rules"
      exactly when it is zero. */
  lemma StatusAccounts(parse: Parser, o: Occasion, results: seq<Result>, e: Effect)
    requires DistinctResults(results) && Effects(parse, o, results, e)
    ensures var st := e.report;
            && DistinctFqdns(st.fqdns) && (set s | s in st.fqdns :: s.fqdn) == (set r | r in results :: r.fqdn)
            && st.active + st.failing == |results| == |st.fqdns|
            && st.active == |ActiveNames(Lookup(st.fqdns))|
            && st.applied == |Cidrs(Compile(parse, o.src.spec, e.left))|
            && st.ready.Condition?
            && (o.applyError.None? ==> (st.ready.reason == EmptyRules <==> st.applied == 0))
  {
    LeftDistinct(o.before.fqdns, results, o.src.spec.retryTimeout, o.src.retention, o.now, e.left);
    LeftNames(o.before.fqdns, results, o.src.spec.retryTimeout, o.src.retention, o.now, e.left);
    NamesKept(e.left, e.report.fqdns);
    ActiveMeans(e.report.fqdns);
    Partition(Compile(parse, o.src.spec, e.left), e.egress);
    EmptyIffNothingCounted(Compile(parse, o.src.spec, e.left), e.egress);
  }

  // ------------------------------------------------------------------ quiescence

  /** Between two rounds with the same answer no retry deadline and no retention limit passes. */
  ghost predicate Undisturbed(b: FqdnStatus, s: FqdnStatus, reason: Reason,
                              retry: int, limit: int, now: int, later: int)
  {
    && now <= later
    && (reason.Transient() && s.failingSince.Some? && later > s.failingSince.value + retry ==>
          b.failingSince.Some? && now > s.failingSince.value + retry)
    && forall e :: e in s.addresses && e.missingSince.Some? ==> later - e.missingSince.value <= limit
  }

  lemma {:induction false} AllKept(entries: seq<Entry>, was: Missing, answer: set<string>, limit: int, now: int)
    requires forall e :: e in entries ==> Keep(was, answer, limit, now, e.address) == Some(e)
    ensures FirstPass(entries, was, answer, limit, now) == entries
  {
    if entries != [] {
      var init, last := entries[..|entries| - 1], entries[|entries| - 1];
      assert entries == init + [last];
      AllKept(init, was, answer, limit, now);
    }
  }

  /** What the store knows of the entries a round left. */
  lemma StoredSince(s: FqdnStatus, stored: FqdnStatus)
    requires StoredAs(s, stored) && KeyFaithful(AddressOf, s.addresses)
    ensures forall a :: a in MissingOf(stored.addresses) <==> a in AddressSet(s.addresses)
    ensures forall e :: e in s.addresses ==>
        e.address in MissingOf(stored.addresses) && MissingOf(stored.addresses)[e.address] == e.missingSince
  {
    StoredHolds(s, stored);
    FaithfulAny(s.addresses, stored.addresses);
    SameMultisetSameElements(s.addresses, stored.addresses);
    assert forall e :: e in s.addresses <==> e in Elements(s.addresses);
    assert forall e :: e in stored.addresses <==> e in Elements(stored.addresses);
    MissingKeys(stored.addresses);
    StoredMissing(stored.addresses, "");
  }

  lemma EachKept(s: FqdnStatus, stored: FqdnStatus, limit: int, later: int)
    requires StoredAs(s, stored) && KeyFaithful(AddressOf, s.addresses)
    requires forall e :: e in s.addresses ==> e.missingSince.Some? && later - e.missingSince.value <= limit
    ensures forall e :: e in stored.addresses ==>
              Keep(MissingOf(stored.addresses), {}, limit, later, e.address) == Some(e)
  {
    StoredSince(s, stored);
    SameMultisetSameElements(s.addresses, stored.addresses);
    forall e | e in stored.addresses
      ensures Keep(MissingOf(stored.addresses), {}, limit, later, e.address) == Some(e)
    {
      assert e in Elements(stored.addresses);
      assert e in s.addresses;
    }
  }

  lemma NothingLeftOver(entries: seq<Entry>, limit: int, now: int)
    ensures Leftover(MissingOf(entries), AddressSet(entries), limit, now) == map[]
  {
    MissingKeys(entries);
  }

  /** A list the first loop keeps as it is comes out of the pass as it is. */
  lemma KeptWhole(entries: seq<Entry>, limit: int, now: int, out: seq<Entry>)
    requires FirstPass(entries, MissingOf(entries), {}, limit, now) == entries
    requires Retained(entries, MissingOf(entries), {}, limit, now, out)
    ensures out == entries
  {
    NothingLeftOver(entries, limit, now);
    NothingListed(AddressOf, out[|entries|..]);
    assert out == entries + out[|entries|..];
  }

  /** A failing lookup that keeps its list under retention keeps it again. */
  lemma KeptAgain(s: FqdnStatus, stored: FqdnStatus, limit: int, later: int, out: seq<Entry>)
    requires StoredAs(s, stored) && KeyFaithful(AddressOf, s.addresses)
    requires forall e :: e in s.addresses ==> e.missingSince.Some? && later - e.missingSince.value <= limit
    requires Retained(stored.addresses, MissingOf(stored.addresses), {}, limit, later, out)
    ensures multiset(out) == multiset(s.addresses)
  {
    EachKept(s, stored, limit, later);
    AllKept(stored.addresses, MissingOf(stored.addresses), {}, limit, later);
    KeptWhole(stored.addresses, limit, later, out);
  }

  lemma NothingListed<T>(key: T -> string, s: seq<T>)
    requires Lists(key, s, {}, map[])
    ensures s == []
  {
    NoElements(KeysOf(key, s));
  }

  lemma NoElements<T>(s: seq<T>)
    ensures Elements(s) == {} ==> s == []
  {
    if s != [] {
      assert s[0] in Elements(s);
    }
  }

  lemma FreshSplit(first: seq<Entry>, was: Missing, answer: set<string>, limit: int, now: int, out: seq<Entry>)
    requires forall e :: e in first ==> e.address in answer && e.missingSince.None?
    requires AddressSet(first) == answer
    requires Retained(first, was, answer, limit, now, out)
    ensures first <= out
    ensures Lists(AddressOf, out[|first|..], Leftover(was, answer, limit, now).Keys, Leftover(was, answer, limit, now))
  {
    AllKept(first, was, answer, limit, now);
  }

  /** A first pass over fresh entries, or over none, followed by the stored rest. */
  lemma RestAgain(first: seq<Entry>, was: Missing, answer: set<string>, limit: int,
                  now: int, s: FqdnStatus, stored: FqdnStatus, later: int, out: seq<Entry>)
    requires forall e :: e in first ==> e.address in answer && e.missingSince.None?
    requires AddressSet(first) == answer
    requires StoredAs(s, stored) && KeyFaithful(AddressOf, s.addresses)
    requires Retained(first, was, answer, limit, now, s.addresses)
    requires Retained(first, MissingOf(stored.addresses), answer, limit, later, out)
    requires forall e :: e in s.addresses && e.missingSince.Some? ==> later - e.missingSince.value <= limit
    ensures multiset(out) == multiset(s.addresses)
  {
    var was2 := MissingOf(stored.addresses);
    FreshSplit(first, was, answer, limit, now, s.addresses);
    FreshSplit(first, was2, answer, limit, later, out);
    SameRest(first, was, answer, limit, now, s, stored, later);
    ListsSameMultiset(AddressOf, s.addresses[|first|..], out[|first|..], Leftover(was, answer, limit, now));
    assert s.addresses == first + s.addresses[|first|..] && out == first + out[|first|..];
  }

  lemma SameRest(first: seq<Entry>, was: Missing, answer: set<string>, limit: int,
                 now: int, s: FqdnStatus, stored: FqdnStatus, later: int)
    requires AddressSet(first) == answer
    requires StoredAs(s, stored) && KeyFaithful(AddressOf, s.addresses)
    requires first <= s.addresses
    requires Lists(AddressOf, s.addresses[|first|..], Leftover(was, answer, limit, now).Keys,
                   Leftover(was, answer, limit, now))
    requires forall e :: e in s.addresses && e.missingSince.Some? ==> later - e.missingSince.value <= limit
    ensures Leftover(MissingOf(stored.addresses), answer, limit, later) == Leftover(was, answer, limit, now)
  {
    var rest := Leftover(was, answer, limit, now);
    StoredSince(s, stored);
    ListsIs(s.addresses[|first|..], rest);
    RestIn(first, s.addresses, rest);
    RestFrom(first, s.addresses, answer, rest);
    SameLeftover(MissingOf(stored.addresses), answer, limit, later, rest, s.addresses);
  }

  lemma RestIn(first: seq<Entry>, all: seq<Entry>, rest: map<string, Entry>)
    requires first <= all && forall e :: e in all[|first|..] <==> e in rest.Values
    ensures forall a :: a in rest ==> rest[a] in all
  {
    forall a | a in rest ensures rest[a] in all {
      assert rest[a] in rest.Values;
      assert rest[a] in all[|first|..];
    }
  }

  lemma RestFrom(first: seq<Entry>, all: seq<Entry>, answer: set<string>, rest: map<string, Entry>)
    requires first <= all && forall e :: e in all[|first|..] <==> e in rest.Values
    requires AddressSet(first) == answer && forall a :: a in rest ==> rest[a].address == a
    ensures forall a :: a in AddressSet(all) && a !in answer ==> a in rest
  {
    assert all == first + all[|first|..];
    forall a | a in AddressSet(all) && a !in answer ensures a in rest {
      var e :| e in all && e.address == a;
      assert e in rest.Values;
    }
  }

  /** Stored entries still within the limit are left over again. */
  lemma SameLeftover(was: Missing, answer: set<string>, limit: int,
                     later: int, rest: map<string, Entry>, all: seq<Entry>)
    requires forall a :: a in rest ==>
        rest[a] in all && rest[a].address == a && a !in answer && rest[a].missingSince.Some?
    requires forall a :: a in AddressSet(all) && a !in answer ==> a in rest
    requires forall a :: a in was <==> a in AddressSet(all)
    requires forall e :: e in all ==> e.address in was && was[e.address] == e.missingSince
    requires forall e :: e in all && e.missingSince.Some? ==> later - e.missingSince.value <= limit
    ensures Leftover(was, answer, limit, later) == rest
  {
    forall a | a in rest ensures a in Leftover(was, answer, limit, later)
        && Leftover(was, answer, limit, later)[a] == rest[a] {
      assert Since(was, a, later) == rest[a].missingSince.value;
    }
  }

  lemma WipedNone(entries: seq<Entry>, stored: seq<Entry>)
    requires multiset(stored) == multiset(Wiped(entries))
    ensures Wiped(stored) == stored
  {
    SameMultisetSameElements(stored, Wiped(entries));
    forall i | 0 <= i < |stored| ensures stored[i].missingSince.None? {
      assert stored[i] in Elements(stored);
      assert stored[i] in Wiped(entries);
    }
  }

  /** One name, the same answer again. `s` is what the first round left, `t` the second. */
  ghost predicate Again(prev: Book, next: Book, res: Result, retry: int, limit: int,
                        now: int, later: int, s: FqdnStatus, t: FqdnStatus)
  {
    && RoundOf(prev, res, retry, limit, now, s)
    && res.fqdn in next && StoredAs(s, next[res.fqdn])
    && RoundOf(next, res, retry, limit, later, t)
    && Undisturbed(Before(prev, res.fqdn), s, res.reason, retry, limit, now, later)
  }

  /** Everything but the list is left as it was. */
  lemma AgainFields(prev: Book, next: Book, res: Result, retry: int, limit: int,
                    now: int, later: int, s: FqdnStatus, t: FqdnStatus)
    requires Again(prev, next, res, retry, limit, now, later, s, t)
    ensures t == s.(addresses := t.addresses)
  {
  }

  lemma AgainOff(prev: Book, next: Book, res: Result, retry: int, limit: int,
                 now: int, later: int, s: FqdnStatus, t: FqdnStatus)
    requires Again(prev, next, res, retry, limit, now, later, s, t) && limit <= 0
    ensures multiset(t.addresses) == multiset(s.addresses)
  {
    var stored := next[res.fqdn];
    var u := Updated(Before(prev, res.fqdn), res, retry, now);
    StoredHolds(s, stored);
    WipedNone(u.addresses, stored.addresses);
    if res.reason != Success && s.addresses != [] {
      assert u.addresses != [];
    }
  }

  lemma AgainOn(prev: Book, next: Book, res: Result, retry: int, limit: int,
                now: int, later: int, s: FqdnStatus, t: FqdnStatus)
    requires Again(prev, next, res, retry, limit, now, later, s, t) && limit > 0
    ensures multiset(t.addresses) == multiset(s.addresses)
  {
    var stored, b := next[res.fqdn], Before(prev, res.fqdn);
    var was, was2 := OldMissing(prev, res.fqdn), OldMissing(next, res.fqdn);
    var u, u2 := Updated(b, res, retry, now), Updated(stored, res, retry, later);
    RoundOfFaithful(prev, res, retry, limit, now, s);
    StoredHolds(s, stored);
    if res.reason == Success {
      FreshSet(res.cidrs);
      RestAgain(u.addresses, was, FreshOf(res), limit, now, s, stored, later, t.addresses);
    } else if u.addresses == [] {
      EmptiedAgain(prev, next, res, retry, limit, now, later, s, t);
      RestAgain([], was, {}, limit, now, s, stored, later, t.addresses);
    } else {
      RetentionRefines(prev, res, retry, limit, now, s);
      assert u2.addresses == stored.addresses;
      KeptAgain(s, stored, limit, later, t.addresses);
    }
  }

  /** A list emptied by the update is emptied again. */
  lemma EmptiedAgain(prev: Book, next: Book, res: Result, retry: int, limit: int,
                     now: int, later: int, s: FqdnStatus, t: FqdnStatus)
    requires Again(prev, next, res, retry, limit, now, later, s, t) && limit > 0 && res.reason != Success
    requires Updated(Before(prev, res.fqdn), res, retry, now).addresses == []
    ensures Updated(next[res.fqdn], res, retry, later).addresses == []
  {
    var b := Before(prev, res.fqdn);
    if b.addresses == [] {
      RetentionRefines(prev, res, retry, limit, now, s);
      StoredHolds(s, next[res.fqdn]);
      assert Elements(s.addresses) == {};
      NoElements(s.addresses);
    }
  }

  lemma AgainSame(prev: Book, next: Book, res: Result, retry: int, limit: int,
                  now: int, later: int, s: FqdnStatus, t: FqdnStatus)
    requires Again(prev, next, res, retry, limit, now, later, s, t)
    ensures StoredAs(s, t)
  {
    AgainFields(prev, next, res, retry, limit, now, later, s, t);
    if limit > 0 {
      AgainOn(prev, next, res, retry, limit, now, later, s, t);
    } else {
      AgainOff(prev, next, res, retry, limit, now, later, s, t);
    }
  }

  /** No deadline passes for any name between a round and the next. */
  ghost predicate Calm(src: Source, before: seq<FqdnStatus>, left: seq<FqdnStatus>,
                       results: seq<Result>, now: int, later: int)
  {
    forall r :: r in results && r.fqdn in Lookup(left) ==>
      Undisturbed(Before(Lookup(before), r.fqdn), Lookup(left)[r.fqdn], r.reason,
                  src.spec.retryTimeout, src.retention, now, later)
  }

  lemma AgainFor(src: Source, before: seq<FqdnStatus>, results: seq<Result>, now: int,
                 left: seq<FqdnStatus>, stored: seq<FqdnStatus>, later: int, r: Result, t: FqdnStatus)
    requires DistinctResults(results) && r in results
    requires RoundAll(Lookup(before), results, src.spec.retryTimeout, src.retention, now, left)
    requires SameUpToOrder(Lookup(left), Lookup(stored)) && Calm(src, before, left, results, now, later)
    requires RoundOf(Lookup(stored), r, src.spec.retryTimeout, src.retention, later, t)
    ensures r.fqdn in Lookup(left) && StoredAs(Lookup(left)[r.fqdn], t)
  {
    LeftOf(before, results, src.spec.retryTimeout, src.retention, now, left, r);
    AgainSame(Lookup(before), Lookup(stored), r, src.spec.retryTimeout, src.retention,
              now, later, Lookup(left)[r.fqdn], t);
  }

  lemma LeftAgain(src: Source, before: seq<FqdnStatus>, results: seq<Result>, now: int, left: seq<FqdnStatus>,
                  stored: seq<FqdnStatus>, results': seq<Result>, later: int, left': seq<FqdnStatus>)
    requires DistinctResults(results) && DistinctResults(results') && multiset(results) == multiset(results')
    requires RoundAll(Lookup(before), results, src.spec.retryTimeout, src.retention, now, left)
    requires SameUpToOrder(Lookup(left), Lookup(stored))
    requires RoundAll(Lookup(stored), results', src.spec.retryTimeout, src.retention, later, left')
    requires Calm(src, before, left, results, now, later)
    ensures SameUpToOrder(Lookup(left), Lookup(left'))
  {
    var m, m' := Lookup(left), Lookup(left');
    assert m.Keys == m'.Keys by {
      LeftNames(before, results, src.spec.retryTimeout, src.retention, now, left);
      LeftNames(stored, results', src.spec.retryTimeout, src.retention, later, left');
      NamesPermuted(results, results');
    }
    forall f | f in m ensures f in m' && StoredAs(m[f], m'[f]) {
      LeftAgainAt(src, before, results, now, left, stored, results', later, left', f);
    }
  }

  lemma NamesPermuted(a: seq<Result>, b: seq<Result>)
    requires multiset(a) == multiset(b)
    ensures (set r | r in a :: r.fqdn) == (set r | r in b :: r.fqdn)
  {
    SameElements(a, b);
  }

  lemma SameElements(a: seq<Result>, b: seq<Result>)
    requires multiset(a) == multiset(b)
    ensures forall r :: r in a <==> r in b
  {
    assert forall r :: r in a <==> r in multiset(a);
    assert forall r :: r in b <==> r in multiset(b);
  }

  lemma LeftAgainAt(src: Source, before: seq<FqdnStatus>, results: seq<Result>, now: int, left: seq<FqdnStatus>,
                    stored: seq<FqdnStatus>, results': seq<Result>, later: int, left': seq<FqdnStatus>, f: string)
    requires DistinctResults(results) && DistinctResults(results') && multiset(results) == multiset(results')
    requires RoundAll(Lookup(before), results, src.spec.retryTimeout, src.retention, now, left)
    requires SameUpToOrder(Lookup(left), Lookup(stored)) && Calm(src, before, left, results, now, later)
    requires RoundAll(Lookup(stored), results', src.spec.retryTimeout, src.retention, later, left')
    requires f in Lookup(left)
    ensures f in Lookup(left') && StoredAs(Lookup(left)[f], Lookup(left')[f])
  {
    LeftNames(before, results, src.spec.retryTimeout, src.retention, now, left);
    SameElements(results, results');
    var r :| r in results && r.fqdn == f;
    LeftOf(stored, results', src.spec.retryTimeout, src.retention, later, left', r);
    AgainFor(src, before, results, now, left, stored, later, r, Lookup(left')[f]);
  }

  /** A round repeated with the same answers while no deadline passes: in the same order, or in
      any order where the worst failures quote the same, it reports the identical status, so
      nothing is written; in any other order only the message differs. The rules are identical
      where ends are determined, and then the live object does not change either (see
      `Reconcile.Round`). */
  lemma Quiescence(parse: Parser, o: Occasion, results: seq<Result>,
                   e: Effect, later: int, results': seq<Result>, e': Effect)
    requires KnownProtocols(o.src.spec.egress)
    requires multiset(results) == multiset(results') && DistinctResults(results)
    requires Effects(parse, o, results, e)
    requires Effects(parse, Occasion(o.src, e.report, later, o.applyError), results', e')
    requires Calm(o.src, o.before.fqdns, e.left, results, o.now, later)
    ensures e.report.resolved.Condition? && e'.report == WithMessage(e.report, AggregateMessage(results'))
    ensures results' == results || OneSample(results) ==> e'.report == e.report && Steady(e.report, e'.report)
    ensures EndsDetermined(parse, o.src.spec, e.left) ==> e'.egress == e.egress
  {
    var o' := Occasion(o.src, e.report, later, o.applyError);
    RepeatedLeft(o, results, e, later, results', e');
    AggregatePermuted(results, results');
    CidrCountPermuted(results, results');
    SameRules(parse, o.src.spec, e.left, e'.left, e.egress, e'.egress);
    RepeatedTimes(o, results, e, o', results', e');
    SameReport(parse, o, results, e, o', results', e');
    if OneSample(results) {
      MessagePermuted(results, results');
    }
  }

  /** The statuses left are those of the first round, up to order; those reported are settled. */
  lemma RepeatedLeft(o: Occasion, results: seq<Result>, e: Effect, later: int, results': seq<Result>, e': Effect)
    requires multiset(results) == multiset(results') && DistinctResults(results)
    requires RoundAll(Lookup(o.before.fqdns), results, o.src.spec.retryTimeout, o.src.retention, o.now, e.left)
    requires RoundAll(Lookup(e.report.fqdns), results', o.src.spec.retryTimeout, o.src.retention, later, e'.left)
    requires Tidied(e.left, e.report.fqdns) && Calm(o.src, o.before.fqdns, e.left, results, o.now, later)
    ensures DistinctResults(results') && SameUpToOrder(Lookup(e.left), Lookup(e'.left))
    ensures DistinctFqdns(e.report.fqdns) && FaithfulAll(e.report.fqdns)
    ensures Tidied(e.report.fqdns, e.report.fqdns)
  {
    DistinctPermuted(results, results');
    LeftDistinct(o.before.fqdns, results, o.src.spec.retryTimeout, o.src.retention, o.now, e.left);
    TidiedKeeps(e.left, e.report.fqdns);
    TidiedFaithful(e.left, e.report.fqdns);
    LeftAgain(o.src, o.before.fqdns, results, o.now, e.left, e.report.fqdns, results', later, e'.left);
  }

  /** The conditions keep their times. */
  lemma RepeatedTimes(o: Occasion, results: seq<Result>, e: Effect, o': Occasion, results': seq<Result>, e': Effect)
    requires Reports(o, results, e) && Reports(o', results', e') && o'.before == e.report
    requires o'.applyError == o.applyError && Aggregate(results) == Aggregate(results')
    requires e.egress == [] <==> e'.egress == []
    ensures SameSince(e.report, e'.report)
  {
  }


  lemma TidiedFaithful(left: seq<FqdnStatus>, fqdns: seq<FqdnStatus>)
    requires DistinctFqdns(left) && FaithfulAll(left) && Tidied(left, fqdns)
    ensures FaithfulAll(fqdns)
  {
    TidiedKeeps(left, fqdns);
    LookupFinds(left);
    LookupFinds(fqdns);
    forall x | x in fqdns ensures KeyFaithful(AddressOf, x.addresses) {
      FaithfulAny(Lookup(left)[x.fqdn].addresses, x.addresses);
    }
  }

  // ------------------------------------------------------------------ what is stored

  /** The store holds what the round left: written, or equal to it already. */
  ghost predicate Landed(left: seq<FqdnStatus>, stored: seq<FqdnStatus>) {
    SameUpToOrder(Lookup(left), Lookup(stored))
  }

  /** The two ways the status update ends when no write is lost. */
  lemma RoundLands(left: seq<FqdnStatus>, st: PolicyStatus, was: PolicyStatus, stored: PolicyStatus)
    requires DistinctFqdns(left) && DistinctFqdns(was.fqdns) && Tidied(left, st.fqdns)
    requires stored == st || (stored == was && SameStatus(was, st))
    ensures Landed(left, stored.fqdns) && DistinctFqdns(stored.fqdns)
  {
    TidiedKeeps(left, st.fqdns);
    if stored != st {
      TidiedKeeps(was.fqdns, st.fqdns);
    }
  }
}
