/** The applied policy as a closed function of the lookup history: compiler, normaliser,
    ledgers and stores together. */
module Memory {
  import opened Policy
  import opened Status
  import opened SpecEnds
  import opened Compiler
  import opened EndToEnd
  import opened Ledger
  import opened History
  import opened Attempts
  import opened Reconcile
  import opened RoundLaws
  import opened Provenance

  /** The result for a name. */
  function Find(results: seq<Result>, fqdn: string): (r: Option<Result>)
    ensures r.Some? ==> r.value in results && r.value.fqdn == fqdn
    ensures r.None? ==> forall x :: x in results ==> x.fqdn != fqdn
  {
    if results == [] then None
    else if results[0].fqdn == fqdn then Some(results[0])
    else Find(results[1..], fqdn)
  }

  /** A round of the operator, seen from a name. */
  function AttemptOf(i: Input, o: Outcome, fqdn: string): Attempt {
    var r := Find(i.results, fqdn);
    var round := if r.Some? then Some(Round(i.now, r.value, i.src.spec.retryTimeout, i.src.retention)) else None;
    Attempt(round, i.read, o.landed)
  }

  function AttemptsOf(ins: seq<Input>, outs: seq<Outcome>, fqdn: string): (attempts: seq<Attempt>)
    requires |outs| == |ins|
    ensures |attempts| == |ins|
  {
    seq(|ins|, k requires 0 <= k < |ins| => AttemptOf(ins[k], outs[k], fqdn))
  }

  function LeftOfName(outs: seq<Outcome>, fqdn: string): (left: seq<FqdnStatus>)
    ensures |left| == |outs|
  {
    seq(|outs|, k requires 0 <= k < |outs| => Before(Lookup(outs[k].left), fqdn))
  }

  function StoresOf(stores: seq<Store>): (s: seq<Book>)
    ensures |s| == |stores|
  {
    seq(|stores|, k requires 0 <= k < |stores| => Lookup(stores[k].fqdns))
  }

  lemma NameStep(parse: Parser, i: Input, o: Outcome, read: seq<FqdnStatus>, s: Store, t: Store, fqdn: string)
    requires StoreStep(parse, i, o, read, s, t)
    ensures AttemptOf(i, o, fqdn).round.Some? ==> fqdn in Lookup(o.left)
    ensures AttemptStep(fqdn, AttemptOf(i, o, fqdn), Lookup(read), Before(Lookup(o.left), fqdn),
                        Lookup(s.fqdns), Lookup(t.fqdns))
  {
    var r := Find(i.results, fqdn);
    LeftNames(read, i.results, i.src.spec.retryTimeout, i.src.retention, i.now, o.left);
    if r.Some? {
      LeftOf(read, i.results, i.src.spec.retryTimeout, i.src.retention, i.now, o.left, r.value);
    }
  }

  lemma NameAttempt(parse: Parser, ins: seq<Input>, outs: seq<Outcome>, stores: seq<Store>, fqdn: string, k: nat)
    requires SystemRun(parse, ins, outs, stores) && k < |ins|
    ensures AttemptAt(fqdn, AttemptsOf(ins, outs, fqdn), LeftOfName(outs, fqdn), StoresOf(stores), k)
  {
    var attempts, left, books := AttemptsOf(ins, outs, fqdn), LeftOfName(outs, fqdn), StoresOf(stores);
    assert StepAt(parse, ins, outs, stores, k);
    var read := ins[k].read;
    NameStep(parse, ins[k], outs[k], stores[read].fqdns, stores[k], stores[k + 1], fqdn);
    assert attempts[k] == AttemptOf(ins[k], outs[k], fqdn) && left[k] == Before(Lookup(outs[k].left), fqdn);
    assert books[read] == Lookup(stores[read].fqdns) && books[k] == Lookup(stores[k].fqdns);
    assert books[k + 1] == Lookup(stores[k + 1].fqdns);
  }

  /** Seen from one name, a run of the operator is a run of its ledger. */
  lemma NameRun(parse: Parser, ins: seq<Input>, outs: seq<Outcome>, stores: seq<Store>, fqdn: string)
    requires SystemRun(parse, ins, outs, stores)
    ensures AttemptRun(fqdn, AttemptsOf(ins, outs, fqdn), LeftOfName(outs, fqdn), StoresOf(stores))
  {
    var attempts, left, books := AttemptsOf(ins, outs, fqdn), LeftOfName(outs, fqdn), StoresOf(stores);
    assert books[0] == Lookup(stores[0].fqdns) == map[];
    forall k | 0 <= k < |ins| ensures AttemptAt(fqdn, attempts, left, books, k) {
      NameAttempt(parse, ins, outs, stores, fqdn, k);
    }
  }

  /** The k-th round looks the name up, and the history it goes by remembers the address. */
  ghost predicate NameRemembers(ins: seq<Input>, outs: seq<Outcome>, k: nat, fqdn: string, addr: string)
    requires |outs| == |ins| && k < |ins| && ins[k].read <= k
  {
    var attempts := AttemptsOf(ins, outs, fqdn);
    attempts[k].round.Some? && Remembers(Seen(attempts, k), addr)
  }

  lemma NameMemory(parse: Parser, ins: seq<Input>, outs: seq<Outcome>,
                   stores: seq<Store>, k: nat, fqdn: string, addr: string)
    requires SystemRun(parse, ins, outs, stores) && k < |ins| && ins[k].read <= k
    ensures fqdn in Lookup(outs[k].left) && addr in AddressSet(Lookup(outs[k].left)[fqdn].addresses)
            <==> NameRemembers(ins, outs, k, fqdn, addr)
  {
    NameRun(parse, ins, outs, stores, fqdn);
    assert StepAt(parse, ins, outs, stores, k);
    NameStep(parse, ins[k], outs[k], stores[ins[k].read].fqdns, stores[k], stores[k + 1], fqdn);
    if AttemptsOf(ins, outs, fqdn)[k].round.Some? {
      AttemptHolds(fqdn, AttemptsOf(ins, outs, fqdn), LeftOfName(outs, fqdn), StoresOf(stores), k, addr);
    } else {
      LeftNames(stores[ins[k].read].fqdns, ins[k].results, ins[k].src.spec.retryTimeout,
                ins[k].src.retention, ins[k].now, outs[k].left);
    }
  }

  /** The rule grants the destination by what its names remember. */
  ghost predicate GrantsByMemory(parse: Parser, ins: seq<Input>, outs: seq<Outcome>,
                                 k: nat, r: EgressRule, d: Destination)
    requires |outs| == |ins| && k < |ins| && ins[k].read <= k
  {
    && parse(d.cidr).Some? && Passes(parse(d.cidr).value, ins[k].src.spec.blockPrivateIPs, r.blockPrivateIPs)
    && (r.ports == [] || exists p :: p in r.ports && SpecPortAdmits(p, d))
    && exists f :: f in r.toFqdns && NameRemembers(ins, outs, k, f, d.cidr)
  }

  lemma RuleRemembers(parse: Parser, ins: seq<Input>, outs: seq<Outcome>,
                      stores: seq<Store>, k: nat, r: EgressRule, d: Destination)
    requires SystemRun(parse, ins, outs, stores) && k < |ins| && ins[k].read <= k
    ensures RuleGrants(parse, r, Lookup(outs[k].left), ins[k].src.spec.blockPrivateIPs, d)
            <==> GrantsByMemory(parse, ins, outs, k, r, d)
  {
    var ips := Lookup(outs[k].left);
    forall f | f in r.toFqdns
      ensures f in ips && d.cidr in AddressSet(ips[f].addresses) <==> NameRemembers(ins, outs, k, f, d.cidr)
    {
      NameMemory(parse, ins, outs, stores, k, f, d.cidr);
    }
  }

  /** In every run, writes lost, reads outdated, specs changing: the policy emitted by a round
      admits a destination exactly when a rule of its spec lists a name that the round looks up and
      whose history, of the stored rounds behind the status read and this one, remembers the CIDR,
      and lets CIDR and port pass. */
  lemma PolicyRemembers(parse: Parser, ins: seq<Input>, outs: seq<Outcome>, stores: seq<Store>, k: nat, d: Destination)
    requires SystemRun(parse, ins, outs, stores) && k < |ins| && parse("").None?
    requires KnownProtocols(ins[k].src.spec.egress) && SpecCovers(ins[k].src.spec)
    ensures ins[k].read <= k
    ensures Admits(outs[k].egress, d)
            <==> exists r :: r in ins[k].src.spec.egress && GrantsByMemory(parse, ins, outs, k, r, d)
  {
    assert StepAt(parse, ins, outs, stores, k);
    var spec, left := ins[k].src.spec, outs[k].left;
    SpecMeaning(parse, spec, left, outs[k].egress, d);
    forall r | r in spec.egress
      ensures RuleGrants(parse, r, Lookup(left), spec.blockPrivateIPs, d)
          <==> GrantsByMemory(parse, ins, outs, k, r, d)
    {
      RuleRemembers(parse, ins, outs, stores, k, r, d);
    }
  }

  // ------------------------------------------------------------------ warnings

  /** The events hold a warning about the name. */
  ghost predicate Warned(events: seq<Event>, fqdn: string) {
    IPsRevoked(fqdn) in events || StaleIPsRemoved(fqdn) in events
  }

  lemma NameWarned(prev: Book, results: seq<Result>, retry: int, now: int, events: seq<Event>, fqdn: string)
    requires DistinctResults(results) && Warns(prev, results, retry, now, events)
    requires forall f :: f in prev ==> prev[f].fqdn == f
    ensures var r := Find(results, fqdn);
            && (Warned(events, fqdn) <==> r.Some? && EventsOf(Before(prev, fqdn), r.value, retry, now) != [])
            && (IPsRevoked(fqdn) in events ==> r.Some? && r.value.reason !in PASSING)
            && (StaleIPsRemoved(fqdn) in events ==> r.Some? && r.value.reason in PASSING)
  {
    var r := Find(results, fqdn);
    if r.Some? {
      assert forall x :: x in results && x.fqdn == fqdn ==> x == r.value;
      EventOfOne(prev, r.value, retry, now);
    }
  }

  /** In every run a round warns about a name exactly when its history, of the stored rounds behind
      the status read and this one, says so; and the kind of failure decides the kind of warning. */
  lemma PolicyWarns(parse: Parser, ins: seq<Input>, outs: seq<Outcome>, stores: seq<Store>, k: nat, fqdn: string)
    requires SystemRun(parse, ins, outs, stores) && k < |ins|
    ensures ins[k].read <= k
    ensures var attempts := AttemptsOf(ins, outs, fqdn);
            && (Warned(outs[k].events, fqdn) <==> attempts[k].round.Some? && ClearRule(Seen(attempts, k)))
            && (IPsRevoked(fqdn) in outs[k].events ==> attempts[k].round.value.res.reason !in PASSING)
            && (StaleIPsRemoved(fqdn) in outs[k].events ==> attempts[k].round.value.res.reason in PASSING)
  {
    WarnedRaises(parse, ins, outs, stores, k, fqdn);
    NameRun(parse, ins, outs, stores, fqdn);
    if AttemptsOf(ins, outs, fqdn)[k].round.Some? {
      AttemptClears(fqdn, AttemptsOf(ins, outs, fqdn), LeftOfName(outs, fqdn), StoresOf(stores), k);
    }
  }

  lemma StepWarns(parse: Parser, ins: seq<Input>, outs: seq<Outcome>, stores: seq<Store>, k: nat)
    requires SystemRun(parse, ins, outs, stores) && k < |ins|
    ensures ins[k].read <= k && DistinctResults(ins[k].results)
    ensures Warns(Lookup(stores[ins[k].read].fqdns), ins[k].results, ins[k].src.spec.retryTimeout, ins[k].now,
                  outs[k].events)
  {
    assert StepAt(parse, ins, outs, stores, k);
  }

  lemma WarnedRaises(parse: Parser, ins: seq<Input>, outs: seq<Outcome>, stores: seq<Store>, k: nat, fqdn: string)
    requires SystemRun(parse, ins, outs, stores) && k < |ins|
    ensures ins[k].read <= k
    ensures var attempts := AttemptsOf(ins, outs, fqdn);
            && (Warned(outs[k].events, fqdn) <==> AttemptRaises(fqdn, attempts, StoresOf(stores), k))
            && (IPsRevoked(fqdn) in outs[k].events ==>
                  attempts[k].round.Some? && attempts[k].round.value.res.reason !in PASSING)
            && (StaleIPsRemoved(fqdn) in outs[k].events ==>
                  attempts[k].round.Some? && attempts[k].round.value.res.reason in PASSING)
  {
    StepWarns(parse, ins, outs, stores, k);
    var read := stores[ins[k].read].fqdns;
    LookupNamed(read);
    NameWarned(Lookup(read), ins[k].results, ins[k].src.spec.retryTimeout, ins[k].now, outs[k].events, fqdn);
    assert AttemptsOf(ins, outs, fqdn)[k] == AttemptOf(ins[k], outs[k], fqdn);
    assert StoresOf(stores)[ins[k].read] == Lookup(read);
  }

  /** With retention off in every round, once the round of a warning has landed, no round that reads
      what it stored warns about the name again before a successful lookup of it is stored. */
  lemma WarnsOnce(parse: Parser, ins: seq<Input>, outs: seq<Outcome>, stores: seq<Store>, i: nat, k: nat, fqdn: string)
    returns (s: nat)
    requires SystemRun(parse, ins, outs, stores) && k < |ins| && i < ins[k].read <= k
    requires forall j :: 0 <= j < |ins| ==> ins[j].src.retention <= 0
    requires outs[i].landed && Warned(outs[i].events, fqdn) && Warned(outs[k].events, fqdn)
    ensures i < s < ins[k].read && outs[s].landed
    ensures exists r :: r in ins[s].results && r.fqdn == fqdn && r.reason == Success
  {
    var attempts, books := AttemptsOf(ins, outs, fqdn), StoresOf(stores);
    WarnedRaises(parse, ins, outs, stores, i, fqdn);
    WarnedRaises(parse, ins, outs, stores, k, fqdn);
    NameRun(parse, ins, outs, stores, fqdn);
    AttemptsAre(ins, outs, fqdn);
    OneEventOnceLanded(fqdn, attempts, LeftOfName(outs, fqdn), books, i, k);
    s :| i < s < attempts[k].read && attempts[s].landed && attempts[s].round.Some?
         && attempts[s].round.value.res.reason == Success;
    assert AttemptFrom(ins[s], outs[s], attempts[s], fqdn);
  }

  ghost predicate AttemptFrom(i: Input, o: Outcome, a: Attempt, fqdn: string) {
    && a.landed == o.landed && a.read == i.read
    && (a.round.Some? ==>
          a.round.value.res in i.results && a.round.value.res.fqdn == fqdn && a.round.value.limit == i.src.retention)
  }

  lemma AttemptsAre(ins: seq<Input>, outs: seq<Outcome>, fqdn: string)
    requires |outs| == |ins|
    ensures forall j :: 0 <= j < |ins| ==> AttemptFrom(ins[j], outs[j], AttemptsOf(ins, outs, fqdn)[j], fqdn)
    ensures (forall j :: 0 <= j < |ins| ==> ins[j].src.retention <= 0) ==> NeverRetained(AttemptsOf(ins, outs, fqdn))
  {
  }

  // ------------------------------------------------------------------ one failure after a success

  /** The stored rounds of a name behind the status the k-th round read. */
  function Behind(ins: seq<Input>, outs: seq<Outcome>, k: nat, fqdn: string): seq<Round>
    requires |outs| == |ins| && k < |ins| && ins[k].read <= k
  {
    Chain(AttemptsOf(ins, outs, fqdn)[..ins[k].read])
  }

  /** The name's last stored lookup succeeded. */
  predicate SucceededBefore(ins: seq<Input>, outs: seq<Outcome>, k: nat, fqdn: string)
    requires |outs| == |ins| && k < |ins| && ins[k].read <= k
  {
    var chain := Behind(ins, outs, k, fqdn);
    chain != [] && chain[|chain| - 1].res.reason == Success
  }

  /** Of the addresses the status read holds: all with retention off, else those of the last lookup. */
  ghost predicate StaysSafe(ins: seq<Input>, outs: seq<Outcome>, stores: seq<Store>, k: nat, fqdn: string, addr: string)
    requires |outs| == |ins| && |stores| == |ins| + 1 && k < |ins| && ins[k].read <= k
    requires SucceededBefore(ins, outs, k, fqdn)
  {
    var chain, held := Behind(ins, outs, k, fqdn), Before(Lookup(stores[ins[k].read].fqdns), fqdn);
    if ins[k].src.retention > 0 then addr in chain[|chain| - 1].res.cidrs else addr in AddressSet(held.addresses)
  }

  lemma JustFailedSeen(parse: Parser, ins: seq<Input>, outs: seq<Outcome>, stores: seq<Store>, k: nat, r: Result)
    requires SystemRun(parse, ins, outs, stores) && k < |ins| && ins[k].read <= k
    requires r in ins[k].results && r.reason in PASSING && SucceededBefore(ins, outs, k, r.fqdn)
    ensures var attempts := AttemptsOf(ins, outs, r.fqdn);
            && FailsAfterSuccess(attempts, k)
            && attempts[k].round == Some(Round(ins[k].now, r, ins[k].src.spec.retryTimeout, ins[k].src.retention))
  {
    assert StepAt(parse, ins, outs, stores, k);
    assert Find(ins[k].results, r.fqdn) == Some(r);
    assert AttemptsOf(ins, outs, r.fqdn)[k] == AttemptOf(ins[k], outs[k], r.fqdn);
  }

  /** One failure that may pass does no harm: right after a stored success a round raises no warning
      about the name and keeps all its addresses with retention off, and with retention on at least
      those of that success. */
  lemma FailureTolerated(parse: Parser, ins: seq<Input>, outs: seq<Outcome>,
                         stores: seq<Store>, k: nat, r: Result, addr: string)
    requires SystemRun(parse, ins, outs, stores) && k < |ins| && ins[k].read <= k
    requires r in ins[k].results && r.reason in PASSING && SucceededBefore(ins, outs, k, r.fqdn)
    ensures !Warned(outs[k].events, r.fqdn) && r.fqdn in Lookup(outs[k].left)
    ensures StaysSafe(ins, outs, stores, k, r.fqdn, addr) ==> addr in AddressSet(Lookup(outs[k].left)[r.fqdn].addresses)
  {
    var attempts, left := AttemptsOf(ins, outs, r.fqdn), LeftOfName(outs, r.fqdn);
    JustFailedSeen(parse, ins, outs, stores, k, r);
    NameRun(parse, ins, outs, stores, r.fqdn);
    PassingFailure(r.fqdn, attempts, left, StoresOf(stores), k, addr);
    WarnedRaises(parse, ins, outs, stores, k, r.fqdn);
    LeftIsNamed(parse, ins, outs, stores, k, r);
  }

  lemma LeftIsNamed(parse: Parser, ins: seq<Input>, outs: seq<Outcome>, stores: seq<Store>, k: nat, r: Result)
    requires SystemRun(parse, ins, outs, stores) && k < |ins| && ins[k].read <= k && r in ins[k].results
    ensures r.fqdn in Lookup(outs[k].left)
  {
    assert StepAt(parse, ins, outs, stores, k);
    LeftNames(stores[ins[k].read].fqdns, ins[k].results, ins[k].src.spec.retryTimeout,
              ins[k].src.retention, ins[k].now, outs[k].left);
  }
}
