/** Whole runs of the operator: where the addresses it ever emits come from. */
module Provenance {
  import opened Sorting
  import opened Policy
  import opened Grants
  import opened NormalForms
  import opened Status
  import opened Compiler
  import opened EndToEnd
  import opened SpecEnds
  import opened Ledger
  import opened History
  import opened Applying
  import opened Reconcile
  import opened RoundLaws

  /** What one round starts from besides the stores: the policy as it is then, the lookups'
      results, the time, the faults, and which of the stores so far it reads. */
  datatype Input = Input(src: Source, results: seq<Result>, now: int, faults: Faults, read: nat)

  /** What one round did, its warnings included; whether what it left is stored. */
  datatype Outcome = Outcome(left: seq<FqdnStatus>, egress: seq<Rule>, events: seq<Event>, landed: bool)

  /** What the API server stores. */
  datatype Store = Store(fqdns: seq<FqdnStatus>, live: Option<Manifest>)

  /** One round: only a status computed from the current one can be stored, and a lost write
      leaves the stored status; a failed apply leaves the live object. */
  ghost predicate StoreStep(parse: Parser, i: Input, o: Outcome, read: seq<FqdnStatus>, s: Store, t: Store) {
    && DistinctResults(i.results)
    && Computes(parse, i.src, read, i.results, i.now, o.left, o.egress)
    && Warns(Lookup(read), i.results, i.src.spec.retryTimeout, i.now, o.events)
    && (if o.landed then read == s.fqdns && Landed(o.left, t.fqdns) else t.fqdns == s.fqdns)
    && t.live == if i.faults.applyError.Some? then s.live else Some(Desired(i.src, o.egress))
  }

  ghost predicate StepAt(parse: Parser, ins: seq<Input>, outs: seq<Outcome>, stores: seq<Store>, k: int)
    requires 0 <= k < |ins| == |outs| && |stores| == |ins| + 1
  {
    && ins[k].read <= k
    && StoreStep(parse, ins[k], outs[k], stores[ins[k].read].fqdns, stores[k], stores[k + 1])
  }

  /** A run from nothing stored. Policies, timeouts, retention and the names listed may change
      from round to round, reads may be outdated and writes lost. */
  ghost predicate SystemRun(parse: Parser, ins: seq<Input>, outs: seq<Outcome>, stores: seq<Store>) {
    && |outs| == |ins| && |stores| == |ins| + 1
    && stores[0] == Store([], None)
    && forall k :: 0 <= k < |ins| ==> StepAt(parse, ins, outs, stores, k)
  }

  /** A lookup of the name in one of the rounds before `k` succeeded and returned the address. */
  ghost predicate ResolvedBefore(ins: seq<Input>, k: nat, fqdn: string, addr: string)
    requires k <= |ins|
  {
    exists j, res :: 0 <= j < k && res in ins[j].results && res.fqdn == fqdn && addr in FreshOf(res)
  }

  /** Every address of these statuses was resolved for its name before `k`. */
  ghost predicate AllResolved(ins: seq<Input>, k: nat, m: Book)
    requires k <= |ins|
  {
    forall f, a | f in m && a in AddressSet(m[f].addresses) :: ResolvedBefore(ins, k, f, a)
  }

  // ------------------------------------------------------------------ one round adds only answers

  lemma WipedSet(entries: seq<Entry>)
    ensures AddressSet(Wiped(entries)) == AddressSet(entries)
  {
    forall a | a in AddressSet(entries) ensures a in AddressSet(Wiped(entries)) {
      var i :| 0 <= i < |entries| && entries[i].address == a;
      assert Wiped(entries)[i].address == a;
    }
  }

  /** A name's ledger after a round holds answers of this round and addresses it held. */
  lemma OnlyAnswers(prev: Book, res: Result, retry: int, limit: int, now: int, out: FqdnStatus)
    requires RoundOf(prev, res, retry, limit, now, out)
    ensures AddressSet(out.addresses) <= FreshOf(res) + if res.fqdn in prev then AddressSet(prev[res.fqdn].addresses)
        else {}
  {
    if res.fqdn in prev {
      MissingKeys(prev[res.fqdn].addresses);
    }
    if limit > 0 {
      RetentionRefines(prev, res, retry, limit, now, out);
    } else {
      UpdatedAddresses(prev, res, retry, now);
      WipedSet(Updated(Before(prev, res.fqdn), res, retry, now).addresses);
    }
  }

  lemma ResolvedLater(ins: seq<Input>, j: nat, k: nat, m: Book)
    requires j <= k <= |ins| && AllResolved(ins, j, m)
    ensures AllResolved(ins, k, m)
  {
    forall f, a | f in m && a in AddressSet(m[f].addresses) ensures ResolvedBefore(ins, k, f, a) {
      assert ResolvedBefore(ins, j, f, a);
    }
  }

  lemma LeftResolved(parse: Parser, ins: seq<Input>, outs: seq<Outcome>, stores: seq<Store>, k: nat)
    requires SystemRun(parse, ins, outs, stores) && k < |ins| && ins[k].read <= k
    requires AllResolved(ins, k, Lookup(stores[ins[k].read].fqdns))
    ensures AllResolved(ins, k + 1, Lookup(outs[k].left))
  {
    assert StepAt(parse, ins, outs, stores, k);
    var read, left, spec := stores[ins[k].read].fqdns, outs[k].left, ins[k].src.spec;
    LeftNames(read, ins[k].results, spec.retryTimeout, ins[k].src.retention, ins[k].now, left);
    forall f, a | f in Lookup(left) && a in AddressSet(Lookup(left)[f].addresses)
      ensures ResolvedBefore(ins, k + 1, f, a)
    {
      var res :| res in ins[k].results && res.fqdn == f;
      LeftOf(read, ins[k].results, spec.retryTimeout, ins[k].src.retention, ins[k].now, left, res);
      OnlyAnswers(Lookup(read), res, spec.retryTimeout, ins[k].src.retention, ins[k].now, Lookup(left)[f]);
      if a !in FreshOf(res) {
        assert ResolvedBefore(ins, k, f, a);
      }
    }
  }

  /** What a round makes of the store. */
  lemma StoreNext(parse: Parser, ins: seq<Input>, outs: seq<Outcome>, stores: seq<Store>, k: nat)
    requires SystemRun(parse, ins, outs, stores) && k < |ins|
    ensures ins[k].read <= k
    ensures if outs[k].landed then Landed(outs[k].left, stores[k + 1].fqdns)
            else stores[k + 1].fqdns == stores[k].fqdns
  {
    assert StepAt(parse, ins, outs, stores, k);
  }

  lemma LandedResolved(ins: seq<Input>, k: nat, left: seq<FqdnStatus>, stored: seq<FqdnStatus>)
    requires k <= |ins| && Landed(left, stored) && AllResolved(ins, k, Lookup(left))
    ensures AllResolved(ins, k, Lookup(stored))
  {
    OrderHolds(Lookup(left), Lookup(stored));
  }

  lemma {:induction false} StoresResolved(parse: Parser, ins: seq<Input>,
                                          outs: seq<Outcome>, stores: seq<Store>, n: nat)
    requires SystemRun(parse, ins, outs, stores) && n <= |ins|
    ensures AllResolved(ins, n, Lookup(stores[n].fqdns))
    decreases n, 1
  {
    if n > 0 {
      var k := n - 1;
      StoreNext(parse, ins, outs, stores, k);
      if outs[k].landed {
        RoundResolved(parse, ins, outs, stores, k);
        LandedResolved(ins, n, outs[k].left, stores[n].fqdns);
      } else {
        StoresResolved(parse, ins, outs, stores, k);
        ResolvedLater(ins, k, n, Lookup(stores[k].fqdns));
      }
    }
  }

  /** What a round leaves is resolved, whichever store it read. */
  lemma RoundResolved(parse: Parser, ins: seq<Input>, outs: seq<Outcome>, stores: seq<Store>, k: nat)
    requires SystemRun(parse, ins, outs, stores) && k < |ins|
    ensures AllResolved(ins, k + 1, Lookup(outs[k].left))
    decreases k, 2
  {
    StoreNext(parse, ins, outs, stores, k);
    StoresResolved(parse, ins, outs, stores, ins[k].read);
    ResolvedLater(ins, ins[k].read, k, Lookup(stores[ins[k].read].fqdns));
    LeftResolved(parse, ins, outs, stores, k);
  }

  // ------------------------------------------------------------------ everything emitted was resolved

  /** The rule lists a name for which the address was resolved, and its flag lets it pass. */
  ghost predicate Justified(parse: Parser, ins: seq<Input>, k: nat, r: EgressRule, cidr: string)
    requires k < |ins|
  {
    && parse(cidr).Some? && Passes(parse(cidr).value, ins[k].src.spec.blockPrivateIPs, r.blockPrivateIPs)
    && exists f :: f in r.toFqdns && ResolvedBefore(ins, k + 1, f, cidr)
  }

  lemma ServedResolved(parse: Parser, ins: seq<Input>, outs: seq<Outcome>,
                       stores: seq<Store>, k: nat, r: EgressRule, cidr: string)
    requires SystemRun(parse, ins, outs, stores) && k < |ins|
    requires Serves(parse, r, Lookup(outs[k].left), ins[k].src.spec.blockPrivateIPs, cidr)
    ensures Justified(parse, ins, k, r, cidr)
  {
    RoundResolved(parse, ins, outs, stores, k);
    var ips := Lookup(outs[k].left);
    var f :| f in r.toFqdns && f in ips && cidr in AddressSet(ips[f].addresses);
    assert ResolvedBefore(ins, k + 1, f, cidr);
  }

  /** Provenance: in every run, whatever was retained, cleared, lost, read late, removed or
      re-added on the way, a CIDR named by an emitted rule was resolved, in this round or an earlier one,
      for a name that a rule of this round's spec lists, and passes that rule's flag. */
  lemma EmittedWasResolved(parse: Parser, ins: seq<Input>, outs: seq<Outcome>,
                           stores: seq<Store>, k: nat, rule: Rule, cidr: string)
    returns (r: EgressRule)
    requires SystemRun(parse, ins, outs, stores) && k < |ins|
    requires rule in outs[k].egress && Names(rule, cidr)
    ensures r in ins[k].src.spec.egress && Justified(parse, ins, k, r, cidr)
  {
    assert StepAt(parse, ins, outs, stores, k);
    EmittedCompiled(Compile(parse, ins[k].src.spec, outs[k].left), outs[k].egress, rule, cidr);
    r := CompiledSource(parse, ins[k].src.spec, outs[k].left, cidr);
    ServedResolved(parse, ins, outs, stores, k, r, cidr);
  }

  lemma CompiledSource(parse: Parser, spec: Spec, left: seq<FqdnStatus>, cidr: string) returns (r: EgressRule)
    requires cidr in Cidrs(Compile(parse, spec, left))
    ensures r in spec.egress && Serves(parse, r, Lookup(left), spec.blockPrivateIPs, cidr)
  {
    var ips := Lookup(left);
    CompiledFrom(parse, spec.egress, ips, spec.blockPrivateIPs);
    var compiled :| compiled in Compile(parse, spec, left) && Names(compiled, cidr);
    r :| r in spec.egress && CompileRule(parse, r, ips, spec.blockPrivateIPs) == Some(compiled);
    CompiledNames(parse, r, ips, spec.blockPrivateIPs, cidr);
  }

  lemma EmittedCompiled(rules: seq<Rule>, out: seq<Rule>, rule: Rule, cidr: string)
    requires Canonical(TableOf(rules), out) && rule in out && Names(rule, cidr)
    ensures cidr in Cidrs(rules)
  {
    Partition(rules, out);
    NamedListed(out, rule, cidr);
  }

  lemma {:induction false} NamedListed(rules: seq<Rule>, rule: Rule, cidr: string)
    requires rule in rules && Names(rule, cidr)
    ensures cidr in Elements(Listed(rules))
  {
    var init, last := rules[..|rules| - 1], rules[|rules| - 1];
    assert rules == init + [last];
    if rule == last {
      var i :| 0 <= i < |last.to| && last.to[i] == Peer(Some(cidr));
      assert CidrsOf(last.to)[i] == cidr;
    } else {
      NamedListed(init, rule, cidr);
    }
  }

  /** With ports: a destination an emitted policy admits is granted by one rule of the spec that
      both lists a name the address was resolved for and has a matching port. */
  lemma AdmittedWasResolved(parse: Parser, ins: seq<Input>, outs: seq<Outcome>,
                            stores: seq<Store>, k: nat, d: Destination)
    returns (r: EgressRule)
    requires SystemRun(parse, ins, outs, stores) && k < |ins| && parse("").None?
    requires KnownProtocols(ins[k].src.spec.egress) && SpecCovers(ins[k].src.spec)
    requires Admits(outs[k].egress, d)
    ensures r in ins[k].src.spec.egress && Justified(parse, ins, k, r, d.cidr)
    ensures r.ports == [] || exists p :: p in r.ports && SpecPortAdmits(p, d)
  {
    assert StepAt(parse, ins, outs, stores, k);
    var spec := ins[k].src.spec;
    SpecMeaning(parse, spec, outs[k].left, outs[k].egress, d);
    r :| r in spec.egress && RuleGrants(parse, r, Lookup(outs[k].left), spec.blockPrivateIPs, d);
    ServedResolved(parse, ins, outs, stores, k, r, d.cidr);
  }

  /** The live object is always the one emitted by the last round whose apply succeeded. */
  lemma {:induction false} LiveIsEmitted(parse: Parser, ins: seq<Input>, outs: seq<Outcome>, stores: seq<Store>, n: nat)
    returns (k: int)
    requires SystemRun(parse, ins, outs, stores) && n <= |ins|
    ensures -1 <= k < n && forall j :: k < j < n ==> ins[j].faults.applyError.Some?
    ensures if k == -1 then stores[n].live.None?
            else ins[k].faults.applyError.None? && stores[n].live.Some?
                 && Attaches(ins[k].src, outs[k].egress, stores[n].live.value)
  {
    if n == 0 {
      k := -1;
    } else {
      assert StepAt(parse, ins, outs, stores, n - 1);
      if ins[n - 1].faults.applyError.Some? {
        k := LiveIsEmitted(parse, ins, outs, stores, n - 1);
      } else {
        k := n - 1;
        DesiredAttaches(ins[k].src, outs[k].egress);
      }
    }
  }
}
