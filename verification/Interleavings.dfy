/** The resolver and the round together: no interleaving of the lookups shows in the result. */
module Interleavings {
  import opened Sorting
  import opened Policy
  import opened Status
  import opened Compiler
  import opened EndToEnd
  import opened Ledger
  import opened Bookkeeping
  import opened Resolver
  import opened Reconcile
  import opened RoundLaws
  import opened Provenance
  import opened Memory

  /** The lookups of a spec: one for each name, in the order of `Compiler.Fqdns`. */
  ghost predicate LookupsOf(c: Config, spec: Spec) {
    NamesOf(c.answers) == Ascending(NamesIn(spec.egress))
  }

  lemma NamedDistinct(list: seq<Result>, names: seq<string>)
    requires NamesOf(list) == names && StrictlySorted(names)
    ensures DistinctResults(list)
  {
    StrictHasNoDuplicates(names);
    forall i, j | 0 <= i < j < |list| ensures list[i].fqdn != list[j].fqdn {
      assert names[i] == list[i].fqdn && names[j] == list[j].fqdn;
    }
  }

  /** Whatever a run of the resolver returns, cancelled or not, is about different names: the
      precondition of `Reconcile.Round`. */
  lemma ReturnsDistinct(c: Config, spec: Spec, steps: seq<Step>, s: State)
    requires LookupsOf(c, spec) && Exec(c, steps) == Some(s) && s.returned
    ensures DistinctResults(s.collected)
    ensures (set r | r in s.collected :: r.fqdn) == NamesIn(spec.egress)
  {
    var list := ReturnsPermutation(c, steps, s);
    NamedDistinct(list, Ascending(NamesIn(spec.egress)));
    DistinctPermuted(list, s.collected);
    NamesPermuted(list, s.collected);
    NamesListed(list);
  }

  lemma NamesListed(list: seq<Result>)
    ensures (set r | r in list :: r.fqdn) == Elements(NamesOf(list))
  {
    forall i | 0 <= i < |list| ensures list[i].fqdn in Elements(NamesOf(list)) {
      assert NamesOf(list)[i] == list[i].fqdn;
    }
    forall f | f in NamesOf(list) ensures f in set r | r in list :: r.fqdn {
      var i :| 0 <= i < |list| && NamesOf(list)[i] == f;
      assert list[i] in list;
    }
  }

  /** Two uncancelled runs of the resolver over the same lookups, interleaved in any two ways,
      lead to the identical reported status, but for the message where the worst failures quote
      differently, and to the identical rules where ends are determined. */
  lemma SameOutcome(parse: Parser, o: Occasion, c: Config, steps: seq<Step>,
                    steps': seq<Step>, s: State, s': State, e: Effect, e': Effect)
    requires KnownProtocols(o.src.spec.egress) && LookupsOf(c, o.src.spec)
    requires Exec(c, steps) == Some(s) && s.returned && !s.canceled
    requires Exec(c, steps') == Some(s') && s'.returned && !s'.canceled
    requires Effects(parse, o, s.collected, e) && Effects(parse, o, s'.collected, e')
    ensures e.report.resolved.Condition? && e'.report == WithMessage(e.report, AggregateMessage(s'.collected))
    ensures OneSample(c.answers) ==> e'.report == e.report
    ensures EndsDetermined(parse, o.src.spec, e.left) ==> e'.egress == e.egress
  {
    ReturnsAnswers(c, steps, s);
    ReturnsAnswers(c, steps', s');
    ReturnsDistinct(c, o.src.spec, steps, s);
    OneSamplePermuted(s.collected, c.answers);
    Confluence(parse, o, s.collected, s'.collected, e, e');
  }

  // ------------------------------------------------------------------ cancellation

  /** A name whose answer is not among the results was cut short. */
  lemma CutOff(c: Config, steps: seq<Step>, s: State, i: nat) returns (r: Result)
    requires Exec(c, steps) == Some(s) && s.returned && i < |c.answers| && c.answers[i] !in s.collected
    ensures s.canceled && r in s.collected && CutShort(r, c.answers[i].fqdn)
  {
    var list := ReturnsPermutation(c, steps, s);
    SameMultisetSameElements(list, s.collected);
    r := list[i];
    assert r in Elements(list);
  }

  /** A cancellation does no harm: if a round goes by the results of a resolver run that was cut short
      before one of the names was looked up, and the name's last stored lookup had succeeded, the
      round raises no warning about it and keeps all its addresses with retention off, and with
      retention on at least those of that success. */
  lemma CancelledKeeps(parse: Parser, ins: seq<Input>, outs: seq<Outcome>, stores: seq<Store>,
                       k: nat, c: Config, steps: seq<Step>, s: State, i: nat, addr: string)
    returns (r: Result)
    requires SystemRun(parse, ins, outs, stores) && k < |ins| && ins[k].read <= k
    requires Exec(c, steps) == Some(s) && s.returned && ins[k].results == s.collected
    requires i < |c.answers| && c.answers[i] !in s.collected && SucceededBefore(ins, outs, k, c.answers[i].fqdn)
    ensures s.canceled && r in s.collected && CutShort(r, c.answers[i].fqdn)
    ensures !Warned(outs[k].events, r.fqdn) && r.fqdn in Lookup(outs[k].left)
    ensures StaysSafe(ins, outs, stores, k, r.fqdn, addr) ==> addr in AddressSet(Lookup(outs[k].left)[r.fqdn].addresses)
  {
    r := CutOff(c, steps, s, i);
    FailureTolerated(parse, ins, outs, stores, k, r, addr);
  }
}
