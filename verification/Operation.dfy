/** The operator at work: `Reconcile.Round` requeued again and again is a run as `Provenance` and
    `Memory` speak of it. */
module Operation {
  import opened Policy
  import opened Status
  import opened Compiler
  import opened Ledger
  import opened Applying
  import opened Reconcile
  import opened RoundLaws
  import opened Provenance

  /** Every round has rules, results about different names, and reads a status stored before. */
  ghost predicate Runnable(ins: seq<Input>) {
    forall k :: 0 <= k < |ins| ==> ins[k].src.spec.egress != [] && DistinctResults(ins[k].results) && ins[k].read <= k
  }

  /** A round that read the stored status and lost no write is stored. */
  ghost predicate StoredUnlessLost(ins: seq<Input>, outs: seq<Outcome>, statuses: seq<PolicyStatus>)
    requires |outs| == |ins| && |statuses| == |ins| + 1
  {
    forall k | 0 <= k < |ins| && ins[k].read <= k && statuses[ins[k].read] == statuses[k] && !ins[k].faults.writeLost ::
      outs[k].landed
  }

  /** The statuses stored so far are those of the run. */
  ghost predicate Recorded(statuses: seq<PolicyStatus>, stores: seq<Store>) {
    && |statuses| == |stores|
    && forall j :: 0 <= j < |stores| ==> stores[j].fqdns == statuses[j].fqdns && DistinctFqdns(statuses[j].fqdns)
  }

  lemma RunExtends(parse: Parser, ins: seq<Input>, outs: seq<Outcome>,
                   stores: seq<Store>, i: Input, o: Outcome, t: Store)
    requires SystemRun(parse, ins, outs, stores) && i.read <= |ins|
    requires StoreStep(parse, i, o, stores[i.read].fqdns, stores[|ins|], t)
    ensures SystemRun(parse, ins + [i], outs + [o], stores + [t])
  {
    var ins', outs', stores' := ins + [i], outs + [o], stores + [t];
    forall k | 0 <= k < |ins'| ensures StepAt(parse, ins', outs', stores', k) {
      if k < |ins| {
        StepKept(parse, ins, outs, stores, i, o, t, k);
      } else {
        assert stores'[i.read] == stores[i.read] && stores'[k] == stores[k] && stores'[k + 1] == t;
      }
    }
  }

  lemma StepKept(parse: Parser, ins: seq<Input>, outs: seq<Outcome>,
                 stores: seq<Store>, i: Input, o: Outcome, t: Store, k: nat)
    requires SystemRun(parse, ins, outs, stores) && k < |ins|
    ensures StepAt(parse, ins + [i], outs + [o], stores + [t], k)
  {
    assert StepAt(parse, ins, outs, stores, k);
    var stores' := stores + [t];
    assert stores'[ins[k].read] == stores[ins[k].read] && stores'[k] == stores[k] && stores'[k + 1] == stores[k + 1];
  }

  /** One round as a step of a run. */
  lemma RoundSteps(parse: Parser, i: Input, e: Effect, seen: PolicyStatus, was: PolicyStatus,
                   live: Option<Manifest>, stored: PolicyStatus, events: seq<Event>, written: bool)
    returns (o: Outcome)
    requires DistinctResults(i.results) && DistinctFqdns(seen.fqdns) && DistinctFqdns(was.fqdns)
    requires Effects(parse, Occasion(i.src, seen, i.now, i.faults.applyError), i.results, e)
    requires Warns(Lookup(seen.fqdns), i.results, i.src.spec.retryTimeout, i.now, events)
    requires written ==> seen == was && stored == e.report
    requires !written ==> stored == was && (i.faults.writeLost || seen != was || SameStatus(seen, e.report))
    ensures o.egress == e.egress && o.events == events
    ensures StoreStep(parse, i, o, seen.fqdns, Store(was.fqdns, live),
                      Store(stored.fqdns, if i.faults.applyError.Some? then live else Some(Desired(i.src, o.egress))))
    ensures seen == was && !i.faults.writeLost ==> o.landed
    ensures DistinctFqdns(stored.fqdns)
  {
    LeftDistinct(seen.fqdns, i.results, i.src.spec.retryTimeout, i.src.retention, i.now, e.left);
    var landed := written || (seen == was && SameStatus(seen, e.report));
    if landed {
      RoundLands(e.left, e.report, was, stored);
    }
    o := Outcome(e.left, e.egress, events, landed);
  }

  lemma StoredExtends(ins: seq<Input>, outs: seq<Outcome>, statuses: seq<PolicyStatus>,
                      i: Input, o: Outcome, st: PolicyStatus)
    requires |outs| == |ins| && |statuses| == |ins| + 1 && StoredUnlessLost(ins, outs, statuses) && i.read <= |ins|
    requires statuses[i.read] == statuses[|ins|] && !i.faults.writeLost ==> o.landed
    ensures StoredUnlessLost(ins + [i], outs + [o], statuses + [st])
  {
  }

  /** What a round adds to the run. */
  lemma Advance(parse: Parser, i: Input, e: Effect, cluster: PolicyStatus, live: Option<Manifest>, events: seq<Event>,
                written: bool, statuses: seq<PolicyStatus>, ins: seq<Input>, outs: seq<Outcome>, stores: seq<Store>)
    returns (o: Outcome, t: Store)
    requires DistinctResults(i.results) && i.read <= |ins|
    requires SystemRun(parse, ins, outs, stores) && Recorded(statuses, stores) && StoredUnlessLost(ins, outs, statuses)
    requires Effects(parse, Occasion(i.src, statuses[i.read], i.now, i.faults.applyError), i.results, e)
    requires Warns(Lookup(statuses[i.read].fqdns), i.results, i.src.spec.retryTimeout, i.now, events)
    requires written ==> statuses[i.read] == statuses[|ins|] && cluster == e.report
    requires !written ==>
               && cluster == statuses[|ins|]
               && (i.faults.writeLost || statuses[i.read] != statuses[|ins|] || SameStatus(statuses[i.read], e.report))
    requires live == if i.faults.applyError.Some? then stores[|ins|].live else Some(Desired(i.src, e.egress))
    ensures SystemRun(parse, ins + [i], outs + [o], stores + [t]) && o.events == events
    ensures StoredUnlessLost(ins + [i], outs + [o], statuses + [cluster])
    ensures t == Store(cluster.fqdns, live) && DistinctFqdns(cluster.fqdns)
  {
    o := RoundSteps(parse, i, e, statuses[i.read], statuses[|ins|], stores[|ins|].live, cluster, events, written);
    t := Store(cluster.fqdns, live);
    assert stores[|ins|] == Store(statuses[|ins|].fqdns, stores[|ins|].live);
    RunExtends(parse, ins, outs, stores, i, o, t);
    StoredExtends(ins, outs, statuses, i, o, cluster);
  }

  /** One requeued round. */
  method Requeue(parse: Parser, cluster: Cluster<PolicyStatus>, i: Input, statuses: seq<PolicyStatus>,
                 ghost ins: seq<Input>, ghost outs: seq<Outcome>, ghost stores: seq<Store>)
    returns (events: seq<Event>, ghost o: Outcome, ghost t: Store)
    requires i.src.spec.egress != [] && DistinctResults(i.results) && i.read <= |ins|
    requires SystemRun(parse, ins, outs, stores) && Recorded(statuses, stores) && StoredUnlessLost(ins, outs, statuses)
    requires cluster.status == statuses[|ins|] && cluster.live == stores[|ins|].live
    modifies cluster
    ensures SystemRun(parse, ins + [i], outs + [o], stores + [t]) && o.events == events
    ensures StoredUnlessLost(ins + [i], outs + [o], statuses + [cluster.status])
    ensures t == Store(cluster.status.fqdns, cluster.live) && DistinctFqdns(cluster.status.fqdns)
  {
    ghost var e;
    var report, egress, op, written;
    e, report, egress, events, op, written :=
      Round(parse, cluster, i.src, statuses[i.read], i.results, i.now, i.faults);
    o, t := Advance(parse, i, e, cluster.status, cluster.live, events, written, statuses, ins, outs, stores);
  }

  /** From nothing stored, round after round, each reading the stored status or an older one:
      whatever comes in, the stores form a run. */
  method Operate(parse: Parser, ins: seq<Input>)
    returns (cluster: Cluster<PolicyStatus>, statuses: seq<PolicyStatus>,
             events: seq<seq<Event>>, ghost outs: seq<Outcome>, ghost stores: seq<Store>)
    requires Runnable(ins)
    ensures SystemRun(parse, ins, outs, stores) && Recorded(statuses, stores) && StoredUnlessLost(ins, outs, statuses)
    ensures cluster.status == statuses[|ins|] && cluster.live == stores[|ins|].live
    ensures |events| == |ins| && forall k :: 0 <= k < |ins| ==> events[k] == outs[k].events
  {
    cluster := new Cluster(PolicyStatus([], 0, 0, 0, 0, NotSet, NotSet, 0), None);
    statuses, events, outs, stores := [cluster.status], [], [], [Store([], None)];
    for k := 0 to |ins|
      invariant fresh(cluster)
      invariant SystemRun(parse, ins[..k], outs, stores) && Recorded(statuses, stores)
      invariant StoredUnlessLost(ins[..k], outs, statuses)
      invariant cluster.status == statuses[k] && cluster.live == stores[k].live
      invariant |events| == k && forall j :: 0 <= j < k ==> events[j] == outs[j].events
    {
      ghost var o, t;
      var raised;
      raised, o, t := Requeue(parse, cluster, ins[k], statuses, ins[..k], outs, stores);
      assert ins[..k + 1] == ins[..k] + [ins[k]];
      statuses, events, outs, stores := statuses + [cluster.status], events + [raised], outs + [o], stores + [t];
    }
    assert ins[..|ins|] == ins;
  }
}
