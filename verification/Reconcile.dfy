/** One reconciliation (internal/controller/networkpolicy_controller.go:77-358), from the
    lookup results on. */
module Reconcile {
  import opened Text
  import opened Policy
  import opened Grants
  import opened Regroup
  import opened Status
  import opened Compiler
  import opened Ledger
  import opened Bookkeeping
  import opened Applying

  datatype ReadyReason = ReadySuccess | EmptyRules | ReadyFailure

  /** A status condition; `since` is the time its truth value last changed. */
  datatype Condition<R> = NotSet | Condition(holds: bool, reason: R, message: string, since: int, generation: int)

  /** `meta.SetStatusCondition`. */
  function SetCondition<R>(was: Condition<R>, holds: bool, reason: R,
                           message: string, generation: int, now: int): Condition<R>
  {
    Condition(holds, reason, message, if was.Condition? && was.holds == holds then was.since else now, generation)
  }

  /** `NetworkPolicyStatus`. */
  datatype PolicyStatus = PolicyStatus(
    fqdns: seq<FqdnStatus>, active: int, failing: int, applied: int, total: int,
    resolved: Condition<Reason>, ready: Condition<ReadyReason>, observed: int)

  /** The policy as read: `retention` is the annotation's duration, zero without a valid one. */
  datatype Source = Source(
    namespace: string, labels: map<string, string>, target: string, generation: int, retention: int, spec: Spec,
    matchLabels: seq<(string, string)>, matchExpressions: seq<Requirement>)

  /** What can go wrong outside: the object is not applied, the status write is lost. */
  datatype Faults = Faults(applyError: Option<string>, writeLost: bool)

  const POLICY_FOR := "k8s.v1.cni.cncf.io/policy-for"

  function Desired(src: Source, egress: seq<Rule>): Manifest {
    Manifest(src.labels, map[POLICY_FOR := src.namespace + "/" + src.target],
             Selector(LabelsOf(src.matchLabels), src.matchExpressions), egress)
  }

  /** The text is the two joined by a slash; split at slashes it gives them back if they have none. */
  ghost predicate ReadsAs(text: string, namespace: string, name: string) {
    && text == Join([namespace, name], '/')
    && ('/' !in namespace && '/' !in name ==> Split(text, '/') == [namespace, name])
  }

  /** The object attaches these rules to the policy's network, pods and owner's labels. */
  ghost predicate Attaches(src: Source, egress: seq<Rule>, m: Manifest) {
    && m.labels == src.labels && m.egress == egress
    && m.annotations.Keys == {"k8s.v1.cni.cncf.io/policy-for"}
    && ReadsAs(m.annotations["k8s.v1.cni.cncf.io/policy-for"], src.namespace, src.target)
    && (forall name, value :: name in m.selector.matchLabels && m.selector.matchLabels[name] == value
                              <==> LastPair(src.matchLabels, name, value))
    && m.selector.matchExpressions == src.matchExpressions
  }

  lemma DesiredAttaches(src: Source, egress: seq<Rule>)
    ensures Attaches(src, egress, Desired(src, egress))
  {
    var pair := [src.namespace, src.target];
    assert Join(pair[1..], '/') == src.target;
    assert Join(pair, '/') == src.namespace + "/" + src.target;
    if '/' !in src.namespace && '/' !in src.target {
      SplitJoin(pair, '/');
    }
    forall name, value
      ensures name in LabelsOf(src.matchLabels) && LabelsOf(src.matchLabels)[name] == value
              <==> LastPair(src.matchLabels, name, value)
    {
      LabelsLast(src.matchLabels, name, value);
    }
  }

  // ------------------------------------------------------------------ what a round computes

  /** The statuses a round leaves and the egress rules it emits. */
  ghost predicate Computes(parse: Parser, src: Source, before: seq<FqdnStatus>,
                           results: seq<Result>, now: int, left: seq<FqdnStatus>, egress: seq<Rule>)
  {
    && RoundAll(Lookup(before), results, src.spec.retryTimeout, src.retention, now, left)
    && Canonical(TableOf(Compile(parse, src.spec, left)), egress)
  }

  /** `SetResolvedCondition` with the aggregate status and message. */
  function ResolvedOf(src: Source, was: Condition<Reason>, results: seq<Result>, now: int): Condition<Reason> {
    SetCondition(was, Aggregate(results) == Success, Aggregate(results), AggregateMessage(results), src.generation, now)
  }

  const APPLIED_MESSAGE := "Network policy was successfully applied."
  const EMPTY_MESSAGE :=
    "Network policy has no FQDNs resolved to valid IP addresses, the default egress deny-all is in effect."

  function ReadyOf(src: Source, was: Condition<ReadyReason>, applyError: Option<string>,
                   egress: seq<Rule>, now: int): Condition<ReadyReason>
  {
    match applyError
    case Some(e) =>
      SetCondition(was, false, ReadyFailure, "Network policy failed to apply: " + e + ".", src.generation, now)
    case None =>
      if egress == [] then SetCondition(was, true, EmptyRules, EMPTY_MESSAGE, src.generation, now)
      else SetCondition(was, true, ReadySuccess, APPLIED_MESSAGE, src.generation, now)
  }

  /** What a round starts from besides the results: the policy and its status as read, the time,
      and whether the apply fails. */
  datatype Occasion = Occasion(src: Source, before: PolicyStatus, now: int, applyError: Option<string>)

  /** What a round makes of them: the statuses it leaves, the rules it emits, the status it reports. */
  datatype Effect = Effect(left: seq<FqdnStatus>, egress: seq<Rule>, report: PolicyStatus)

  /** The status a round reports. */
  ghost predicate Reports(o: Occasion, results: seq<Result>, e: Effect) {
    var st := e.report;
    && Tidied(e.left, st.fqdns)
    && st.active == ActiveCount(e.left)
    && st.active + st.failing == |e.left|
    && st.applied == PeerCount(e.egress)
    && st.total == |AllCidrs(results)|
    && st.resolved == ResolvedOf(o.src, o.before.resolved, results, o.now)
    && st.ready == ReadyOf(o.src, o.before.ready, o.applyError, e.egress, o.now)
    && st.observed == o.src.generation
  }

  /** A possible effect of a round. */
  ghost predicate Effects(parse: Parser, o: Occasion, results: seq<Result>, e: Effect) {
    Computes(parse, o.src, o.before.fqdns, results, o.now, e.left, e.egress) && Reports(o, results, e)
  }

  /** The stored status, sorted, is the reported one. */
  ghost predicate SameStatus(before: PolicyStatus, st: PolicyStatus) {
    Tidied(before.fqdns, st.fqdns) && before.(fqdns := st.fqdns) == st
  }

  // ------------------------------------------------------------------ the round

  /** The policy object of one reconciliation, its status rewritten step by step. */
  class NetworkPolicy {
    const src: Source
    var fqdns: seq<FqdnStatus>
    var active: int
    var failing: int
    var applied: int
    var total: int
    var resolved: Condition<Reason>
    var ready: Condition<ReadyReason>
    var observed: int

    function View(): PolicyStatus
      reads this
    {
      PolicyStatus(fqdns, active, failing, applied, total, resolved, ready, observed)
    }

    constructor (src: Source, st: PolicyStatus)
      ensures this.src == src && View() == st
    {
      this.src := src;
      fqdns, active, failing, applied := st.fqdns, st.active, st.failing, st.applied;
      total, resolved, ready, observed := st.total, st.resolved, st.ready, st.observed;
    }

    method SetResolvedCondition(results: seq<Result>, now: int)
      modifies this`resolved
      ensures resolved == ResolvedOf(src, old(resolved), results, now)
    {
      var reason := AggregatedResolutionStatus(results);
      var message := AggregatedResolutionMessage(results);
      resolved := SetCondition(resolved, reason == Success, reason, message, src.generation, now);
    }

    /** The two counts of addresses and the Resolved condition. */
    method Record(results: seq<Result>, mnp: MultiNetworkPolicy, now: int)
      modifies this`total, this`applied, this`resolved
      ensures total == |AllCidrs(results)| && applied == PeerCount(mnp.egress)
      ensures resolved == ResolvedOf(src, old(resolved), results, now)
    {
      var cidrs := ResultCidrs(results);
      total := |cidrs|;
      applied := mnp.CountUniqueAddresses();
      SetResolvedCondition(results, now);
    }

    method SetReadyConditionTrue(reason: ReadyReason, message: string, now: int)
      modifies this`ready, this`observed
      ensures observed == src.generation
      ensures ready == SetCondition(old(ready), true, reason, message, src.generation, now)
    {
      ready := SetCondition(ready, true, reason, message, src.generation, now);
      observed := src.generation;
    }

    method SetReadyConditionFalse(reason: ReadyReason, message: string, now: int)
      modifies this`ready
      ensures ready == SetCondition(old(ready), false, reason, message, src.generation, now)
    {
      ready := SetCondition(ready, false, reason, message, src.generation, now);
    }

    /** `updateStatusIfNeeded`: count, sort both statuses, write if they differ. A write made from
        an outdated status is rejected, and any write may be lost; both leave the stored status. */
    method UpdateStatusIfNeeded(cluster: Cluster<PolicyStatus>, previous: PolicyStatus, writeLost: bool)
      returns (written: bool)
      modifies this, cluster`status
      ensures src.generation == observed && Tidied(old(fqdns), fqdns)
      ensures active == ActiveCount(old(fqdns)) && active + failing == |old(fqdns)|
      ensures View() == old(View()).(fqdns := fqdns, active := active, failing := failing, observed := observed)
      ensures written ==> !writeLost && previous == old(cluster.status) && cluster.status == View()
      ensures !written ==>
                && cluster.status == old(cluster.status)
                && (writeLost || previous != old(cluster.status) || SameStatus(previous, View()))
      ensures !writeLost && previous == old(cluster.status) ==> cluster.status.(fqdns := fqdns) == View()
      ensures Steady(previous, View()) ==> !written
    {
      observed := src.generation;
      active, failing := CountFqdns(fqdns);
      fqdns := SortStatuses(fqdns);
      var was := SortStatuses(previous.fqdns);
      SteadySorts(previous, was, View());
      if previous.(fqdns := was) == View() {
        return false;
      }
      if writeLost || cluster.status != previous {
        return false;
      }
      cluster.status := View();
      return true;
    }
  }

  /** The stored status is the reported one, sorted already and without conflicting entries. */
  ghost predicate Steady(before: PolicyStatus, st: PolicyStatus) {
    before == st && DistinctFqdns(st.fqdns) && FaithfulAll(st.fqdns) && Tidied(st.fqdns, st.fqdns)
  }

  lemma SteadySorts(previous: PolicyStatus, was: seq<FqdnStatus>, st: PolicyStatus)
    requires Tidied(previous.fqdns, was)
    ensures Steady(previous, st) ==> was == st.fqdns
  {
    if Steady(previous, st) {
      TidiedUnique(st.fqdns, st.fqdns, was, st.fqdns);
    }
  }

  /** The object made from the compiled rules, duplicates removed. */
  method MakePolicy(parse: Parser, spec: Spec, statuses: seq<FqdnStatus>) returns (mnp: MultiNetworkPolicy)
    requires spec.egress != []
    ensures fresh(mnp) && Canonical(TableOf(Compile(parse, spec, statuses)), mnp.egress)
  {
    var compiled := ToMultiNetworkPolicy(parse, spec, statuses);
    mnp := new MultiNetworkPolicy(compiled.value);
    RemoveDuplicateCIDRs(mnp);
  }

  /** From the results to the ledgers and the rules. */
  method Derive(parse: Parser, src: Source, previous: seq<FqdnStatus>, results: seq<Result>, now: int)
    returns (statuses: seq<FqdnStatus>, mnp: MultiNetworkPolicy, events: seq<Event>)
    requires src.spec.egress != [] && DistinctResults(results)
    ensures fresh(mnp) && Computes(parse, src, previous, results, now, statuses, mnp.egress)
    ensures Warns(Lookup(previous), results, src.spec.retryTimeout, now, events)
  {
    statuses, events := LedgerRound(previous, results, src.spec.retryTimeout, src.retention, now);
    mnp := MakePolicy(parse, src.spec, statuses);
  }

  /** From the results to the rules and the status so far. */
  method Compute(parse: Parser, np: NetworkPolicy, results: seq<Result>, now: int)
    returns (mnp: MultiNetworkPolicy, events: seq<Event>)
    requires np.src.spec.egress != [] && DistinctResults(results)
    modifies np
    ensures fresh(mnp)
    ensures Computes(parse, np.src, old(np.fqdns), results, now, np.fqdns, mnp.egress)
    ensures np.total == |AllCidrs(results)| && np.applied == PeerCount(mnp.egress)
    ensures np.resolved == ResolvedOf(np.src, old(np.resolved), results, now) && np.ready == old(np.ready)
    ensures Warns(Lookup(old(np.fqdns)), results, np.src.spec.retryTimeout, now, events)
  {
    var statuses;
    statuses, mnp, events := Derive(parse, np.src, np.fqdns, results, now);
    np.fqdns := statuses;
    np.Record(results, mnp, now);
  }

  /** From the rules to the live object and the Ready condition. */
  method ApplyRules(cluster: Cluster<PolicyStatus>, np: NetworkPolicy,
                    mnp: MultiNetworkPolicy, applyError: Option<string>, now: int)
    returns (op: Operation)
    modifies cluster`live, np`ready, np`observed
    ensures cluster.live == if applyError.Some? then old(cluster.live) else Some(Desired(np.src, mnp.egress))
    ensures op == ApplyError <==> applyError.Some?
    ensures op == ObjectCreated <==> applyError.None? && old(cluster.live) == None
    ensures op == NoChange <==> applyError.None? && old(cluster.live) == Some(Desired(np.src, mnp.egress))
    ensures applyError.None? ==> cluster.live.Some? && Attaches(np.src, mnp.egress, cluster.live.value)
    ensures np.ready == ReadyOf(np.src, old(np.ready), applyError, mnp.egress, now)
  {
    var selector := ToSelector(np.src.matchLabels, np.src.matchExpressions);
    var annotations := map[POLICY_FOR := np.src.namespace + "/" + np.src.target];
    DesiredAttaches(np.src, mnp.egress);
    op := cluster.CreateOrUpdate(Manifest(np.src.labels, annotations, selector, mnp.egress), applyError.Some?);
    if applyError.Some? {
      np.SetReadyConditionFalse(ReadyFailure, "Network policy failed to apply: " + applyError.value + ".", now);
    } else if mnp.IsEmpty() {
      np.SetReadyConditionTrue(EmptyRules, EMPTY_MESSAGE, now);
    } else {
      np.SetReadyConditionTrue(ReadySuccess, APPLIED_MESSAGE, now);
    }
  }

  /** From the rules to what is stored: the object, and the status so far completed and written. */
  method Conclude(cluster: Cluster<PolicyStatus>, np: NetworkPolicy, mnp: MultiNetworkPolicy,
                  previous: PolicyStatus, ghost results: seq<Result>, now: int, faults: Faults)
    returns (op: Operation, written: bool)
    requires np.total == |AllCidrs(results)| && np.applied == PeerCount(mnp.egress) && np.ready == previous.ready
    requires np.resolved == ResolvedOf(np.src, previous.resolved, results, now)
    modifies cluster, np
    ensures Reports(Occasion(np.src, previous, now, faults.applyError), results,
                    Effect(old(np.fqdns), mnp.egress, np.View()))
    ensures cluster.live == if faults.applyError.Some? then old(cluster.live) else Some(Desired(np.src, mnp.egress))
    ensures op == ApplyError <==> faults.applyError.Some?
    ensures op == ObjectCreated <==> faults.applyError.None? && old(cluster.live) == None
    ensures op == NoChange <==> faults.applyError.None? && old(cluster.live) == Some(Desired(np.src, mnp.egress))
    ensures faults.applyError.None? ==> cluster.live.Some? && Attaches(np.src, mnp.egress, cluster.live.value)
    ensures written ==> !faults.writeLost && previous == old(cluster.status) && cluster.status == np.View()
    ensures !written ==>
              && cluster.status == old(cluster.status)
              && (faults.writeLost || previous != old(cluster.status) || SameStatus(previous, np.View()))
    ensures !faults.writeLost && previous == old(cluster.status) ==> cluster.status.(fqdns := np.fqdns) == np.View()
    ensures Steady(previous, np.View()) ==> !written
  {
    op := ApplyRules(cluster, np, mnp, faults.applyError, now);
    written := np.UpdateStatusIfNeeded(cluster, previous, faults.writeLost);
  }

  /** `Reconcile` after the lookups, for a policy with rules. `seen` is the status as read, which
      may be an older one than the stored. */
  method Round(parse: Parser, cluster: Cluster<PolicyStatus>, src: Source,
               seen: PolicyStatus, results: seq<Result>, now: int, faults: Faults)
    returns (ghost e: Effect, report: PolicyStatus, egress: seq<Rule>, events: seq<Event>, op: Operation, written: bool)
    requires src.spec.egress != [] && DistinctResults(results)
    modifies cluster
    ensures Effects(parse, Occasion(src, seen, now, faults.applyError), results, e)
    ensures report == e.report && egress == e.egress
    ensures Warns(Lookup(seen.fqdns), results, src.spec.retryTimeout, now, events)
    ensures cluster.live == if faults.applyError.Some? then old(cluster.live) else Some(Desired(src, egress))
    ensures op == ApplyError <==> faults.applyError.Some?
    ensures op == ObjectCreated <==> faults.applyError.None? && old(cluster.live) == None
    ensures op == NoChange <==> faults.applyError.None? && old(cluster.live) == Some(Desired(src, egress))
    ensures faults.applyError.None? ==> cluster.live.Some? && Attaches(src, egress, cluster.live.value)
    ensures written ==> !faults.writeLost && seen == old(cluster.status) && cluster.status == report
    ensures !written ==>
              && cluster.status == old(cluster.status)
              && (faults.writeLost || seen != old(cluster.status) || SameStatus(seen, report))
    ensures !faults.writeLost && seen == old(cluster.status) ==> cluster.status.(fqdns := report.fqdns) == report
    ensures Steady(seen, report) ==> !written
  {
    var np := new NetworkPolicy(src, seen);
    var mnp;
    mnp, events := Compute(parse, np, results, now);
    egress := mnp.egress;
    ghost var left := np.fqdns;
    op, written := Conclude(cluster, np, mnp, seen, results, now, faults);
    report := np.View();
    e := Effect(left, egress, report);
  }
}
