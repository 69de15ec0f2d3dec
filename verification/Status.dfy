/** Spec, status and lookup results of a policy (api/v1alpha1/networkpolicy_types.go). */
module Status {
  import opened Policy

  /** `NetworkPolicyResolutionReason`; `Unset` is the empty string of a new status. */
  datatype Reason =
    | Unset
    | Success
    | PartialSuccess
    | Failure
    | Error
    | HostNotFound
    | InvalidFormat
    | Timeout
    | TemporaryError
  {
    function Priority(): int {
      match this
      case Failure => 100
      case PartialSuccess => 90
      case Error => 10
      case HostNotFound => 8
      case InvalidFormat => 6
      case Timeout => 4
      case TemporaryError => 2
      case _ => 0
    }

    predicate Transient() {
      Timeout? || TemporaryError? || Error?
    }
  }

  /** The failures that may pass of themselves. */
  const PASSING: set<Reason> := {Timeout, TemporaryError, Error}

  /** A ledger entry: an address, and since when lookups miss it. */
  datatype Entry = Entry(address: string, missingSince: Option<int>)

  datatype FqdnStatus = FqdnStatus(
    fqdn: string, failingSince: Option<int>, lastTransition: int,
    reason: Reason, message: string, addresses: seq<Entry>)

  /** Statuses by name. */
  type Book = map<string, FqdnStatus>

  /** The outcome of one lookup: for a failure its description and the error's own text; the
      CIDRs printed. */
  datatype Result = Result(fqdn: string, reason: Reason, message: string, raw: string, cidrs: seq<string>)

  datatype SpecPort = SpecPort(protocol: string, port: Option<int>, endPort: Option<int>)

  datatype EgressRule = EgressRule(toFqdns: seq<string>, ports: seq<SpecPort>, blockPrivateIPs: Option<bool>)

  datatype Spec = Spec(egress: seq<EgressRule>, blockPrivateIPs: bool, retryTimeout: int)

  /** Whether a rule lets an address pass: only a private one can be held back, by the rule's own
      flag if it has one, else by the policy's. */
  predicate Passes(private: bool, globalBlock: bool, ruleBlock: Option<bool>) {
    private ==> ruleBlock == Some(false) || (ruleBlock == None && !globalBlock)
  }

  /** The addresses of a ledger. */
  function AddressSet(entries: seq<Entry>): set<string> {
    set e | e in entries :: e.address
  }

  function FqdnOf(s: FqdnStatus): string {
    s.fqdn
  }

  function AddressOf(e: Entry): string {
    e.address
  }

  /** `LookupTable`: a later status replaces an earlier one of the same name. */
  function Lookup(statuses: seq<FqdnStatus>): Book {
    if statuses == [] then map[]
    else
      var last := statuses[|statuses| - 1];
      Lookup(statuses[..|statuses| - 1])[last.fqdn := last]
  }

  lemma {:induction false} LookupLast(statuses: seq<FqdnStatus>, s: FqdnStatus)
    ensures s.fqdn in Lookup(statuses) && Lookup(statuses)[s.fqdn] == s
            <==> exists i :: 0 <= i < |statuses| && statuses[i] == s
                             && forall j :: i < j < |statuses| ==> statuses[j].fqdn != s.fqdn
  {
    if statuses != [] {
      var init, last := statuses[..|statuses| - 1], statuses[|statuses| - 1];
      LookupLast(init, s);
      assert statuses[|init|] == last && forall i :: 0 <= i < |init| ==> statuses[i] == init[i];
    }
  }

  lemma {:induction false} LookupNamed(statuses: seq<FqdnStatus>)
    ensures forall f :: f in Lookup(statuses) ==> Lookup(statuses)[f].fqdn == f
  {
    if statuses != [] {
      LookupNamed(statuses[..|statuses| - 1]);
    }
  }

  method LookupTable(statuses: seq<FqdnStatus>) returns (m: Book)
    ensures m == Lookup(statuses)
  {
    m := map[];
    for i := 0 to |statuses|
      invariant m == Lookup(statuses[..i])
    {
      assert statuses[..i + 1][..i] == statuses[..i];
      m := m[statuses[i].fqdn := statuses[i]];
    }
    assert statuses[..|statuses|] == statuses;
  }

  ghost predicate DistinctFqdns(statuses: seq<FqdnStatus>) {
    forall i, j :: 0 <= i < j < |statuses| ==> statuses[i].fqdn != statuses[j].fqdn
  }

  /** With distinct names every status is found under its own. */
  lemma {:induction false} LookupFinds(statuses: seq<FqdnStatus>)
    requires DistinctFqdns(statuses)
    ensures forall s :: s in statuses ==> s.fqdn in Lookup(statuses) && Lookup(statuses)[s.fqdn] == s
    ensures forall f :: f in Lookup(statuses) ==> Lookup(statuses)[f] in statuses && Lookup(statuses)[f].fqdn == f
  {
    if statuses != [] {
      var init, last := statuses[..|statuses| - 1], statuses[|statuses| - 1];
      assert statuses == init + [last];
      LookupFinds(init);
    }
  }

  /** What is read back next round: the status left, its entries possibly in another order. */
  ghost predicate StoredAs(left: FqdnStatus, stored: FqdnStatus) {
    && stored == left.(addresses := stored.addresses)
    && multiset(stored.addresses) == multiset(left.addresses)
  }

  /** The same names with the same statuses, up to the order of their entries. */
  ghost predicate SameUpToOrder(m: Book, n: Book) {
    m.Keys == n.Keys && forall f :: f in m ==> StoredAs(m[f], n[f])
  }
}
