/** What a round reports: sorted lists, counts and the aggregate outcome
    (internal/controller/networkpolicy_controller.go:311-344, pkg/network/resolver.go:115-202). */
module Bookkeeping {
  import opened Text
  import opened Sorting
  import opened Status

  // ------------------------------------------------------------------ sorting the statuses

  /** The same status, its entries sorted by address. */
  ghost predicate Ordered(a: FqdnStatus, b: FqdnStatus) {
    StoredAs(a, b) && SortedBy(AddressOf, b.addresses)
  }

  /** `mid` is the list sorted by name, `r` that with every status ordered. */
  ghost predicate Tidy(s: seq<FqdnStatus>, mid: seq<FqdnStatus>, r: seq<FqdnStatus>) {
    && multiset(mid) == multiset(s) && SortedBy(FqdnOf, mid)
    && |r| == |mid|
    && forall i :: 0 <= i < |r| ==> Ordered(mid[i], r[i])
  }

  ghost predicate Tidied(s: seq<FqdnStatus>, r: seq<FqdnStatus>) {
    exists mid :: Tidy(s, mid, r)
  }

  method SortStatuses(s: seq<FqdnStatus>) returns (r: seq<FqdnStatus>)
    ensures Tidied(s, r)
  {
    r := Sort(FqdnOf, s);
    ghost var mid := r;
    for i := 0 to |r|
      invariant |r| == |mid|
      invariant forall k :: i <= k < |r| ==> r[k] == mid[k]
      invariant forall k :: 0 <= k < i ==> Ordered(mid[k], r[k])
    {
      var entries := Sort(AddressOf, r[i].addresses);
      r := r[i := r[i].(addresses := entries)];
    }
    assert Tidy(s, mid, r);
  }

  lemma ListsByName(s: seq<FqdnStatus>)
    requires DistinctFqdns(s)
    ensures Lists(FqdnOf, s, Lookup(s).Keys, Lookup(s))
  {
    LookupFinds(s);
    ListsKeys(s, Lookup(s));
  }

  lemma ListsKeys(s: seq<FqdnStatus>, m: Book)
    requires DistinctFqdns(s)
    requires forall x :: x in s ==> x.fqdn in m && m[x.fqdn] == x
    requires forall f :: f in m ==> m[f] in s && m[f].fqdn == f
    ensures Lists(FqdnOf, s, m.Keys, m)
  {
    var ks := KeysOf(FqdnOf, s);
    assert forall i :: 0 <= i < |s| ==> ks[i] == s[i].fqdn && s[i] in s;
    forall f | f in m ensures f in Elements(ks) {
      var i :| 0 <= i < |s| && s[i] == m[f];
      assert ks[i] == f;
    }
  }

  lemma OrderedUnique(a: FqdnStatus, b: FqdnStatus, x: FqdnStatus, y: FqdnStatus)
    requires Ordered(a, x) && Ordered(b, y) && StoredAs(a, b) && KeyFaithful(AddressOf, a.addresses)
    ensures x == y
  {
    FaithfulAny(a.addresses, x.addresses);
    SortedUnique(AddressOf, x.addresses, y.addresses);
  }

  lemma FaithfulAny(a: seq<Entry>, b: seq<Entry>)
    requires multiset(a) == multiset(b) && KeyFaithful(AddressOf, a)
    ensures KeyFaithful(AddressOf, b)
  {
    SameMultisetSameElements(a, b);
    forall i, j | 0 <= i < |b| && 0 <= j < |b| && AddressOf(b[i]) == AddressOf(b[j]) ensures b[i] == b[j] {
      assert b[i] in Elements(b) && b[j] in Elements(b);
      assert b[i] in a && b[j] in a;
    }
  }

  /** No address has two different entries. */
  ghost predicate FaithfulAll(s: seq<FqdnStatus>) {
    forall x :: x in s ==> KeyFaithful(AddressOf, x.addresses)
  }

  lemma TidyListing(s: seq<FqdnStatus>, mid: seq<FqdnStatus>, r: seq<FqdnStatus>)
    requires DistinctFqdns(s) && Tidy(s, mid, r)
    ensures mid == Listing(Lookup(s))
  {
    ListsByName(s);
    SortedListing(FqdnOf, s, Lookup(s), mid);
  }

  lemma ListingAt(m: Book, i: nat)
    requires i < |Listing(m)|
    ensures Ascending(m.Keys)[i] in m && Listing(m)[i] == m[Ascending(m.Keys)[i]]
  {
    assert Ascending(m.Keys)[i] in Elements(Ascending(m.Keys));
  }

  /** Sorting hides the order of the statuses and of their entries. */
  lemma TidiedUnique(s: seq<FqdnStatus>, s': seq<FqdnStatus>, r: seq<FqdnStatus>, r': seq<FqdnStatus>)
    requires DistinctFqdns(s) && DistinctFqdns(s') && FaithfulAll(s)
    requires SameUpToOrder(Lookup(s), Lookup(s'))
    requires Tidied(s, r) && Tidied(s', r')
    ensures r == r'
  {
    var mid :| Tidy(s, mid, r);
    var mid' :| Tidy(s', mid', r');
    var m, m' := Lookup(s), Lookup(s');
    TidyListing(s, mid, r);
    TidyListing(s', mid', r');
    LookupFinds(s);
    forall i | 0 <= i < |r| ensures r[i] == r'[i] {
      ListingAt(m, i);
      ListingAt(m', i);
      OrderedUnique(mid[i], mid'[i], r[i], r'[i]);
    }
  }

  ghost predicate NamedAt(m: Book, name: string, x: FqdnStatus) {
    x.fqdn == name && name in m && StoredAs(m[name], x)
  }

  /** The list holds, name by name, the map's statuses up to the order of entries. */
  ghost predicate ByName(m: Book, names: seq<string>, r: seq<FqdnStatus>) {
    |r| == |names| && forall i :: 0 <= i < |r| ==> NamedAt(m, names[i], r[i])
  }

  lemma OrderedNamed(m: Book, name: string, a: FqdnStatus, b: FqdnStatus)
    requires name in m && m[name] == a && a.fqdn == name && Ordered(a, b)
    ensures NamedAt(m, name, b)
  {
  }

  lemma TidiedByName(s: seq<FqdnStatus>, r: seq<FqdnStatus>)
    requires DistinctFqdns(s) && Tidied(s, r)
    ensures ByName(Lookup(s), Ascending(Lookup(s).Keys), r)
  {
    var mid :| Tidy(s, mid, r);
    var m := Lookup(s);
    TidyListing(s, mid, r);
    LookupFinds(s);
    var names := Ascending(m.Keys);
    forall i | 0 <= i < |r| ensures NamedAt(m, names[i], r[i]) {
      ListingAt(m, i);
      OrderedNamed(m, names[i], mid[i], r[i]);
    }
  }

  lemma ByNameDistinct(m: Book, names: seq<string>, r: seq<FqdnStatus>)
    requires ByName(m, names, r) && StrictlySorted(names)
    ensures DistinctFqdns(r) && SortedBy(FqdnOf, r)
  {
    StrictHasNoDuplicates(names);
    forall i, j | 0 <= i < j < |r| ensures r[i].fqdn != r[j].fqdn && Leq(r[i].fqdn, r[j].fqdn) {
      assert NamedAt(m, names[i], r[i]) && NamedAt(m, names[j], r[j]);
      LessImpliesLeq(names[i], names[j]);
    }
  }

  lemma ByNameLookup(m: Book, names: seq<string>, r: seq<FqdnStatus>)
    requires ByName(m, names, r) && Elements(names) == m.Keys && DistinctFqdns(r)
    ensures SameUpToOrder(m, Lookup(r))
  {
    LookupFinds(r);
    forall f | f in m ensures f in Lookup(r) && StoredAs(m[f], Lookup(r)[f]) {
      assert f in Elements(names);
      var i :| 0 <= i < |names| && names[i] == f;
      assert NamedAt(m, names[i], r[i]) && r[i] in r;
    }
    forall f | f in Lookup(r) ensures f in m {
      var i :| 0 <= i < |r| && r[i] == Lookup(r)[f];
      assert NamedAt(m, names[i], r[i]);
    }
  }

  lemma TidyOrdered(s: seq<FqdnStatus>, r: seq<FqdnStatus>)
    requires Tidied(s, r)
    ensures forall i :: 0 <= i < |r| ==> Ordered(r[i], r[i])
  {
  }

  /** What sorting leaves: the same names, each with its status up to the order of entries. */
  lemma TidiedKeeps(s: seq<FqdnStatus>, r: seq<FqdnStatus>)
    requires DistinctFqdns(s) && Tidied(s, r)
    ensures DistinctFqdns(r) && SameUpToOrder(Lookup(s), Lookup(r))
    ensures Tidied(r, r)
  {
    var names := Ascending(Lookup(s).Keys);
    TidiedByName(s, r);
    ByNameDistinct(Lookup(s), names, r);
    ByNameLookup(Lookup(s), names, r);
    TidyOrdered(s, r);
    assert Tidy(r, r, r);
  }

  // ------------------------------------------------------------------ counts

  function ActiveCount(s: seq<FqdnStatus>): nat {
    if s == [] then 0
    else ActiveCount(s[..|s| - 1]) + if s[|s| - 1].addresses != [] then 1 else 0
  }

  method CountFqdns(s: seq<FqdnStatus>) returns (active: nat, failing: nat)
    ensures active == ActiveCount(s) && active + failing == |s|
  {
    active, failing := 0, 0;
    for i := 0 to |s|
      invariant active == ActiveCount(s[..i]) && active + failing == i
    {
      assert s[..i + 1][..i] == s[..i];
      if |s[i].addresses| > 0 {
        active := active + 1;
      } else {
        failing := failing + 1;
      }
    }
    assert s[..|s|] == s;
  }

  /** The names that hold an address. */
  function ActiveNames(m: Book): set<string> {
    set f | f in m && m[f].addresses != []
  }

  /** With distinct names the count is the number of names that hold an address. */
  lemma {:induction false} ActiveMeans(s: seq<FqdnStatus>)
    requires DistinctFqdns(s)
    ensures ActiveCount(s) == |ActiveNames(Lookup(s))|
    ensures |s| == |Lookup(s)|
  {
    if s != [] {
      var init, last := s[..|s| - 1], s[|s| - 1];
      assert s == init + [last];
      ActiveMeans(init);
      LookupFinds(init);
      assert last.fqdn !in Lookup(init);
      ActiveNext(Lookup(init), last);
    }
  }

  lemma MapGrows<T>(m: map<string, T>, k: string, v: T)
    requires k !in m
    ensures |m[k := v]| == |m| + 1
  {
    assert m[k := v].Keys == m.Keys + {k};
  }

  lemma ActiveNext(m: Book, s: FqdnStatus)
    requires s.fqdn !in m
    ensures |ActiveNames(m[s.fqdn := s])| == |ActiveNames(m)| + if s.addresses != [] then 1 else 0
    ensures |m[s.fqdn := s]| == |m| + 1
  {
    var n := m[s.fqdn := s];
    if s.addresses != [] {
      assert ActiveNames(n) == ActiveNames(m) + {s.fqdn};
    } else {
      assert ActiveNames(n) == ActiveNames(m);
    }
    MapGrows(m, s.fqdn, s);
  }

  // ------------------------------------------------------------------ results as a list

  /** `DNSResolverResultList.CIDRs`. */
  function AllCidrs(results: seq<Result>): seq<string> {
    if results == [] then [] else AllCidrs(results[..|results| - 1]) + results[|results| - 1].cidrs
  }

  method ResultCidrs(results: seq<Result>) returns (cidrs: seq<string>)
    ensures cidrs == AllCidrs(results)
  {
    cidrs := [];
    for i := 0 to |results|
      invariant cidrs == AllCidrs(results[..i])
    {
      assert results[..i + 1][..i] == results[..i];
      cidrs := cidrs + results[i].cidrs;
    }
    assert results[..|results|] == results;
  }

  /** All CIDRs, result after result. */
  lemma {:induction false} AllCidrsOf(a: seq<Result>, b: seq<Result>, r: Result)
    ensures AllCidrs([]) == [] && AllCidrs([r]) == r.cidrs && AllCidrs(a + b) == AllCidrs(a) + AllCidrs(b)
  {
    assert [r][..0] == [];
    if b == [] {
      assert a + b == a;
    } else {
      AllCidrsOf(a, b[..|b| - 1], r);
      assert (a + b)[..|a + b| - 1] == a + b[..|b| - 1];
    }
  }

  lemma {:induction false} CidrCount(results: seq<Result>)
    ensures |AllCidrs(results)| == Sum((r: Result) => |r.cidrs|, results)
  {
    if results != [] {
      CidrCount(results[..|results| - 1]);
    }
  }

  /** The raw address count does not depend on the order of the results. */
  lemma CidrCountPermuted(a: seq<Result>, b: seq<Result>)
    requires multiset(a) == multiset(b)
    ensures |AllCidrs(a)| == |AllCidrs(b)|
  {
    CidrCount(a);
    CidrCount(b);
    SumPermuted((r: Result) => |r.cidrs|, a, b);
  }

  /** `AggregatedResolutionStatus`: success if every lookup succeeded, failure if none did. */
  method AggregatedResolutionStatus(results: seq<Result>) returns (r: Reason)
    ensures r == Aggregate(results)
  {
    if |results| == 0 {
      return Success;
    }
    var successes := 0;
    for i := 0 to |results|
      invariant 0 <= successes <= i
      invariant successes == i <==> forall k :: 0 <= k < i ==> results[k].reason == Success
      invariant successes == 0 <==> forall k :: 0 <= k < i ==> results[k].reason != Success
    {
      if results[i].reason == Success {
        successes := successes + 1;
      }
    }
    assert forall x :: x in results <==> exists k :: 0 <= k < |results| && results[k] == x;
    if successes == |results| {
      return Success;
    }
    if successes == 0 {
      return Failure;
    }
    return PartialSuccess;
  }

  function Aggregate(results: seq<Result>): Reason {
    if forall r :: r in results ==> r.reason == Success then Success
    else if forall r :: r in results ==> r.reason != Success then Failure
    else PartialSuccess
  }

  lemma AggregatePermuted(a: seq<Result>, b: seq<Result>)
    requires multiset(a) == multiset(b)
    ensures Aggregate(a) == Aggregate(b)
  {
    SameMultisetSameElements(a, b);
    assert forall x :: x in a <==> x in Elements(a);
    assert forall x :: x in b <==> x in Elements(b);
  }

  // ------------------------------------------------------------------ the aggregate message

  function SuccessCount(results: seq<Result>): nat {
    Sum((r: Result) => if r.reason == Success then 1 else 0, results)
  }

  /** The first failure of the highest priority; -1 if no lookup failed. */
  function Worst(results: seq<Result>): (w: int)
    ensures -1 <= w < |results|
    ensures w == -1 <==> forall i :: 0 <= i < |results| ==> results[i].reason == Success
    ensures w != -1 ==> results[w].reason != Success
    ensures w != -1 ==> forall i :: 0 <= i < |results| && results[i].reason != Success ==>
                          results[i].reason.Priority() <= results[w].reason.Priority()
    ensures w != -1 ==> forall i :: 0 <= i < w && results[i].reason != Success ==>
                          results[i].reason.Priority() < results[w].reason.Priority()
  {
    if results == [] then -1
    else
      var n := |results| - 1;
      var w := Worst(results[..n]);
      if results[n].reason != Success && (w == -1 || results[n].reason.Priority() > results[w].reason.Priority()) then n
      else w
  }

  /** What is quoted of a failure: its description, and the error's own text if that differs. */
  function Sample(r: Result): string {
    if r.message == r.raw then r.message else r.message + ": " + r.raw
  }

  function AggregateMessage(results: seq<Result>): string {
    var total, successes, w := |results|, SuccessCount(results), Worst(results);
    if total == 0 then "Network policy has no FQDNs defined."
    else if successes == total then "All " + Itoa(total) + " FQDNs resolved successfully."
    else Opening(total, successes) + (if w == -1 then "Unknown error" else Sample(results[w])) + "."
  }

  function Opening(total: nat, successes: nat): string {
    if successes == 0 then "Failed to resolve any of the " + Itoa(total) + " FQDNs. "
    else "Partially resolved (" + Itoa(successes) + "/" + Itoa(total) + " FQDNs). "
  }

  /** `AggregatedResolutionMessage`. */
  method AggregatedResolutionMessage(results: seq<Result>) returns (message: string)
    ensures message == AggregateMessage(results)
  {
    var total := |results|;
    if total == 0 {
      return "Network policy has no FQDNs defined.";
    }
    var successes, worst := 0, -1;
    for i := 0 to total
      invariant successes == SuccessCount(results[..i])
      invariant worst == Worst(results[..i])
    {
      assert results[..i + 1][..i] == results[..i];
      if results[i].reason == Success {
        successes := successes + 1;
      } else if worst == -1 || results[i].reason.Priority() > results[worst].reason.Priority() {
        worst := i;
      }
    }
    assert results[..total] == results;
    if successes == total {
      return "All " + Itoa(total) + " FQDNs resolved successfully.";
    }
    var sample := "Unknown error";
    if worst != -1 {
      if results[worst].message == results[worst].raw {
        sample := results[worst].message;
      } else {
        sample := results[worst].message + ": " + results[worst].raw;
      }
    }
    if successes == 0 {
      return "Failed to resolve any of the " + Itoa(total) + " FQDNs. " + sample + ".";
    }
    return "Partially resolved (" + Itoa(successes) + "/" + Itoa(total) + " FQDNs). " + sample + ".";
  }

  /** A failure no other failure outranks. */
  predicate WorstFailure(results: seq<Result>, r: Result) {
    && r in results && r.reason != Success
    && forall s :: s in results && s.reason != Success ==> s.reason.Priority() <= r.reason.Priority()
  }

  /** All failures of the highest priority quote the same. */
  predicate OneSample(results: seq<Result>) {
    forall r, s :: r in results && s in results && WorstFailure(results, r) && WorstFailure(results, s) ==>
      Sample(r) == Sample(s)
  }

  lemma {:induction false} SuccessBounds(results: seq<Result>)
    ensures SuccessCount(results) <= |results|
    ensures SuccessCount(results) == |results| <==> forall r :: r in results ==> r.reason == Success
    ensures SuccessCount(results) == 0 <==> forall r :: r in results ==> r.reason != Success
  {
    if results != [] {
      var init, last := results[..|results| - 1], results[|results| - 1];
      assert results == init + [last];
      SuccessBounds(init);
    }
  }

  // ------------------------------------------------------------------ what the message says

  /** Which outcome is quoted before which. */
  predicate Graver(a: Reason, b: Reason) {
    match a
    case Failure => b != Failure
    case PartialSuccess => b !in {Failure, PartialSuccess}
    case Error => b !in {Failure, PartialSuccess, Error}
    case HostNotFound => b in {InvalidFormat, Timeout, TemporaryError, Success, Unset}
    case InvalidFormat => b in {Timeout, TemporaryError, Success, Unset}
    case Timeout => b in {TemporaryError, Success, Unset}
    case TemporaryError => b in {Success, Unset}
    case _ => false
  }

  lemma GraverIff()
    ensures forall a: Reason, b: Reason :: Graver(a, b) <==> a.Priority() > b.Priority()
  {
  }

  /** The first of the gravest failures. */
  ghost predicate Quoted(results: seq<Result>, w: int) {
    && 0 <= w < |results| && results[w].reason != Success
    && (forall i :: 0 <= i < |results| && results[i].reason != Success ==>
          !Graver(results[i].reason, results[w].reason))
    && forall i :: 0 <= i < w && results[i].reason != Success ==> Graver(results[w].reason, results[i].reason)
  }

  function Successes(results: seq<Result>): set<int> {
    set i | 0 <= i < |results| && results[i].reason == Success
  }

  lemma {:induction false} SuccessesCounted(results: seq<Result>)
    ensures SuccessCount(results) == |Successes(results)|
  {
    if results != [] {
      var n := |results| - 1;
      SuccessesCounted(results[..n]);
      assert Successes(results) == Successes(results[..n]) + if results[n].reason == Success then {n} else {};
    }
  }

  lemma WorstQuoted(results: seq<Result>)
    ensures Worst(results) != -1 ==> Quoted(results, Worst(results))
  {
    GraverIff();
  }

  /** The message in words: how many lookups succeeded, and of the first of the gravest failures what
      is known, its own text added where that says more. */
  lemma MessageSays(results: seq<Result>) returns (w: int)
    ensures var m, n, k := AggregateMessage(results), |results|, |Successes(results)|;
            && k <= n
            && (n == 0 ==> m == "Network policy has no FQDNs defined.")
            && (n > 0 && k == n ==> m == "All " + Itoa(n) + " FQDNs resolved successfully.")
            && (k < n ==> Quoted(results, w) && var r := results[w];
                          Sample(r) == r.message + if r.raw == r.message then "" else ": " + r.raw)
            && (0 == k < n ==> m == "Failed to resolve any of the " + Itoa(n) + " FQDNs. " + Sample(results[w]) + ".")
            && (0 < k < n ==> m == "Partially resolved (" + Itoa(k) + "/" + Itoa(n) + " FQDNs). "
                                   + Sample(results[w]) + ".")
  {
    w := Worst(results);
    SuccessBounds(results);
    SuccessesCounted(results);
    WorstQuoted(results);
    if w != -1 {
      QuotedSample(results);
    }
  }

  lemma WorstIsWorst(results: seq<Result>)
    requires Worst(results) != -1
    ensures WorstFailure(results, results[Worst(results)])
  {
  }

  /** Put first, a worst failure is the one quoted. */
  lemma HoistedWorst(results: seq<Result>, i: nat)
    requires i < |results| && WorstFailure(results, results[i])
    ensures Worst(Hoist(results, i)) == 0
  {
    var h := Hoist(results, i);
    HoistMultiset(results, i);
    SameMultisetSameElements(h, results);
    assert forall r :: r in h <==> r in Elements(h);
    assert forall r :: r in results <==> r in Elements(results);
    assert h[0] == results[i];
    var w := Worst(h);
    assert w != -1 ==> h[w] in results;
  }

  lemma QuotedSample(results: seq<Result>)
    requires Worst(results) != -1
    ensures AggregateMessage(results)
            == Opening(|results|, SuccessCount(results)) + Sample(results[Worst(results)]) + "."
  {
    SuccessBounds(results);
    assert results[Worst(results)] in results;
  }

  lemma OneSamplePermuted(a: seq<Result>, b: seq<Result>)
    requires multiset(a) == multiset(b)
    ensures OneSample(a) <==> OneSample(b)
  {
    SameMultisetSameElements(a, b);
    assert forall r :: r in a <==> r in Elements(a);
    assert forall r :: r in b <==> r in Elements(b);
  }

  /** If the worst failures quote the same, the message does not depend on the order. */
  lemma MessagePermuted(a: seq<Result>, b: seq<Result>)
    requires multiset(a) == multiset(b) && OneSample(a)
    ensures AggregateMessage(a) == AggregateMessage(b)
  {
    SameMultisetSameElements(a, b);
    assert forall r :: r in a <==> r in Elements(a);
    assert forall r :: r in b <==> r in Elements(b);
    SumPermuted((r: Result) => if r.reason == Success then 1 else 0, a, b);
    SuccessBounds(a);
    SuccessBounds(b);
    if Worst(a) != -1 {
      assert a[Worst(a)] in b;
      assert Worst(b) != -1;
      WorstIsWorst(a);
      WorstIsWorst(b);
      QuotedSample(a);
      QuotedSample(b);
    } else {
      assert forall r :: r in a ==> r.reason == Success;
    }
  }

  lemma SameInside(opening: string, x: string, y: string)
    requires opening + x + "." == opening + y + "."
    ensures x == y
  {
    var s, t := opening + x + ".", opening + y + ".";
    assert s[|opening|..|s| - 1] == x && t[|opening|..|t| - 1] == y;
  }

  lemma HoistedMessage(results: seq<Result>, i: nat)
    requires i < |results| && WorstFailure(results, results[i])
    ensures AggregateMessage(Hoist(results, i))
            == Opening(|results|, SuccessCount(results)) + Sample(results[i]) + "."
  {
    HoistMultiset(results, i);
    HoistedWorst(results, i);
    SumPermuted((r: Result) => if r.reason == Success then 1 else 0, results, Hoist(results, i));
    QuotedSample(Hoist(results, i));
  }

  /** Every order of these results gives the same message. */
  ghost predicate MessageOrderHidden(results: seq<Result>) {
    forall b :: multiset(b) == multiset(results) ==> AggregateMessage(b) == AggregateMessage(results)
  }

  /** The message hides the order of the results exactly when the worst failures quote the same. */
  lemma MessageOrderIff(results: seq<Result>)
    ensures MessageOrderHidden(results) <==> OneSample(results)
  {
    if OneSample(results) {
      forall b: seq<Result> | multiset(b) == multiset(results)
        ensures AggregateMessage(b) == AggregateMessage(results)
      {
        MessagePermuted(results, b);
      }
    } else {
      var r, s :| r in results && s in results && WorstFailure(results, r) && WorstFailure(results, s)
                  && Sample(r) != Sample(s);
      var i, j := TwoMessages(results, r, s);
      HoistMultiset(results, i);
      HoistMultiset(results, j);
    }
  }

  /** Different samples show in different orders. */
  lemma TwoMessages(results: seq<Result>, r: Result, s: Result) returns (i: nat, j: nat)
    requires WorstFailure(results, r) && WorstFailure(results, s) && Sample(r) != Sample(s)
    ensures i < |results| && j < |results| && results[i] == r && results[j] == s
    ensures AggregateMessage(Hoist(results, i)) != AggregateMessage(Hoist(results, j))
  {
    i :| 0 <= i < |results| && results[i] == r;
    j :| 0 <= j < |results| && results[j] == s;
    HoistedMessage(results, i);
    HoistedMessage(results, j);
    if AggregateMessage(Hoist(results, i)) == AggregateMessage(Hoist(results, j)) {
      SameInside(Opening(|results|, SuccessCount(results)), Sample(r), Sample(s));
    }
  }

  function NotFound(fqdn: string): Result {
    Result(fqdn, HostNotFound, "Domain not found or no address records exist", "lookup " + fqdn + ": no such host", [])
  }

  /** Two names that do not exist: the message names whichever came first. */
  lemma TwoNotFound(f: string, g: string)
    requires f != g
    ensures AggregateMessage([NotFound(f), NotFound(g)]) != AggregateMessage([NotFound(g), NotFound(f)])
  {
    var results := [NotFound(f), NotFound(g)];
    assert Hoist(results, 0) == results && Hoist(results, 1) == [NotFound(g), NotFound(f)];
    HoistedMessage(results, 0);
    HoistedMessage(results, 1);
    SamplesDiffer(f, g);
    if AggregateMessage(Hoist(results, 0)) == AggregateMessage(Hoist(results, 1)) {
      SameInside(Opening(2, SuccessCount(results)), Sample(NotFound(f)), Sample(NotFound(g)));
    }
  }

  lemma SamplesDiffer(f: string, g: string)
    requires f != g
    ensures Sample(NotFound(f)) != Sample(NotFound(g))
  {
    var x, y := NotFound(f).raw, NotFound(g).raw;
    var description := "Domain not found or no address records exist";
    assert description[0] == 'D' && x[0] == 'l' && y[0] == 'l';
    assert NotFound(f).message == description != x && NotFound(g).message == description != y;
    assert x[7..|x| - 14] == f && y[7..|y| - 14] == g;
    var p := NotFound(f).message + ": ";
    assert Sample(NotFound(f)) == p + x && Sample(NotFound(g)) == p + y;
    assert (p + x)[|p|..] == x && (p + y)[|p|..] == y;
  }
}
