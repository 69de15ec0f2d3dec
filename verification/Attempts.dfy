/** Runs of one name in which writes may be lost, reads may be outdated, and the policy may drop
    the name and list it again (internal/controller/networkpolicy_controller.go:79-97, 346-350). */
module Attempts {
  import opened Policy
  import opened Status
  import opened Ledger
  import opened History

  /** One round of the policy, seen from a name: its lookup, if the name is listed; which of the
      stores so far the round read; and whether what it left is stored. */
  datatype Attempt = Attempt(round: Option<Round>, read: nat, landed: bool)

  ghost predicate SameAt(fqdn: string, m: Book, n: Book) {
    (fqdn in m <==> fqdn in n) && (fqdn in m ==> m[fqdn] == n[fqdn])
  }

  /** A write lands only if it was made from the current store. A round that does not list the
      name leaves no status of it. */
  ghost predicate AttemptStep(fqdn: string, a: Attempt, read: Book, left: FqdnStatus, s: Book, t: Book) {
    && (a.round.Some? ==>
          var r := a.round.value;
          r.res.fqdn == fqdn && RoundOf(read, r.res, r.retry, r.limit, r.now, left))
    && if a.landed then
         && SameAt(fqdn, read, s)
         && (if a.round.Some? then fqdn in t && StoredAs(left, t[fqdn]) else fqdn !in t)
       else SameAt(fqdn, s, t)
  }

  ghost predicate AttemptAt(fqdn: string, attempts: seq<Attempt>, left: seq<FqdnStatus>, stores: seq<Book>, k: int)
    requires |left| == |attempts| && |stores| == |attempts| + 1 && 0 <= k < |attempts|
  {
    && attempts[k].read <= k
    && AttemptStep(fqdn, attempts[k], stores[attempts[k].read], left[k], stores[k], stores[k + 1])
  }

  ghost predicate AttemptRun(fqdn: string, attempts: seq<Attempt>, left: seq<FqdnStatus>, stores: seq<Book>)
  {
    && |left| == |attempts| && |stores| == |attempts| + 1
    && fqdn !in stores[0]
    && forall k :: 0 <= k < |attempts| ==> AttemptAt(fqdn, attempts, left, stores, k)
  }

  /** The rounds behind what is stored: those that landed since the name was last dropped. */
  function Chain(attempts: seq<Attempt>): seq<Round> {
    if attempts == [] then []
    else
      var before, last := Chain(attempts[..|attempts| - 1]), attempts[|attempts| - 1];
      if !last.landed then before
      else if last.round.Some? then before + [last.round.value]
      else []
  }

  /** The history an attempt goes by: the rounds behind the store it read, and its own. */
  function Seen(attempts: seq<Attempt>, k: nat): seq<Round>
    requires k < |attempts| && attempts[k].read <= k && attempts[k].round.Some?
  {
    Chain(attempts[..attempts[k].read]) + [attempts[k].round.value]
  }

  // ------------------------------------------------------------------ every attempt ends a run without losses

  lemma RoundOfAt(prev: Book, prev': Book, res: Result, retry: int, limit: int, now: int, out: FqdnStatus)
    requires SameAt(res.fqdn, prev, prev')
    ensures RoundOf(prev, res, retry, limit, now, out) <==> RoundOf(prev', res, retry, limit, now, out)
  {
  }

  /** What is stored after some attempts is what a run over their chain stores. */
  lemma {:induction false} ChainRun(fqdn: string, attempts: seq<Attempt>,
                                    left: seq<FqdnStatus>, stores: seq<Book>, n: nat)
    returns (l: seq<FqdnStatus>, m: seq<Book>)
    requires AttemptRun(fqdn, attempts, left, stores) && n <= |attempts|
    ensures Run(fqdn, Chain(attempts[..n]), l, m)
    ensures SameAt(fqdn, m[|Chain(attempts[..n])|], stores[n])
  {
    if n == 0 {
      l, m := [], [stores[0]];
    } else {
      var a := attempts[n - 1];
      assert AttemptAt(fqdn, attempts, left, stores, n - 1);
      assert attempts[..n][..n - 1] == attempts[..n - 1];
      l, m := ChainRun(fqdn, attempts, left, stores, n - 1);
      if a.landed && a.round.Some? {
        var r, chain := a.round.value, Chain(attempts[..n - 1]);
        RoundOfAt(stores[a.read], m[|chain|], r.res, r.retry, r.limit, r.now, left[n - 1]);
        RunExtends(fqdn, chain, l, m, r, left[n - 1], stores[n]);
        l, m := l + [left[n - 1]], m + [stores[n]];
      } else if a.landed {
        l, m := [], [stores[n]];
      }
    }
  }

  /** What an attempt leaves is what the last round of a run over its history leaves. */
  lemma SeenRun(fqdn: string, attempts: seq<Attempt>, left: seq<FqdnStatus>, stores: seq<Book>, k: nat)
    returns (l: seq<FqdnStatus>, m: seq<Book>)
    requires AttemptRun(fqdn, attempts, left, stores) && k < |attempts| && attempts[k].round.Some?
    ensures attempts[k].read <= k && Run(fqdn, Seen(attempts, k), l, m)
    ensures l[|Seen(attempts, k)| - 1] == left[k]
    ensures SameAt(fqdn, m[|Seen(attempts, k)| - 1], stores[attempts[k].read])
  {
    assert AttemptAt(fqdn, attempts, left, stores, k);
    var r, chain := attempts[k].round.value, Chain(attempts[..attempts[k].read]);
    l, m := ChainRun(fqdn, attempts, left, stores, attempts[k].read);
    RoundOfAt(stores[attempts[k].read], m[|chain|], r.res, r.retry, r.limit, r.now, left[k]);
    RunExtends(fqdn, chain, l, m, r, left[k], map[fqdn := left[k]]);
    l, m := l + [left[k]], m + [map[fqdn := left[k]]];
  }

  // ------------------------------------------------------------------ ledgers

  /** Ledger history with any writes lost, any reads outdated and the name dropped and listed
      again: the same function of the history an attempt goes by. */
  lemma AttemptHistory(fqdn: string, attempts: seq<Attempt>, left: seq<FqdnStatus>, stores: seq<Book>, k: nat, e: Entry)
    requires AttemptRun(fqdn, attempts, left, stores) && k < |attempts| && attempts[k].round.Some?
    ensures attempts[k].read <= k && (e in left[k].addresses <==> HistoryEntry(Seen(attempts, k), e))
  {
    var l, m := SeenRun(fqdn, attempts, left, stores, k);
    LedgerHistory(fqdn, Seen(attempts, k), l, m, e);
  }

  /** With retention off throughout that history, repetitions included. */
  lemma AttemptRetry(fqdn: string, attempts: seq<Attempt>, left: seq<FqdnStatus>, stores: seq<Book>, k: nat)
    requires AttemptRun(fqdn, attempts, left, stores) && k < |attempts| && attempts[k].round.Some?
    ensures attempts[k].read <= k && (AllOff(Seen(attempts, k)) ==> HistoryStatus(Seen(attempts, k), left[k]))
  {
    var l, m := SeenRun(fqdn, attempts, left, stores, k);
    if AllOff(Seen(attempts, k)) {
      RetryHistory(fqdn, Seen(attempts, k), l, m);
    }
  }

  /** Likewise the outcome reported: reason, message, and since when. */
  lemma AttemptOutcome(fqdn: string, attempts: seq<Attempt>, left: seq<FqdnStatus>, stores: seq<Book>, k: nat)
    requires AttemptRun(fqdn, attempts, left, stores) && k < |attempts| && attempts[k].round.Some?
    ensures attempts[k].read <= k
    ensures var rounds, i := Seen(attempts, k), StreakStart(Seen(attempts, k));
            && left[k].reason == attempts[k].round.value.res.reason
            && left[k].message == attempts[k].round.value.res.message
            && left[k].failingSince == FailingSince(rounds)
            && left[k].lastTransition == if i == 0 && rounds[0].res.reason == Unset then 0 else rounds[i].now
  {
    var l, m := SeenRun(fqdn, attempts, left, stores, k);
    OutcomeHistory(fqdn, Seen(attempts, k), l, m);
    FailingHistory(fqdn, Seen(attempts, k), l, m);
  }

  lemma AttemptHolds(fqdn: string, attempts: seq<Attempt>, left: seq<FqdnStatus>,
                     stores: seq<Book>, k: nat, addr: string)
    requires AttemptRun(fqdn, attempts, left, stores) && k < |attempts| && attempts[k].round.Some?
    ensures attempts[k].read <= k
    ensures addr in AddressSet(left[k].addresses) <==> Remembers(Seen(attempts, k), addr)
  {
    var l, m := SeenRun(fqdn, attempts, left, stores, k);
    LedgerHolds(fqdn, Seen(attempts, k), l, m, addr);
  }

  // ------------------------------------------------------------------ clear events

  /** Attempt k raises a clear event: the event is raised before the write, so lost or not. */
  predicate AttemptRaises(fqdn: string, attempts: seq<Attempt>, stores: seq<Book>, k: nat)
    requires k < |attempts| && attempts[k].read < |stores|
  {
    && attempts[k].round.Some?
    && var r := attempts[k].round.value;
       EventsOf(Before(stores[attempts[k].read], fqdn), r.res, r.retry, r.now) != []
  }

  /** An attempt raises the event exactly by the rule for the history it goes by. */
  lemma AttemptClears(fqdn: string, attempts: seq<Attempt>, left: seq<FqdnStatus>, stores: seq<Book>, k: nat)
    requires AttemptRun(fqdn, attempts, left, stores) && k < |attempts| && attempts[k].round.Some?
    ensures attempts[k].read <= k
    ensures AttemptRaises(fqdn, attempts, stores, k) <==> ClearRule(Seen(attempts, k))
  {
    var l, m := SeenRun(fqdn, attempts, left, stores, k);
    LastClears(fqdn, Seen(attempts, k), l, m);
  }

  /** The last lookup behind the status read succeeded, and this one failed in a way that may pass. */
  predicate FailsAfterSuccess(attempts: seq<Attempt>, k: nat)
    requires k < |attempts| && attempts[k].read <= k
  {
    var chain := Chain(attempts[..attempts[k].read]);
    && chain != [] && chain[|chain| - 1].res.reason == Success
    && attempts[k].round.Some? && attempts[k].round.value.res.reason in PASSING
  }

  /** Then no event is raised, and of the addresses stored only those go that are missing already
      and past the retention limit; those of that last answer stay. */
  lemma PassingFailure(fqdn: string, attempts: seq<Attempt>, left: seq<FqdnStatus>,
                       stores: seq<Book>, k: nat, addr: string)
    requires AttemptRun(fqdn, attempts, left, stores) && k < |attempts| && attempts[k].read <= k
    requires FailsAfterSuccess(attempts, k)
    ensures !AttemptRaises(fqdn, attempts, stores, k)
    ensures var chain := Chain(attempts[..attempts[k].read]);
            && (addr in AddressSet(left[k].addresses)
                <==> addr in AddressSet(Before(stores[attempts[k].read], fqdn).addresses)
                     && !Overdue(chain, attempts[k].round.value, addr))
            && (addr in chain[|chain| - 1].res.cidrs ==> addr in AddressSet(left[k].addresses))
  {
    var chain, r := Chain(attempts[..attempts[k].read]), attempts[k].round.value;
    var l, m := SeenRun(fqdn, attempts, left, stores, k);
    assert Seen(attempts, k)[..|chain|] == chain;
    StoredLedger(fqdn, Seen(attempts, k), l, m);
    PassingNext(chain, r, addr);
    AttemptHolds(fqdn, attempts, left, stores, k, addr);
    AttemptClears(fqdn, attempts, left, stores, k);
    RemembersNext(chain, addr);
    MissingNext(chain, addr);
  }

  /** A lookup succeeded and was stored between two attempts. */
  predicate StoredSuccess(attempts: seq<Attempt>, i: int, k: int)
    requires 0 <= i && k <= |attempts|
  {
    exists s :: i < s < k && attempts[s].landed && attempts[s].round.Some?
      && attempts[s].round.value.res.reason == Success
  }

  /** Retention is off in every round that lists the name. */
  predicate NeverRetained(attempts: seq<Attempt>) {
    forall a :: a in attempts && a.round.Some? ==> a.round.value.limit <= 0
  }

  lemma {:induction false} StoredEmpty(fqdn: string, attempts: seq<Attempt>,
                                       left: seq<FqdnStatus>, stores: seq<Book>, i: nat, n: nat)
    requires NeverRetained(attempts) && AttemptRun(fqdn, attempts, left, stores) && i < n <= |attempts|
    requires attempts[i].landed && attempts[i].round.Some? && left[i].addresses == []
    requires !StoredSuccess(attempts, i, n)
    ensures Before(stores[n], fqdn).addresses == []
    decreases n - i
  {
    var k := n - 1;
    assert AttemptAt(fqdn, attempts, left, stores, k);
    if k > i {
      assert !StoredSuccess(attempts, i, k);
      StoredEmpty(fqdn, attempts, left, stores, i, k);
    }
    if attempts[k].landed && attempts[k].round.Some? {
      var r := attempts[k].round.value;
      var u := Updated(Before(stores[attempts[k].read], fqdn), r.res, r.retry, r.now);
      assert k > i ==> r.res.reason != Success && u.addresses == [];
      MultisetEmpty(left[k].addresses, stores[n][fqdn].addresses);
    }
  }

  lemma EmptiedAtOnce(fqdn: string, attempts: seq<Attempt>, left: seq<FqdnStatus>, stores: seq<Book>, i: nat)
    requires NeverRetained(attempts) && AttemptRun(fqdn, attempts, left, stores)
    requires i < |attempts| && attempts[i].read <= i && AttemptRaises(fqdn, attempts, stores, i)
    ensures left[i].addresses == []
  {
    assert AttemptAt(fqdn, attempts, left, stores, i);
  }

  /** With retention off, once a round that raised the event has landed, no round that read its
      outcome raises it again before a success is stored. */
  lemma OneEventOnceLanded(fqdn: string, attempts: seq<Attempt>,
                           left: seq<FqdnStatus>, stores: seq<Book>, i: nat, k: nat)
    requires NeverRetained(attempts) && AttemptRun(fqdn, attempts, left, stores)
    requires k < |attempts| && i < attempts[k].read <= k && attempts[i].read <= i
    requires AttemptRaises(fqdn, attempts, stores, i) && AttemptRaises(fqdn, attempts, stores, k)
    requires attempts[i].landed
    ensures StoredSuccess(attempts, i, attempts[k].read)
  {
    if !StoredSuccess(attempts, i, attempts[k].read) {
      EmptiedAtOnce(fqdn, attempts, left, stores, i);
      StoredEmpty(fqdn, attempts, left, stores, i, attempts[k].read);
    }
  }

  // ------------------------------------------------------------------ what losing writes and late reads do

  /** A stored success with one address, a failure at once, stored or lost, and a failure at a
      later time that read the success. */
  function TwoFailures(fqdn: string, addr: string, later: int, limit: int, stored: bool): seq<Attempt> {
    [Attempt(Some(Round(0, Result(fqdn, Success, "", "", [addr]), 0, limit)), 0, true),
     Attempt(Some(Round(0, Result(fqdn, HostNotFound, "", "", []), 0, limit)), 1, stored),
     Attempt(Some(Round(later, Result(fqdn, HostNotFound, "", "", []), 0, limit)), 1, false)]
  }

  lemma TwoFailuresRun(fqdn: string, addr: string, later: int, limit: int, stored: bool)
    returns (left: seq<FqdnStatus>, stores: seq<Book>)
    ensures AttemptRun(fqdn, TwoFailures(fqdn, addr, later, limit, stored), left, stores)
  {
    var attempts := TwoFailures(fqdn, addr, later, limit, stored);
    var r0, r1, r2 := attempts[0].round.value, attempts[1].round.value, attempts[2].round.value;
    var s0 := RoundExists(map[], r0.res, r0.retry, r0.limit, r0.now);
    var book: Book := map[fqdn := s0];
    var s1 := RoundExists(book, r1.res, r1.retry, r1.limit, r1.now);
    var s2 := RoundExists(book, r2.res, r2.retry, r2.limit, r2.now);
    var after: Book := if stored then map[fqdn := s1] else book;
    left, stores := [s0, s1, s2], [map[], book, after, after];
    assert AttemptAt(fqdn, attempts, left, stores, 0);
    assert AttemptAt(fqdn, attempts, left, stores, 1);
    assert AttemptAt(fqdn, attempts, left, stores, 2);
  }

  lemma TwoFailuresSeen(fqdn: string, addr: string, later: int, limit: int, stored: bool)
    ensures var attempts := TwoFailures(fqdn, addr, later, limit, stored);
            && Seen(attempts, 1) == [attempts[0].round.value, attempts[1].round.value]
            && Seen(attempts, 2) == [attempts[0].round.value, attempts[2].round.value]
  {
    var attempts := TwoFailures(fqdn, addr, later, limit, stored);
    assert attempts[..1][..0] == [];
    assert Chain(attempts[..1]) == [attempts[0].round.value];
  }

  lemma ClearsAfterSuccess(r: Round, f: Round)
    requires r.res.reason == Success && r.res.cidrs != [] && f.res.reason == HostNotFound
    ensures ClearRule([r, f])
  {
    RemembersNext([r], r.res.cidrs[0]);
    assert [r, f][..1] == [r];
  }

  /** Both conditions are needed: with retention on or off, a failure whose write is lost, or not
      yet read by the next one, raises the event, and the next one raises it again. */
  lemma EventRepeats(fqdn: string, addr: string, later: int, limit: int, stored: bool)
    returns (left: seq<FqdnStatus>, stores: seq<Book>)
    ensures AttemptRun(fqdn, TwoFailures(fqdn, addr, later, limit, stored), left, stores)
    ensures AttemptRaises(fqdn, TwoFailures(fqdn, addr, later, limit, stored), stores, 1)
    ensures AttemptRaises(fqdn, TwoFailures(fqdn, addr, later, limit, stored), stores, 2)
  {
    var attempts := TwoFailures(fqdn, addr, later, limit, stored);
    left, stores := TwoFailuresRun(fqdn, addr, later, limit, stored);
    TwoFailuresSeen(fqdn, addr, later, limit, stored);
    ClearsAfterSuccess(attempts[0].round.value, attempts[1].round.value);
    ClearsAfterSuccess(attempts[0].round.value, attempts[2].round.value);
    AttemptClears(fqdn, attempts, left, stores, 1);
    AttemptClears(fqdn, attempts, left, stores, 2);
  }

  /** And an address can outlive any retention limit: after a lost failure it counts as missing
      only from the next one on, however late that is. */
  lemma OutlivesLimit(fqdn: string, addr: string, later: int, limit: int)
    returns (left: seq<FqdnStatus>, stores: seq<Book>)
    requires limit > 0
    ensures AttemptRun(fqdn, TwoFailures(fqdn, addr, later, limit, false), left, stores)
    ensures Entry(addr, Some(later)) in left[2].addresses
  {
    var attempts := TwoFailures(fqdn, addr, later, limit, false);
    left, stores := TwoFailuresRun(fqdn, addr, later, limit, false);
    TwoFailuresSeen(fqdn, addr, later, limit, false);
    HeldAfterOne(attempts[0].round.value, attempts[2].round.value, addr);
    AttemptHistory(fqdn, attempts, left, stores, 2, Entry(addr, Some(later)));
  }

  lemma HeldAfterOne(r: Round, f: Round, addr: string)
    requires Answered(r, addr) && f.res.reason != Success && f.limit > 0
    ensures HistoryEntry([r, f], Entry(addr, Some(f.now)))
  {
    assert [r, f][..1] == [r];
    RemembersNext([r], addr);
    MissingNext([r], addr);
    RemembersNext([r, f], addr);
    MissingNext([r, f], addr);
  }
}
