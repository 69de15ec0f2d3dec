/** Ledgers over whole runs, as closed functions of the lookup history. */
module History {
  import opened Sorting
  import opened Policy
  import opened Status
  import opened Ledger

  // ------------------------------------------------------------------ the retention pass, pointwise

  /** The rule the two loops compute: fresh addresses carry no timestamp; another stored
      address keeps its timestamp, or gets this round's, while that is within the limit. */
  predicate InLedger(was: Missing, answer: set<string>, limit: int, now: int, e: Entry) {
    if e.address in answer then e.missingSince.None?
    else
      && e.address in was
      && e.missingSince == Some(Since(was, e.address, now))
      && now - Since(was, e.address, now) <= limit
  }

  lemma {:induction false} FirstPassIs(entries: seq<Entry>, was: Missing, answer: set<string>, limit: int, now: int)
    ensures forall e :: e in FirstPass(entries, was, answer, limit, now) <==>
              e.address in AddressSet(entries) && Keep(was, answer, limit, now, e.address) == Some(e)
  {
    if entries != [] {
      var init, last := entries[..|entries| - 1], entries[|entries| - 1];
      assert entries == init + [last];
      assert AddressSet(entries) == AddressSet(init) + {last.address};
      FirstPassIs(init, was, answer, limit, now);
    }
  }

  lemma {:induction false} MissingKeys(entries: seq<Entry>)
    ensures MissingOf(entries).Keys == AddressSet(entries)
    ensures forall a :: a in MissingOf(entries) ==> Entry(a, MissingOf(entries)[a]) in entries
  {
    if entries != [] {
      var init, last := entries[..|entries| - 1], entries[|entries| - 1];
      assert entries == init + [last];
      MissingKeys(init);
    }
  }

  lemma ListsIs(s: seq<Entry>, m: map<string, Entry>)
    requires Lists(AddressOf, s, m.Keys, m) && KeyedBy(AddressOf, m)
    ensures forall e :: e in s <==> e in m.Values
  {
    forall e | e in m.Values ensures e in s {
      assert e.address in Elements(KeysOf(AddressOf, s));
      var i :| 0 <= i < |s| && KeysOf(AddressOf, s)[i] == e.address;
      assert s[i] in s;
    }
  }

  lemma RetainedIs(entries: seq<Entry>, was: Missing, answer: set<string>, limit: int, now: int, out: seq<Entry>)
    requires limit > 0 && Retained(entries, was, answer, limit, now, out)
    requires answer <= AddressSet(entries) <= answer + was.Keys
    ensures forall e :: e in out <==> InLedger(was, answer, limit, now, e)
  {
    var first := FirstPass(entries, was, answer, limit, now);
    var rest := Leftover(was, AddressSet(first), limit, now);
    FirstPassIs(entries, was, answer, limit, now);
    ListsIs(out[|first|..], rest);
    assert out == first + out[|first|..];
    forall e ensures e in out <==> InLedger(was, answer, limit, now, e) {
      if InLedger(was, answer, limit, now, e) && e !in first {
        assert e.address !in AddressSet(first);
        assert rest[e.address] == e;
      }
    }
  }

  lemma UpdatedAddresses(prev: Book, res: Result, retry: int, now: int)
    ensures var u := AddressSet(Updated(Before(prev, res.fqdn), res, retry, now).addresses);
            FreshOf(res) <= u <= FreshOf(res) + OldMissing(prev, res.fqdn).Keys
  {
    var u := Updated(Before(prev, res.fqdn), res, retry, now).addresses;
    if res.reason == Success {
      forall c | c in res.cidrs ensures c in AddressSet(u) {
        var i :| 0 <= i < |res.cidrs| && res.cidrs[i] == c;
        assert u[i].address == c;
      }
    } else if res.fqdn in prev {
      MissingKeys(prev[res.fqdn].addresses);
    }
  }

  /** With retention on, a round leaves exactly the entries of the pointwise rule. Retry
      timeout, reason and message play no part, and whether the update emptied the list neither. */
  lemma RetentionRefines(prev: Book, res: Result, retry: int, limit: int, now: int, out: FqdnStatus)
    requires limit > 0 && RoundOf(prev, res, retry, limit, now, out)
    ensures forall e :: e in out.addresses <==> InLedger(OldMissing(prev, res.fqdn), FreshOf(res), limit, now, e)
  {
    UpdatedAddresses(prev, res, retry, now);
    RetainedIs(Updated(Before(prev, res.fqdn), res, retry, now).addresses,
               OldMissing(prev, res.fqdn), FreshOf(res), limit, now, out.addresses);
  }

  /** Two rounds that differ in the retry timeout, and in how a failing lookup failed, leave
      the same entries. */
  lemma RetryInvisible(prev: Book, res: Result, res': Result, retry: int, retry': int,
                       limit: int, now: int, out: FqdnStatus, out': FqdnStatus)
    requires limit > 0 && res'.fqdn == res.fqdn && FreshOf(res') == FreshOf(res)
    requires RoundOf(prev, res, retry, limit, now, out) && RoundOf(prev, res', retry', limit, now, out')
    ensures Elements(out.addresses) == Elements(out'.addresses)
  {
    RetentionRefines(prev, res, retry, limit, now, out);
    RetentionRefines(prev, res', retry', limit, now, out');
  }

  ghost predicate Timestamped(entries: seq<Entry>) {
    exists e :: e in entries && e.missingSince.Some?
  }

  /** What the retention pass starts from carries timestamps exactly when the lookup failed, the
      list was not cleared, and the stored list had some. */
  lemma UpdatedTimestamps(s: FqdnStatus, res: Result, retry: int, now: int)
    ensures Timestamped(Updated(s, res, retry, now).addresses)
            <==> res.reason != Success && !Clears(s, res.reason, retry, now) && Timestamped(s.addresses)
  {
    var u := Updated(s, res, retry, now).addresses;
    if res.reason == Success {
      assert forall e :: e in u ==> e.missingSince.None?;
    }
  }

  // ------------------------------------------------------------------ runs of one name

  /** One round of one name, with the retry timeout and the retention of that round. */
  datatype Round = Round(now: int, res: Result, retry: int, limit: int)

  ghost predicate ClockOk(rounds: seq<Round>) {
    forall i, j :: 0 <= i <= j < |rounds| ==> rounds[i].now <= rounds[j].now
  }

  /** One round of a name and the store after it; the store may hold other names too. */
  ghost predicate RunStep(fqdn: string, r: Round, prev: Book, left: FqdnStatus, next: Book) {
    && r.res.fqdn == fqdn
    && RoundOf(prev, r.res, r.retry, r.limit, r.now, left)
    && fqdn in next && StoredAs(left, next[fqdn])
  }

  ghost predicate RunAt(fqdn: string, rounds: seq<Round>, left: seq<FqdnStatus>, stores: seq<Book>, k: int)
    requires 0 <= k < |rounds| == |left| && |stores| == |rounds| + 1
  {
    RunStep(fqdn, rounds[k], stores[k], left[k], stores[k + 1])
  }

  /** The statuses the rounds left and the stores around them, from a store without the name,
      every write landing. */
  ghost predicate Run(fqdn: string, rounds: seq<Round>, left: seq<FqdnStatus>, stores: seq<Book>) {
    && |left| == |rounds| && |stores| == |rounds| + 1
    && fqdn !in stores[0]
    && forall k :: 0 <= k < |rounds| ==> RunAt(fqdn, rounds, left, stores, k)
  }

  lemma RunPrefix(fqdn: string, rounds: seq<Round>, left: seq<FqdnStatus>, stores: seq<Book>, n: nat)
    requires Run(fqdn, rounds, left, stores) && n <= |rounds|
    ensures Run(fqdn, rounds[..n], left[..n], stores[..n + 1])
  {
    var rs, ls, ss := rounds[..n], left[..n], stores[..n + 1];
    forall k | 0 <= k < n ensures RunAt(fqdn, rs, ls, ss, k) {
      assert RunAt(fqdn, rounds, left, stores, k);
    }
  }

  /** The last round of a run goes by what the rounds before it left. */
  lemma LastStep(fqdn: string, rounds: seq<Round>, left: seq<FqdnStatus>, stores: seq<Book>)
    requires Run(fqdn, rounds, left, stores) && rounds != []
    ensures var k := |rounds| - 1;
            && rounds[k].res.fqdn == fqdn
            && RoundOf(stores[k], rounds[k].res, rounds[k].retry, rounds[k].limit, rounds[k].now, left[k])
            && Run(fqdn, rounds[..k], left[..k], stores[..k + 1])
            && (k == 0 ==> fqdn !in stores[k])
            && (k > 0 ==> fqdn in stores[k] && StoredAs(left[k - 1], stores[k][fqdn]))
  {
    var k := |rounds| - 1;
    assert RunAt(fqdn, rounds, left, stores, k);
    RunPrefix(fqdn, rounds, left, stores, k);
    if k > 0 {
      assert RunAt(fqdn, rounds, left, stores, k - 1);
    }
  }

  // ------------------------------------------------------------------ failures

  /** The last successful round; -1 if none. */
  function LastSuccess(rounds: seq<Round>): (j: int)
    ensures -1 <= j < |rounds|
    ensures j >= 0 ==> rounds[j].res.reason == Success
    ensures forall i :: j < i < |rounds| ==> rounds[i].res.reason != Success
  {
    if rounds == [] then -1
    else if rounds[|rounds| - 1].res.reason == Success then |rounds| - 1
    else LastSuccess(rounds[..|rounds| - 1])
  }

  /** The time of the first failure since the last success. */
  function FailingSince(rounds: seq<Round>): Option<int> {
    var j := LastSuccess(rounds);
    if j == |rounds| - 1 then None else Some(rounds[j + 1].now)
  }

  /** With retention on or off, failing since is the first failure since the last success. */
  lemma {:induction false} FailingHistory(fqdn: string, rounds: seq<Round>, left: seq<FqdnStatus>, stores: seq<Book>)
    requires rounds != [] && Run(fqdn, rounds, left, stores)
    ensures left[|rounds| - 1].failingSince == FailingSince(rounds)
  {
    var k := |rounds| - 1;
    LastStep(fqdn, rounds, left, stores);
    if k == 0 {
      assert rounds[..0] == [];
    } else {
      FailingHistory(fqdn, rounds[..k], left[..k], stores[..k + 1]);
      FailingNext(rounds);
    }
  }

  lemma FailingNext(rounds: seq<Round>)
    requires |rounds| > 1
    ensures var init, last := rounds[..|rounds| - 1], rounds[|rounds| - 1];
            FailingSince(rounds) == if last.res.reason == Success then None
                                    else if FailingSince(init).Some? then FailingSince(init) else Some(last.now)
  {
  }

  // ------------------------------------------------------------------ the outcome reported

  /** The first of the last rounds that all had the same outcome. */
  function StreakStart(rounds: seq<Round>): (i: int)
    requires rounds != []
    ensures 0 <= i < |rounds|
    ensures forall k :: i <= k < |rounds| ==> rounds[k].res.reason == rounds[|rounds| - 1].res.reason
    ensures i > 0 ==> rounds[i - 1].res.reason != rounds[|rounds| - 1].res.reason
  {
    var n := |rounds| - 1;
    if n > 0 && rounds[n - 1].res.reason == rounds[n].res.reason then StreakStart(rounds[..n]) else n
  }

  /** Reason and message are the last round's; the transition time is when the reason last became
      what it is, and zero for a name that has had none. */
  lemma {:induction false} OutcomeHistory(fqdn: string, rounds: seq<Round>, left: seq<FqdnStatus>, stores: seq<Book>)
    requires rounds != [] && Run(fqdn, rounds, left, stores)
    ensures var k, i := |rounds| - 1, StreakStart(rounds);
            && left[k].fqdn == fqdn && left[k].reason == rounds[k].res.reason
            && left[k].message == rounds[k].res.message
            && left[k].lastTransition == if i == 0 && rounds[0].res.reason == Unset then 0 else rounds[i].now
  {
    var k := |rounds| - 1;
    LastStep(fqdn, rounds, left, stores);
    if k > 0 {
      OutcomeHistory(fqdn, rounds[..k], left[..k], stores[..k + 1]);
    }
  }

  // ------------------------------------------------------------------ the ledger, whatever the retention

  predicate Answered(r: Round, addr: string) {
    addr in FreshOf(r.res)
  }

  /** The last round whose lookup answered with the address; -1 if none. */
  function LastAnswer(rounds: seq<Round>, addr: string): (j: int)
    ensures -1 <= j < |rounds|
    ensures j >= 0 ==> Answered(rounds[j], addr)
    ensures forall i :: j < i < |rounds| ==> !Answered(rounds[i], addr)
  {
    if rounds == [] then -1
    else if Answered(rounds[|rounds| - 1], addr) then |rounds| - 1
    else LastAnswer(rounds[..|rounds| - 1], addr)
  }

  /** The round leaves the address without a timestamp if it leaves it at all. */
  predicate Resets(r: Round, addr: string) {
    Answered(r, addr) || r.limit <= 0
  }

  /** The last such round; -1 if none. */
  function LastReset(rounds: seq<Round>, addr: string): (j: int)
    ensures -1 <= j < |rounds|
    ensures j >= 0 ==> Resets(rounds[j], addr)
    ensures forall i :: j < i < |rounds| ==> !Resets(rounds[i], addr)
  {
    if rounds == [] then -1
    else if Resets(rounds[|rounds| - 1], addr) then |rounds| - 1
    else LastReset(rounds[..|rounds| - 1], addr)
  }

  /** Since when the address counts as missing: the first round with retention on that lacks it
      since it was last answered or retention was last off. */
  function MissingSince(rounds: seq<Round>, addr: string): Option<int> {
    var i := LastReset(rounds, addr);
    if i == |rounds| - 1 then None else Some(rounds[i + 1].now)
  }

  /** The last round leaves the address if the ones before did: answered with it; or retention is
      on and it is missing no longer than the limit; or retention is off and the failure is
      tolerated. */
  predicate Survives(rounds: seq<Round>, addr: string)
    requires rounds != []
  {
    var init, last := rounds[..|rounds| - 1], rounds[|rounds| - 1];
    if Answered(last, addr) then true
    else if last.limit > 0 then last.now - MissingSince(rounds, addr).value <= last.limit
    else
      && last.res.reason in PASSING
      && (FailingSince(init).Some? ==> last.now <= FailingSince(init).value + last.retry)
  }

  predicate SurvivesAt(rounds: seq<Round>, addr: string, m: int)
    requires 0 <= m < |rounds|
  {
    Survives(rounds[..m + 1], addr)
  }

  /** The address was answered and survived every later round. */
  predicate Remembers(rounds: seq<Round>, addr: string) {
    var j := LastAnswer(rounds, addr);
    j >= 0 && forall m :: j < m < |rounds| ==> SurvivesAt(rounds, addr, m)
  }

  /** The entries a history leaves. */
  predicate HistoryEntry(rounds: seq<Round>, e: Entry) {
    Remembers(rounds, e.address) && e.missingSince == MissingSince(rounds, e.address)
  }

  lemma RemembersNext(rounds: seq<Round>, addr: string)
    requires rounds != []
    ensures var init, last := rounds[..|rounds| - 1], rounds[|rounds| - 1];
            Remembers(rounds, addr) <==> Answered(last, addr) || (Remembers(init, addr) && Survives(rounds, addr))
  {
    var init := rounds[..|rounds| - 1];
    assert rounds[..|rounds|] == rounds;
    assert SurvivesAt(rounds, addr, |init|) == Survives(rounds, addr);
    forall m | 0 <= m < |init| ensures SurvivesAt(init, addr, m) == SurvivesAt(rounds, addr, m) {
      assert init[..m + 1] == rounds[..m + 1];
    }
  }

  lemma MissingNext(rounds: seq<Round>, addr: string)
    requires rounds != []
    ensures var init, last := rounds[..|rounds| - 1], rounds[|rounds| - 1];
            MissingSince(rounds, addr) == if Resets(last, addr) then None
                                          else if MissingSince(init, addr).Some? then MissingSince(init, addr)
                                          else Some(last.now)
  {
  }

  lemma StoredMissing(entries: seq<Entry>, a: string)
    requires forall d, e :: d in entries && e in entries && d.address == e.address ==> d == e
    ensures a in MissingOf(entries) <==> a in AddressSet(entries)
    ensures forall e :: e in entries ==>
        e.address in MissingOf(entries) && MissingOf(entries)[e.address] == e.missingSince
  {
    MissingKeys(entries);
    forall e | e in entries ensures e.address in MissingOf(entries) && MissingOf(entries)[e.address] == e.missingSince {
      assert e.address in AddressSet(entries);
    }
  }

  /** What the store knows about an address, by the history so far. */
  ghost predicate Knows(was: Missing, rounds: seq<Round>) {
    && (forall a :: a in was ==> HistoryEntry(rounds, Entry(a, was[a])))
    && forall e :: HistoryEntry(rounds, e) ==> e.address in was && was[e.address] == e.missingSince
  }

  lemma StoredHistory(stored: FqdnStatus, left: FqdnStatus, rounds: seq<Round>)
    requires StoredAs(left, stored)
    requires forall e :: e in left.addresses <==> HistoryEntry(rounds, e)
    ensures Knows(MissingOf(stored.addresses), rounds)
  {
    SameMultisetSameElements(stored.addresses, left.addresses);
    assert forall e :: e in stored.addresses <==> e in Elements(stored.addresses);
    assert forall e :: e in left.addresses <==> e in Elements(left.addresses);
    StoredMissing(stored.addresses, "");
    MissingKeys(stored.addresses);
  }

  lemma StepOn(rounds: seq<Round>, was: Missing, e: Entry)
    requires rounds != [] && rounds[|rounds| - 1].limit > 0 && Knows(was, rounds[..|rounds| - 1])
    ensures var last := rounds[|rounds| - 1];
            InLedger(was, FreshOf(last.res), last.limit, last.now, e) <==> HistoryEntry(rounds, e)
  {
    var init, last, a := rounds[..|rounds| - 1], rounds[|rounds| - 1], e.address;
    RemembersNext(rounds, a);
    MissingNext(rounds, a);
    if a in was {
      assert HistoryEntry(init, Entry(a, was[a]));
    } else {
      assert !HistoryEntry(init, Entry(a, MissingSince(init, a)));
    }
  }

  /** Right after a success, a failure that may pass takes away only what is missing too long. */
  lemma PassingNext(rounds: seq<Round>, r: Round, addr: string)
    requires rounds != [] && rounds[|rounds| - 1].res.reason == Success && r.res.reason in PASSING
    ensures Remembers(rounds + [r], addr) <==> Remembers(rounds, addr) && !Overdue(rounds, r, addr)
    ensures !ClearRule(rounds + [r])
  {
    var all := rounds + [r];
    assert all[..|all| - 1] == rounds;
    RemembersNext(all, addr);
    MissingNext(all, addr);
  }

  /** Retention is on and finds the address, missing already, past the limit. */
  predicate Overdue(rounds: seq<Round>, r: Round, addr: string) {
    && r.limit > 0 && MissingSince(rounds, addr).Some?
    && r.now - MissingSince(rounds, addr).value > r.limit
  }

  lemma WipedIs(entries: seq<Entry>)
    ensures forall e :: e in Wiped(entries) <==> e.missingSince.None? && e.address in AddressSet(entries)
  {
    var w := Wiped(entries);
    forall e: Entry | e.missingSince.None? && e.address in AddressSet(entries) ensures e in w {
      var i :| 0 <= i < |entries| && entries[i].address == e.address;
      assert w[i] == e;
    }
  }

  lemma StepOff(rounds: seq<Round>, s: FqdnStatus, e: Entry)
    requires rounds != [] && rounds[|rounds| - 1].limit <= 0
    requires forall a :: a in AddressSet(s.addresses) <==> Remembers(rounds[..|rounds| - 1], a)
    requires s.failingSince == FailingSince(rounds[..|rounds| - 1])
    ensures var last := rounds[|rounds| - 1];
            e in Wiped(Updated(s, last.res, last.retry, last.now).addresses) <==> HistoryEntry(rounds, e)
  {
    var init, last, a := rounds[..|rounds| - 1], rounds[|rounds| - 1], e.address;
    RemembersNext(rounds, a);
    MissingNext(rounds, a);
    WipedIs(Updated(s, last.res, last.retry, last.now).addresses);
    if last.res.reason == Success {
      FreshSet(last.res.cidrs);
    } else if a in AddressSet(s.addresses) {
      assert s.addresses != [];
    }
  }

  lemma FreshSet(cidrs: seq<string>)
    ensures AddressSet(FreshEntries(cidrs)) == set c | c in cidrs
  {
    var s := FreshEntries(cidrs);
    forall c | c in cidrs ensures c in AddressSet(s) {
      var i :| 0 <= i < |cidrs| && cidrs[i] == c;
      assert s[i].address == c;
    }
  }

  lemma HeldAddresses(rounds: seq<Round>, entries: seq<Entry>)
    requires forall e :: e in entries <==> HistoryEntry(rounds, e)
    ensures forall a :: a in AddressSet(entries) <==> Remembers(rounds, a)
  {
    forall a | Remembers(rounds, a) ensures a in AddressSet(entries) {
      assert Entry(a, MissingSince(rounds, a)) in entries;
    }
  }

  /** The ledger before the last round. */
  lemma {:induction false} StoredLedger(fqdn: string, rounds: seq<Round>, left: seq<FqdnStatus>, stores: seq<Book>)
    requires rounds != [] && Run(fqdn, rounds, left, stores)
    ensures var k := |rounds| - 1;
            && Knows(OldMissing(stores[k], fqdn), rounds[..k])
            && (forall a :: a in AddressSet(Before(stores[k], fqdn).addresses) <==> Remembers(rounds[..k], a))
            && Before(stores[k], fqdn).failingSince == FailingSince(rounds[..k])
    decreases |rounds|, 0
  {
    var k := |rounds| - 1;
    LastStep(fqdn, rounds, left, stores);
    if k == 0 {
      assert rounds[..0] == [];
    } else {
      var init := rounds[..k];
      forall e ensures e in left[k - 1].addresses <==> HistoryEntry(init, e) {
        LedgerHistory(fqdn, init, left[..k], stores[..k + 1], e);
      }
      StoredHistory(stores[k][fqdn], left[k - 1], init);
      HeldAddresses(init, left[k - 1].addresses);
      SameAddresses(stores[k][fqdn].addresses, left[k - 1].addresses);
      FailingHistory(fqdn, init, left[..k], stores[..k + 1]);
    }
  }

  /** Ledger history: whatever the clock, the retry timeouts and the retention, which may change
      and go on and off from round to round, the entries after every round are this function of
      the lookup history. */
  lemma {:induction false} LedgerHistory(fqdn: string, rounds: seq<Round>,
                                         left: seq<FqdnStatus>, stores: seq<Book>, e: Entry)
    requires rounds != [] && Run(fqdn, rounds, left, stores)
    ensures e in left[|rounds| - 1].addresses <==> HistoryEntry(rounds, e)
    decreases |rounds|, 1
  {
    var k := |rounds| - 1;
    var r := rounds[k];
    LastStep(fqdn, rounds, left, stores);
    StoredLedger(fqdn, rounds, left, stores);
    if r.limit > 0 {
      RetentionRefines(stores[k], r.res, r.retry, r.limit, r.now, left[k]);
      StepOn(rounds, OldMissing(stores[k], fqdn), e);
    } else {
      StepOff(rounds, Before(stores[k], fqdn), e);
    }
  }

  lemma SameAddresses(a: seq<Entry>, b: seq<Entry>)
    requires multiset(a) == multiset(b)
    ensures AddressSet(a) == AddressSet(b)
  {
    assert forall e :: e in a <==> e in multiset(a);
    assert forall e :: e in b <==> e in multiset(b);
  }

  /** The addresses of a ledger are those its history holds. */
  lemma LedgerHolds(fqdn: string, rounds: seq<Round>, left: seq<FqdnStatus>, stores: seq<Book>, addr: string)
    requires rounds != [] && Run(fqdn, rounds, left, stores)
    ensures addr in AddressSet(left[|rounds| - 1].addresses) <==> Remembers(rounds, addr)
  {
    var entries := left[|rounds| - 1].addresses;
    forall e ensures e in entries <==> HistoryEntry(rounds, e) {
      LedgerHistory(fqdn, rounds, left, stores, e);
    }
    HeldAddresses(rounds, entries);
  }

  // ------------------------------------------------------------------ retention on

  ghost predicate AllOn(rounds: seq<Round>) {
    forall i :: 0 <= i < |rounds| ==> rounds[i].limit > 0
  }

  ghost predicate AllOff(rounds: seq<Round>) {
    forall i :: 0 <= i < |rounds| ==> rounds[i].limit <= 0
  }

  lemma {:induction false} ResetsOn(rounds: seq<Round>, addr: string)
    requires AllOn(rounds)
    ensures LastReset(rounds, addr) == LastAnswer(rounds, addr)
  {
    if rounds != [] {
      ResetsOn(rounds[..|rounds| - 1], addr);
    }
  }

  /** The m-th round finds the address, missing since round j + 1, within its limit. */
  predicate Within(rounds: seq<Round>, j: int, m: int)
    requires 0 <= j + 1 <= m < |rounds|
  {
    rounds[m].now - rounds[j + 1].now <= rounds[m].limit
  }

  /** With retention on throughout, an address is held iff it was answered and at every later
      round is missing, since the round after its last answer, no longer than that round's limit. */
  lemma RetainedIff(rounds: seq<Round>, addr: string)
    requires AllOn(rounds)
    ensures var j := LastAnswer(rounds, addr);
            Remembers(rounds, addr) <==> j >= 0 && forall m :: j < m < |rounds| ==> Within(rounds, j, m)
  {
    var j := LastAnswer(rounds, addr);
    forall m | j < m < |rounds| ensures SurvivesAt(rounds, addr, m) <==> Within(rounds, j, m) {
      SurvivesOn(rounds, addr, m);
    }
  }

  lemma SurvivesOn(rounds: seq<Round>, addr: string, m: nat)
    requires AllOn(rounds) && LastAnswer(rounds, addr) < m < |rounds|
    ensures SurvivesAt(rounds, addr, m) <==> Within(rounds, LastAnswer(rounds, addr), m)
  {
    AnswerBefore(rounds, addr, m);
    ResetsOn(rounds[..m + 1], addr);
  }

  lemma AnswerBefore(rounds: seq<Round>, addr: string, m: nat)
    requires LastAnswer(rounds, addr) < m < |rounds|
    ensures LastAnswer(rounds[..m + 1], addr) == LastAnswer(rounds, addr)
  {
    var j, i := LastAnswer(rounds, addr), LastAnswer(rounds[..m + 1], addr);
    assert i >= 0 ==> Answered(rounds[i], addr);
    assert j >= 0 ==> Answered(rounds[..m + 1][j], addr);
  }

  /** With one limit and a clock that never runs back the last round decides. */
  lemma RetainedLast(rounds: seq<Round>, limit: int, addr: string)
    requires limit > 0 && ClockOk(rounds) && forall i :: 0 <= i < |rounds| ==> rounds[i].limit == limit
    ensures var j, k := LastAnswer(rounds, addr), |rounds| - 1;
            Remembers(rounds, addr) <==> j >= 0 && (j == k || rounds[k].now - rounds[j + 1].now <= limit)
  {
    RetainedIff(rounds, addr);
    var j, k := LastAnswer(rounds, addr), |rounds| - 1;
    assert j < k ==> (Within(rounds, j, k) <==> rounds[k].now - rounds[j + 1].now <= limit);
  }

  /** Retention history: with retention on throughout, whatever the limits, the retry timeouts
      and the clock. */
  lemma {:induction false} RetentionHistory(fqdn: string, rounds: seq<Round>,
                                            left: seq<FqdnStatus>, stores: seq<Book>, e: Entry)
    requires rounds != [] && AllOn(rounds) && Run(fqdn, rounds, left, stores)
    ensures var j, k := LastAnswer(rounds, e.address), |rounds| - 1;
            e in left[k].addresses <==>
              && j >= 0
              && (forall m :: j < m <= k ==> Within(rounds, j, m))
              && e.missingSince == if j == k then None else Some(rounds[j + 1].now)
  {
    LedgerHistory(fqdn, rounds, left, stores, e);
    RetainedIff(rounds, e.address);
    ResetsOn(rounds, e.address);
  }

  // ------------------------------------------------------------------ retention off

  /** Whether the last answer is still served: every later round failed transiently, and all but
      the first of them within the retry timeout of the first. */
  predicate Tolerated(rounds: seq<Round>) {
    var j := LastSuccess(rounds);
    && j >= 0
    && forall i :: j < i < |rounds| ==>
         && rounds[i].res.reason in PASSING
         && (i == j + 1 || rounds[i].now <= rounds[j + 1].now + rounds[i].retry)
  }

  /** With one retry timeout and a clock that never runs back, the last round decides. */
  lemma ToleratedLast(rounds: seq<Round>, retry: int)
    requires rounds != [] && ClockOk(rounds) && forall i :: 0 <= i < |rounds| ==> rounds[i].retry == retry
    ensures var j, k := LastSuccess(rounds), |rounds| - 1;
            Tolerated(rounds) <==>
              && j >= 0 && (forall i :: j < i <= k ==> rounds[i].res.reason in PASSING)
              && (k <= j + 1 || rounds[k].now <= rounds[j + 1].now + retry)
  {
  }

  /** The addresses a history leaves with retention off. */
  ghost predicate HistoryStatus(rounds: seq<Round>, s: FqdnStatus)
    requires rounds != []
  {
    && s.failingSince == FailingSince(rounds)
    && multiset(s.addresses)
       == multiset(if Tolerated(rounds) then FreshEntries(rounds[LastSuccess(rounds)].res.cidrs) else [])
  }

  lemma MultisetEmpty(s: seq<Entry>, t: seq<Entry>)
    requires multiset(s) == multiset(t)
    ensures s == [] <==> t == []
  {
    assert |multiset(s)| == |s| && |multiset(t)| == |t|;
  }

  /** Wiping the timestamps of entries that have none changes nothing. */
  lemma WipedFresh(s: seq<Entry>, cidrs: seq<string>)
    requires multiset(s) == multiset(FreshEntries(cidrs))
    ensures Wiped(s) == s
  {
    forall i | 0 <= i < |s| ensures s[i].missingSince.None? {
      assert s[i] in multiset(s);
      assert s[i] in FreshEntries(cidrs);
    }
  }

  lemma ToleratedNext(rounds: seq<Round>)
    requires |rounds| > 1 && rounds[|rounds| - 1].res.reason != Success
    ensures var init, last := rounds[..|rounds| - 1], rounds[|rounds| - 1];
            && LastSuccess(rounds) == LastSuccess(init)
            && (Tolerated(rounds) <==>
                  && Tolerated(init) && last.res.reason.Transient()
                  && (FailingSince(init).Some? ==> last.now <= FailingSince(init).value + last.retry))
  {
  }

  lemma HistoryStatusStep(rounds: seq<Round>, s: FqdnStatus, out: FqdnStatus)
    requires |rounds| > 1 && HistoryStatus(rounds[..|rounds| - 1], s)
    requires var last := rounds[|rounds| - 1];
             var u := Updated(s, last.res, last.retry, last.now);
             out == u.(addresses := Wiped(u.addresses))
    ensures HistoryStatus(rounds, out)
  {
    var init, last, j := rounds[..|rounds| - 1], rounds[|rounds| - 1], LastSuccess(rounds);
    if last.res.reason == Success {
      WipedFresh(FreshEntries(last.res.cidrs), last.res.cidrs);
    } else {
      ToleratedNext(rounds);
      MultisetEmpty(s.addresses, if Tolerated(init) then FreshEntries(rounds[j].res.cidrs) else []);
      if Tolerated(init) {
        WipedFresh(s.addresses, rounds[j].res.cidrs);
      }
    }
  }

  lemma HistoryStatusStored(rounds: seq<Round>, left: FqdnStatus, stored: FqdnStatus)
    requires rounds != [] && StoredAs(left, stored) && HistoryStatus(rounds, left)
    ensures HistoryStatus(rounds, stored)
  {
  }

  /** Retry history: with retention off throughout, whatever the retry timeouts and the clock, the
      failing since is the first failure after the last success, and the addresses are those of
      the last success, repetitions included, while it is tolerated, else none. */
  lemma {:induction false} RetryHistory(fqdn: string, rounds: seq<Round>, left: seq<FqdnStatus>, stores: seq<Book>)
    requires rounds != [] && AllOff(rounds) && Run(fqdn, rounds, left, stores)
    ensures HistoryStatus(rounds, left[|rounds| - 1])
  {
    var k := |rounds| - 1;
    LastStep(fqdn, rounds, left, stores);
    if k == 0 {
      assert rounds[..0] == [];
      if rounds[0].res.reason == Success {
        WipedFresh(FreshEntries(rounds[0].res.cidrs), rounds[0].res.cidrs);
      }
    } else {
      RetryHistory(fqdn, rounds[..k], left[..k], stores[..k + 1]);
      HistoryStatusStored(rounds[..k], left[k - 1], stores[k][fqdn]);
      HistoryStatusStep(rounds, stores[k][fqdn], left[k]);
    }
  }

  // ------------------------------------------------------------------ clear events

  /** Round k raises a clear event. */
  predicate RaisesClear(fqdn: string, rounds: seq<Round>, stores: seq<Book>, k: nat)
    requires k < |rounds| && k < |stores|
  {
    EventsOf(Before(stores[k], fqdn), rounds[k].res, rounds[k].retry, rounds[k].now) != []
  }

  /** With retention off the event is raised exactly when a failing round takes the list from
      non-empty to empty. */
  lemma ClearMeansEmptied(fqdn: string, rounds: seq<Round>, left: seq<FqdnStatus>, stores: seq<Book>, k: nat)
    requires k < |rounds| && rounds[k].limit <= 0 && Run(fqdn, rounds, left, stores)
    ensures RaisesClear(fqdn, rounds, stores, k) <==>
              rounds[k].res.reason != Success && Before(stores[k], fqdn).addresses != [] && left[k].addresses == []
  {
    assert RunAt(fqdn, rounds, left, stores, k);
    var u := Updated(Before(stores[k], fqdn), rounds[k].res, rounds[k].retry, rounds[k].now);
    assert |Wiped(u.addresses)| == |u.addresses|;
  }

  /** A list emptied in a failing streak is empty in the store until a lookup succeeds. */
  lemma {:induction false} StaysEmpty(fqdn: string, rounds: seq<Round>, left: seq<FqdnStatus>,
                                      stores: seq<Book>, i: nat, k: nat)
    requires i < k <= |rounds| && AllOff(rounds) && Run(fqdn, rounds, left, stores)
    requires left[i].addresses == [] && forall s :: i < s < k ==> rounds[s].res.reason != Success
    ensures Before(stores[k], fqdn).addresses == []
    decreases k - i
  {
    assert RunAt(fqdn, rounds, left, stores, k - 1);
    if i < k - 1 {
      StaysEmpty(fqdn, rounds, left, stores, i, k - 1);
    }
    MultisetEmpty(left[k - 1].addresses, stores[k][fqdn].addresses);
  }

  predicate SuccessBetween(rounds: seq<Round>, i: int, k: int)
    requires 0 <= i && k <= |rounds|
  {
    exists s :: i < s < k && rounds[s].res.reason == Success
  }

  /** With retention off a failing streak raises at most one clear event. */
  lemma OneClearPerStreak(fqdn: string, rounds: seq<Round>, left: seq<FqdnStatus>, stores: seq<Book>, i: nat, k: nat)
    requires i < k < |rounds| && AllOff(rounds) && Run(fqdn, rounds, left, stores)
    requires RaisesClear(fqdn, rounds, stores, i) && RaisesClear(fqdn, rounds, stores, k)
    ensures SuccessBetween(rounds, i, k)
  {
    if !SuccessBetween(rounds, i, k) {
      ClearMeansEmptied(fqdn, rounds, left, stores, i);
      StaysEmpty(fqdn, rounds, left, stores, i, k);
    }
  }

  /** The last of these rounds finds something to clear: it fails, an address is held, and if the
      failure is transient the first failure of the streak is longer ago than the timeout. */
  ghost predicate ClearRule(rounds: seq<Round>)
    requires rounds != []
  {
    var init, last := rounds[..|rounds| - 1], rounds[|rounds| - 1];
    && last.res.reason != Success
    && (exists a :: Remembers(init, a))
    && (last.res.reason in PASSING ==> FailingSince(init).Some? && last.now > FailingSince(init).value + last.retry)
  }

  /** Whatever the retention and the clock, the event is raised exactly by that rule. */
  lemma ClearsExactly(fqdn: string, rounds: seq<Round>, left: seq<FqdnStatus>, stores: seq<Book>, k: nat)
    requires k < |rounds| && Run(fqdn, rounds, left, stores)
    ensures RaisesClear(fqdn, rounds, stores, k) <==> ClearRule(rounds[..k + 1])
  {
    RunPrefix(fqdn, rounds, left, stores, k + 1);
    LastClears(fqdn, rounds[..k + 1], left[..k + 1], stores[..k + 2]);
  }

  lemma LastClears(fqdn: string, rounds: seq<Round>, left: seq<FqdnStatus>, stores: seq<Book>)
    requires rounds != [] && Run(fqdn, rounds, left, stores)
    ensures RaisesClear(fqdn, rounds, stores, |rounds| - 1) <==> ClearRule(rounds)
  {
    StoredLedger(fqdn, rounds, left, stores);
    SomeAddress(Before(stores[|rounds| - 1], fqdn).addresses);
  }

  lemma SomeAddress(entries: seq<Entry>)
    ensures entries != [] <==> exists a :: a in AddressSet(entries)
  {
    if entries != [] {
      assert entries[0] in entries;
      assert entries[0].address in AddressSet(entries);
    }
  }

  // ------------------------------------------------------------------ runs exist

  lemma RoundExists(prev: Book, res: Result, retry: int, limit: int, now: int) returns (out: FqdnStatus)
    ensures RoundOf(prev, res, retry, limit, now, out)
  {
    var u := Updated(Before(prev, res.fqdn), res, retry, now);
    if limit > 0 {
      var was, answer := OldMissing(prev, res.fqdn), FreshOf(res);
      var first := FirstPass(u.addresses, was, answer, limit, now);
      var rest := Leftover(was, AddressSet(first), limit, now);
      ListingLists(AddressOf, rest);
      var entries := first + Listing(rest);
      assert entries[|first|..] == Listing(rest);
      out := u.(addresses := entries);
    } else {
      out := u.(addresses := Wiped(u.addresses));
    }
  }

  /** Every history of a name is that of a run. */
  lemma {:induction false} RunExists(fqdn: string, rounds: seq<Round>)
    returns (left: seq<FqdnStatus>, stores: seq<Book>)
    requires forall r :: r in rounds ==> r.res.fqdn == fqdn
    ensures Run(fqdn, rounds, left, stores)
  {
    if rounds == [] {
      left, stores := [], [map[]];
    } else {
      var init, r := rounds[..|rounds| - 1], rounds[|rounds| - 1];
      left, stores := RunExists(fqdn, init);
      var out := RoundExists(stores[|init|], r.res, r.retry, r.limit, r.now);
      RunExtends(fqdn, init, left, stores, r, out, map[fqdn := out]);
      assert rounds == init + [r];
      left, stores := left + [out], stores + [map[fqdn := out]];
    }
  }

  lemma RunExtends(fqdn: string, rounds: seq<Round>, left: seq<FqdnStatus>,
                   stores: seq<Book>, r: Round, out: FqdnStatus, next: Book)
    requires Run(fqdn, rounds, left, stores) && RunStep(fqdn, r, stores[|rounds|], out, next)
    ensures Run(fqdn, rounds + [r], left + [out], stores + [next])
  {
    var rs, ls, ss := rounds + [r], left + [out], stores + [next];
    forall k | 0 <= k <= |rounds| ensures RunAt(fqdn, rs, ls, ss, k) {
      if k < |rounds| {
        assert RunAt(fqdn, rounds, left, stores, k);
      }
    }
  }

  // ------------------------------------------------------------------ one event per streak

  /** With this retention, two events of a name always have a success between them. */
  ghost predicate OneEventEach(limit: int) {
    forall fqdn, rounds: seq<Round>, left, stores, i, k |
      Run(fqdn, rounds, left, stores) && Retention(rounds, limit) && ClockOk(rounds) && 0 <= i < k < |rounds|
      && RaisesClear(fqdn, rounds, stores, i) && RaisesClear(fqdn, rounds, stores, k) ::
      SuccessBetween(rounds, i, k)
  }

  ghost predicate Retention(rounds: seq<Round>, limit: int) {
    forall r :: r in rounds ==> r.limit == limit
  }

  /** A success, then twice no such host, all at one time. */
  function TwoClears(fqdn: string, addr: string, limit: int): seq<Round> {
    [Round(0, Result(fqdn, Success, "", "", [addr]), 0, limit),
     Round(0, Result(fqdn, HostNotFound, "", "", []), 0, limit),
     Round(0, Result(fqdn, HostNotFound, "", "", []), 0, limit)]
  }

  lemma TwoClearsHeld(fqdn: string, addr: string, limit: int)
    requires limit > 0
    ensures Remembers(TwoClears(fqdn, addr, limit)[..1], addr) && Remembers(TwoClears(fqdn, addr, limit)[..2], addr)
  {
    var rounds := TwoClears(fqdn, addr, limit);
    var two, one := rounds[..2], rounds[..1];
    assert two[..1] == one;
    RemembersNext(one, addr);
    RemembersNext(two, addr);
    MissingNext(two, addr);
    MissingNext(one, addr);
  }

  /** With retention on, a name that does not exist raises the event round after round. */
  lemma ClearsTwice(limit: int, fqdn: string, addr: string) returns (left: seq<FqdnStatus>, stores: seq<Book>)
    requires limit > 0
    ensures Run(fqdn, TwoClears(fqdn, addr, limit), left, stores) && ClockOk(TwoClears(fqdn, addr, limit))
    ensures RaisesClear(fqdn, TwoClears(fqdn, addr, limit), stores, 1)
    ensures RaisesClear(fqdn, TwoClears(fqdn, addr, limit), stores, 2)
  {
    var rounds := TwoClears(fqdn, addr, limit);
    left, stores := RunExists(fqdn, rounds);
    TwoClearsHeld(fqdn, addr, limit);
    ClearsExactly(fqdn, rounds, left, stores, 1);
    ClearsExactly(fqdn, rounds, left, stores, 2);
    assert rounds[..2][..1] == rounds[..1] && rounds[..3][..2] == rounds[..2];
  }

  /** A failing streak raises at most one event exactly when retention is off. */
  lemma OneEventIff(limit: int)
    ensures OneEventEach(limit) <==> limit <= 0
  {
    if limit <= 0 {
      forall fqdn, rounds: seq<Round>, left, stores, i, k |
        Run(fqdn, rounds, left, stores) && Retention(rounds, limit) && ClockOk(rounds) && 0 <= i < k < |rounds|
        && RaisesClear(fqdn, rounds, stores, i) && RaisesClear(fqdn, rounds, stores, k)
        ensures SuccessBetween(rounds, i, k)
      {
        assert forall m :: 0 <= m < |rounds| ==> rounds[m] in rounds;
        OneClearPerStreak(fqdn, rounds, left, stores, i, k);
      }
    } else {
      var left, stores := ClearsTwice(limit, "", "");
      assert !SuccessBetween(TwoClears("", "", limit), 1, 2);
    }
  }
}
