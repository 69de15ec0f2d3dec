/** One round of a name's ledger: the update by a lookup result
    (api/v1alpha1/networkpolicy_funcs.go:241-293, internal/controller/networkpolicy_fqdn_status.go:14-59)
    and the retention pass (internal/controller/networkpolicy_controller.go:112-234). */
module Ledger {
  import opened Sorting
  import opened Policy
  import opened Status

  // ------------------------------------------------------------------ update

  /** The entries of a fresh answer. */
  function FreshEntries(cidrs: seq<string>): seq<Entry> {
    seq(|cidrs|, i requires 0 <= i < |cidrs| => Entry(cidrs[i], None))
  }

  /** A failing lookup empties the list: at once if not transient, else once a failure known
      from an earlier round is older than the retry timeout. */
  predicate Clears(s: FqdnStatus, reason: Reason, retry: int, now: int) {
    && reason != Success
    && s.addresses != []
    && (reason.Transient() ==> s.failingSince.Some? && now > s.failingSince.value + retry)
  }

  function Updated(s: FqdnStatus, res: Result, retry: int, now: int): FqdnStatus {
    FqdnStatus(
      s.fqdn,
      if res.reason == Success then None else if s.failingSince.Some? then s.failingSince else Some(now),
      if s.reason != res.reason then now else s.lastTransition,
      res.reason,
      res.message,
      if res.reason == Success then FreshEntries(res.cidrs)
      else if Clears(s, res.reason, retry, now) then []
      else s.addresses)
  }

  /** `FQDNStatus`, updated in place. */
  class StatusCell {
    var fqdn: string
    var failingSince: Option<int>
    var lastTransition: int
    var reason: Reason
    var message: string
    var addresses: seq<Entry>

    function View(): FqdnStatus
      reads this
    {
      FqdnStatus(fqdn, failingSince, lastTransition, reason, message, addresses)
    }

    /** A copy of a status. */
    constructor (s: FqdnStatus)
      ensures View() == s
    {
      fqdn, failingSince, lastTransition := s.fqdn, s.failingSince, s.lastTransition;
      reason, message, addresses := s.reason, s.message, s.addresses;
    }

    method Update(res: Result, retry: int, now: int) returns (cleared: bool)
      modifies this
      ensures View() == Updated(old(View()), res, retry, now)
      ensures cleared == Clears(old(View()), res.reason, retry, now)
    {
      cleared := false;
      if res.reason == Success {
        failingSince := None;
        var entries := [];
        for i := 0 to |res.cidrs|
          invariant entries == FreshEntries(res.cidrs)[..i]
          invariant View() == old(View()).(failingSince := None)
        {
          entries := entries + [Entry(res.cidrs[i], None)];
        }
        addresses := entries;
      } else if res.reason.Transient() {
        if failingSince.None? {
          failingSince := Some(now);
        } else {
          var deadline := failingSince.value + retry;
          if now > deadline {
            if |addresses| > 0 {
              addresses, cleared := [], true;
            }
          }
        }
      } else {
        if |addresses| > 0 {
          addresses, cleared := [], true;
        }
        if failingSince.None? {
          failingSince := Some(now);
        }
      }
      if reason != res.reason {
        lastTransition := now;
      }
      reason := res.reason;
      message := res.message;
    }
  }

  /** The status a result starts from: the stored one, or a new one with zero values. */
  function Before(prev: Book, fqdn: string): FqdnStatus {
    if fqdn in prev then prev[fqdn] else FqdnStatus(fqdn, None, 0, Unset, "", [])
  }

  function UpdatedAll(prev: Book, results: seq<Result>, retry: int, now: int): seq<FqdnStatus> {
    seq(|results|, i requires 0 <= i < |results| => Updated(Before(prev, results[i].fqdn), results[i], retry, now))
  }

  /** The two warnings about a cleared list. */
  datatype Event = StaleIPsRemoved(fqdn: string) | IPsRevoked(fqdn: string)

  function EventsOf(s: FqdnStatus, res: Result, retry: int, now: int): seq<Event> {
    if !Clears(s, res.reason, retry, now) then []
    else if res.reason.Transient() then [StaleIPsRemoved(s.fqdn)]
    else [IPsRevoked(s.fqdn)]
  }

  function EventsAll(prev: Book, results: seq<Result>, retry: int, now: int): seq<Event> {
    if results == [] then []
    else
      var last := results[|results| - 1];
      EventsAll(prev, results[..|results| - 1], retry, now) + EventsOf(Before(prev, last.fqdn), last, retry, now)
  }

  /** A warning that a name's addresses are gone for good: its lookup failed for good while the stored
      list was not empty. */
  ghost predicate Revokes(prev: Book, r: Result) {
    r.fqdn in prev && prev[r.fqdn].addresses != [] && r.reason != Success && r.reason !in PASSING
  }

  /** A warning that they are stale: the failure may pass, but an earlier one is too long ago. */
  ghost predicate Expires(prev: Book, r: Result, retry: int, now: int) {
    && r.fqdn in prev && prev[r.fqdn].addresses != [] && r.reason in PASSING
    && prev[r.fqdn].failingSince.Some? && now > prev[r.fqdn].failingSince.value + retry
  }

  ghost predicate Due(prev: Book, results: seq<Result>, retry: int, now: int, events: seq<Event>) {
    && (forall f :: IPsRevoked(f) in events <==> exists r :: r in results && r.fqdn == f && Revokes(prev, r))
    && (forall f :: StaleIPsRemoved(f) in events
                    <==> exists r :: r in results && r.fqdn == f && Expires(prev, r, retry, now))
  }

  ghost predicate Precedes(results: seq<Result>, f: string, g: string) {
    exists a, b :: 0 <= a < b < |results| && results[a].fqdn == f && results[b].fqdn == g
  }

  /** The warnings due: these and no others, at most one for each name, in the order of the results. */
  ghost predicate Warns(prev: Book, results: seq<Result>, retry: int, now: int, events: seq<Event>) {
    && Due(prev, results, retry, now, events)
    && forall i, j | 0 <= i < j < |events| ::
         events[i].fqdn != events[j].fqdn && Precedes(results, events[i].fqdn, events[j].fqdn)
  }

  lemma EventOfOne(prev: Book, r: Result, retry: int, now: int)
    requires r.fqdn in prev ==> prev[r.fqdn].fqdn == r.fqdn
    ensures var events := EventsOf(Before(prev, r.fqdn), r, retry, now);
            && |events| <= 1
            && (forall v :: v in events ==> v.fqdn == r.fqdn)
            && (IPsRevoked(r.fqdn) in events <==> Revokes(prev, r))
            && (StaleIPsRemoved(r.fqdn) in events <==> Expires(prev, r, retry, now))
  {
  }

  lemma {:induction false} EventsDue(prev: Book, results: seq<Result>, retry: int, now: int)
    requires forall f :: f in prev ==> prev[f].fqdn == f
    ensures Due(prev, results, retry, now, EventsAll(prev, results, retry, now))
  {
    if results != [] {
      var init, last := results[..|results| - 1], results[|results| - 1];
      EventsDue(prev, init, retry, now);
      EventOfOne(prev, last, retry, now);
      DueNext(prev, init, last, retry, now, EventsAll(prev, init, retry, now),
              EventsOf(Before(prev, last.fqdn), last, retry, now));
      assert results == init + [last];
    }
  }

  lemma DueNext(prev: Book, init: seq<Result>, last: Result, retry: int, now: int, events: seq<Event>, more: seq<Event>)
    requires Due(prev, init, retry, now, events)
    requires forall v :: v in more ==> v.fqdn == last.fqdn
    requires IPsRevoked(last.fqdn) in more <==> Revokes(prev, last)
    requires StaleIPsRemoved(last.fqdn) in more <==> Expires(prev, last, retry, now)
    ensures Due(prev, init + [last], retry, now, events + more)
  {
    var all := init + [last];
    assert forall r :: r in all <==> r in init || r == last;
    forall f ensures IPsRevoked(f) in more <==> f == last.fqdn && Revokes(prev, last) {
    }
    forall f ensures StaleIPsRemoved(f) in more <==> f == last.fqdn && Expires(prev, last, retry, now) {
    }
  }

  /** The result each event is about. */
  ghost predicate Placed(results: seq<Result>, events: seq<Event>, at: seq<nat>) {
    && |at| == |events|
    && (forall i :: 0 <= i < |at| ==> at[i] < |results| && results[at[i]].fqdn == events[i].fqdn)
    && forall i, j :: 0 <= i < j < |at| ==> at[i] < at[j]
  }

  lemma {:induction false} EventsPlaced(prev: Book, results: seq<Result>, retry: int, now: int) returns (at: seq<nat>)
    requires forall f :: f in prev ==> prev[f].fqdn == f
    ensures Placed(results, EventsAll(prev, results, retry, now), at)
  {
    if results == [] {
      at := [];
    } else {
      var init, last := results[..|results| - 1], results[|results| - 1];
      at := EventsPlaced(prev, init, retry, now);
      EventOfOne(prev, last, retry, now);
      if EventsOf(Before(prev, last.fqdn), last, retry, now) != [] {
        at := at + [|init|];
      }
    }
  }

  lemma EventsWarn(prev: Book, results: seq<Result>, retry: int, now: int)
    requires DistinctResults(results) && forall f :: f in prev ==> prev[f].fqdn == f
    ensures Warns(prev, results, retry, now, EventsAll(prev, results, retry, now))
  {
    EventsDue(prev, results, retry, now);
    var at := EventsPlaced(prev, results, retry, now);
    var events := EventsAll(prev, results, retry, now);
    forall i, j | 0 <= i < j < |events|
      ensures events[i].fqdn != events[j].fqdn && Precedes(results, events[i].fqdn, events[j].fqdn)
    {
      assert results[at[i]].fqdn == events[i].fqdn && results[at[j]].fqdn == events[j].fqdn;
    }
  }

  /** `updateFQDNStatuses`. */
  method UpdateStatuses(previous: seq<FqdnStatus>, results: seq<Result>, retry: int, now: int)
    returns (statuses: seq<FqdnStatus>, events: seq<Event>)
    ensures statuses == UpdatedAll(Lookup(previous), results, retry, now)
    ensures events == EventsAll(Lookup(previous), results, retry, now)
    ensures DistinctResults(results) ==> Warns(Lookup(previous), results, retry, now, events)
  {
    statuses, events := [], [];
    var lookup := LookupTable(previous);
    for i := 0 to |results|
      invariant statuses == UpdatedAll(lookup, results, retry, now)[..i]
      invariant events == EventsAll(lookup, results[..i], retry, now)
    {
      assert results[..i + 1][..i] == results[..i];
      var res := results[i];
      var cell := new StatusCell(Before(lookup, res.fqdn));
      var cleared := cell.Update(res, retry, now);
      statuses := statuses + [cell.View()];
      if cleared {
        if res.reason.Transient() {
          events := events + [StaleIPsRemoved(cell.fqdn)];
        } else {
          events := events + [IPsRevoked(cell.fqdn)];
        }
      }
    }
    assert results[..|results|] == results;
    if DistinctResults(results) {
      LookupNamed(previous);
      EventsWarn(lookup, results, retry, now);
    }
  }

  // ------------------------------------------------------------------ retention

  type Missing = map<string, Option<int>>

  /** Address to timestamp; of repeated addresses the last counts. */
  function MissingOf(entries: seq<Entry>): Missing {
    if entries == [] then map[]
    else
      var last := entries[|entries| - 1];
      MissingOf(entries[..|entries| - 1])[last.address := last.missingSince]
  }

  lemma {:induction false} MissingLast(entries: seq<Entry>, e: Entry)
    ensures e.address in MissingOf(entries) && MissingOf(entries)[e.address] == e.missingSince
            <==> exists i :: 0 <= i < |entries| && entries[i] == e
                             && forall j :: i < j < |entries| ==> entries[j].address != e.address
  {
    if entries != [] {
      var init, last := entries[..|entries| - 1], entries[|entries| - 1];
      MissingLast(init, e);
      assert entries[|init|] == last && forall i :: 0 <= i < |init| ==> entries[i] == init[i];
    }
  }

  /** Since when an address is missing, if it is missing now. */
  function Since(was: Missing, addr: string, now: int): int {
    if addr in was && was[addr].Some? then was[addr].value else now
  }

  function Keep(was: Missing, answer: set<string>, limit: int, now: int, addr: string): Option<Entry> {
    if addr in answer then Some(Entry(addr, None))
    else if now - Since(was, addr, now) <= limit then Some(Entry(addr, Some(Since(was, addr, now))))
    else None
  }

  /** First loop: the updated list, filtered and stamped. */
  function FirstPass(entries: seq<Entry>, was: Missing, answer: set<string>, limit: int, now: int): seq<Entry> {
    if entries == [] then []
    else
      var kept := Keep(was, answer, limit, now, entries[|entries| - 1].address);
      FirstPass(entries[..|entries| - 1], was, answer, limit, now) + if kept.Some? then [kept.value] else []
  }

  /** Second loop: stored addresses not dealt with and still within the limit. */
  function Leftover(was: Missing, existing: set<string>, limit: int, now: int): map<string, Entry> {
    map a | a in was && a !in existing && now - Since(was, a, now) <= limit :: Entry(a, Some(Since(was, a, now)))
  }

  /** The two loops' result: the second part in the order of a map iteration. */
  ghost predicate Retained(entries: seq<Entry>, was: Missing, answer: set<string>,
                           limit: int, now: int, out: seq<Entry>)
  {
    var first := FirstPass(entries, was, answer, limit, now);
    var rest := Leftover(was, AddressSet(first), limit, now);
    first <= out && Lists(AddressOf, out[|first|..], rest.Keys, rest)
  }

  method BuildMissing(entries: seq<Entry>) returns (m: Missing)
    ensures m == MissingOf(entries)
  {
    m := map[];
    for i := 0 to |entries|
      invariant m == MissingOf(entries[..i])
    {
      assert entries[..i + 1][..i] == entries[..i];
      m := m[entries[i].address := entries[i].missingSince];
    }
    assert entries[..|entries|] == entries;
  }

  method RetainFirst(entries: seq<Entry>, was: Missing, answer: set<string>, limit: int, now: int)
    returns (existing: set<string>, final: seq<Entry>)
    ensures final == FirstPass(entries, was, answer, limit, now)
    ensures existing == AddressSet(final)
  {
    existing, final := {}, [];
    for i := 0 to |entries|
      invariant final == FirstPass(entries[..i], was, answer, limit, now)
      invariant existing == AddressSet(final)
    {
      assert entries[..i + 1][..i] == entries[..i];
      var addr := entries[i].address;
      ghost var before := final;
      if addr in answer {
        existing := existing + {addr};
        final := final + [Entry(addr, None)];
      } else {
        var missing := now;
        if addr in was && was[addr].Some? {
          missing := was[addr].value;
        }
        if now - missing <= limit {
          existing := existing + {addr};
          final := final + [Entry(addr, Some(missing))];
        }
      }
      assert final != before ==>
          && final == before + [final[|final| - 1]]
          && AddressSet(final) == AddressSet(before) + {addr};
    }
    assert entries[..|entries|] == entries;
  }

  method RetainRest(was: Missing, existing: set<string>, limit: int, now: int) returns (rest: seq<Entry>)
    ensures Lists(AddressOf, rest, Leftover(was, existing, limit, now).Keys, Leftover(was, existing, limit, now))
  {
    ghost var want := Leftover(was, existing, limit, now);
    rest := [];
    var todo := was.Keys;
    var seen := existing;
    ghost var done: set<string> := {};
    assert Elements(KeysOf(AddressOf, rest)) == {};
    while todo != {}
      invariant todo <= was.Keys && todo !! done
      invariant want.Keys <= todo + done && done <= want.Keys
      invariant seen == existing + done
      invariant Lists(AddressOf, rest, done, want)
    {
      var a :| a in todo;
      todo := todo - {a};
      if a !in seen {
        var missing := was[a];
        if missing.None? {
          missing := Some(now);
        }
        if now - missing.value <= limit {
          ListsNext(AddressOf, rest, done, want, a);
          seen := seen + {a};
          rest := rest + [Entry(a, missing)];
          done := done + {a};
        }
      }
    }
    assert done == want.Keys;
  }

  /** The retention pass over one status. */
  method Retain(entries: seq<Entry>, was: Missing, answer: set<string>, limit: int, now: int) returns (out: seq<Entry>)
    ensures Retained(entries, was, answer, limit, now, out)
  {
    var existing, final := RetainFirst(entries, was, answer, limit, now);
    var rest := RetainRest(was, existing, limit, now);
    out := final + rest;
    assert out[|final|..] == rest;
  }

  /** Retention off: the timestamps are wiped. */
  function Wiped(entries: seq<Entry>): seq<Entry> {
    seq(|entries|, i requires 0 <= i < |entries| => entries[i].(missingSince := None))
  }

  // ------------------------------------------------------------------ one round over all names

  function FreshOf(res: Result): set<string> {
    if res.reason == Success then set c | c in res.cidrs else {}
  }

  /** `freshlyResolved`: the answers of successful lookups. */
  function FreshMap(results: seq<Result>): map<string, set<string>> {
    if results == [] then map[]
    else
      var m, last := FreshMap(results[..|results| - 1]), results[|results| - 1];
      if last.reason == Success then m[last.fqdn := FreshOf(last)] else m
  }

  ghost predicate DistinctResults(results: seq<Result>) {
    forall i, j :: 0 <= i < j < |results| ==> results[i].fqdn != results[j].fqdn
  }

  lemma {:induction false} FreshMapFinds(results: seq<Result>)
    requires DistinctResults(results)
    ensures forall r :: r in results ==> FreshIn(FreshMap(results), r.fqdn) == FreshOf(r)
    ensures forall f :: f in FreshMap(results) ==> exists r :: r in results && r.fqdn == f
  {
    if results != [] {
      var init, last := results[..|results| - 1], results[|results| - 1];
      assert results == init + [last];
      FreshMapFinds(init);
    }
  }

  function FreshIn(m: map<string, set<string>>, fqdn: string): set<string> {
    if fqdn in m then m[fqdn] else {}
  }

  /** The stored timestamps of a name. */
  function OldMissing(prev: Book, fqdn: string): Missing {
    if fqdn in prev then MissingOf(prev[fqdn].addresses) else map[]
  }

  /** What a round may leave for one name: the update, then retention (limit positive) or wiping. */
  ghost predicate RoundOf(prev: Book, res: Result, retry: int, limit: int, now: int, out: FqdnStatus) {
    var u := Updated(Before(prev, res.fqdn), res, retry, now);
    if limit > 0 then
      && out == u.(addresses := out.addresses)
      && Retained(u.addresses, OldMissing(prev, res.fqdn), FreshOf(res), limit, now, out.addresses)
    else
      out == u.(addresses := Wiped(u.addresses))
  }

  method BuildOldMissing(previous: seq<FqdnStatus>) returns (m: map<string, Missing>)
    ensures m.Keys == Lookup(previous).Keys
    ensures forall f :: f in m ==> m[f] == OldMissing(Lookup(previous), f)
  {
    m := map[];
    for i := 0 to |previous|
      invariant m.Keys == Lookup(previous[..i]).Keys
      invariant forall f :: f in m ==> m[f] == OldMissing(Lookup(previous[..i]), f)
    {
      assert previous[..i + 1][..i] == previous[..i];
      var ips := BuildMissing(previous[i].addresses);
      m := m[previous[i].fqdn := ips];
    }
    assert previous[..|previous|] == previous;
  }

  method BuildFresh(results: seq<Result>) returns (m: map<string, set<string>>)
    ensures m == FreshMap(results)
  {
    m := map[];
    for i := 0 to |results|
      invariant m == FreshMap(results[..i])
    {
      assert results[..i + 1][..i] == results[..i];
      var res := results[i];
      if res.reason == Success {
        var ips: set<string> := {};
        for j := 0 to |res.cidrs|
          invariant ips == set c | c in res.cidrs[..j]
        {
          assert res.cidrs[..j + 1] == res.cidrs[..j] + [res.cidrs[j]];
          ips := ips + {res.cidrs[j]};
        }
        assert res.cidrs[..|res.cidrs|] == res.cidrs;
        m := m[res.fqdn := ips];
      }
    }
    assert results[..|results|] == results;
  }

  /** What a round may leave for all names. */
  ghost predicate RoundAll(prev: Book, results: seq<Result>, retry: int, limit: int, now: int, out: seq<FqdnStatus>)
  {
    && |out| == |results|
    && forall i :: 0 <= i < |out| ==> RoundOf(prev, results[i], retry, limit, now, out[i])
  }

  /** The retention pass, status by status, in place. */
  method RetainAll(updated: seq<FqdnStatus>, previous: seq<FqdnStatus>,
                   results: seq<Result>, ghost retry: int, limit: int, now: int)
    returns (statuses: seq<FqdnStatus>)
    requires DistinctResults(results) && limit > 0
    requires updated == UpdatedAll(Lookup(previous), results, retry, now)
    ensures RoundAll(Lookup(previous), results, retry, limit, now, statuses)
  {
    ghost var prev := Lookup(previous);
    statuses := updated;
    var wasMissing := BuildOldMissing(previous);
    var resolved := BuildFresh(results);
    FreshMapFinds(results);
    LookupNamed(previous);
    for i := 0 to |statuses|
      invariant |statuses| == |results|
      invariant forall k :: i <= k < |results| ==>
          statuses[k] == Updated(Before(prev, results[k].fqdn), results[k], retry, now)
      invariant forall k :: 0 <= k < i ==> RoundOf(prev, results[k], retry, limit, now, statuses[k])
    {
      var s := statuses[i];
      assert results[i] in results;
      assert s.fqdn == results[i].fqdn;
      var missing := if s.fqdn in wasMissing then wasMissing[s.fqdn] else map[];
      var ips := if s.fqdn in resolved then resolved[s.fqdn] else {};
      var final := Retain(s.addresses, missing, ips, limit, now);
      statuses := statuses[i := s.(addresses := final)];
      assert RoundOf(prev, results[i], retry, limit, now, statuses[i]);
    }
  }

  method Wipe(entries: seq<Entry>) returns (wiped: seq<Entry>)
    ensures wiped == Wiped(entries)
  {
    wiped := entries;
    for j := 0 to |wiped|
      invariant |wiped| == |entries|
      invariant wiped == Wiped(entries)[..j] + entries[j..]
    {
      wiped := wiped[j := wiped[j].(missingSince := None)];
    }
  }

  method WipeAll(updated: seq<FqdnStatus>) returns (statuses: seq<FqdnStatus>)
    ensures |statuses| == |updated|
    ensures forall i :: 0 <= i < |updated| ==> statuses[i] == updated[i].(addresses := Wiped(updated[i].addresses))
  {
    statuses := updated;
    for i := 0 to |statuses|
      invariant |statuses| == |updated|
      invariant forall k :: i <= k < |updated| ==> statuses[k] == updated[k]
      invariant forall k :: 0 <= k < i ==> statuses[k] == updated[k].(addresses := Wiped(updated[k].addresses))
    {
      var wiped := Wipe(statuses[i].addresses);
      statuses := statuses[i := statuses[i].(addresses := wiped)];
    }
  }

  /** The ledger part of `Reconcile`: update every name, then retain or wipe. */
  method LedgerRound(previous: seq<FqdnStatus>, results: seq<Result>, retry: int, limit: int, now: int)
    returns (statuses: seq<FqdnStatus>, events: seq<Event>)
    requires DistinctResults(results)
    ensures RoundAll(Lookup(previous), results, retry, limit, now, statuses)
    ensures Warns(Lookup(previous), results, retry, now, events)
  {
    var updated;
    updated, events := UpdateStatuses(previous, results, retry, now);
    if limit > 0 {
      statuses := RetainAll(updated, previous, results, retry, limit, now);
    } else {
      statuses := WipeAll(updated);
    }
  }
}
