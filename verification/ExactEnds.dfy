/** The conditions on the spec are exact over all rounds of a policy. */
module ExactEnds {
  import opened Sorting
  import opened Policy
  import opened Grants
  import opened SpecEnds
  import opened Status
  import opened Compiler
  import opened EndToEnd
  import opened Ledger
  import opened History
  import opened Reconcile
  import opened RoundLaws

  /** A round that may happen for the policy: its results are about its names, each once. */
  ghost predicate MayLeave(src: Source, before: seq<FqdnStatus>, results: seq<Result>, now: int, left: seq<FqdnStatus>)
  {
    && DistinctResults(results) && (set r | r in results :: r.fqdn) == NamesIn(src.spec.egress)
    && RoundAll(Lookup(before), results, src.spec.retryTimeout, src.retention, now, left)
  }

  /** In every round, every list of rules that may be emitted means what the spec means. */
  ghost predicate AlwaysMeansSpec(parse: Parser, src: Source) {
    forall before, results, now, left :: MayLeave(src, before, results, now, left) ==>
        PolicyMeansSpec(parse, src.spec, left)
  }

  /** In every round, whatever the iteration orders, one list of rules is emitted. */
  ghost predicate AlwaysEmitsOne(parse: Parser, src: Source) {
    forall before, results, now, left :: MayLeave(src, before, results, now, left) ==>
      EmitsOne(parse, src, before, results, now, left)
  }

  /** There are two public and two private addresses. */
  ghost predicate Rich(parse: Parser) {
    && parse("").None?
    && (exists x, y :: x != y && parse(x) == Some(false) && parse(y) == Some(false))
    && (exists x, y :: x != y && parse(x) == Some(true) && parse(y) == Some(true))
  }

  lemma TwoAddresses(parse: Parser, a: bool, b: bool) returns (x: string, y: string)
    requires Rich(parse)
    ensures x != y && x != "" && y != "" && parse(x) == Some(a) && parse(y) == Some(b)
  {
    var p, q :| p != q && parse(p) == Some(false) && parse(q) == Some(false);
    var s, t :| s != t && parse(s) == Some(true) && parse(t) == Some(true);
    x := if a then s else p;
    y := if b then t else q;
  }

  // ------------------------------------------------------------------ rounds with given holders

  function AnswerFor(name: string, f: set<string>, g: set<string>, x: string, y: string): Result {
    Result(name, Success, "", "", (if name in f then [x] else []) + (if name in g then [y] else []))
  }

  function AnswersFor(names: seq<string>, f: set<string>, g: set<string>, x: string, y: string): seq<Result> {
    seq(|names|, i requires 0 <= i < |names| => AnswerFor(names[i], f, g, x, y))
  }

  /** A first success leaves its answer. */
  lemma FirstAnswer(res: Result, retry: int, limit: int, now: int, out: FqdnStatus)
    requires RoundOf(map[], res, retry, limit, now, out) && res.reason == Success
    ensures out.fqdn == res.fqdn && AddressSet(out.addresses) == FreshOf(res)
  {
    FreshSet(res.cidrs);
    if limit > 0 {
      RetentionRefines(map[], res, retry, limit, now, out);
      forall a | a in FreshOf(res) ensures a in AddressSet(out.addresses) {
        assert InLedger(OldMissing(map[], res.fqdn), FreshOf(res), limit, now, Entry(a, None));
      }
    } else {
      WipedFresh(FreshEntries(res.cidrs), res.cidrs);
    }
  }

  lemma {:induction false} RoundsExist(results: seq<Result>, retry: int, limit: int, now: int)
    returns (left: seq<FqdnStatus>)
    ensures RoundAll(map[], results, retry, limit, now, left)
  {
    if results == [] {
      left := [];
    } else {
      var init, last := results[..|results| - 1], results[|results| - 1];
      var before := RoundsExist(init, retry, limit, now);
      var out := RoundExists(map[], last, retry, limit, now);
      left := before + [out];
      forall i | 0 <= i < |left| ensures RoundOf(map[], results[i], retry, limit, now, left[i]) {
        if i < |init| {
          assert results[i] == init[i];
        }
      }
    }
  }

  lemma AnswersNamed(names: seq<string>, f: set<string>, g: set<string>, x: string, y: string)
    requires StrictlySorted(names)
    ensures DistinctResults(AnswersFor(names, f, g, x, y))
    ensures (set r | r in AnswersFor(names, f, g, x, y) :: r.fqdn) == Elements(names)
  {
    StrictHasNoDuplicates(names);
    var results := AnswersFor(names, f, g, x, y);
    forall n | n in names ensures n in set r | r in results :: r.fqdn {
      var i :| 0 <= i < |names| && names[i] == n;
      assert results[i] in results;
    }
  }

  lemma AnswersHeld(m: Book, f: set<string>, g: set<string>, x: string, y: string)
    requires f <= m.Keys && g <= m.Keys && x != y
    requires forall n :: n in m ==> AddressSet(m[n].addresses) == FreshOf(AnswerFor(n, f, g, x, y))
    ensures Holders(m, x) == f && Holders(m, y) == g
  {
  }

  lemma AnswerLeft(names: seq<string>, f: set<string>, g: set<string>, x: string,
                   y: string, retry: int, limit: int, left: seq<FqdnStatus>, n: string)
    requires StrictlySorted(names) && n in names
    requires RoundAll(map[], AnswersFor(names, f, g, x, y), retry, limit, 0, left)
    ensures n in Lookup(left) && AddressSet(Lookup(left)[n].addresses) == FreshOf(AnswerFor(n, f, g, x, y))
  {
    var results := AnswersFor(names, f, g, x, y);
    AnswersNamed(names, f, g, x, y);
    var i :| 0 <= i < |names| && names[i] == n;
    assert results[i] in results;
    LeftOf([], results, retry, limit, 0, left, results[i]);
    FirstAnswer(results[i], retry, limit, 0, Lookup(left)[n]);
  }

  /** Some round of the policy leaves two addresses held by just these names. */
  lemma RoundWith(src: Source, f: set<string>, g: set<string>, x: string, y: string)
    returns (results: seq<Result>, left: seq<FqdnStatus>)
    requires f <= NamesIn(src.spec.egress) && g <= NamesIn(src.spec.egress) && x != y
    ensures MayLeave(src, [], results, 0, left)
    ensures Holders(Lookup(left), x) == f && Holders(Lookup(left), y) == g
  {
    var names := Ascending(NamesIn(src.spec.egress));
    results := AnswersFor(names, f, g, x, y);
    AnswersNamed(names, f, g, x, y);
    left := RoundsExist(results, src.spec.retryTimeout, src.retention, 0);
    LeftNames([], results, src.spec.retryTimeout, src.retention, 0, left);
    forall n | n in Lookup(left)
      ensures AddressSet(Lookup(left)[n].addresses) == FreshOf(AnswerFor(n, f, g, x, y))
    {
      assert n in Elements(names);
      AnswerLeft(names, f, g, x, y, src.spec.retryTimeout, src.retention, left, n);
    }
    AnswersHeld(Lookup(left), f, g, x, y);
  }

  // ------------------------------------------------------------------ the two theorems

  /** Every round of a policy applies rules that mean its spec exactly if, for all sets of its
      names, rules that come to the same keys cover each other's entries. */
  lemma MeansSpecIff(parse: Parser, src: Source)
    requires Rich(parse) && KnownProtocols(src.spec.egress)
    ensures AlwaysMeansSpec(parse, src) <==> SpecCovers(src.spec)
  {
    if SpecCovers(src.spec) {
      forall before, results, now, left | MayLeave(src, before, results, now, left)
        ensures PolicyMeansSpec(parse, src.spec, left)
      {
        CoversAlways(parse, src.spec, left);
        PolicyMeaningIff(parse, src.spec, left);
      }
    }
    if AlwaysMeansSpec(parse, src) {
      forall f: set<string>, g: set<string>, a: bool, b: bool | f <= NamesIn(src.spec.egress)
          && g <= NamesIn(src.spec.egress)
        ensures CoversAt(src.spec, f, g, a, b)
      {
        MeansCovers(parse, src, f, g, a, b);
      }
    }
  }

  lemma MeansCovers(parse: Parser, src: Source, f: set<string>, g: set<string>, a: bool, b: bool)
    requires Rich(parse) && KnownProtocols(src.spec.egress) && AlwaysMeansSpec(parse, src)
    requires f <= NamesIn(src.spec.egress) && g <= NamesIn(src.spec.egress)
    ensures CoversAt(src.spec, f, g, a, b)
  {
    var x, y := TwoAddresses(parse, a, b);
    var results, left := RoundWith(src, f, g, x, y);
    PolicyMeaningIff(parse, src.spec, left);
    CoversNeeded(parse, src.spec, left, x, y);
    assert f * NamesIn(src.spec.egress) == f && g * NamesIn(src.spec.egress) == g;
  }

  /** Every round of a policy emits one list of rules, whatever the iteration orders, exactly if,
      for all sets of its names, rules that come to the same keys leave the same entries. */
  lemma EmitsOneIff(parse: Parser, src: Source)
    requires Rich(parse) && KnownProtocols(src.spec.egress)
    ensures AlwaysEmitsOne(parse, src) <==> SpecDetermines(src.spec)
  {
    if SpecDetermines(src.spec) {
      forall before, results, now, left | MayLeave(src, before, results, now, left)
        ensures EmitsOne(parse, src, before, results, now, left)
      {
        DeterminesAlways(parse, src.spec, left);
        ConfluenceIff(parse, src, before, results, now, left);
      }
    }
    if AlwaysEmitsOne(parse, src) {
      forall f: set<string>, g: set<string>, a: bool, b: bool | f <= NamesIn(src.spec.egress)
          && g <= NamesIn(src.spec.egress)
        ensures DeterminesAt(src.spec, f, g, a, b)
      {
        OneDetermines(parse, src, f, g, a, b);
      }
    }
  }

  lemma OneDetermines(parse: Parser, src: Source, f: set<string>, g: set<string>, a: bool, b: bool)
    requires Rich(parse) && KnownProtocols(src.spec.egress) && AlwaysEmitsOne(parse, src)
    requires f <= NamesIn(src.spec.egress) && g <= NamesIn(src.spec.egress)
    ensures DeterminesAt(src.spec, f, g, a, b)
  {
    var x, y := TwoAddresses(parse, a, b);
    var results, left := RoundWith(src, f, g, x, y);
    ConfluenceIff(parse, src, [], results, 0, left);
    DeterminesNeeded(parse, src.spec, left, x, y);
    assert f * NamesIn(src.spec.egress) == f && g * NamesIn(src.spec.egress) == g;
  }

  /** A spec whose ports agree on their ends meets both conditions. */
  lemma EndsAgreeSuffices(spec: Spec)
    requires KnownProtocols(spec.egress) && EndsAgree(spec.egress)
    ensures SpecCovers(spec) && SpecDetermines(spec)
  {
    var parse: Parser := s => if s == "" then None else Some(|s| > 1);
    var src := Source("", map[], "", 0, 0, spec, [], []);
    assert parse("a") == Some(false) && parse("b") == Some(false);
    assert parse("aa") == Some(true) && parse("bb") == Some(true);
    forall left ensures PolicyMeansSpec(parse, spec, left) && EndsDetermined(parse, spec, left) {
      EndsAgreeDetermine(parse, spec, left);
      AgreeMeansSpec(parse, spec, left);
    }
    MeansSpecIff(parse, src);
    forall before, results, now, left | MayLeave(src, before, results, now, left)
      ensures EmitsOne(parse, src, before, results, now, left)
    {
      ConfluenceIff(parse, src, before, results, now, left);
    }
    EmitsOneIff(parse, src);
  }

  lemma AgreeMeansSpec(parse: Parser, spec: Spec, left: seq<FqdnStatus>)
    requires parse("").None? && KnownProtocols(spec.egress) && EndsAgree(spec.egress)
    ensures PolicyMeansSpec(parse, spec, left)
  {
    forall out, d | Canonical(TableOf(Compile(parse, spec, left)), out)
      ensures Admits(out, d) <==> SpecAdmits(parse, spec, left, d)
    {
      PolicyMeaning(parse, spec, left, out, d);
    }
  }
}
