/** `DNSResolver.Resolve` (pkg/network/resolver.go:258-307) as interleaved atomic steps of its
    goroutines, the closer and the collecting caller. */
module Resolver {
  import opened Sorting
  import opened Policy
  import opened Status

  /** Where one goroutine is. Its deferred calls run after the send: release the slot, then
      report to the wait group. */
  datatype Stage =
    | Unborn
    | Ready                  // at the select
    | Looking                // holds a slot, lookup running
    | Got(res: Result)       // lookup returned, about to send
    | Sent(res: Result)      // sent, slot still held
    | Bailing(res: Result)   // saw the cancellation, about to send
    | Leaving(res: Result)   // sent and holding no slot
    | Finished(res: Result)  // reported to the wait group
  {
    predicate HoldsSlot() { Looking? || Got? || Sent? }
    predicate Live() { !Unborn? && !Finished? }
    predicate HasSent() { Sent? || Leaving? || Finished? }

    function Rank(): nat {
      match this
      case Unborn => 6
      case Ready => 5
      case Looking => 4
      case Got(_) => 3
      case Bailing(_) => 2
      case Sent(_) => 2
      case Leaving(_) => 1
      case Finished(_) => 0
    }
  }

  datatype Closer = NotStarted | Waiting | Closed

  /** `answers[i]` is what the i-th lookup returns if it runs, an answer cut short by a timeout or a
      cancellation included; `slots` is the semaphore's capacity. */
  datatype Config = Config(answers: seq<Result>, slots: nat)

  /** `panicked` stands for a send on a closed channel, a second close, or a negative wait group. */
  datatype State = State(
    stages: seq<Stage>, spawned: nat, tokens: nat, waiting: int, canceled: bool,
    buffer: seq<Result>, closer: Closer, collected: seq<Result>, returned: bool, panicked: bool)

  datatype Step =
    | Cancel
    | Spawn
    | StartCloser
    | Acquire(i: nat)
    | Bail(i: nat)
    | Answer(i: nat)
    | Send(i: nat)
    | Release(i: nat)
    | Done(i: nat)
    | Close
    | Receive
    | Finish

  const BAIL_MESSAGE := "Context canceled before resolution could start"

  /** The result of a goroutine that never got a slot. */
  function BailResult(c: Config, i: nat): Result
    requires i < |c.answers|
  {
    Result(c.answers[i].fqdn, Error, BAIL_MESSAGE, BAIL_MESSAGE, [])
  }

  function Init(c: Config): State {
    State(seq(|c.answers|, _ => Unborn), 0, 0, 0, false, [], NotStarted, [], c.answers == [], false)
  }

  /** Whether a step can happen: a channel send needs room, a receive an element, the wait a zero count. */
  predicate Enabled(c: Config, s: State, step: Step)
    requires |s.stages| == |c.answers|
  {
    && !s.returned && !s.panicked
    && match step
       case Cancel => !s.canceled
       case Spawn => s.spawned < |s.stages|
       case StartCloser => s.spawned == |s.stages| && s.closer.NotStarted?
       case Acquire(i) => i < |s.stages| && s.stages[i].Ready? && s.tokens < c.slots
       case Bail(i) => i < |s.stages| && s.stages[i].Ready? && s.canceled
       case Answer(i) => i < |s.stages| && s.stages[i].Looking?
       case Send(i) => i < |s.stages| && (s.stages[i].Got? || s.stages[i].Bailing?) && |s.buffer| < |s.stages|
       case Release(i) => i < |s.stages| && s.stages[i].Sent? && s.tokens > 0
       case Done(i) => i < |s.stages| && s.stages[i].Leaving?
       case Close => s.closer.Waiting? && s.waiting == 0
       case Receive => !s.closer.NotStarted? && s.buffer != []
       case Finish => s.closer.Closed? && s.buffer == []
  }

  function Apply(c: Config, s: State, step: Step): State
    requires |s.stages| == |c.answers| && Enabled(c, s, step)
  {
    match step
    case Cancel => s.(canceled := true)
    case Spawn => s.(stages := s.stages[s.spawned := Ready], spawned := s.spawned + 1, waiting := s.waiting + 1)
    case StartCloser => s.(closer := Waiting)
    case Acquire(i) => s.(stages := s.stages[i := Looking], tokens := s.tokens + 1)
    case Bail(i) => s.(stages := s.stages[i := Bailing(BailResult(c, i))])
    case Answer(i) => s.(stages := s.stages[i := Got(c.answers[i])])
    case Send(i) =>
      s.(stages := s.stages[i := if s.stages[i].Got? then Sent(s.stages[i].res) else Leaving(s.stages[i].res)],
         buffer := s.buffer + [s.stages[i].res],
         panicked := s.closer.Closed?)
    case Release(i) => s.(stages := s.stages[i := Leaving(s.stages[i].res)], tokens := s.tokens - 1)
    case Done(i) => s.(stages := s.stages[i := Finished(s.stages[i].res)], waiting := s.waiting - 1, panicked :=
      s.waiting <= 0)
    case Close => s.(closer := Closed)
    case Receive => s.(collected := s.collected + [s.buffer[0]], buffer := s.buffer[1..])
    case Finish => s.(returned := true)
  }

  /** The state after a run of steps, if they were all possible. */
  function Exec(c: Config, steps: seq<Step>): (r: Option<State>)
    ensures r.Some? ==> |r.value.stages| == |c.answers|
  {
    if steps == [] then Some(Init(c))
    else
      var before := Exec(c, steps[..|steps| - 1]);
      var step := steps[|steps| - 1];
      if before.Some? && Enabled(c, before.value, step) then Some(Apply(c, before.value, step)) else None
  }

  // ------------------------------------------------------------------ counting over goroutines

  function Count(p: Stage -> bool, stages: seq<Stage>): nat {
    if stages == [] then 0
    else Count(p, stages[..|stages| - 1]) + if p(stages[|stages| - 1]) then 1 else 0
  }

  function One(b: bool): nat { if b then 1 else 0 }

  lemma {:induction false} CountUpdate(p: Stage -> bool, stages: seq<Stage>, i: nat, x: Stage)
    requires i < |stages|
    ensures Count(p, stages[i := x]) == Count(p, stages) - One(p(stages[i])) + One(p(x))
  {
    var n := |stages| - 1;
    if i < n {
      assert stages[i := x][..n] == stages[..n][i := x];
      CountUpdate(p, stages[..n], i, x);
    } else {
      assert stages[i := x][..n] == stages[..n];
    }
  }

  lemma {:induction false} CountBounds(p: Stage -> bool, stages: seq<Stage>)
    ensures Count(p, stages) <= |stages|
    ensures Count(p, stages) == |stages| ==> forall i :: 0 <= i < |stages| ==> p(stages[i])
    ensures Count(p, stages) == 0 ==> forall i :: 0 <= i < |stages| ==> !p(stages[i])
    ensures (forall i :: 0 <= i < |stages| ==> p(stages[i])) ==> Count(p, stages) == |stages|
    ensures (forall i :: 0 <= i < |stages| ==> !p(stages[i])) ==> Count(p, stages) == 0
  {
    if stages != [] {
      CountBounds(p, stages[..|stages| - 1]);
    }
  }

  lemma {:induction false} CountMonotone(p: Stage -> bool, q: Stage -> bool, stages: seq<Stage>)
    requires forall x :: p(x) ==> q(x)
    ensures Count(p, stages) <= Count(q, stages)
  {
    if stages != [] {
      CountMonotone(p, q, stages[..|stages| - 1]);
    }
  }

  /** The results sent so far. */
  function Bag(stages: seq<Stage>): multiset<Result> {
    if stages == [] then multiset{}
    else
      var last := stages[|stages| - 1];
      Bag(stages[..|stages| - 1]) + if last.HasSent() then multiset{last.res} else multiset{}
  }

  function BagOne(x: Stage): multiset<Result> {
    if x.HasSent() then multiset{x.res} else multiset{}
  }

  lemma BagSnoc(stages: seq<Stage>, x: Stage)
    ensures Bag(stages + [x]) == Bag(stages) + BagOne(x)
  {
    assert (stages + [x])[..|stages|] == stages;
  }

  /** Changing a goroutine that has not sent adds what it has sent then. */
  lemma {:induction false} BagUpdate(stages: seq<Stage>, i: nat, x: Stage)
    requires i < |stages| && (stages[i].HasSent() ==> BagOne(x) == BagOne(stages[i]))
    ensures Bag(stages[i := x]) == if stages[i].HasSent() then Bag(stages) else Bag(stages) + BagOne(x)
  {
    var init, last := stages[..|stages| - 1], stages[|stages| - 1];
    UpdateInit(stages, i, x);
    BagSnoc(init, last);
    if i < |init| {
      BagUpdate(init, i, x);
      BagSnoc(init[i := x], last);
      Swap(Bag(init), BagOne(x), BagOne(last));
    } else {
      BagSnoc(init, x);
    }
  }

  lemma UpdateInit(stages: seq<Stage>, i: nat, x: Stage)
    requires i < |stages|
    ensures stages == stages[..|stages| - 1] + [stages[|stages| - 1]]
    ensures stages[i := x] == if i == |stages| - 1 then stages[..|stages| - 1] + [x]
                              else stages[..|stages| - 1][i := x] + [stages[|stages| - 1]]
  {
  }

  lemma {:induction false} BagSize(stages: seq<Stage>)
    ensures |Bag(stages)| == Count((x: Stage) => x.HasSent(), stages)
  {
    if stages != [] {
      BagSize(stages[..|stages| - 1]);
    }
  }

  function Holding(stages: seq<Stage>): nat { Count((x: Stage) => x.HoldsSlot(), stages) }

  function LiveCount(stages: seq<Stage>): nat { Count((x: Stage) => x.Live(), stages) }

  function InFlight(stages: seq<Stage>): nat { Count((x: Stage) => x.Looking?, stages) }

  // ------------------------------------------------------------------ the invariant

  /** The result a goroutine carries is its lookup's answer or, after a cancellation, the bail result. */
  predicate Carries(c: Config, s: State, i: nat)
    requires i < |s.stages| == |c.answers|
  {
    match s.stages[i]
    case Got(r) => r == c.answers[i]
    case Sent(r) => r == c.answers[i]
    case Bailing(r) => s.canceled && r == BailResult(c, i)
    case Leaving(r) => r == c.answers[i] || (s.canceled && r == BailResult(c, i))
    case Finished(r) => r == c.answers[i] || (s.canceled && r == BailResult(c, i))
    case _ => true
  }

  ghost predicate Inv(c: Config, s: State) {
    && |s.stages| == |c.answers| && s.spawned <= |s.stages|
    && (forall i :: 0 <= i < |s.stages| ==> (s.stages[i].Unborn? <==> i >= s.spawned))
    && (forall i :: 0 <= i < |s.stages| ==> Carries(c, s, i))
    && s.tokens == Holding(s.stages) <= c.slots
    && s.waiting == LiveCount(s.stages)
    && (!s.closer.NotStarted? ==> s.spawned == |s.stages|)
    && (s.closer.Closed? ==> s.waiting == 0)
    && multiset(s.buffer) + multiset(s.collected) == Bag(s.stages)
    && (s.returned ==> s.buffer == [] && (s.closer.Closed? || s.stages == []))
    && !s.panicked
  }

  lemma InitInv(c: Config)
    ensures Inv(c, Init(c))
  {
    var stages := Init(c).stages;
    CountBounds((x: Stage) => x.HoldsSlot(), stages);
    CountBounds((x: Stage) => x.Live(), stages);
    NothingSent(stages);
  }

  lemma {:induction false} NothingSent(stages: seq<Stage>)
    requires forall i :: 0 <= i < |stages| ==> !stages[i].HasSent()
    ensures Bag(stages) == multiset{}
  {
    if stages != [] {
      NothingSent(stages[..|stages| - 1]);
    }
  }

  /** How changing one goroutine changes the counts. */
  lemma Change(stages: seq<Stage>, i: nat, x: Stage)
    requires i < |stages| && (stages[i].HasSent() ==> BagOne(x) == BagOne(stages[i]))
    ensures Holding(stages[i := x]) == Holding(stages) - One(stages[i].HoldsSlot()) + One(x.HoldsSlot())
    ensures LiveCount(stages[i := x]) == LiveCount(stages) - One(stages[i].Live()) + One(x.Live())
    ensures Bag(stages[i := x]) == if stages[i].HasSent() then Bag(stages) else Bag(stages) + BagOne(x)
  {
    CountUpdate((s: Stage) => s.HoldsSlot(), stages, i, x);
    CountUpdate((s: Stage) => s.Live(), stages, i, x);
    BagUpdate(stages, i, x);
  }

  lemma LiveMeansWaiting(c: Config, s: State, i: nat)
    requires Inv(c, s) && i < |s.stages| && s.stages[i].Live()
    ensures s.waiting > 0 && !s.closer.Closed?
  {
    CountBounds((x: Stage) => x.Live(), s.stages);
  }

  /** The one goroutine a step moves, and where to. */
  function Moved(c: Config, s: State, step: Step): Option<(nat, Stage)>
    requires |s.stages| == |c.answers| && Enabled(c, s, step)
  {
    match step
    case Spawn => Some((s.spawned, Ready))
    case Acquire(i) => Some((i, Looking))
    case Bail(i) => Some((i, Bailing(BailResult(c, i))))
    case Answer(i) => Some((i, Got(c.answers[i])))
    case Send(i) => Some((i, if s.stages[i].Got? then Sent(s.stages[i].res) else Leaving(s.stages[i].res)))
    case Release(i) => Some((i, Leaving(s.stages[i].res)))
    case Done(i) => Some((i, Finished(s.stages[i].res)))
    case _ => None
  }

  lemma MovedIs(c: Config, s: State, step: Step)
    requires Inv(c, s) && Enabled(c, s, step)
    ensures var m := Moved(c, s, step);
            if m.Some? then
              && m.value.0 < |s.stages|
              && Apply(c, s, step).stages == s.stages[m.value.0 := m.value.1]
              && (s.stages[m.value.0].HasSent() ==> BagOne(m.value.1) == BagOne(s.stages[m.value.0]))
            else Apply(c, s, step).stages == s.stages
  {
  }

  lemma StepCarries(c: Config, s: State, step: Step)
    requires Inv(c, s) && Enabled(c, s, step)
    ensures forall i :: 0 <= i < |c.answers| ==> Carries(c, Apply(c, s, step), i)
  {
    MovedIs(c, s, step);
    forall i | 0 <= i < |c.answers| ensures Carries(c, Apply(c, s, step), i) {
      assert Carries(c, s, i);
    }
  }

  /** Slots taken and goroutines waited for change as the goroutine that moves does. */
  lemma MovedCounts(c: Config, s: State, step: Step)
    requires Inv(c, s) && Enabled(c, s, step)
    ensures var t, m := Apply(c, s, step), Moved(c, s, step);
            && t.tokens <= c.slots
            && (if m.Some? then
                  var was, next := s.stages[m.value.0], m.value.1;
                  && t.tokens == s.tokens - One(was.HoldsSlot()) + One(next.HoldsSlot())
                  && t.waiting == s.waiting - One(was.Live()) + One(next.Live())
                else t.tokens == s.tokens && t.waiting == s.waiting)
  {
    MovedIs(c, s, step);
  }

  lemma StepCounts(c: Config, s: State, step: Step)
    requires Inv(c, s) && Enabled(c, s, step)
    ensures var t := Apply(c, s, step); t.tokens == Holding(t.stages) <= c.slots && t.waiting == LiveCount(t.stages)
  {
    MovedIs(c, s, step);
    MovedCounts(c, s, step);
    var m := Moved(c, s, step);
    if m.Some? {
      Change(s.stages, m.value.0, m.value.1);
    }
  }

  /** Handing one result over keeps the results in transit. */
  lemma ReceiveKeeps(buffer: seq<Result>, collected: seq<Result>)
    requires buffer != []
    ensures multiset(buffer[1..]) + multiset(collected + [buffer[0]]) == multiset(buffer) + multiset(collected)
  {
    assert buffer == [buffer[0]] + buffer[1..];
  }

  lemma SendAdds(buffer: seq<Result>, collected: seq<Result>, r: Result)
    ensures multiset(buffer + [r]) + multiset(collected) == multiset(buffer) + multiset(collected) + multiset{r}
  {
  }

  lemma MovedSends(c: Config, s: State, step: Step)
    requires Inv(c, s) && Enabled(c, s, step) && Moved(c, s, step).Some?
    ensures var m := Moved(c, s, step).value;
            if step.Send? then m.0 == step.i && !s.stages[m.0].HasSent() && BagOne(m.1) == multiset{s.stages[m.0].res}
            else s.stages[m.0].HasSent() || BagOne(m.1) == multiset{}
  {
  }

  lemma StepSent(c: Config, s: State, step: Step)
    requires Inv(c, s) && Enabled(c, s, step)
    ensures Bag(Apply(c, s, step).stages)
            == Bag(s.stages) + if step.Send? then multiset{s.stages[step.i].res} else multiset{}
  {
    MovedIs(c, s, step);
    var m := Moved(c, s, step);
    if m.Some? {
      MovedSends(c, s, step);
      BagUpdate(s.stages, m.value.0, m.value.1);
    }
  }

  lemma StepBag(c: Config, s: State, step: Step)
    requires Inv(c, s) && Enabled(c, s, step)
    ensures var t := Apply(c, s, step); multiset(t.buffer) + multiset(t.collected) == Bag(t.stages)
  {
    StepSent(c, s, step);
    if step.Send? {
      SendAdds(s.buffer, s.collected, s.stages[step.i].res);
    } else if step.Receive? {
      ReceiveKeeps(s.buffer, s.collected);
    }
  }

  lemma StepQuiet(c: Config, s: State, step: Step)
    requires Inv(c, s) && Enabled(c, s, step)
    ensures !Apply(c, s, step).panicked
  {
    if step.Send? || step.Done? {
      LiveMeansWaiting(c, s, step.i);
    }
  }

  lemma StepClosed(c: Config, s: State, step: Step)
    requires Inv(c, s) && Enabled(c, s, step)
    ensures Apply(c, s, step).closer.Closed? ==> Apply(c, s, step).waiting == 0
  {
    if step.Done? {
      LiveMeansWaiting(c, s, step.i);
    }
  }

  lemma StepInv(c: Config, s: State, step: Step)
    requires Inv(c, s) && Enabled(c, s, step)
    ensures Inv(c, Apply(c, s, step))
  {
    MovedIs(c, s, step);
    StepCarries(c, s, step);
    StepCounts(c, s, step);
    StepBag(c, s, step);
    StepQuiet(c, s, step);
    StepClosed(c, s, step);
  }

  lemma {:induction false} ReachableInv(c: Config, steps: seq<Step>)
    requires Exec(c, steps).Some?
    ensures Inv(c, Exec(c, steps).value)
  {
    if steps == [] {
      InitInv(c);
    } else {
      ReachableInv(c, steps[..|steps| - 1]);
      StepInv(c, Exec(c, steps[..|steps| - 1]).value, steps[|steps| - 1]);
    }
  }

  // ------------------------------------------------------------------ safety

  lemma SentLeavesRoom(c: Config, s: State, i: nat)
    requires Inv(c, s) && i < |s.stages| && !s.stages[i].HasSent()
    ensures |s.buffer| + |s.collected| < |s.stages|
  {
    CountBounds((x: Stage) => x.HasSent(), s.stages);
    BagSize(s.stages);
    assert |multiset(s.buffer) + multiset(s.collected)| == |s.buffer| + |s.collected|;
  }

  lemma BufferFits(c: Config, s: State)
    requires Inv(c, s)
    ensures |s.buffer| <= |s.stages|
  {
    CountBounds((x: Stage) => x.HasSent(), s.stages);
    BagSize(s.stages);
    assert |multiset(s.buffer) + multiset(s.collected)| == |s.buffer| + |s.collected|;
  }

  /** Safety in every interleaving, cancelled at any moment or not: slots taken are the
      goroutines between acquire and release; lookups in flight never exceed the limit; nothing
      is sent after the close; the buffer never overflows; a goroutine with a result can always
      send it, and one that sent can always give its slot back. */
  lemma Safe(c: Config, steps: seq<Step>, s: State)
    requires Exec(c, steps) == Some(s)
    ensures InFlight(s.stages) <= s.tokens == Holding(s.stages) <= c.slots
    ensures !s.panicked && |s.buffer| <= |c.answers|
    ensures forall i :: 0 <= i < |s.stages| && (s.stages[i].Got? || s.stages[i].Bailing?) && !s.returned ==>
        Enabled(c, s, Send(i))
    ensures forall i :: 0 <= i < |s.stages| && s.stages[i].Sent? && !s.returned ==> Enabled(c, s, Release(i))
  {
    ReachableInv(c, steps);
    BufferFits(c, s);
    CountMonotone((x: Stage) => x.Looking?, (x: Stage) => x.HoldsSlot(), s.stages);
    forall i | 0 <= i < |s.stages| && (s.stages[i].Got? || s.stages[i].Bailing?) && !s.returned
      ensures Enabled(c, s, Send(i))
    {
      SentLeavesRoom(c, s, i);
    }
    CountBounds((x: Stage) => x.HoldsSlot(), s.stages);
  }

  // ------------------------------------------------------------------ the returned list

  function NamesOf(results: seq<Result>): seq<string> {
    seq(|results|, i requires 0 <= i < |results| => results[i].fqdn)
  }

  /** The i-th result of a finished run. */
  function Delivered(stages: seq<Stage>): seq<Result>
    requires forall i :: 0 <= i < |stages| ==> stages[i].Finished?
  {
    seq(|stages|, i requires 0 <= i < |stages| => stages[i].res)
  }

  lemma {:induction false} BagDelivered(stages: seq<Stage>)
    requires forall i :: 0 <= i < |stages| ==> stages[i].Finished?
    ensures Bag(stages) == multiset(Delivered(stages))
  {
    if stages == [] {
      assert Delivered(stages) == [];
    } else {
      var n := |stages| - 1;
      BagDelivered(stages[..n]);
      DeliveredNext(stages);
    }
  }

  lemma DeliveredNext(stages: seq<Stage>)
    requires stages != [] && forall i :: 0 <= i < |stages| ==> stages[i].Finished?
    ensures Delivered(stages) == Delivered(stages[..|stages| - 1]) + [stages[|stages| - 1].res]
  {
  }

  /** What is said of a name whose lookup never started. */
  predicate CutShort(r: Result, fqdn: string) {
    && r.fqdn == fqdn && r.reason == Error && r.cidrs == []
    && r.message == r.raw == "Context canceled before resolution could start"
  }

  /** The list returned holds, in some order, one result for each input name: its lookup's answer,
      or, only in a cancelled run, an error of that name without CIDRs. */
  lemma ReturnsPermutation(c: Config, steps: seq<Step>, s: State) returns (list: seq<Result>)
    requires Exec(c, steps) == Some(s) && s.returned
    ensures multiset(s.collected) == multiset(list) && |list| == |c.answers|
    ensures forall i :: 0 <= i < |list| ==>
              list[i] == c.answers[i] || (s.canceled && CutShort(list[i], c.answers[i].fqdn))
    ensures NamesOf(list) == NamesOf(c.answers)
  {
    ReachableInv(c, steps);
    AllFinished(c, s);
    BagDelivered(s.stages);
    list := Delivered(s.stages);
    assert multiset(s.collected) == Bag(s.stages);
    forall i | 0 <= i < |list|
      ensures list[i] == c.answers[i] || (s.canceled && CutShort(list[i], c.answers[i].fqdn))
    {
      assert Carries(c, s, i);
    }
  }

  lemma AllFinished(c: Config, s: State)
    requires Inv(c, s) && s.returned
    ensures forall i :: 0 <= i < |s.stages| ==> s.stages[i].Finished?
  {
    CountBounds((x: Stage) => x.Live(), s.stages);
  }

  /** Without cancellation every interleaving returns a permutation of the answers. */
  lemma ReturnsAnswers(c: Config, steps: seq<Step>, s: State)
    requires Exec(c, steps) == Some(s) && s.returned && !s.canceled
    ensures multiset(s.collected) == multiset(c.answers)
  {
    var list := ReturnsPermutation(c, steps, s);
    assert list == c.answers;
  }

  /** The results sent so far, in the order of the sends. */
  function SentBy(c: Config, steps: seq<Step>): seq<Result>
    requires Exec(c, steps).Some?
  {
    if steps == [] then []
    else
      var init, last := steps[..|steps| - 1], steps[|steps| - 1];
      SentBy(c, init) + if last.Send? then [Exec(c, init).value.stages[last.i].res] else []
  }

  /** They are collected in that order. */
  lemma {:induction false} CollectedInOrder(c: Config, steps: seq<Step>)
    requires Exec(c, steps).Some?
    ensures var s := Exec(c, steps).value; s.collected + s.buffer == SentBy(c, steps)
  {
    if steps != [] {
      var init, last := steps[..|steps| - 1], steps[|steps| - 1];
      CollectedInOrder(c, init);
      QueueNext(c, Exec(c, init).value, last);
    }
  }

  /** A send adds its result at the end, and nothing else changes what was sent. */
  lemma QueueNext(c: Config, s: State, step: Step)
    requires |s.stages| == |c.answers| && Enabled(c, s, step)
    ensures var t := Apply(c, s, step);
            t.collected + t.buffer == s.collected + s.buffer + if step.Send? then [s.stages[step.i].res] else []
  {
    var t := Apply(c, s, step);
    match step
    case Receive => assert s.buffer == [s.buffer[0]] + s.buffer[1..];
    case Send(i) => assert t.collected + t.buffer == s.collected + s.buffer + [s.stages[i].res];
    case _ =>
      assert t.collected == s.collected && t.buffer == s.buffer;
      assert s.collected + s.buffer + [] == s.collected + s.buffer;
  }

  // ------------------------------------------------------------------ termination

  function RankSum(stages: seq<Stage>): nat {
    if stages == [] then 0 else RankSum(stages[..|stages| - 1]) + stages[|stages| - 1].Rank()
  }

  lemma {:induction false} RankUpdate(stages: seq<Stage>, i: nat, x: Stage)
    requires i < |stages|
    ensures RankSum(stages[i := x]) == RankSum(stages) - stages[i].Rank() + x.Rank()
  {
    var n := |stages| - 1;
    if i < n {
      assert stages[i := x][..n] == stages[..n][i := x];
      RankUpdate(stages[..n], i, x);
    } else {
      assert stages[i := x][..n] == stages[..n];
    }
  }

  function Measure(s: State): nat {
    2 * RankSum(s.stages) + |s.buffer|
    + (if s.closer.NotStarted? then 2 else if s.closer.Waiting? then 1 else 0)
    + One(!s.canceled) + One(!s.returned)
  }

  /** Every step makes the measure smaller. */
  lemma StepDecreases(c: Config, s: State, step: Step)
    requires Inv(c, s) && Enabled(c, s, step)
    ensures Measure(Apply(c, s, step)) < Measure(s)
  {
    MovedIs(c, s, step);
    var m := Moved(c, s, step);
    if m.Some? {
      RankUpdate(s.stages, m.value.0, m.value.1);
    }
  }

  lemma {:induction false} UnbornRank(stages: seq<Stage>)
    requires forall i :: 0 <= i < |stages| ==> stages[i].Unborn?
    ensures RankSum(stages) == 6 * |stages|
  {
    if stages != [] {
      UnbornRank(stages[..|stages| - 1]);
    }
  }

  /** No run is longer than twelve steps per name and four more. */
  lemma {:induction false} RunsAreBounded(c: Config, steps: seq<Step>)
    requires Exec(c, steps).Some?
    ensures |steps| + Measure(Exec(c, steps).value) <= 12 * |c.answers| + 4
  {
    if steps == [] {
      UnbornRank(Init(c).stages);
    } else {
      var init := steps[..|steps| - 1];
      RunsAreBounded(c, init);
      ReachableInv(c, init);
      StepDecreases(c, Exec(c, init).value, steps[|steps| - 1]);
    }
  }

  lemma SomeGoroutine(p: Stage -> bool, stages: seq<Stage>) returns (i: nat)
    requires Count(p, stages) > 0
    ensures i < |stages| && p(stages[i])
  {
    CountBounds(p, stages);
    i :| 0 <= i < |stages| && p(stages[i]);
  }

  /** A goroutine past the select can always move on. */
  lemma HolderMoves(c: Config, s: State, i: nat) returns (step: Step)
    requires Inv(c, s) && !s.returned && i < |s.stages| && s.stages[i].Live() && !s.stages[i].Ready?
    ensures Enabled(c, s, step) && !step.Cancel?
  {
    match s.stages[i] {
      case Looking => step := Answer(i);
      case Got(_) => SentLeavesRoom(c, s, i); step := Send(i);
      case Bailing(_) => SentLeavesRoom(c, s, i); step := Send(i);
      case Sent(_) => CountBounds((x: Stage) => x.HoldsSlot(), s.stages); step := Release(i);
      case Leaving(_) => step := Done(i);
    }
  }

  /** Deadlock freedom: with at least one slot, a run that has not returned can go on without
      any help from a cancellation. */
  lemma NeverStuck(c: Config, s: State) returns (step: Step)
    requires Inv(c, s) && c.slots >= 1 && !s.returned
    ensures Enabled(c, s, step) && !step.Cancel?
  {
    if s.spawned < |s.stages| {
      step := Spawn;
    } else if s.closer.NotStarted? {
      step := StartCloser;
    } else if s.buffer != [] {
      step := Receive;
    } else if s.closer.Closed? {
      step := Finish;
    } else if s.waiting == 0 {
      step := Close;
    } else {
      var i := SomeGoroutine((x: Stage) => x.Live(), s.stages);
      if !s.stages[i].Ready? {
        step := HolderMoves(c, s, i);
      } else if s.tokens < c.slots {
        step := Acquire(i);
      } else {
        var j := SomeGoroutine((x: Stage) => x.HoldsSlot(), s.stages);
        step := HolderMoves(c, s, j);
      }
    }
  }

  /** Any run can be completed without cancelling it. */
  lemma {:induction false} Completes(c: Config, steps: seq<Step>) returns (all: seq<Step>)
    requires c.slots >= 1 && Exec(c, steps).Some?
    ensures steps <= all && Exec(c, all).Some? && Exec(c, all).value.returned
    ensures Exec(c, all).value.canceled == Exec(c, steps).value.canceled
    decreases Measure(Exec(c, steps).value)
  {
    var s := Exec(c, steps).value;
    if s.returned {
      all := steps;
    } else {
      ReachableInv(c, steps);
      var step := NeverStuck(c, s);
      StepDecreases(c, s, step);
      assert (steps + [step])[..|steps|] == steps;
      assert Exec(c, steps + [step]) == Some(Apply(c, s, step));
      all := Completes(c, steps + [step]);
    }
  }

  /** Without slots no goroutine gets past the select unless cancelled. */
  lemma {:induction false} HeldAtSelect(c: Config, steps: seq<Step>)
    requires c.slots == 0 && c.answers != [] && Exec(c, steps).Some? && !Exec(c, steps).value.canceled
    ensures var s := Exec(c, steps).value;
            !s.returned && !s.closer.Closed?
            && forall i :: 0 <= i < |s.stages| ==> s.stages[i].Unborn? || s.stages[i].Ready?
  {
    if steps != [] {
      var init := steps[..|steps| - 1];
      HeldAtSelect(c, init);
      ReachableInv(c, init);
      var s := Exec(c, init).value;
      CountBounds((x: Stage) => x.Live(), s.stages);
      if s.spawned == |s.stages| {
        assert s.stages[0].Live();
      }
    }
  }

  /** An uncancelled run that returns. */
  predicate Returns(c: Config, steps: seq<Step>) {
    Exec(c, steps).Some? && Exec(c, steps).value.returned && !Exec(c, steps).value.canceled
  }

  /** An uncancelled run can return exactly when there is a slot or nothing to resolve. */
  lemma CanReturnIff(c: Config)
    ensures (exists steps :: Returns(c, steps)) <==> c.slots >= 1 || c.answers == []
  {
    assert Exec(c, []) == Some(Init(c));
    if c.slots >= 1 {
      var all := Completes(c, []);
      assert Returns(c, all);
    } else if c.answers == [] {
      assert Returns(c, []);
    } else {
      forall steps ensures !Returns(c, steps) {
        if Exec(c, steps).Some? && !Exec(c, steps).value.canceled {
          HeldAtSelect(c, steps);
        }
      }
    }
  }

  /** The operator's start-up gives the resolver at least one slot (cmd/main.go:119-121). */
  function SlotLimit(configured: int, processors: int): int {
    if configured <= 0 then
      var p := if processors > 1 then processors else 1;
      if p < 20 then p else 20
    else configured
  }

  /** A positive flag is taken as it is; else the limit is the greatest number that neither 20
      nor the number of processors, taken as at least one, is below. */
  lemma SlotLimitIs(configured: int, processors: int, n: int)
    ensures configured > 0 ==> SlotLimit(configured, processors) == configured
    ensures configured <= 0 ==> (n <= SlotLimit(configured, processors) <==> n <= 20 && (n <= 1 || n <= processors))
  {
  }

  /** So whatever the flag says and wherever a run of the operator's resolver is, it can be
      completed without being cancelled. */
  lemma StartUpCompletes(configured: int, processors: int, c: Config, steps: seq<Step>) returns (all: seq<Step>)
    requires c.slots == SlotLimit(configured, processors) && Exec(c, steps).Some?
    ensures steps <= all && Exec(c, all).Some? && Exec(c, all).value.returned
    ensures Exec(c, all).value.canceled == Exec(c, steps).value.canceled
  {
    all := Completes(c, steps);
  }
}
