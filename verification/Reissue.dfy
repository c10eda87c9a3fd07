/** How many removals it takes until a waiter finds its identifier issued again, and its count lost. */
module Reissue {
  import opened Types
  import opened SemStore
  import opened StoreInvariant
  import opened StoreCalls
  import opened Broker
  import opened WaitCounts
  import opened BrokerStore
  import opened Identifiers
  import opened Scenarios

  function Drop(g: U16): Event
    requires g <= MAX_GENERATION
  {
    Request(Caller(1), RemoveSet(MakeId(0, g)), 0, T, 0, false)
  }

  /** Creates and removes the first set `k` times, starting at generation `g`, and creates it once more. */
  function Cycle(g: U16, k: nat): seq<Event>
    requires 1 <= g <= MAX_GENERATION
    decreases k
  {
    [Create()] + if k == 0 then [] else [Drop(g)] + Cycle(NextGeneration(g), k - 1)
  }

  /** A process waits on the first set, which is then removed `n` times in all before the waiter has its turn, and
      created again after each removal. */
  function ReissueRun(n: nat): seq<Event>
    requires n >= 1
  {
    [Create()] + ([Taking(2, 0)] + ([Drop(1)] + Cycle(2, n - 1)))
  }

  // ---- States ----

  /** The waiter that was queued for the first identifier. */
  ghost predicate Abandoned(q: seq<Waiter>) {
    |q| == 1 && q[0].id == ID && q[0].reason == Reason(0, false)
  }

  /** No set exists, and the first slot is at generation `g`. */
  ghost predicate Vacated(b: Broker, g: int) {
    && Valid(b.store) && b.store.sets[0].generation == g && 1 <= g <= MAX_GENERATION
    && (forall i :: 0 <= i < MAX_SETS ==> !b.store.sets[i].active)
    && Abandoned(b.queue)
  }

  /** The only set is a new one in the first slot, at generation `g`, with one semaphore. */
  ghost predicate Reborn(b: Broker, g: int) {
    && Valid(b.store) && b.store.sets[0].active && b.store.sets[0].generation == g && 1 <= g <= MAX_GENERATION
    && b.store.sets[0].nsems == 1 && b.store.sets[0].negative == [0] && b.store.sets[0].zero == [0]
    && (forall i :: 1 <= i < MAX_SETS ==> !b.store.sets[i].active)
    && Abandoned(b.queue)
  }

  /** Counts and queue agree about the new set exactly when it does not have the first identifier. */
  lemma RebornAgrees(b: Broker, g: int)
    requires Reborn(b, g)
    ensures Agree(b.store, b.queue) <==> g != 1
  {
    hide Valid;
    ValidFacts(b.store);
    var q := b.queue;
    assert q[..0] == [] && ID == MakeId(0, 1);
    IdRoundTrip(0, 1);
    if g == 1 {
      assert HasSem(b.store, ID, 0) && CountIn(b.store, ID, Reason(0, false)) == 0;
      assert Tally(q, ID, Reason(0, false)) == 1;
    } else {
      forall id, reason: Reason | HasSem(b.store, id, reason.num)
        ensures CountIn(b.store, id, reason) == Tally(q, id, reason)
      {
        assert DecodeId(id).value == (0, g);
      }
    }
  }

  // ---- Steps ----

  /** The removals among the store events of a step. */
  ghost function StepRemovals(b: Broker, e: Event): nat
    requires Valid(b.store) && Possible(b, e)
  {
    AllRemovals(b.store, StepEvents(b, e))
  }

  lemma OneEvent(s: Store, e: StoreEvent)
    requires Valid(s)
    ensures |s.sets| == MAX_SETS && AllRemovals(s, [e]) == if Removes(s, e) then 1 else 0
  {
    hide Valid, Apply, Removes;
    ValidFacts(s);
    assert [e][1..] == [];
    assert AllRemovals(Apply(s, e), []) == 0;
  }

  lemma CreateAgain(b: Broker, g: int)
    requires Vacated(b, g)
    ensures Possible(b, Create()) && Reborn(Step(b, Create()), g) && StepRemovals(b, Create()) == 0
  {
    hide Valid, GetAs;
    ValidFacts(b.store);
    var s := b.store;
    assert CreationSlot(s, IPC_PRIVATE, 1, 0) == Some(0);
    GetAsCases(s, IPC_PRIVATE, 1, 0, Identity(0, 0), 0);
    GetAsValid(s, IPC_PRIVATE, 1, 0, Identity(0, 0), 0);
    OneEvent(s, Perform(SemGet(IPC_PRIVATE, 1, 0), Caller(1), 0));
    assert StepEvents(b, Create()) == [Perform(SemGet(IPC_PRIVATE, 1, 0), Caller(1), 0)];
  }

  lemma DropStep(b: Broker, g: U16)
    requires Valid(b.store) && 1 <= g <= MAX_GENERATION && b.store.sets[0].active && b.store.sets[0].generation == g
    requires (forall i :: 1 <= i < MAX_SETS ==> !b.store.sets[i].active) && Abandoned(b.queue)
    ensures Possible(b, Drop(g)) && Vacated(Step(b, Drop(g)), NextGeneration(g)) && StepRemovals(b, Drop(g)) == 1
  {
    hide Valid, Cleared;
    ValidFacts(b.store);
    IdRoundTrip(0, g);
    var id := MakeId(0, g);
    RemoveValid(b.store, id);
    OneEvent(b.store, Perform(RemoveSet(id), Caller(1), 0));
    assert StepEvents(b, Drop(g)) == [Perform(RemoveSet(id), Caller(1), 0)];
  }

  /** Operation lists remove nothing. */
  lemma {:induction false} NoRemovals(s: Store, es: seq<StoreEvent>)
    requires Valid(s) && forall i :: 0 <= i < |es| ==> !(es[i].Perform? && es[i].call.RemoveSet?)
    ensures AllRemovals(s, es) == 0
    decreases |es|
  {
    hide Valid, Apply;
    ValidFacts(s);
    if es != [] {
      NoRemovals(Apply(s, es[0]), es[1..]);
    }
  }

  lemma TakingRemovals(b: Broker)
    requires Valid(b.store) && Possible(b, Taking(2, 0))
    ensures StepRemovals(b, Taking(2, 0)) == 0
  {
    hide Valid, Exec, Retry, AdjustWaitCount, FirstForSet, AllRemovals, Watch;
    NoRemovals(b.store, StepEvents(b, Taking(2, 0)));
  }

  // ---- Runs ----

  /** One more event at the front of a run. */
  lemma RunCons(b: Broker, e: Event, es: seq<Event>)
    requires Valid(b.store) && Possible(b, e) && Valid(Step(b, e).store) && Runs(Step(b, e), es)
    ensures Runs(b, [e] + es) && After(b, [e] + es) == After(Step(b, e), es)
    ensures AllRemovals(b.store, RunEvents(b, [e] + es)) ==
            StepRemovals(b, e) + AllRemovals(Step(b, e).store, RunEvents(Step(b, e), es))
  {
    hide Valid, Step, Possible, StepEvents, AllRemovals, Run;
    var run := [e] + es;
    assert run[0] == e && run[1..] == es;
    assert Runs(b, run);
    StepRefines(b, e);
    RemovalsSplit(b.store, StepEvents(b, e), RunEvents(Step(b, e), es));
  }

  lemma {:induction false} CycleRuns(b: Broker, g: U16, k: nat)
    requires Vacated(b, g)
    ensures Runs(b, Cycle(g, k)) && Reborn(After(b, Cycle(g, k)), Advance(g, k))
    ensures AllRemovals(b.store, RunEvents(b, Cycle(g, k))) == k
    decreases k
  {
    hide Valid, Step, Possible, Vacated, Reborn, Runs, After, RunEvents, AllRemovals, StepRemovals, Create, Drop, Advance, NextGeneration;
    States(b, g);
    CreateAgain(b, g);
    var b1 := Step(b, Create());
    States(b1, g);
    if k == 0 {
      NoEvents(b1);
      RunCons(b, Create(), []);
      AdvanceNone(g);
    } else {
      RebornDrops(b1, g);
      var b2 := Step(b1, Drop(g));
      States(b2, NextGeneration(g));
      CycleRuns(b2, NextGeneration(g), k - 1);
      RunCons(b1, Drop(g), Cycle(NextGeneration(g), k - 1));
      RunCons(b, Create(), [Drop(g)] + Cycle(NextGeneration(g), k - 1));
      AdvanceOnce(g, k - 1);
    }
  }

  lemma States(b: Broker, g: int)
    ensures Vacated(b, g) || Reborn(b, g) ==> Valid(b.store) && 1 <= g <= MAX_GENERATION
  {
  }

  lemma RebornDrops(b: Broker, g: U16)
    requires Reborn(b, g)
    ensures Valid(b.store) && 1 <= g <= MAX_GENERATION
    ensures Possible(b, Drop(g)) && Vacated(Step(b, Drop(g)), NextGeneration(g)) && StepRemovals(b, Drop(g)) == 1
  {
    hide Step, Vacated, StepRemovals, Possible, Drop;
    DropStep(b, g);
  }

  lemma NoEvents(b: Broker)
    requires Valid(b.store)
    ensures Runs(b, []) && After(b, []) == b && RunEvents(b, []) == [] && AllRemovals(b.store, []) == 0
  {
  }

  lemma AdvanceNone(g: int)
    requires 1 <= g <= MAX_GENERATION
    ensures Advance(g, 0) == g
  {
  }

  /** A waiter whose set is removed `n` times before its turn, the set being created again each time, is counted
      wrongly if and only if `n` is a multiple of 32767. So the bound on removals under which counts agree is tight. */
  lemma ReissueBreaksCounts(n: nat)
    requires n >= 1
    ensures Runs(Start(), ReissueRun(n))
    ensures AllRemovals(Start().store, RunEvents(Start(), ReissueRun(n))) == n
    ensures var b := After(Start(), ReissueRun(n)); Agree(b.store, b.queue) <==> n % MAX_GENERATION != 0
  {
    hide Valid, One, Step, Possible, Reborn, Runs, After, RunEvents, AllRemovals, StepRemovals, Agree, Advance, Cycle;
    var rest := Cycle(2, n - 1);
    CreateStep();
    var b1 := Step(Start(), Create());
    OneValid(b1.store, 0, 0);
    TakingStep(b1, 2);
    var b2 := Step(b1, Taking(2, 0));
    OneValid(b2.store, 0, 1);
    OneDrops(b2);
    var b3 := Step(b2, Drop(1));
    CycleRuns(b3, 2, n - 1);
    FirstRemovals(b1);
    RunCons(b2, Drop(1), rest);
    RunCons(b1, Taking(2, 0), [Drop(1)] + rest);
    RunCons(Start(), Create(), [Taking(2, 0)] + ([Drop(1)] + rest));
    AdvanceFixed(1, n);
    AdvanceTwo(n);
    RebornAgrees(After(Start(), ReissueRun(n)), Advance(1, n));
  }

  lemma AdvanceTwo(n: nat)
    requires n >= 1
    ensures Advance(2, n - 1) == Advance(1, n)
  {
  }

  lemma OneDrops(b: Broker)
    requires One(b.store, 0, 1) && OneWaiter(b, 2, 0, false)
    ensures Valid(b.store) && Possible(b, Drop(1)) && Vacated(Step(b, Drop(1)), 2) && StepRemovals(b, Drop(1)) == 1
    ensures Valid(Step(b, Drop(1)).store)
  {
    hide Valid, Step, StepRemovals, Possible, Drop;
    OneValid(b.store, 0, 1);
    DropStep(b, 1);
  }

  lemma FirstRemovals(b: Broker)
    requires Valid(b.store) && Possible(b, Taking(2, 0))
    ensures Possible(Start(), Create()) && StepRemovals(Start(), Create()) == 0 && StepRemovals(b, Taking(2, 0)) == 0
  {
    hide Valid, Exec;
    TakingRemovals(b);
    var e := Perform(SemGet(IPC_PRIVATE, 1, 0), Caller(1), 0);
    OneEvent(Start().store, e);
    assert StepEvents(Start(), Create()) == [e];
  }
}
