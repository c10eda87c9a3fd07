/** Two short runs of a new broker, at concrete inputs, that show where its guarantees end. */
module Scenarios {
  import opened Types
  import opened SemStore
  import opened StoreInvariant
  import opened StoreCalls
  import opened Sequential
  import opened Timeouts
  import opened Broker
  import opened Wakeups
  import opened Overtaking
  import opened UndoWatch

  /** The first identifier a broker issues. */
  const ID: I32 := 0x1_0001
  const T: Timespec := Timespec(0, 0)

  function Caller(pid: I32): Actor { Actor(pid, Identity(0, 0)) }

  /** Take one unit, with the given flags. */
  function Take(flags: U16): seq<SemOp> { [SemOp(0, -1, flags)] }

  function Create(): Event { Request(Caller(1), SemGet(IPC_PRIVATE, 1, 0), 0, T, 0, false) }

  function Taking(pid: I32, flags: U16): Event { Request(Caller(pid), SemOps(ID, Take(flags), None), 0, T, 0, false) }

  function Post(): Event { Request(Caller(1), SetValue(ID, 0, 1), 0, T, 0, false) }

  // ---- One semaphore ----

  /** The store holds one set, the first, with one semaphore at `v` and `n` waiters, and nobody has adjustments. */
  ghost predicate One(s: Store, v: int, n: int) {
    && Valid(s) && Live(s, ID) && SetOf(s, ID).nsems == 1 && SetOf(s, ID).values == [v]
    && SetOf(s, ID).negative == [n] && s.undo == map[]
    && forall i :: 1 <= i < MAX_SETS ==> !s.sets[i].active
  }

  lemma OneCreated()
    ensures var (s, r) := Exec(Empty(), SemGet(IPC_PRIVATE, 1, 0), Caller(1), 0); r == Reply(ID, Nothing) && One(s, 0, 0)
  {
    var s := Empty();
    assert !s.sets[0].active;
    assert CreationSlot(s, IPC_PRIVATE, 1, 0) == Some(0);
    GetAsCases(s, IPC_PRIVATE, 1, 0, Identity(0, 0), 0);
    InstallValid(s, 0, Created(s.sets[0], IPC_PRIVATE, 1, 0, Identity(0, 0), 0));
  }

  lemma TakeBlocks(s: Store, n: int, flags: U16)
    requires One(s, 0, n) && (flags == 0 || flags == SEM_UNDO)
    ensures Blocked(s, ID, Take(flags))
  {
    assert !NoWait(Take(flags)[0]);
    assert EnabledBefore(SetOf(s, ID).values, Take(flags), 0);
    assert WaitsAt(SetOf(s, ID).values, Take(flags), 0);
  }

  lemma TakeSucceeds(s: Store, n: int, flags: U16, pid: I32, now: I64)
    requires One(s, 1, n) && (flags == 0 || flags == SEM_UNDO)
    ensures !Blocked(s, ID, Take(flags)) && TryOp(s, ID, Take(flags), pid, now).1 == Outcome(0, None)
  {
    var ops := Take(flags);
    TakeVerdict(s, n, flags, pid);
    assert Enabled(Met(SetOf(s, ID).values, ops, 0), ops[0].op);
    assert EnabledBefore(SetOf(s, ID).values, ops, |ops|);
    hide Valid, UndoVerdict;
    TryOpSequential(s, ID, ops, pid, now);
    BlockedExactly(s, ID, ops, pid, now);
  }

  lemma TakeNet(flags: U16, num: int, i: nat)
    requires i <= 1 && (flags == 0 || flags == SEM_UNDO)
    ensures Net(Take(flags)[..i], num, true) == if i == 1 && num == 0 && flags == SEM_UNDO then -1 else 0
  {
    var ops := Take(flags)[..i];
    assert i == 1 ==> ops == [SemOp(0, -1, flags)] && ops[..0] == [];
  }

  lemma TakeVerdict(s: Store, n: int, flags: U16, pid: I32)
    requires One(s, 1, n) && (flags == 0 || flags == SEM_UNDO)
    ensures UndoVerdict(s.undo, ID, Take(flags), pid, 1) == 0
  {
    hide Net, Valid;
    var ops := Take(flags);
    assert ops[..1] == ops;
    forall num, i: nat | i <= 1 {
      TakeNet(flags, num, i);
    }
    SubsetSize(NewKeys(s.undo, ID, ops, pid, 1), {UndoKey(pid, ID, 0)});
  }

  // ---- Steps ----

  /** One waiter is queued for the semaphore. */
  ghost predicate OneWaiter(b: Broker, pid: I32, flags: U16, woken: bool) {
    && |b.queue| == 1 && b.queue[0].id == ID && b.queue[0].ops == Take(flags) && b.queue[0].actor == Caller(pid)
    && b.queue[0].reason == Reason(0, false) && b.queue[0].deadline == None && b.queue[0].woken == woken
  }

  lemma CreateStep()
    ensures Possible(Start(), Create())
    ensures var b := Step(Start(), Create()); One(b.store, 0, 0) && b == Start().(store := b.store)
  {
    OneCreated();
  }

  lemma CountOne(s: Store)
    requires One(s, 0, 0)
    ensures var (s', r) := AdjustWaitCount(s, ID, 0, false, 1); r == 0 && One(s', 0, 1)
  {
    AdjustWaitCountValid(s, ID, 0, false, 1);
  }

  lemma TakingWaits(b: Broker, pid: I32, flags: U16)
    requires One(b.store, 0, 0) && b.queue == [] && (flags == 0 || flags == SEM_UNDO)
    ensures var (b', r) := Serve(b, Caller(pid), SemOps(ID, Take(flags), None), 0, T, false);
            && r.Sleeping? && One(b'.store, 0, 1) && OneWaiter(b', pid, flags, false)
            && b' == b.(store := b'.store, queue := b'.queue, tickets := b'.tickets)
  {
    hide Valid, One, TryOp, Blocked, Retry, AdjustWaitCount, Take;
    var c := SemOps(ID, Take(flags), None);
    OneValid(b.store, 0, 0);
    TakeBlocks(b.store, 0, flags);
    ReasonIsTake(b.store, flags, pid);
    CountOne(b.store);
    var s := AdjustWaitCount(b.store, ID, 0, false, 1).0;
    OneValid(s, 0, 1);
    TakeBlocks(s, 1, flags);
    RetryBlocked(Queued(b, s, Caller(pid), c, Reason(0, false), T), 0, 0);
  }

  lemma OneValid(s: Store, v: int, n: int)
    requires One(s, v, n)
    ensures Valid(s)
  {
  }

  lemma ReasonIsTake(s: Store, flags: U16, pid: I32)
    requires One(s, 0, 0) && (flags == 0 || flags == SEM_UNDO)
    ensures TryOp(s, ID, Take(flags), pid, 0) == (s, Outcome(OP_BLOCKED, Some(Reason(0, false))))
  {
    hide Valid, TryOp, Blocked, WaitsAt;
    TakeBlocks(s, 0, flags);
    BlockedExactly(s, ID, Take(flags), pid, 0);
  }

  lemma PostStep(b: Broker, pid: I32, flags: U16)
    requires One(b.store, 0, 1) && OneWaiter(b, pid, flags, false)
    ensures Possible(b, Post())
    ensures var b' := Step(b, Post());
            && One(b'.store, 1, 1) && OneWaiter(b', pid, flags, true)
            && b' == b.(store := b'.store, queue := b'.queue)
  {
    SetValValid(b.store, ID, 0, 1, 1, 0);
  }

  // ---- An enabled waiter is overtaken ----

  /** One process waits, the semaphore is posted, and before the waiter has its turn another process takes the unit. */
  function OvertakenRun(): seq<Event> { [Create(), Taking(2, 0), Post()] }

  lemma TakingStep(b: Broker, pid: I32)
    requires One(b.store, 0, 0) && b.queue == [] && pid > 0
    ensures Possible(b, Taking(pid, 0))
    ensures var b' := Step(b, Taking(pid, 0)); One(b'.store, 0, 1) && OneWaiter(b', pid, 0, false)
  {
    hide Valid, One, Serve, Waiting;
    TakingWaits(b, pid, 0);
  }

  /** One more event at the end of a run. */
  lemma {:induction false} RunSnoc(b: Broker, es: seq<Event>, e: Event)
    requires Valid(b.store) && Runs(b, es) && Possible(After(b, es), e)
    ensures Runs(b, es + [e]) && After(b, es + [e]) == Step(After(b, es), e)
    decreases |es|
  {
    hide Valid, Step, Possible;
    if es == [] {
      assert es + [e] == [e] && [e][1..] == [];
      StepValid(b, e);
      assert Runs(Step(b, e), []);
    } else {
      assert (es + [e])[1..] == es[1..] + [e];
      StepValid(b, es[0]);
      RunSnoc(Step(b, es[0]), es[1..], e);
    }
  }

  lemma CreateRuns()
    ensures Runs(Start(), [Create()])
    ensures var b := After(Start(), [Create()]); One(b.store, 0, 0) && b == Start().(store := b.store)
  {
    hide Valid, One, Step, Possible;
    CreateStep();
    assert Runs(Start(), []) && After(Start(), []) == Start();
    RunSnoc(Start(), [], Create());
    assert [] + [Create()] == [Create()];
  }

  lemma TakenAnswered(b: Broker)
    requires One(b.store, 1, 1)
    ensures Valid(b.store)
    ensures Handle(b, Caller(3), SemOps(ID, Take(0), None), 0, T, 0, false).1 == Answered(Reply(0, Nothing))
  {
    hide Valid, TryOp, Blocked;
    TakeSucceeds(b.store, 1, 0, 3, 0);
    assert !UsesUndo(Take(0));
  }

  lemma EnabledWaiterOvertaken()
    ensures Runs(Start(), OvertakenRun())
    ensures var b := After(Start(), OvertakenRun());
            var c := SemOps(ID, Take(0), None);
            && |b.queue| == 1 && b.queue[0].woken && !Blocked(b.store, b.queue[0].id, b.queue[0].ops)
            && Overtakes(b, Caller(3), c, 0, T, false, 0)
            && Handle(b, Caller(3), c, 0, T, 0, false).1 == Answered(Reply(0, Nothing))
  {
    hide Valid, One, Blocked, TryOp, Step, Handle, Overtakes, Possible, Take, Runs, After;
    var r1 := [Create()];
    var r2 := r1 + [Taking(2, 0)];
    var r3 := r2 + [Post()];
    assert r3 == OvertakenRun();
    CreateRuns();
    TakingStep(After(Start(), r1), 2);
    RunSnoc(Start(), r1, Taking(2, 0));
    PostStep(After(Start(), r2), 2, 0);
    RunSnoc(Start(), r2, Post());
    var b := After(Start(), r3);
    TakeSucceeds(b.store, 1, 0, 3, 0);
    OvertakesExactly(b, Caller(3), SemOps(ID, Take(0), None), 0, T, false);
    TakenAnswered(b);
  }

  // ---- Undo that comes too late ----

  /** A process waits with SEM_UNDO and exits while a copy of its connection, made by fork, is still open. Its exit is
      observed, then its request succeeds. */
  function LateRun(): seq<Event> { [Create(), Taking(2, SEM_UNDO), ProcessGone(0, 0), Post(), Retrying()] }

  function Retrying(): Event { Resume(0, 0, T, false, false) }

  lemma TakingUndoStep(b: Broker, pid: I32)
    requires One(b.store, 0, 0) && b.queue == [] && pid > 0 && b.watchers == Start().watchers
    ensures Possible(b, Taking(pid, SEM_UNDO))
    ensures var b' := Step(b, Taking(pid, SEM_UNDO));
            One(b'.store, 0, 1) && OneWaiter(b', pid, SEM_UNDO, false) && b'.watchers == b.watchers[0 := Some(pid)]
  {
    hide Valid, One, Serve, Waiting;
    assert Has(Take(SEM_UNDO)[0].flg, SEM_UNDO);
    assert FirstFree(b.watchers, 0) == 0;
    var b' := Watching(b, pid, 0).0;
    assert b'.queue == [] && b'.store == b.store;
    TakingWaits(b', pid, SEM_UNDO);
  }

  lemma GoneStep(b: Broker, pid: I32)
    requires One(b.store, 0, 1) && OneWaiter(b, pid, SEM_UNDO, false) && pid > 0
    requires b.watchers == Start().watchers[0 := Some(pid)]
    ensures Possible(b, ProcessGone(0, 0))
    ensures var b' := Step(b, ProcessGone(0, 0));
            && One(b'.store, 0, 1) && OneWaiter(b', pid, SEM_UNDO, false)
            && b'.watchers == Start().watchers && pid in b'.exited
  {
    hide RestoredSets;
    assert KeysOfPid(b.store.undo, pid) == {};
    QuietExit(b.store, pid, 0);
  }

  lemma RetryingIsLate(b: Broker, pid: I32)
    requires One(b.store, 1, 1) && OneWaiter(b, pid, SEM_UNDO, true) && b.watchers == Start().watchers
    ensures Valid(b.store) && Possible(b, Retrying()) && LateUndo(b, Retrying())
  {
    hide Valid, TryOp, Blocked, Net;
    TakeSucceeds(b.store, 1, SEM_UNDO, pid, 0);
    TakeNet(SEM_UNDO, 0, 1);
    assert Take(SEM_UNDO)[..1] == Take(SEM_UNDO);
    assert Net(b.queue[0].ops, 0, true) != 0;
  }

  lemma UndoComesLate()
    ensures Runs(Start(), LateRun())
    ensures !Covered(After(Start(), LateRun()).store.undo, After(Start(), LateRun()).watchers)
  {
    hide Valid, One, Blocked, TryOp, Step, Possible, Take, Runs, After, LateUndo, NoOrphans, Covered;
    var r1 := [Create()];
    var r2 := r1 + [Taking(2, SEM_UNDO)];
    var r3 := r2 + [ProcessGone(0, 0)];
    var r4 := r3 + [Post()];
    var r5 := r4 + [Retrying()];
    assert r5 == LateRun();
    CreateRuns();
    TakingUndoStep(After(Start(), r1), 2);
    RunSnoc(Start(), r1, Taking(2, SEM_UNDO));
    GoneStep(After(Start(), r2), 2);
    RunSnoc(Start(), r2, ProcessGone(0, 0));
    PostStep(After(Start(), r3), 2, SEM_UNDO);
    RunSnoc(Start(), r3, Post());
    var b := After(Start(), r4);
    RetryingIsLate(b, 2);
    RunSnoc(Start(), r4, Retrying());
    WatchedSoFar(b);
    StepOrphans(b, Retrying());
  }

  /** Up to there nothing is orphaned: nobody has adjustments, and the waiter's exit was observed. */
  lemma WatchedSoFar(b: Broker)
    requires One(b.store, 1, 1) && b.watchers == Start().watchers && |b.queue| == 1 && b.queue[0].actor.pid in b.exited
    ensures NoOrphans(b) && WatchersPositive(b)
  {
  }
}
