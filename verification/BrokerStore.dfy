/** What the broker does to its store is a run of store events, so every property of store runs holds of it. */
module BrokerStore {
  import opened Types
  import opened SemStore
  import opened StoreInvariant
  import opened StoreCalls
  import opened Sequential
  import opened Timeouts
  import opened Broker
  import opened Wakeups
  import opened WaitCounts
  import opened Conservation
  import opened CrashSafety

  function CountOutEvent(w: Waiter): StoreEvent { Count(w.id, w.reason.num, w.reason.zero, -1) }

  ghost function LoopEvents(b: Broker, i: nat, now: I64, peerClosed: bool): seq<StoreEvent>
    requires Valid(b.store) && i < |b.queue|
  {
    var w := b.queue[i];
    if peerClosed then [CountOutEvent(w)]
    else if !FirstForSet(b.queue, i) then []
    else if Retry(b, i, now).1.result == OP_BLOCKED then [Perform(SemOps(w.id, w.ops, None), w.actor, now)]
    else [Perform(SemOps(w.id, w.ops, None), w.actor, now), CountOutEvent(w)]
  }

  ghost function BlockEvents(b: Broker, a: Actor, c: Call, reason: Reason, now: I64, clock: Timespec, peerClosed: bool): seq<StoreEvent>
    requires Valid(b.store) && c.SemOps?
  {
    var (s, counted) := AdjustWaitCount(b.store, c.id, reason.num, reason.zero, 1);
    AdjustWaitCountValid(b.store, c.id, reason.num, reason.zero, 1);
    if counted != 0 then []
    else [Count(c.id, reason.num, reason.zero, 1)] + LoopEvents(Queued(b, s, a, c, reason, clock), |b.queue|, now, peerClosed)
  }

  ghost function ServeEvents(b: Broker, a: Actor, c: Call, now: I64, clock: Timespec, peerClosed: bool): seq<StoreEvent>
    requires Valid(b.store)
  {
    var (s, r) := Exec(b.store, c, a, now);
    ExecValid(b.store, c, a, now);
    [Perform(c, a, now)] +
    if c.SemOps? && r.result == OP_BLOCKED then BlockEvents(b.(store := s), a, c, ReasonOf(r), now, clock, peerClosed) else []
  }

  /** The store events of one broker step. */
  ghost function StepEvents(b: Broker, e: Event): seq<StoreEvent>
    requires Valid(b.store) && Possible(b, e)
  {
    match e
    case Request(a, c, now, clock, watchError, peerClosed) =>
      if c.SemOps? && UsesUndo(c.ops) then
        var (b', error) := Watching(b, a.pid, watchError);
        if error != 0 then [] else ServeEvents(b', a, c, now, clock, peerClosed)
      else ServeEvents(b, a, c, now, clock, peerClosed)
    case Malformed(_, _, _) => []
    case Resume(at, now, clock, failed, peerClosed) =>
      if failed || Expired(clock, b.queue[at].deadline) then [CountOutEvent(b.queue[at])]
      else LoopEvents(b, at, now, peerClosed)
    case ProcessGone(w, now) => [Exited(b.watchers[w].value, now)]
  }

  lemma RunOne(s: Store, e: StoreEvent)
    requires Valid(s)
    ensures Run(s, [e]) == Applied(s, e)
  {
    hide Valid, Applied;
    assert [e][1..] == [];
  }

  lemma LoopRefines(b: Broker, i: nat, now: I64, peerClosed: bool)
    requires Valid(b.store) && i < |b.queue|
    ensures Loop(b, i, now, peerClosed).0.store == Run(b.store, LoopEvents(b, i, now, peerClosed))
  {
    hide Valid, FirstForSet, AdjustWaitCount, Exec, Run, Apply;
    var w := b.queue[i];
    var retry := Perform(SemOps(w.id, w.ops, None), w.actor, now);
    RunNone(b.store);
    RunOne(b.store, CountOutEvent(w));
    RunOne(b.store, retry);
    var s := Retry(b, i, now).0;
    RunOne(s, CountOutEvent(w));
    RunAppend(b.store, [retry], [CountOutEvent(w)]);
    assert [retry] + [CountOutEvent(w)] == [retry, CountOutEvent(w)];
  }

  lemma RunNone(s: Store)
    requires Valid(s)
    ensures Run(s, []) == s
  {
  }

  lemma BlockRefines(b: Broker, a: Actor, c: Call, reason: Reason, now: I64, clock: Timespec, peerClosed: bool)
    requires Valid(b.store) && c.SemOps?
    ensures Block(b, a, c, reason, now, clock, peerClosed).0.store ==
            Run(b.store, BlockEvents(b, a, c, reason, now, clock, peerClosed))
  {
    hide Valid, AdjustWaitCount, Run, Loop, LoopEvents, Apply;
    var (s, counted) := AdjustWaitCount(b.store, c.id, reason.num, reason.zero, 1);
    AdjustWaitCountValid(b.store, c.id, reason.num, reason.zero, 1);
    RunNone(b.store);
    if counted == 0 {
      var e := Count(c.id, reason.num, reason.zero, 1);
      var b' := Queued(b, s, a, c, reason, clock);
      RunOne(b.store, e);
      LoopRefines(b', |b.queue|, now, peerClosed);
      RunAppend(b.store, [e], LoopEvents(b', |b.queue|, now, peerClosed));
    }
  }

  lemma ServeRefines(b: Broker, a: Actor, c: Call, now: I64, clock: Timespec, peerClosed: bool)
    requires Valid(b.store)
    ensures Serve(b, a, c, now, clock, peerClosed).0.store == Run(b.store, ServeEvents(b, a, c, now, clock, peerClosed))
  {
    hide Valid, Exec, Run, Block, BlockEvents, Apply;
    var (s, r) := Exec(b.store, c, a, now);
    ExecValid(b.store, c, a, now);
    RunOne(b.store, Perform(c, a, now));
    RunNone(s);
    if c.SemOps? && r.result == OP_BLOCKED {
      BlockRefines(b.(store := s), a, c, ReasonOf(r), now, clock, peerClosed);
      RunAppend(b.store, [Perform(c, a, now)], BlockEvents(b.(store := s), a, c, ReasonOf(r), now, clock, peerClosed));
    } else {
      RunAppend(b.store, [Perform(c, a, now)], []);
    }
  }

  lemma StepRefines(b: Broker, e: Event)
    requires Valid(b.store) && Possible(b, e)
    ensures Step(b, e).store == Run(b.store, StepEvents(b, e))
  {
    hide Valid, Serve, ServeEvents, Loop, LoopEvents, Run, AdjustWaitCount, ProcessExit, Watch, Apply;
    RunNone(b.store);
    match e
    case Request(a, c, now, clock, watchError, peerClosed) =>
      ServeRefines(b, a, c, now, clock, peerClosed);
      ServeRefines(Watching(b, a.pid, watchError).0, a, c, now, clock, peerClosed);
    case Malformed(_, _, _) =>
    case Resume(at, now, clock, failed, peerClosed) =>
      RunOne(b.store, CountOutEvent(b.queue[at]));
      LoopRefines(b, at, now, peerClosed);
    case ProcessGone(w, now) => RunOne(b.store, Exited(b.watchers[w].value, now));
  }

  /** The store events of a broker run. */
  ghost function RunEvents(b: Broker, es: seq<Event>): seq<StoreEvent>
    requires Valid(b.store) && Runs(b, es)
    decreases |es|
  {
    if es == [] then [] else StepValid(b, es[0]); StepEvents(b, es[0]) + RunEvents(Step(b, es[0]), es[1..])
  }

  /** The store of the broker after any run is the store after the run's events. */
  lemma {:induction false} BrokerRefines(b: Broker, es: seq<Event>)
    requires Valid(b.store) && Runs(b, es)
    ensures After(b, es).store == Run(b.store, RunEvents(b, es))
    decreases |es|
  {
    hide Valid, Step, StepEvents, Possible, Run;
    RunNone(b.store);
    if es != [] {
      StepValid(b, es[0]);
      StepRefines(b, es[0]);
      BrokerRefines(Step(b, es[0]), es[1..]);
      RunAppend(b.store, StepEvents(b, es[0]), RunEvents(Step(b, es[0]), es[1..]));
    }
  }

  /** Crash-safe counting holds in every reachable state of the whole broker, waiters and retries included. */
  lemma BrokerCrashSafe(b: Broker, es: seq<Event>, id: I32, num: U16, total: int)
    requires Counted(b.store, id, num, total) && Runs(b, es)
    requires DisciplinedRun(b.store, RunEvents(b, es), id, num)
    ensures Counted(After(b, es).store, id, num, total)
  {
    hide After, RunEvents, Runs, Run, Counted, DisciplinedRun;
    CountedValid(b.store, id, num, total);
    BrokerRefines(b, es);
    CrashSafe(b.store, RunEvents(b, es), id, num, total);
  }

  /** So does undo conservation. */
  lemma BrokerConserves(b: Broker, es: seq<Event>, id: I32, num: U16)
    requires Valid(b.store) && HasSem(b.store, id, num) && Runs(b, es)
    requires NeverRemoved(RunEvents(b, es), id)
    ensures HasSem(After(b, es).store, id, num)
    ensures Total(After(b, es).store, id, num) == Ledger(b.store, RunEvents(b, es), id, num, Total(b.store, id, num))
  {
    hide After, RunEvents, Runs, Run, NeverRemoved, Ledger, Total;
    BrokerRefines(b, es);
    RunConserves(b.store, RunEvents(b, es), id, num);
  }

  // ---- Identifiers issued in the past ----

  /** The identifier has been issued: its generation is past, or is the one its slot uses now. */
  predicate Issued(s: Store, id: I32)
    requires |s.sets| == MAX_SETS
  {
    DecodeId(id).Some? &&
    var (i, g) := DecodeId(id).value;
    g < s.sets[i].generation || (g == s.sets[i].generation && s.sets[i].active)
  }

  ghost predicate GenerationsUpTo(s: Store, n: int) {
    |s.sets| == MAX_SETS && forall i :: 0 <= i < MAX_SETS ==> s.sets[i].generation <= n
  }

  predicate Removes(s: Store, e: StoreEvent)
    requires |s.sets| == MAX_SETS
  {
    e.Perform? && e.call.RemoveSet? && Live(s, e.call.id)
  }

  ghost function AllRemovals(s: Store, es: seq<StoreEvent>): nat
    requires Valid(s)
    decreases |es|
  {
    if es == [] then 0 else (if Removes(s, es[0]) then 1 else 0) + AllRemovals(Apply(s, es[0]), es[1..])
  }

  /** While no generation wraps around, an issued identifier stays issued. */
  lemma EventIssued(s: Store, e: StoreEvent, n: int)
    requires Valid(s) && GenerationsUpTo(s, n) && 1 <= n && (Removes(s, e) ==> n < MAX_GENERATION)
    ensures |Apply(s, e).sets| == MAX_SETS
    ensures forall id :: Issued(s, id) ==> Issued(Apply(s, e), id)
    ensures GenerationsUpTo(Apply(s, e), if Removes(s, e) then n + 1 else n)
  {
    hide Valid, GetAs, Remove, Apply, Issued;
    ValidFacts(s);
    ValidFacts(Apply(s, e));
    EventGenerations(s, e);
    forall id | Issued(s, id)
      ensures Issued(Apply(s, e), id)
    {
      IssuedGrows(s, Apply(s, e), id, n, Removes(s, e));
    }
  }

  /** A step of a slot's generation: unchanged, numbered for the first time, or advanced by a removal. */
  ghost predicate Grows(t: SemSet, t': SemSet, removes: bool) {
    (t'.generation == t.generation && (t.active ==> t'.active)) || (t.generation == 0 && t'.generation == 1) ||
    (removes && t'.generation == NextGeneration(t.generation))
  }

  lemma IssuedGrows(s: Store, s': Store, id: I32, n: int, removes: bool)
    requires |s.sets| == |s'.sets| == MAX_SETS && Issued(s, id) && GenerationsUpTo(s, n) && (removes ==> n < MAX_GENERATION)
    requires forall i :: 0 <= i < MAX_SETS ==> Grows(s.sets[i], s'.sets[i], removes)
    ensures Issued(s', id)
  {
  }

  lemma EventGenerations(s: Store, e: StoreEvent)
    requires Valid(s)
    ensures |s.sets| == |Apply(s, e).sets| == MAX_SETS
    ensures forall i :: 0 <= i < MAX_SETS ==> Grows(s.sets[i], Apply(s, e).sets[i], Removes(s, e))
  {
    hide Valid, GetAs, Cleared;
    ValidFacts(s);
    ValidFacts(Apply(s, e));
    if e.Perform? && e.call.SemGet? {
      GetAsCases(s, e.call.key, e.call.nsems, e.call.flags, e.actor.who, e.now);
    } else if !(e.Perform? && e.call.RemoveSet?) {
      EventShape(s, e);
    }
  }

  lemma {:induction false} RunIssued(s: Store, es: seq<StoreEvent>, n: int)
    requires Valid(s) && GenerationsUpTo(s, n) && 1 <= n && n + AllRemovals(s, es) <= MAX_GENERATION
    ensures |Run(s, es).sets| == MAX_SETS
    ensures forall id :: Issued(s, id) ==> Issued(Run(s, es), id)
    ensures GenerationsUpTo(Run(s, es), n + AllRemovals(s, es))
    decreases |es|
  {
    hide Valid, Apply, Issued, Removes;
    ValidFacts(s);
    if es != [] {
      EventIssued(s, es[0], n);
      RunIssued(Apply(s, es[0]), es[1..], if Removes(s, es[0]) then n + 1 else n);
    }
  }

  lemma {:induction false} RemovalsSplit(s: Store, es: seq<StoreEvent>, fs: seq<StoreEvent>)
    requires Valid(s)
    ensures AllRemovals(s, es + fs) == AllRemovals(s, es) + AllRemovals(Run(s, es), fs)
    decreases |es|
  {
    hide Valid, Apply, Removes;
    if es == [] {
      assert es + fs == fs;
    } else {
      assert (es + fs)[1..] == es[1..] + fs;
      RemovalsSplit(Apply(s, es[0]), es[1..], fs);
    }
  }

  lemma LiveIssued(s: Store, id: I32)
    requires |s.sets| == MAX_SETS && Live(s, id)
    ensures Issued(s, id)
  {
  }

  /** A new identifier was never issued before. */
  lemma NewIdFresh(s: Store, c: Call)
    requires Valid(s) && NewId(s, c).Some?
    ensures !Issued(s, NewId(s, c).value)
  {
    var i := CreationSlot(s, c.key, c.nsems, c.flags).value;
    IdRoundTrip(i, if s.sets[i].generation == 0 then 1 else s.sets[i].generation);
  }

  ghost predicate QueueIssued(s: Store, q: seq<Waiter>) {
    |s.sets| == MAX_SETS && forall i :: 0 <= i < |q| ==> Issued(s, q[i].id)
  }

  /** At most one waiter is missing; the others still wait on the same sets, in the same order. */
  ghost predicate Thinned(q: seq<Waiter>, q': seq<Waiter>) {
    forall i :: 0 <= i < |q'| ==> Near(q, i, q'[i].id)
  }

  ghost predicate Near(q: seq<Waiter>, i: nat, id: I32) {
    (i < |q| && q[i].id == id) || (i + 1 < |q| && q[i + 1].id == id)
  }

  /** Only the identifiers waited on matter. */
  lemma ThinnedIds(q: seq<Waiter>, r: seq<Waiter>, q': seq<Waiter>)
    requires |q| == |r| && forall i :: 0 <= i < |q| ==> q[i].id == r[i].id
    ensures Thinned(q, q') <==> Thinned(r, q')
  {
  }

  lemma FinishThinned(b: Broker, i: nat)
    requires Valid(b.store) && i < |b.queue|
    ensures Thinned(b.queue, Finish(b, i).queue)
  {
    hide Valid, AdjustWaitCount;
  }

  lemma LoopThinned(b: Broker, i: nat, now: I64, peerClosed: bool)
    requires Valid(b.store) && i < |b.queue|
    ensures Thinned(b.queue, Loop(b, i, now, peerClosed).0.queue)
  {
    hide Valid, Retry, FirstForSet, Finish;
    FinishThinned(b, i);
    FinishThinned(b.(store := Retry(b, i, now).0, completed := b.completed + [Completion(b.queue[i].id, b.queue[i].ticket)]), i);
  }

  lemma ServeThinned(b: Broker, a: Actor, c: Call, now: I64, clock: Timespec, peerClosed: bool, w: Waiter)
    requires Valid(b.store) && (c.SemOps? ==> w.id == c.id)
    ensures Thinned(b.queue, Serve(b, a, c, now, clock, peerClosed).0.queue) ||
            (c.SemOps? && Blocked(b.store, c.id, c.ops) &&
             Thinned(b.queue + [w], Serve(b, a, c, now, clock, peerClosed).0.queue))
  {
    hide Valid, Exec, AdjustWaitCount, Loop, Deadline, Blocked;
    var (s, r) := Exec(b.store, c, a, now);
    ExecValid(b.store, c, a, now);
    if c.SemOps? && r.result == OP_BLOCKED {
      BlockedStore(b.store, c, a, now);
      var reason := ReasonOf(r);
      AdjustWaitCountValid(s, c.id, reason.num, reason.zero, 1);
      var s' := AdjustWaitCount(s, c.id, reason.num, reason.zero, 1).0;
      var queued := Queued(b.(store := s), s', a, c, reason, clock);
      LoopThinned(queued, |b.queue|, now, peerClosed);
      ThinnedIds(queued.queue, b.queue + [w], Loop(queued, |b.queue|, now, peerClosed).0.queue);
    }
  }

  /** A step queues only waiters that were queued before or wait on a set that is live. */
  lemma StepQueue(b: Broker, e: Event, i: nat)
    requires Valid(b.store) && Possible(b, e) && i < |Step(b, e).queue|
    ensures |b.store.sets| == MAX_SETS
    ensures Live(b.store, Step(b, e).queue[i].id) || exists j :: 0 <= j < |b.queue| && b.queue[j].id == Step(b, e).queue[i].id
  {
    hide Valid, Serve, ProcessExit, Watch, Loop, Finish, UsesUndo, Live, Blocked, Expired;
    ValidFacts(b.store);
    var q, q' := b.queue, Step(b, e).queue;
    match e {
      case Request(a, c, now, clock, watchError, peerClosed) =>
        var w := Waiter(0, a, if c.SemOps? then c.id else 0, [], Reason(0, false), None, true);
        ServeThinned(b, a, c, now, clock, peerClosed, w);
        var b' := Watching(b, a.pid, watchError).0;
        ServeThinned(b', a, c, now, clock, peerClosed, w);
        ThinnedIds(b'.queue, b.queue, q');
        ThinnedIds(b'.queue + [w], b.queue + [w], q');
        if c.SemOps? && Blocked(b.store, c.id, c.ops) {
          BlockedLive(b.store, c);
        }
        assert Thinned(b.queue, q') || (c.SemOps? && Live(b.store, c.id) && Thinned(b.queue + [w], q'));
      case Malformed(_, _, _) =>
      case Resume(at, now, _, _, peerClosed) =>
        FinishThinned(b, at);
        LoopThinned(b, at, now, peerClosed);
      case ProcessGone(_, _) =>
    }
    assert Live(b.store, q'[i].id) || Near(q, i, q'[i].id);
  }

  lemma BlockedLive(s: Store, c: Call)
    requires Valid(s) && c.SemOps? && Blocked(s, c.id, c.ops)
    ensures Live(s, c.id)
  {
  }

  /** The waiters queued after a step wait on identifiers that had been issued before it. */
  lemma StepIssued(b: Broker, e: Event)
    requires Valid(b.store) && Possible(b, e) && QueueIssued(b.store, b.queue)
    ensures QueueIssued(b.store, Step(b, e).queue)
  {
    hide Valid, Step, Possible, Issued, Live;
    var q := Step(b, e).queue;
    forall i | 0 <= i < |q|
      ensures Issued(b.store, q[i].id)
    {
      StepQueue(b, e, i);
      if Live(b.store, q[i].id) {
        LiveIssued(b.store, q[i].id);
      }
    }
  }

  /** The identifiers a run issues, in order. */
  ghost function IssuedIds(b: Broker, es: seq<Event>): seq<I32>
    requires Valid(b.store) && Runs(b, es)
    decreases |es|
  {
    if es == [] then []
    else
      StepValid(b, es[0]);
      NewIds(b, es[0]) + IssuedIds(Step(b, es[0]), es[1..])
  }

  ghost function NewIds(b: Broker, e: Event): seq<I32>
    requires Valid(b.store)
  {
    if e.Request? && NewId(b.store, e.call).Some? then [NewId(b.store, e.call).value] else []
  }

  /** The identifier a step issues is new, and counts as issued after it. */
  lemma StepIssues(b: Broker, e: Event)
    requires Valid(b.store) && Possible(b, e) && NewIds(b, e) != []
    ensures |b.store.sets| == |Step(b, e).store.sets| == MAX_SETS
    ensures NewIds(b, e) == [NewId(b.store, e.call).value]
    ensures !Issued(b.store, NewId(b.store, e.call).value) && Issued(Step(b, e).store, NewId(b.store, e.call).value)
  {
    hide Valid, GetAs, Issued;
    var c := e.call;
    ValidFacts(b.store);
    NewIdFresh(b.store, c);
    NewIdLive(b.store, c, e.actor, e.now);
    LiveIssued(Exec(b.store, c, e.actor, e.now).0, NewId(b.store, c).value);
  }

  lemma NewIdLive(s: Store, c: Call, a: Actor, now: I64)
    requires Valid(s) && NewId(s, c).Some?
    ensures |Exec(s, c, a, now).0.sets| == MAX_SETS && Live(Exec(s, c, a, now).0, NewId(s, c).value)
  {
    var i := CreationSlot(s, c.key, c.nsems, c.flags).value;
    var t := Created(s.sets[i], c.key, c.nsems, c.flags, a.who, now);
    GetAsCases(s, c.key, c.nsems, c.flags, a.who, now);
    InstallValid(s, i, t);
  }

  /** With fewer than 32767 removals in all, no identifier is ever issued twice, so none is issued while waited on. */
  lemma {:induction false} FewRemovalsNeverReissue(b: Broker, es: seq<Event>, n: int)
    requires Valid(b.store) && Runs(b, es) && QueueIssued(b.store, b.queue)
    requires GenerationsUpTo(b.store, n) && 1 <= n && n + AllRemovals(b.store, RunEvents(b, es)) <= MAX_GENERATION
    ensures NeverReissued(b, es)
    ensures forall i :: 0 <= i < |IssuedIds(b, es)| ==> !Issued(b.store, IssuedIds(b, es)[i])
    ensures forall i, j :: 0 <= i < j < |IssuedIds(b, es)| ==> IssuedIds(b, es)[i] != IssuedIds(b, es)[j]
    decreases |es|
  {
    hide Valid, Step, StepEvents, Possible, Run, Issued, NewId, AllRemovals, GenerationsUpTo, NewIds;
    if es != [] {
      StepValid(b, es[0]);
      StepRefines(b, es[0]);
      StepIssued(b, es[0]);
      if es[0].Request? && NewId(b.store, es[0].call).Some? {
        NewIdFresh(b.store, es[0].call);
      }
      var evs, rest := StepEvents(b, es[0]), RunEvents(Step(b, es[0]), es[1..]);
      RemovalsSplit(b.store, evs, rest);
      RunIssued(b.store, evs, n);
      FewRemovalsNeverReissue(Step(b, es[0]), es[1..], n + AllRemovals(b.store, evs));
      if NewIds(b, es[0]) != [] {
        StepIssues(b, es[0]);
      }
    }
  }

  /** From the empty broker, waiter counts agree with the queue in every run with fewer than 32767 removals. */
  lemma CountsAgreeFromStart(es: seq<Event>)
    requires Runs(Start(), es)
    requires AllRemovals(Start().store, RunEvents(Start(), es)) < MAX_GENERATION
    ensures Agree(After(Start(), es).store, After(Start(), es).queue) && Reported(After(Start(), es).store, After(Start(), es).queue)
  {
    FewRemovalsNeverReissue(Start(), es, 1);
    CountsAgree(Start(), es);
  }
}
