/** No lost wake-up: a waiter that sleeps unwoken at the head of its set really is blocked. */
module Wakeups {
  import opened Types
  import opened SemStore
  import opened StoreInvariant
  import opened StoreCalls
  import opened Sequential
  import opened Timeouts
  import opened Broker

  /** Every waiter that sleeps unwoken and is first for its set is blocked in the current store. */
  ghost predicate Alert(b: Broker)
    requires Valid(b.store)
  {
    forall i :: 0 <= i < |b.queue| && !b.queue[i].woken && FirstForSet(b.queue, i) ==>
      Blocked(b.store, b.queue[i].id, b.queue[i].ops)
  }

  /** A call after which the broker does not broadcast unblocks nobody. */
  lemma QuietCall(s: Store, c: Call, a: Actor, now: I64, id: I32, ops: seq<SemOp>)
    requires Valid(s) && Blocked(s, id, ops) && !ChangedState(c, Exec(s, c, a, now).1)
    ensures Valid(Exec(s, c, a, now).0) && Blocked(Exec(s, c, a, now).0, id, ops)
  {
    hide Valid, BlockedOn;
    ValidFacts(s);
    ExecValid(s, c, a, now);
    ValidFacts(Exec(s, c, a, now).0);
    match c
    case SemGet(key, nsems, flags) => QuietGet(s, key, nsems, flags, a.who, now, id, ops);
    case SetMeta(i, uid, gid, mode) => QuietMeta(s, i, uid, gid, mode, a.who, now, id, ops);
    case _ =>
  }

  lemma QuietGet(s: Store, key: I32, nsems: I32, flags: I32, who: Identity, now: I64, id: I32, ops: seq<SemOp>)
    requires Valid(s) && Blocked(s, id, ops)
    ensures Valid(GetAs(s, key, nsems, flags, who, now).0) && Blocked(GetAs(s, key, nsems, flags, who, now).0, id, ops)
  {
    hide Valid, GetAs, BlockedOn;
    ValidFacts(s);
    GetAsValid(s, key, nsems, flags, who, now);
  }

  lemma QuietMeta(s: Store, i: I32, uid: U32, gid: U32, mode: U32, who: Identity, now: I64, id: I32, ops: seq<SemOp>)
    requires Valid(s) && Blocked(s, id, ops)
    ensures Valid(SetMetadata(s, i, uid, gid, mode, who, now).0) && Blocked(SetMetadata(s, i, uid, gid, mode, who, now).0, id, ops)
  {
    hide Valid, SetMetadata, BlockedOn;
    ValidFacts(s);
    SetMetadataValid(s, i, uid, gid, mode, who, now);
  }

  lemma QuietCount(s: Store, i: I32, num: U16, zero: bool, adjustment: int, id: I32, ops: seq<SemOp>)
    requires Valid(s) && Blocked(s, id, ops)
    ensures Valid(AdjustWaitCount(s, i, num, zero, adjustment).0) && Blocked(AdjustWaitCount(s, i, num, zero, adjustment).0, id, ops)
  {
    hide Valid, AdjustWaitCount, BlockedOn;
    ValidFacts(s);
    AdjustWaitCountValid(s, i, num, zero, adjustment);
  }

  /** An exit that reports no change restores nothing. */
  lemma QuietExit(s: Store, pid: I32, now: I64)
    requires Valid(s) && ProcessExit(s, pid, now).1 <= 0
    ensures ProcessExit(s, pid, now).0 == s
  {
    hide Valid, RestoredSets;
    if pid > 0 {
      RestoredNone(s, pid, now);
      assert s.undo - {} == s.undo;
    }
  }

  // ---- Steps ----

  lemma WokenAlert(b: Broker)
    requires Valid(b.store) && forall i :: 0 <= i < |b.queue| ==> b.queue[i].woken
    ensures Alert(b)
  {
  }

  lemma FinishAlert(b: Broker, i: nat)
    requires Valid(b.store) && i < |b.queue|
    ensures Valid(Finish(b, i).store) && Alert(Finish(b, i))
  {
    hide Valid, AdjustWaitCount, Blocked;
    FinishValid(b, i);
    WokenAlert(Finish(b, i));
  }

  lemma SleepAlert(b: Broker, i: nat)
    requires Valid(b.store) && i < |b.queue| && Alert(b)
    requires FirstForSet(b.queue, i) ==> Blocked(b.store, b.queue[i].id, b.queue[i].ops)
    ensures Alert(Sleep(b, i))
  {
    hide Valid, Blocked;
    var q := Sleep(b, i).queue;
    forall j | 0 <= j < |q|
      ensures FirstForSet(q, j) ==> FirstForSet(b.queue, j)
    {
      if FirstForSet(q, j) {
        assert forall k :: 0 <= k < j ==> q[k].id == b.queue[k].id;
      }
    }
  }

  /** A retry comes back blocked exactly when the request is blocked, and then leaves the store alone. */
  lemma RetryBlocked(b: Broker, i: nat, now: I64)
    requires Valid(b.store) && i < |b.queue|
    ensures Retry(b, i, now).1.result == OP_BLOCKED <==> Blocked(b.store, b.queue[i].id, b.queue[i].ops)
    ensures Retry(b, i, now).1.result == OP_BLOCKED ==> Retry(b, i, now).0 == b.store
  {
    hide Valid, TryOp, Blocked;
    var w := b.queue[i];
    BlockedExactly(b.store, w.id, w.ops, w.actor.pid, now);
  }

  lemma LoopAlert(b: Broker, i: nat, now: I64, peerClosed: bool)
    requires Valid(b.store) && i < |b.queue| && Alert(b)
    ensures Valid(Loop(b, i, now, peerClosed).0.store) && Alert(Loop(b, i, now, peerClosed).0)
  {
    hide Valid, Retry, Blocked, Finish, Sleep, Alert, FirstForSet;
    var w := b.queue[i];
    LoopValid(b, i, now, peerClosed);
    RetryBlocked(b, i, now);
    if peerClosed {
      FinishAlert(b, i);
    } else if FirstForSet(b.queue, i) && Retry(b, i, now).1.result != OP_BLOCKED {
      FinishAlert(b.(store := Retry(b, i, now).0, completed := b.completed + [Completion(w.id, w.ticket)]), i);
    } else {
      SleepAlert(b, i);
      assert FirstForSet(b.queue, i) ==> b.(store := Retry(b, i, now).0) == b;
    }
  }

  /** Changing the store without unblocking anyone, or broadcasting, keeps the alert. */
  lemma StoreAlert(b: Broker, s: Store, broadcast: bool)
    requires Valid(b.store) && Alert(b) && Valid(s)
    requires !broadcast ==> forall i :: 0 <= i < |b.queue| && Blocked(b.store, b.queue[i].id, b.queue[i].ops) ==>
                                          Blocked(s, b.queue[i].id, b.queue[i].ops)
    ensures Alert(b.(store := s, queue := WakeIf(b.queue, broadcast)))
  {
    hide Valid, Blocked, FirstForSet;
    if broadcast {
      WokenAlert(b.(store := s, queue := WakeIf(b.queue, broadcast)));
    }
  }

  lemma QueuedAlert(b: Broker, s: Store, a: Actor, c: Call, reason: Reason, clock: Timespec)
    requires Valid(b.store) && Alert(b) && Valid(s) && c.SemOps?
    requires forall i :: 0 <= i < |b.queue| && Blocked(b.store, b.queue[i].id, b.queue[i].ops) ==>
                           Blocked(s, b.queue[i].id, b.queue[i].ops)
    ensures Alert(Queued(b, s, a, c, reason, clock))
  {
    hide Valid, Blocked, Deadline;
    var b' := Queued(b, s, a, c, reason, clock);
    forall i | 0 <= i < |b'.queue| && !b'.queue[i].woken && FirstForSet(b'.queue, i)
      ensures Blocked(b'.store, b'.queue[i].id, b'.queue[i].ops)
    {
      assert b'.queue[i] == b.queue[i];
      assert forall k :: 0 <= k < i ==> b'.queue[k] == b.queue[k];
      assert FirstForSet(b.queue, i);
    }
  }

  lemma BlockAlert(b: Broker, a: Actor, c: Call, reason: Reason, now: I64, clock: Timespec, peerClosed: bool)
    requires Valid(b.store) && Alert(b) && c.SemOps?
    ensures Valid(Block(b, a, c, reason, now, clock, peerClosed).0.store)
    ensures Alert(Block(b, a, c, reason, now, clock, peerClosed).0)
  {
    hide Valid, Alert, Loop, AdjustWaitCount, Blocked, Queued;
    var s := AdjustWaitCount(b.store, c.id, reason.num, reason.zero, 1).0;
    AdjustWaitCountValid(b.store, c.id, reason.num, reason.zero, 1);
    forall i | 0 <= i < |b.queue| && Blocked(b.store, b.queue[i].id, b.queue[i].ops)
      ensures Blocked(s, b.queue[i].id, b.queue[i].ops)
    {
      QuietCount(b.store, c.id, reason.num, reason.zero, 1, b.queue[i].id, b.queue[i].ops);
    }
    QueuedAlert(b, s, a, c, reason, clock);
    QueuedShape(b, s, a, c, reason, clock);
    LoopAlert(Queued(b, s, a, c, reason, clock), |b.queue|, now, peerClosed);
  }

  lemma QueuedShape(b: Broker, s: Store, a: Actor, c: Call, reason: Reason, clock: Timespec)
    requires c.SemOps?
    ensures var b' := Queued(b, s, a, c, reason, clock);
            b'.store == s && |b'.queue| == |b.queue| + 1
  {
  }

  lemma ServeAlert(b: Broker, a: Actor, c: Call, now: I64, clock: Timespec, peerClosed: bool)
    requires Valid(b.store) && Alert(b)
    ensures Valid(Serve(b, a, c, now, clock, peerClosed).0.store)
    ensures Alert(Serve(b, a, c, now, clock, peerClosed).0)
  {
    hide Valid, Alert, Exec, Block, Blocked;
    var (s, r) := Exec(b.store, c, a, now);
    ExecValid(b.store, c, a, now);
    if c.SemOps? && r.result == OP_BLOCKED {
      BlockedStore(b.store, c, a, now);
      assert b.(store := s) == b;
      BlockAlert(b, a, c, ReasonOf(r), now, clock, peerClosed);
    } else {
      if !ChangedState(c, r) {
        forall i | 0 <= i < |b.queue| && Blocked(b.store, b.queue[i].id, b.queue[i].ops)
          ensures Blocked(s, b.queue[i].id, b.queue[i].ops)
        {
          QuietCall(b.store, c, a, now, b.queue[i].id, b.queue[i].ops);
        }
      }
      StoreAlert(b, s, ChangedState(c, r));
    }
  }

  lemma BlockedStore(s: Store, c: Call, a: Actor, now: I64)
    requires Valid(s) && c.SemOps? && Exec(s, c, a, now).1.result == OP_BLOCKED
    ensures Exec(s, c, a, now).0 == s && Exec(s, c, a, now).1.payload.Wait?
    ensures HasSem(s, c.id, Exec(s, c, a, now).1.payload.reason.num)
    ensures Blocked(s, c.id, c.ops)
  {
    hide Valid, TryOp, BlockedOn;
    ValidFacts(s);
    BlockedExactly(s, c.id, c.ops, a.pid, now);
  }

  lemma WatchingAlert(b: Broker, pid: I32, error: I32)
    requires Valid(b.store) && Alert(b)
    ensures Watching(b, pid, error).0.store == b.store && Alert(Watching(b, pid, error).0)
  {
    hide Valid, Blocked, Watch;
    StoreAlert(b, b.store, Watch(b.watchers, pid, error).0 != b.watchers);
  }

  /** Every step keeps the alert. */
  lemma StepAlert(b: Broker, e: Event)
    requires Valid(b.store) && Possible(b, e) && Alert(b)
    ensures Valid(Step(b, e).store) && Alert(Step(b, e))
  {
    hide Valid, Alert, Serve, Loop, Finish, Watching, ProcessExit, Blocked;
    StepValid(b, e);
    match e
    case Request(a, c, now, clock, watchError, peerClosed) =>
      ServeAlert(b, a, c, now, clock, peerClosed);
      WatchingAlert(b, a.pid, watchError);
      ServeAlert(Watching(b, a.pid, watchError).0, a, c, now, clock, peerClosed);
    case Malformed(a, usesUndo, watchError) => WatchingAlert(b, a.pid, watchError);
    case Resume(at, now, clock, failed, peerClosed) =>
      FinishAlert(b, at);
      LoopAlert(b, at, now, peerClosed);
    case ProcessGone(w, now) => GoneAlert(b, w, now);
  }

  lemma GoneAlert(b: Broker, w: nat, now: I64)
    requires Valid(b.store) && Alert(b) && w < |b.watchers| && b.watchers[w].Some?
    ensures Valid(Gone(b, w, now).store) && Alert(Gone(b, w, now))
  {
    hide Valid, ProcessExit, Blocked;
    var pid := b.watchers[w].value;
    var (s, changed) := ProcessExit(b.store, pid, now);
    ExitValid(b.store, pid, now);
    if changed <= 0 {
      QuietExit(b.store, pid, now);
    }
    StoreAlert(b, s, changed > 0);
  }

  /** In every reachable broker state, a sleeping, unwoken waiter that is first for its set is still blocked. */
  lemma {:induction false} NoLostWakeup(b: Broker, es: seq<Event>)
    requires Valid(b.store) && Alert(b) && Runs(b, es)
    ensures Alert(After(b, es))
    decreases |es|
  {
    hide Valid, Alert, Step, Possible;
    if es != [] {
      StepAlert(b, es[0]);
      NoLostWakeup(Step(b, es[0]), es[1..]);
    }
  }

  /** In every run of a broker from its creation no wake-up is lost. */
  lemma NoLostWakeupFromStart(es: seq<Event>)
    requires Runs(Start(), es)
    ensures Alert(After(Start(), es))
  {
    NoLostWakeup(Start(), es);
  }
}
