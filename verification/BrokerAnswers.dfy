/** What the broker answers, to a new request and to one that waited, and what it has done by then. */
module BrokerAnswers {
  import opened Types
  import opened SemStore
  import opened StoreInvariant
  import opened StoreCalls
  import opened Sequential
  import opened Conservation
  import opened Timeouts
  import opened Broker
  import opened Wakeups
  import opened Verdict
  import opened Answers

  // ---- Effects ----

  /** The list has been applied for the caller: each semaphore of the set holds the sum, the caller's adjustments are
      less what it did with SEM_UNDO, and no other value or adjustment has changed. */
  ghost predicate Applied(s: Store, s': Store, id: I32, ops: seq<SemOp>, pid: I32) {
    && Valid(s) && Valid(s')
    && (forall other, n: U16 :: HasSem(s', other, n) <==> HasSem(s, other, n))
    && (forall other, n: U16 :: HasSem(s, other, n) ==>
          Value(s', other, n) == Value(s, other, n) + if other == id then Net(ops, n, false) else 0)
    && (forall k :: Adj(s'.undo, k) == Adj(s.undo, k) - if k.pid == pid && k.semid == id then Net(ops, k.semnum, true) else 0)
  }

  /** No value and no adjustment has changed. */
  ghost predicate Untouched(s: Store, s': Store) {
    && Valid(s) && Valid(s') && s'.undo == s.undo
    && (forall other, n: U16 :: HasSem(s', other, n) <==> HasSem(s, other, n))
    && (forall other, n: U16 :: HasSem(s, other, n) ==> Value(s', other, n) == Value(s, other, n))
  }

  lemma TryOpApplied(s: Store, id: I32, ops: seq<SemOp>, pid: I32, now: I64)
    requires Valid(s) && TryOp(s, id, ops, pid, now).1.result == 0
    ensures Applied(s, TryOp(s, id, ops, pid, now).0, id, ops, pid)
  {
    hide Valid, TryOp, Net, Adj, Value, HasSem;
    var s' := TryOp(s, id, ops, pid, now).0;
    TryOpValid(s, id, ops, pid, now);
    ValidFacts(s);
    ValidFacts(s');
    SemOpUndo(s, id, ops, pid, now);
    forall other, n: U16
      ensures HasSem(s', other, n) <==> HasSem(s, other, n)
      ensures HasSem(s, other, n) ==> Value(s', other, n) == Value(s, other, n) + if other == id then Net(ops, n, false) else 0
    {
      SameSems(s, id, ops, pid, now, other, n);
      if HasSem(s, other, n) {
        SemOpValue(s, id, ops, pid, now, other, n);
      }
    }
  }

  lemma SameSems(s: Store, id: I32, ops: seq<SemOp>, pid: I32, now: I64, other: I32, n: U16)
    requires Valid(s)
    ensures |TryOp(s, id, ops, pid, now).0.sets| == |s.sets| == MAX_SETS
    ensures HasSem(TryOp(s, id, ops, pid, now).0, other, n) <==> HasSem(s, other, n)
  {
    hide Valid, Simulate, UndoVerdict, UndoAfter, OpsOk, SetPids;
    ValidFacts(s);
    var s' := TryOp(s, id, ops, pid, now).0;
    if TryOp(s, id, ops, pid, now).1.result == 0 {
      PutSetFrame(s, id, SetOf(s', id), other);
    }
  }

  /** Waiter counts are no part of it. */
  lemma CountUntouched(s: Store, id: I32, num: U16, zero: bool, adjustment: int)
    requires Valid(s)
    ensures Untouched(s, AdjustWaitCount(s, id, num, zero, adjustment).0)
  {
    hide Valid, AdjustWaitCount;
    AdjustWaitCountValid(s, id, num, zero, adjustment);
    ValidFacts(s);
    ValidFacts(AdjustWaitCount(s, id, num, zero, adjustment).0);
  }

  lemma AppliedThen(s: Store, s1: Store, s2: Store, id: I32, ops: seq<SemOp>, pid: I32)
    requires Untouched(s1, s2)
    ensures Applied(s, s1, id, ops, pid) ==> Applied(s, s2, id, ops, pid)
    ensures Untouched(s, s1) ==> Untouched(s, s2)
  {
    hide Valid, Net;
  }

  // ---- Waiting ----

  /** What is left of a queue when the waiter at `i` has gone: the others, in order, for the same requests. */
  ghost predicate Left(q: seq<Waiter>, q': seq<Waiter>, i: nat) {
    |q'| == |q| - 1 && forall j :: 0 <= j < |q'| ==> q'[j] == q[if j < i then j else j + 1].(woken := true)
  }

  lemma FinishLeaves(b: Broker, i: nat)
    requires Valid(b.store) && i < |b.queue|
    ensures Untouched(b.store, Finish(b, i).store) && Left(b.queue, Finish(b, i).queue, i)
  {
    hide Valid, AdjustWaitCount, Untouched;
    var w := b.queue[i];
    CountUntouched(b.store, w.id, w.reason.num, w.reason.zero, -1);
  }

  /** What becomes of a waiter that returns from its sleep. A failed wait, or a closed peer before the deadline, drops it.
      Once the deadline has passed it is answered -EAGAIN, whatever its list would do. Otherwise it is answered exactly
      when it is first for its set and its list is not blocked, with the result the list deserves; it goes back to sleep
      when not. Zero means the list has been applied; any other outcome leaves every value and adjustment alone. */
  lemma WaitAnswers(b: Broker, e: Event)
    requires Valid(b.store) && e.Resume? && Possible(b, e)
    ensures var w := b.queue[e.at];
            var passed := Expired(e.clock, w.deadline);
            var ready := FirstForSet(b.queue, e.at) && !Blocked(b.store, w.id, w.ops);
            var (b', r) := Awake(b, e);
            && b' == Step(b, e)
            && (r.Dropped? <==> e.failed || (!passed && e.peerClosed))
            && (r.Answered? <==> !e.failed && (passed || (!e.peerClosed && ready)))
            && (r.Answered? ==>
                  && r.reply.payload == Nothing
                  && if passed then r.reply.result == -EAGAIN else Deserves(b.store, w.id, w.ops, w.actor.pid, r.reply.result))
            && (if r.Answered? && !passed && r.reply.result == 0 then Applied(b.store, b'.store, w.id, w.ops, w.actor.pid)
                else Untouched(b.store, b'.store))
            && (if r.Sleeping? then b'.queue == b.queue[e.at := w.(woken := false)] else Left(b.queue, b'.queue, e.at))
  {
    hide Valid, Finish, Retry, Blocked, Deserves, Applied, Untouched, FirstForSet, Expired, Left;
    var w := b.queue[e.at];
    FinishLeaves(b, e.at);
    SameUntouched(b.store);
    RetryBlocked(b, e.at, e.now);
    RetryAnswers(b, e.at, e.now);
    var s := Retry(b, e.at, e.now).0;
    var b1 := b.(store := s, completed := b.completed + [Completion(w.id, w.ticket)]);
    FinishLeaves(b1, e.at);
    AppliedThen(b.store, s, Finish(b1, e.at).store, w.id, w.ops, w.actor.pid);
  }

  lemma SameUntouched(s: Store)
    requires Valid(s)
    ensures Untouched(s, s)
  {
  }

  lemma RetryAnswers(b: Broker, i: nat, now: I64)
    requires Valid(b.store) && i < |b.queue|
    ensures var w, (s, r) := b.queue[i], Retry(b, i, now);
            && Deserves(b.store, w.id, w.ops, w.actor.pid, r.result) && (r.result != OP_BLOCKED ==> r.payload == Nothing)
            && if r.result == 0 then Applied(b.store, s, w.id, w.ops, w.actor.pid) else s == b.store
  {
    hide Valid, TryOp, Deserves, Applied;
    var w := b.queue[i];
    TryOpDeserves(b.store, w.id, w.ops, w.actor.pid, now);
    TryOpAtomic(b.store, w.id, w.ops, w.actor.pid, now);
    if TryOp(b.store, w.id, w.ops, w.actor.pid, now).1.result == 0 {
      TryOpApplied(b.store, w.id, w.ops, w.actor.pid, now);
    }
  }

  // ---- New requests ----

  /** Whether the caller of the request is watched, if it needs to be, and the error if it cannot be. */
  function Watched(b: Broker, a: Actor, c: Call, watchError: I32): I32 {
    if !(c.SemOps? && UsesUndo(c.ops)) || Some(a.pid) in b.watchers then 0
    else if None in b.watchers then watchError
    else -ENOSPC
  }

  /** A request whose caller cannot be watched is answered with that error and does nothing. Any other that is not
      blocked is answered with the call's own reply, and the store is as the call leaves it. */
  lemma RequestAnswers(b: Broker, a: Actor, c: Call, now: I64, clock: Timespec, watchError: I32, peerClosed: bool)
    requires Valid(b.store)
    ensures var (b', r) := Handle(b, a, c, now, clock, watchError, peerClosed);
            var error := Watched(b, a, c, watchError);
            && (error != 0 ==> r == Answered(Reply(error, Nothing)) && b'.store == b.store)
            && (error == 0 && !(c.SemOps? && Blocked(b.store, c.id, c.ops)) ==>
                  r == Answered(Exec(b.store, c, a, now).1) && b'.store == Exec(b.store, c, a, now).0)
            && (r.Answered? ==> |b'.queue| == |b.queue| && forall j :: 0 <= j < |b.queue| ==> b'.queue[j].ticket == b.queue[j].ticket)
            && (error == 0 && r.Answered? && c.SemOps? ==> Deserves(b.store, c.id, c.ops, a.pid, r.reply.result))
  {
    hide Valid, Exec, Blocked, Block, Deserves, UsesUndo;
    WatchAnswers(b, a.pid, watchError);
    var b1 := Watching(b, a.pid, watchError).0;
    ServeAnswers(b, a, c, now, clock, peerClosed);
    ServeAnswers(b1, a, c, now, clock, peerClosed);
  }

  lemma WatchAnswers(b: Broker, pid: I32, error: I32)
    ensures var (b', r) := Watching(b, pid, error);
            && r == (if Some(pid) in b.watchers then 0 else if None in b.watchers then error else -ENOSPC)
            && b'.store == b.store && |b'.queue| == |b.queue|
            && forall j :: 0 <= j < |b.queue| ==>
                 b'.queue[j] == if Some(pid) !in b.watchers && Some(pid) in b'.watchers then b.queue[j].(woken := true) else b.queue[j]
  {
    var i := FirstFree(b.watchers, 0);
    assert i < |b.watchers| ==> b.watchers[i] == None;
  }

  lemma ServeAnswers(b: Broker, a: Actor, c: Call, now: I64, clock: Timespec, peerClosed: bool)
    requires Valid(b.store)
    ensures var (b', r) := Serve(b, a, c, now, clock, peerClosed);
            && (!(c.SemOps? && Blocked(b.store, c.id, c.ops)) ==>
                  && r == Answered(Exec(b.store, c, a, now).1) && b'.store == Exec(b.store, c, a, now).0
                  && (c.SemOps? ==> Deserves(b.store, c.id, c.ops, a.pid, r.reply.result))
                  && |b'.queue| == |b.queue| && forall j :: 0 <= j < |b.queue| ==> b'.queue[j].(woken := b.queue[j].woken) == b.queue[j])
            && (c.SemOps? && Blocked(b.store, c.id, c.ops) ==> !r.Answered?)
  {
    hide Valid, TryOp, Blocked, Block, Deserves;
    if c.SemOps? {
      BlockedExactly(b.store, c.id, c.ops, a.pid, now);
      TryOpDeserves(b.store, c.id, c.ops, a.pid, now);
      if Blocked(b.store, c.id, c.ops) {
        BlockedSleeps(b, a, c, ReasonOf(Exec(b.store, c, a, now).1), now, clock, peerClosed);
        assert b.(store := b.store) == b;
      }
    }
  }

  /** The waiter a blocked request becomes. */
  ghost predicate WaitsFor(w: Waiter, a: Actor, c: Call, reason: Reason, clock: Timespec)
    requires c.SemOps?
  {
    && w.actor == a && w.id == c.id && w.ops == c.ops && w.reason == reason && !w.woken
    && w.deadline == if c.timeout.None? then None else Some(Deadline(clock, c.timeout.value))
  }

  lemma BlockedSleeps(b: Broker, a: Actor, c: Call, reason: Reason, now: I64, clock: Timespec, peerClosed: bool)
    requires Valid(b.store) && c.SemOps? && Blocked(b.store, c.id, c.ops)
    ensures var (b', r) := Block(b, a, c, reason, now, clock, peerClosed);
            && (r.Sleeping? <==> !peerClosed && AdjustWaitCount(b.store, c.id, reason.num, reason.zero, 1).1 == 0) && !r.Answered?
            && (r.Sleeping? ==> |b'.queue| == |b.queue| + 1 && b'.queue[..|b.queue|] == b.queue &&
                                WaitsFor(b'.queue[|b.queue|], a, c, reason, clock))
            && Untouched(b.store, b'.store)
  {
    hide Valid, AdjustWaitCount, Blocked, Retry, FirstForSet, Finish, Deadline, Untouched;
    var s := AdjustWaitCount(b.store, c.id, reason.num, reason.zero, 1).0;
    CountUntouched(b.store, c.id, reason.num, reason.zero, 1);
    SameUntouched(b.store);
    QuietCount(b.store, c.id, reason.num, reason.zero, 1, c.id, c.ops);
    var q := Queued(b, s, a, c, reason, clock);
    RetryBlocked(q, |b.queue|, now);
    FinishLeaves(q, |b.queue|);
    AppliedThen(b.store, s, Finish(q, |b.queue|).store, c.id, c.ops, a.pid);
  }

  /** A blocked request is never answered. Unless its peer is gone, or its count is full, it is queued behind everyone
      else, for its own operations and deadline, recorded against the first operation that cannot proceed. */
  lemma BlockedRequestWaits(b: Broker, a: Actor, c: Call, now: I64, clock: Timespec, peerClosed: bool)
    requires Valid(b.store) && c.SemOps? && Blocked(b.store, c.id, c.ops)
    ensures |b.store.sets| == MAX_SETS && Live(b.store, c.id)
    ensures var (b', r) := Serve(b, a, c, now, clock, peerClosed);
            && !r.Answered? && Untouched(b.store, b'.store) && (peerClosed ==> r.Dropped?)
            && exists k :: 0 <= k < |c.ops| && WaitsAt(SetOf(b.store, c.id).values, c.ops, k) &&
                 var reason := Reason(c.ops[k].num, c.ops[k].op == 0);
                 && (!peerClosed && AdjustWaitCount(b.store, c.id, reason.num, reason.zero, 1).1 == 0 ==> r.Sleeping?)
                 && (r.Sleeping? ==> |b'.queue| == |b.queue| + 1 && b'.queue[..|b.queue|] == b.queue &&
                                     WaitsFor(b'.queue[|b.queue|], a, c, reason, clock))
  {
    hide Valid, TryOp, Block, WaitsAt, AdjustWaitCount, Untouched, WaitsFor, OpsOk;
    ValidFacts(b.store);
    BlockedExactly(b.store, c.id, c.ops, a.pid, now);
    var reason := ReasonOf(Exec(b.store, c, a, now).1);
    BlockedSleeps(b, a, c, reason, now, clock, peerClosed);
    assert b.(store := b.store) == b;
    var r := Serve(b, a, c, now, clock, peerClosed).1;
    assert r.Answered? || r.Dropped? || r.Sleeping?;
  }

  // ---- Exits ----

  /** When the exit of a watched process is observed its watcher is freed, every semaphore gets back what it had pending,
      within 0..32767, its adjustments are gone and all others stay. Everyone queued is still queued, and woken if the
      process had any adjustment. */
  lemma ExitObserved(b: Broker, w: nat, now: I64)
    requires Valid(b.store) && w < |b.watchers| && b.watchers[w].Some? && b.watchers[w].value > 0
    ensures Valid(Step(b, ProcessGone(w, now)).store)
    ensures var pid := b.watchers[w].value;
            var b' := Step(b, ProcessGone(w, now));
            && b'.watchers == b.watchers[w := None]
            && (forall id, n: U16 :: HasSem(b'.store, id, n) <==> HasSem(b.store, id, n))
            && (forall id, n: U16 :: HasSem(b.store, id, n) ==>
                  var raw := Value(b.store, id, n) + Adj(b.store.undo, UndoKey(pid, id, n));
                  Value(b'.store, id, n) == if raw < 0 then 0 else if raw > 32767 then 32767 else raw)
            && (forall k :: Adj(b'.store.undo, k) == if k.pid == pid then 0 else Adj(b.store.undo, k))
            && |b'.queue| == |b.queue|
            && forall j :: 0 <= j < |b.queue| ==>
                 b'.queue[j] == if exists k :: k in b.store.undo && k.pid == pid then b.queue[j].(woken := true) else b.queue[j]
  {
    hide Valid, ProcessExit, HasSem, Value, Adj;
    var pid := b.watchers[w].value;
    ExitAnswers(b.store, pid, now);
    ExitValid(b.store, pid, now);
    ValidFacts(b.store);
    ValidFacts(ProcessExit(b.store, pid, now).0);
    forall id, n: U16 {
      ExitPointwise(b.store, pid, now, id, n);
    }
    forall k {
      ExitUndo(b.store, pid, now, k);
    }
  }
}
