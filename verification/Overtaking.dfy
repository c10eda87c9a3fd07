/** When a new request is served ahead of requests that are already queued for its set. */
module Overtaking {
  import opened Types
  import opened SemStore
  import opened StoreCalls
  import opened Sequential
  import opened Timeouts
  import opened Broker
  import opened Wakeups
  import opened Cascade

  /** A new operation list is answered at once exactly when it is not blocked, whoever is queued. */
  lemma ServedExactly(b: Broker, a: Actor, c: Call, now: I64, clock: Timespec, peerClosed: bool)
    requires Valid(b.store) && c.SemOps?
    ensures Serve(b, a, c, now, clock, peerClosed).1.Answered? <==> !Blocked(b.store, c.id, c.ops)
  {
    hide Valid, TryOp, Blocked, Block;
    BlockedExactly(b.store, c.id, c.ops, a.pid, now);
    ExecValid(b.store, c, a, now);
    if Blocked(b.store, c.id, c.ops) {
      BlockedWaits(b, a, c, ReasonOf(Exec(b.store, c, a, now).1), now, clock, peerClosed);
      assert b.(store := b.store) == b;
    }
  }

  /** A blocked list is queued or dropped, never answered: its first turn of the loop finds it blocked still. */
  lemma BlockedWaits(b: Broker, a: Actor, c: Call, reason: Reason, now: I64, clock: Timespec, peerClosed: bool)
    requires Valid(b.store) && c.SemOps? && Blocked(b.store, c.id, c.ops)
    ensures !Block(b, a, c, reason, now, clock, peerClosed).1.Answered?
  {
    hide Valid, AdjustWaitCount, Blocked, Retry, FirstForSet, Finish, Sleep, Deadline;
    var s := AdjustWaitCount(b.store, c.id, reason.num, reason.zero, 1).0;
    QuietCount(b.store, c.id, reason.num, reason.zero, 1, c.id, c.ops);
    RetryBlocked(Queued(b, s, a, c, reason, clock), |b.queue|, now);
  }

  /** The same for a whole request: a list with SEM_UNDO is also answered, with an error, when its caller cannot be watched. */
  lemma HandledExactly(b: Broker, a: Actor, c: Call, now: I64, clock: Timespec, watchError: I32, peerClosed: bool)
    requires Valid(b.store) && c.SemOps?
    ensures Handle(b, a, c, now, clock, watchError, peerClosed).1.Answered? <==>
            !Blocked(b.store, c.id, c.ops) || (UsesUndo(c.ops) && Watching(b, a.pid, watchError).1 != 0)
  {
    hide Valid, Serve, Blocked, Watch, UsesUndo;
    ServedExactly(b, a, c, now, clock, peerClosed);
    ServedExactly(Watching(b, a.pid, watchError).0, a, c, now, clock, peerClosed);
  }

  /** The new request is answered while a waiter that came before it for the same set stays queued. */
  ghost predicate Overtakes(b: Broker, a: Actor, c: Call, now: I64, clock: Timespec, peerClosed: bool, j: nat)
    requires Valid(b.store) && j < |b.queue| && c.SemOps?
  {
    var (b', r) := Serve(b, a, c, now, clock, peerClosed);
    && b.queue[j].id == c.id && r.Answered?
    && exists k :: 0 <= k < |b'.queue| && b'.queue[k].ticket == b.queue[j].ticket
  }

  /** A new request overtakes a waiter exactly when the waiter is queued for its set and its own list is not blocked.
      So arrival order on a set is broken if and only if somebody is queued for it and the list is not blocked. */
  lemma OvertakesExactly(b: Broker, a: Actor, c: Call, now: I64, clock: Timespec, peerClosed: bool)
    requires Valid(b.store) && c.SemOps?
    ensures forall j :: 0 <= j < |b.queue| ==>
              (Overtakes(b, a, c, now, clock, peerClosed, j) <==> b.queue[j].id == c.id && !Blocked(b.store, c.id, c.ops))
    ensures (exists j :: 0 <= j < |b.queue| && Overtakes(b, a, c, now, clock, peerClosed, j)) <==>
            !Blocked(b.store, c.id, c.ops) && exists j :: 0 <= j < |b.queue| && b.queue[j].id == c.id
  {
    hide Valid, Blocked, Serve;
    ServedExactly(b, a, c, now, clock, peerClosed);
    if !Blocked(b.store, c.id, c.ops) {
      AnsweredKeepsQueue(b, a, c, now, clock, peerClosed);
      var q' := Serve(b, a, c, now, clock, peerClosed).0.queue;
      assert forall j :: 0 <= j < |b.queue| ==> q'[j].ticket == b.queue[j].ticket;
    }
  }

  lemma AnsweredKeepsQueue(b: Broker, a: Actor, c: Call, now: I64, clock: Timespec, peerClosed: bool)
    requires Valid(b.store) && c.SemOps? && !Blocked(b.store, c.id, c.ops)
    ensures var q' := Serve(b, a, c, now, clock, peerClosed).0.queue;
            |q'| == |b.queue| && forall j :: 0 <= j < |q'| ==> q'[j].ticket == b.queue[j].ticket
  {
    hide Valid, TryOp, Blocked, Block;
    BlockedExactly(b.store, c.id, c.ops, a.pid, now);
  }

  /** In every reachable state the first waiter of a set that a request overtakes is blocked, or has been woken and
      has not had its turn yet. At rest it is blocked. */
  lemma OvertakenHead(es: seq<Event>, j: nat)
    requires Runs(Start(), es) && j < |After(Start(), es).queue| && FirstForSet(After(Start(), es).queue, j)
    ensures var b := After(Start(), es);
            && (Blocked(b.store, b.queue[j].id, b.queue[j].ops) || b.queue[j].woken)
            && (AtRest(b) ==> Blocked(b.store, b.queue[j].id, b.queue[j].ops))
  {
    hide Runs, After, Blocked;
    NoLostWakeupFromStart(es);
  }
}
