/** Every reply the broker sends to an open peer is one its client accepts. */
module Replies {
  import opened Types
  import opened SemStore
  import opened StoreInvariant
  import opened StoreCalls
  import opened Timeouts
  import opened Wire
  import opened Broker
  import opened Dispatcher
  import C = Client

  /** The client accepts the broker's packet for a reply, and reads exactly that reply from it. */
  predicate ReadsBack(c: Call, requestId: U32, r: Reply)
    requires C.Sendable(c)
  {
    && (r.payload.Values? ==> |r.payload.values| <= MAX_PER_SET)
    && (r.payload.Limits? ==> |r.payload.limits| == 10)
    && var request := C.Request(c, requestId).header;
       Framed(Response(request, r)) && C.Accept(c, request, Response(request, r)) == C.Accepted.Accepted(r)
  }

  lemma DirectReadsBack(s: Store, c: Call, a: Actor, now: I64, requestId: U32)
    requires Valid(s) && C.Sendable(c) && (c.SemOps? ==> Exec(s, c, a, now).1.result != OP_BLOCKED)
    ensures ReadsBack(c, requestId, Exec(s, c, a, now).1)
  {
    hide Exec, Response, C.Accept;
    C.ReplyRoundTrip(s, c, a, now, C.Request(c, requestId).header);
  }

  lemma ErrorReadsBack(c: Call, requestId: U32, error: I32)
    requires C.Sendable(c) && error < 0
    ensures ReadsBack(c, requestId, Reply(error, Nothing))
  {
  }

  /** A turn of the waiting loop that answers, answers with a reply the client accepts. */
  lemma LoopReadsBack(b: Broker, i: nat, now: I64, peerClosed: bool, c: Call, requestId: U32)
    requires Valid(b.store) && i < |b.queue| && C.Sendable(c) && c.SemOps?
    requires b.queue[i].id == c.id && b.queue[i].ops == c.ops
    ensures var r := Loop(b, i, now, peerClosed).1; r.Answered? ==> ReadsBack(c, requestId, r.reply)
  {
    hide Valid, TryOp, ReadsBack, FirstForSet, AdjustWaitCount;
    var w := b.queue[i];
    assert Retry(b, i, now) == Exec(b.store, c, w.actor, now);
    if Exec(b.store, c, w.actor, now).1.result != OP_BLOCKED {
      DirectReadsBack(b.store, c, w.actor, now, requestId);
    }
  }

  lemma ServeReadsBack(b: Broker, a: Actor, c: Call, now: I64, clock: Timespec, peerClosed: bool, requestId: U32)
    requires Valid(b.store) && C.Sendable(c)
    ensures var r := Serve(b, a, c, now, clock, peerClosed).1; r.Answered? ==> ReadsBack(c, requestId, r.reply)
  {
    hide Valid, Exec, ReadsBack, Loop, AdjustWaitCount, Deadline;
    var (s, r) := Exec(b.store, c, a, now);
    ExecValid(b.store, c, a, now);
    if c.SemOps? && r.result == OP_BLOCKED {
      var reason := ReasonOf(r);
      var s' := AdjustWaitCount(s, c.id, reason.num, reason.zero, 1).0;
      AdjustWaitCountValid(s, c.id, reason.num, reason.zero, 1);
      LoopReadsBack(Queued(b.(store := s), s', a, c, reason, clock), |b.queue|, now, peerClosed, c, requestId);
    } else {
      DirectReadsBack(b.store, c, a, now, requestId);
    }
  }

  /** The answer to a new request passes the client's checks. */
  lemma RequestAnswerAccepted(b: Broker, e: Event, requestId: U32)
    requires Valid(b.store) && e.Request? && Possible(b, e) && C.Sendable(e.call)
    ensures var r := Handle(b, e.actor, e.call, e.now, e.clock, e.watchError, e.peerClosed).1;
            r.Answered? ==> ReadsBack(e.call, requestId, r.reply)
  {
    hide Valid, Serve, ReadsBack, UsesUndo;
    WatchErrorNegative(b, e.actor.pid, e.watchError);
    ServeReadsBack(b, e.actor, e.call, e.now, e.clock, e.peerClosed, requestId);
    var (b', error) := Watching(b, e.actor.pid, e.watchError);
    if error != 0 {
      ErrorReadsBack(e.call, requestId, error);
    } else {
      ServeReadsBack(b', e.actor, e.call, e.now, e.clock, e.peerClosed, requestId);
    }
  }

  lemma WatchErrorNegative(b: Broker, pid: I32, error: I32)
    requires error <= 0
    ensures Watching(b, pid, error).1 <= 0 && Watching(b, pid, error).0.store == b.store
  {
  }

  /** The answer to a waiting request, by retry or by timeout, passes the client's checks. */
  lemma WaiterAnswerAccepted(b: Broker, e: Event, c: Call, requestId: U32)
    requires Valid(b.store) && e.Resume? && Possible(b, e) && C.Sendable(c) && c.SemOps?
    requires b.queue[e.at].id == c.id && b.queue[e.at].ops == c.ops
    ensures var r := Awake(b, e).1; r.Answered? ==> ReadsBack(c, requestId, r.reply)
  {
    hide Valid, Loop, ReadsBack, AdjustWaitCount;
    ErrorReadsBack(c, requestId, -EAGAIN);
    LoopReadsBack(b, e.at, e.now, e.peerClosed, c, requestId);
  }

  /** A timeout accepted at the C library boundary crosses the wire unchanged, and the waiter it is queued with
      expires exactly when that much time has passed; if that lies beyond the representable seconds, it expires at
      the last representable nanosecond instead. */
  lemma TimeoutEndToEnd(seconds: I64, nanoseconds: I64, id: I32, ops: seq<SemOp>, b: Broker, a: Actor, reason: Reason,
                        start: Timespec, clock: Timespec)
    requires 1 <= |ops| <= MAX_PER_SET && Pack(seconds, nanoseconds).Accepted?
    requires Normal(start) && start.sec >= 0 && Normal(clock)
    ensures var c := SemOps(id, ops, Some(Pack(seconds, nanoseconds).ns));
            && C.Sendable(c) && DecodeCall(SEMTIMEDOP, C.RequestBytes(c)) == Decoded(c)
            && (Expired(clock, Queued(b, b.store, a, c, reason, start).queue[|b.queue|].deadline) <==>
                if start.sec + seconds > INT_MAX then Ns(clock) >= INT_MAX * NS + NS - 1
                else Ns(clock) - Ns(start) >= seconds * NS + nanoseconds)
  {
    hide DecodeCall, C.RequestBytes, Deadline, Expired, Ns, Saturates;
    PackExact(seconds, nanoseconds);
    C.RequestRoundTrip(SemOps(id, ops, Some(Pack(seconds, nanoseconds).ns)));
    TimeoutExact(seconds, nanoseconds, start, clock);
  }
}
