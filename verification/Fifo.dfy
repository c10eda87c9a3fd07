/** The queue is in arrival order, and waiters on one set complete by retry only in that order. */
module Fifo {
  import opened Types
  import opened SemStore
  import opened StoreInvariant
  import opened StoreCalls
  import opened Timeouts
  import opened Broker

  /** Tickets increase along the queue, and every retry that completed on a set holds a smaller ticket than every
      waiter still queued for that set and than every later completion on it. */
  ghost predicate InOrder(q: seq<Waiter>, done: seq<Completion>, tickets: nat) {
    && (forall i, j :: 0 <= i < j < |q| ==> q[i].ticket < q[j].ticket)
    && (forall i :: 0 <= i < |q| ==> q[i].ticket < tickets)
    && (forall i :: 0 <= i < |done| ==> done[i].ticket < tickets)
    && (forall i, j :: 0 <= i < |done| && 0 <= j < |q| && done[i].id == q[j].id ==> done[i].ticket < q[j].ticket)
    && (forall i, j :: 0 <= i < j < |done| && done[i].id == done[j].id ==> done[i].ticket < done[j].ticket)
  }

  /** Same tickets and sets at every position. */
  predicate SameOrder(q: seq<Waiter>, q': seq<Waiter>) {
    |q| == |q'| && forall i :: 0 <= i < |q| ==> q'[i].ticket == q[i].ticket && q'[i].id == q[i].id
  }

  lemma OrderSame(q: seq<Waiter>, q': seq<Waiter>, done: seq<Completion>, tickets: nat)
    requires InOrder(q, done, tickets) && SameOrder(q, q')
    ensures InOrder(q', done, tickets)
  {
  }

  lemma OrderRemove(q: seq<Waiter>, i: nat, done: seq<Completion>, tickets: nat)
    requires InOrder(q, done, tickets) && i < |q|
    ensures InOrder(q[..i] + q[i + 1..], done, tickets)
  {
    var q' := q[..i] + q[i + 1..];
    assert forall j :: 0 <= j < |q'| ==> q'[j] == q[if j < i then j else j + 1];
  }

  /** The first waiter for its set completes: it is ahead of everyone left on that set. */
  lemma OrderComplete(q: seq<Waiter>, i: nat, done: seq<Completion>, tickets: nat)
    requires InOrder(q, done, tickets) && i < |q| && FirstForSet(q, i)
    ensures InOrder(q[..i] + q[i + 1..], done + [Completion(q[i].id, q[i].ticket)], tickets)
  {
    var q', done' := q[..i] + q[i + 1..], done + [Completion(q[i].id, q[i].ticket)];
    OrderRemove(q, i, done, tickets);
    assert forall j :: 0 <= j < |q'| ==> q'[j] == q[if j < i then j else j + 1];
    assert forall j :: 0 <= j < |done| ==> done'[j] == done[j];
  }

  lemma OrderAppend(q: seq<Waiter>, w: Waiter, done: seq<Completion>, tickets: nat)
    requires InOrder(q, done, tickets) && w.ticket == tickets
    ensures InOrder(q + [w], done, tickets + 1)
  {
  }

  lemma LoopOrder(b: Broker, i: nat, now: I64, peerClosed: bool)
    requires Valid(b.store) && i < |b.queue| && InOrder(b.queue, b.completed, b.tickets)
    ensures var b' := Loop(b, i, now, peerClosed).0; InOrder(b'.queue, b'.completed, b'.tickets)
  {
    hide Valid, Retry, AdjustWaitCount, InOrder, FirstForSet;
    var w := b.queue[i];
    var rest := b.queue[..i] + b.queue[i + 1..];
    OrderRemove(b.queue, i, b.completed, b.tickets);
    OrderSame(rest, Wake(rest), b.completed, b.tickets);
    OrderSame(b.queue, Sleep(b, i).queue, b.completed, b.tickets);
    if FirstForSet(b.queue, i) {
      var done := b.completed + [Completion(w.id, w.ticket)];
      OrderComplete(b.queue, i, b.completed, b.tickets);
      OrderSame(rest, Wake(rest), done, b.tickets);
    }
  }

  lemma ServeOrder(b: Broker, a: Actor, c: Call, now: I64, clock: Timespec, peerClosed: bool)
    requires Valid(b.store) && InOrder(b.queue, b.completed, b.tickets)
    ensures var b' := Serve(b, a, c, now, clock, peerClosed).0; InOrder(b'.queue, b'.completed, b'.tickets)
  {
    hide Valid, Exec, AdjustWaitCount, Loop, InOrder, Deadline;
    var (s, r) := Exec(b.store, c, a, now);
    ExecValid(b.store, c, a, now);
    OrderSame(b.queue, WakeIf(b.queue, ChangedState(c, r)), b.completed, b.tickets);
    if c.SemOps? && r.result == OP_BLOCKED {
      var s' := AdjustWaitCount(s, c.id, ReasonOf(r).num, ReasonOf(r).zero, 1).0;
      AdjustWaitCountValid(s, c.id, ReasonOf(r).num, ReasonOf(r).zero, 1);
      var b' := Queued(b.(store := s), s', a, c, ReasonOf(r), clock);
      OrderAppend(b.queue, b'.queue[|b.queue|], b.completed, b.tickets);
      LoopOrder(b', |b.queue|, now, peerClosed);
    }
  }

  lemma StepOrder(b: Broker, e: Event)
    requires Valid(b.store) && Possible(b, e) && InOrder(b.queue, b.completed, b.tickets)
    ensures var b' := Step(b, e); InOrder(b'.queue, b'.completed, b'.tickets)
  {
    hide Valid, Serve, Loop, InOrder, AdjustWaitCount, ProcessExit, Watch;
    match e
    case Request(a, c, now, clock, watchError, peerClosed) =>
      var b' := Watching(b, a.pid, watchError).0;
      OrderSame(b.queue, b'.queue, b.completed, b.tickets);
      ServeOrder(b, a, c, now, clock, peerClosed);
      ServeOrder(b', a, c, now, clock, peerClosed);
    case Malformed(a, _, watchError) =>
      OrderSame(b.queue, Watching(b, a.pid, watchError).0.queue, b.completed, b.tickets);
    case Resume(at, now, clock, failed, peerClosed) =>
      var rest := b.queue[..at] + b.queue[at + 1..];
      OrderRemove(b.queue, at, b.completed, b.tickets);
      OrderSame(rest, Wake(rest), b.completed, b.tickets);
      LoopOrder(b, at, now, peerClosed);
    case ProcessGone(w, now) =>
      OrderSame(b.queue, WakeIf(b.queue, ProcessExit(b.store, b.watchers[w].value, now).1 > 0), b.completed, b.tickets);
  }

  /** In every run, queued waiters on one set complete by retry in the order in which they arrived. */
  lemma {:induction false} FifoCompletion(b: Broker, es: seq<Event>)
    requires Valid(b.store) && Runs(b, es) && InOrder(b.queue, b.completed, b.tickets)
    ensures var b' := After(b, es); InOrder(b'.queue, b'.completed, b'.tickets)
    decreases |es|
  {
    hide Valid, Step, Possible, InOrder;
    if es != [] {
      StepValid(b, es[0]);
      StepOrder(b, es[0]);
      FifoCompletion(Step(b, es[0]), es[1..]);
    }
  }

  lemma FifoFromStart(es: seq<Event>)
    requires Runs(Start(), es)
    ensures var b := After(Start(), es); InOrder(b.queue, b.completed, b.tickets)
  {
    FifoCompletion(Start(), es);
  }
}
