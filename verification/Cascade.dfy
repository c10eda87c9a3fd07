/** Once nothing happens from outside, the wake-ups die out, and what remains is really blocked. */
module Cascade {
  import opened Types
  import opened SemStore
  import opened Sequential
  import opened Timeouts
  import opened Broker
  import opened Wakeups

  function WokenCount(q: seq<Waiter>): (n: nat)
    ensures n <= |q|
  {
    if q == [] then 0 else WokenCount(q[..|q| - 1]) + if q[|q| - 1].woken then 1 else 0
  }

  /** A woken waiter has its turn, whatever comes of it: a retry, a failure, an expiry or a closed peer. */
  ghost predicate RetryEvent(b: Broker, e: Event) {
    e.Resume? && e.at < |b.queue| && b.queue[e.at].woken
  }

  ghost predicate RetryRun(b: Broker, es: seq<Event>)
    requires Valid(b.store)
    decreases |es|
  {
    es == [] || (RetryEvent(b, es[0]) && (StepValid(b, es[0]); RetryRun(Step(b, es[0]), es[1..])))
  }

  ghost predicate AtRest(b: Broker) {
    forall i :: 0 <= i < |b.queue| ==> !b.queue[i].woken
  }

  lemma {:induction false} WokenUpdate(q: seq<Waiter>, i: nat)
    requires i < |q| && q[i].woken
    ensures WokenCount(q[i := q[i].(woken := false)]) == WokenCount(q) - 1
  {
    var q' := q[i := q[i].(woken := false)];
    if i < |q| - 1 {
      assert q'[..|q| - 1] == q[..|q| - 1][i := q[i].(woken := false)];
      WokenUpdate(q[..|q| - 1], i);
    } else {
      assert q'[..|q| - 1] == q[..|q| - 1];
    }
  }

  lemma {:induction false} NoneWoken(q: seq<Waiter>)
    ensures WokenCount(q) == 0 <==> forall i :: 0 <= i < |q| ==> !q[i].woken
  {
    if q != [] {
      var init := q[..|q| - 1];
      NoneWoken(init);
      assert forall i :: 0 <= i < |init| ==> init[i] == q[i];
    }
  }

  /** A turn either shortens the queue, or keeps it and puts one more waiter to sleep. */
  lemma RetryDecreases(b: Broker, e: Event)
    requires Valid(b.store) && RetryEvent(b, e)
    ensures Possible(b, e)
    ensures var q, q' := b.queue, Step(b, e).queue;
            |q'| == |q| - 1 || (|q'| == |q| && WokenCount(q') == WokenCount(q) - 1)
  {
    hide Valid, Retry, FirstForSet, AdjustWaitCount, Expired;
    WokenUpdate(b.queue, e.at);
  }

  /** The sum 0 + 1 + ... + (n - 1). */
  function Pairs(n: nat): nat { if n == 0 then 0 else Pairs(n - 1) + (n - 1) }

  /** The most turns a queue of waiters can still have: one for each that is woken, and after each departure at
      most one for every waiter left. */
  function Budget(q: seq<Waiter>): nat { WokenCount(q) + Pairs(|q|) }

  lemma BudgetDecreases(q: seq<Waiter>, q': seq<Waiter>)
    requires WokenCount(q) > 0
    requires |q'| == |q| - 1 || (|q'| == |q| && WokenCount(q') == WokenCount(q) - 1)
    ensures Budget(q') < Budget(q)
  {
    assert |q'| == |q| - 1 ==> Pairs(|q|) == Pairs(|q'|) + |q'|;
  }

  lemma SomeWoken(q: seq<Waiter>, i: nat)
    requires i < |q| && q[i].woken
    ensures WokenCount(q) > 0
  {
    NoneWoken(q);
  }

  /** Every run of turns of woken waiters is bounded by the size of the queue: the cascade terminates. */
  lemma {:induction false} CascadeTerminates(b: Broker, es: seq<Event>)
    requires Valid(b.store) && RetryRun(b, es)
    ensures |es| <= Budget(b.queue)
    decreases |es|
  {
    hide Valid, Step, WokenCount, Budget, Expired;
    if es != [] {
      StepValid(b, es[0]);
      RetryDecreases(b, es[0]);
      SomeWoken(b.queue, es[0].at);
      BudgetDecreases(b.queue, Step(b, es[0]).queue);
      CascadeTerminates(Step(b, es[0]), es[1..]);
    }
  }

  lemma {:induction false} FirstExists(q: seq<Waiter>, i: nat) returns (j: nat)
    requires i < |q|
    ensures j <= i && q[j].id == q[i].id && FirstForSet(q, j)
  {
    if FirstForSet(q, i) {
      j := i;
    } else {
      var k :| 0 <= k < i && q[k].id == q[i].id;
      j := FirstExists(q, k);
    }
  }

  /** At rest the head of every set is blocked, and so every queued waiter waits on a set that still exists. */
  lemma RestMeansBlocked(b: Broker, i: nat)
    requires Valid(b.store) && Alert(b) && AtRest(b) && i < |b.queue|
    ensures FirstForSet(b.queue, i) ==> Blocked(b.store, b.queue[i].id, b.queue[i].ops)
    ensures Live(b.store, b.queue[i].id)
  {
    var j := FirstExists(b.queue, i);
    assert Blocked(b.store, b.queue[j].id, b.queue[j].ops);
  }

  /** While somebody is woken, some turn is possible; so at any clock every state drains to rest by ordinary turns. */
  lemma {:induction false} Drains(b: Broker, now: I64, clock: Timespec) returns (es: seq<Event>)
    requires Valid(b.store) && Alert(b)
    ensures RetryRun(b, es) && Runs(b, es)
    ensures forall i :: 0 <= i < |es| ==> es[i].Resume? && es[i] == Resume(es[i].at, now, clock, false, false)
    ensures AtRest(After(b, es)) && Alert(After(b, es))
    decreases Budget(b.queue)
  {
    hide Valid, Alert, Step, WokenCount, Budget, Expired;
    if AtRest(b) {
      es := [];
    } else {
      var i :| 0 <= i < |b.queue| && b.queue[i].woken;
      var e := Resume(i, now, clock, false, false);
      StepAlert(b, e);
      RetryDecreases(b, e);
      SomeWoken(b.queue, i);
      BudgetDecreases(b.queue, Step(b, e).queue);
      var rest := Drains(Step(b, e), now, clock);
      es := [e] + rest;
      assert es[1..] == rest;
    }
  }

  /** A spurious or timer wake-up of a waiter nobody woke changes nothing at all. */
  lemma SpuriousWakeupIsIdle(b: Broker, e: Event)
    requires Valid(b.store) && Alert(b)
    requires e.Resume? && e.at < |b.queue| && !b.queue[e.at].woken
    requires !e.failed && !e.peerClosed && !Expired(e.clock, b.queue[e.at].deadline)
    ensures Step(b, e) == b
  {
    hide Valid, Retry, FirstForSet, AdjustWaitCount, Blocked;
    RetryBlocked(b, e.at, e.now);
    assert b.queue[e.at := b.queue[e.at].(woken := false)] == b.queue;
  }
}
