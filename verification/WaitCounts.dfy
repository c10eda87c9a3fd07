/** The waiter counts kept in the store agree with the queue. */
module WaitCounts {
  import opened Types
  import opened SemStore
  import opened StoreInvariant
  import opened StoreCalls
  import opened Timeouts
  import opened Broker
  import opened Wakeups

  /** The number of queued waiters recorded against a semaphore for a reason. */
  function Tally(q: seq<Waiter>, id: I32, reason: Reason): (n: nat) {
    if q == [] then 0
    else Tally(q[..|q| - 1], id, reason) + if q[|q| - 1].id == id && q[|q| - 1].reason == reason then 1 else 0
  }

  function CountIn(s: Store, id: I32, reason: Reason): int
    requires Valid(s) && HasSem(s, id, reason.num)
  {
    Waiting(SetOf(s, id), reason.num, reason.zero)
  }

  /** Every count of every live semaphore is the number of waiters queued for that reason. */
  ghost predicate Agree(s: Store, q: seq<Waiter>)
    requires Valid(s)
  {
    forall id, reason: Reason :: HasSem(s, id, reason.num) ==> CountIn(s, id, reason) == Tally(q, id, reason)
  }

  /** What a count is reported as: a C int. */
  function Cut(n: nat): I32 { if n > 0x7fff_ffff then 0x7fff_ffff else n }

  /** GETNCNT and GETZCNT of every live semaphore answer the number of waiters queued for that reason. */
  ghost predicate Reported(s: Store, q: seq<Waiter>)
    requires Valid(s)
  {
    forall id, n: U16, a, now :: HasSem(s, id, n) ==>
      && Exec(s, GetNegative(id, n), a, now) == (s, Reply(Cut(Tally(q, id, Reason(n, false))), Nothing))
      && Exec(s, GetZero(id, n), a, now) == (s, Reply(Cut(Tally(q, id, Reason(n, true))), Nothing))
  }

  lemma AgreeReported(s: Store, q: seq<Waiter>)
    requires Valid(s) && Agree(s, q)
    ensures Reported(s, q)
  {
    hide Valid, Tally;
    ValidFacts(s);
    forall id, n: U16 | HasSem(s, id, n)
      ensures CountIn(s, id, Reason(n, false)) == Tally(q, id, Reason(n, false))
      ensures CountIn(s, id, Reason(n, true)) == Tally(q, id, Reason(n, true))
    {
    }
  }

  // ---- The tally ----

  lemma {:induction false} TallyAppend(q: seq<Waiter>, r: seq<Waiter>, id: I32, reason: Reason)
    ensures Tally(q + r, id, reason) == Tally(q, id, reason) + Tally(r, id, reason)
  {
    if r == [] {
      assert q + r == q;
    } else {
      assert (q + r)[..|q + r| - 1] == q + r[..|r| - 1];
      TallyAppend(q, r[..|r| - 1], id, reason);
    }
  }

  lemma TallyRemove(q: seq<Waiter>, i: nat, id: I32, reason: Reason)
    requires i < |q|
    ensures Tally(q[..i] + q[i + 1..], id, reason) ==
            Tally(q, id, reason) - if q[i].id == id && q[i].reason == reason then 1 else 0
  {
    assert q == q[..i] + ([q[i]] + q[i + 1..]);
    TallyAppend(q[..i], [q[i]] + q[i + 1..], id, reason);
    TallyAppend([q[i]], q[i + 1..], id, reason);
    TallyAppend(q[..i], q[i + 1..], id, reason);
    assert [q[i]][..0] == [];
  }

  /** Only the identifiers and reasons matter. */
  lemma {:induction false} TallySame(q: seq<Waiter>, q': seq<Waiter>, id: I32, reason: Reason)
    requires |q| == |q'| && forall i :: 0 <= i < |q| ==> q[i].id == q'[i].id && q[i].reason == q'[i].reason
    ensures Tally(q', id, reason) == Tally(q, id, reason)
  {
    if q != [] {
      TallySame(q[..|q| - 1], q'[..|q| - 1], id, reason);
    }
  }

  lemma AgreeSame(s: Store, q: seq<Waiter>, q': seq<Waiter>)
    requires Valid(s) && Agree(s, q)
    requires |q| == |q'| && forall i :: 0 <= i < |q| ==> q[i].id == q'[i].id && q[i].reason == q'[i].reason
    ensures Agree(s, q')
  {
    hide Valid, HasSem, CountIn, Tally;
    forall id, reason {
      TallySame(q, q', id, reason);
    }
  }

  // ---- Counting in and out ----

  lemma AdjustCount(s: Store, id: I32, reason: Reason, adjustment: int, other: I32, r: Reason)
    requires Valid(s) && (adjustment == 1 || adjustment == -1)
    ensures Valid(AdjustWaitCount(s, id, reason.num, reason.zero, adjustment).0)
    ensures HasSem(AdjustWaitCount(s, id, reason.num, reason.zero, adjustment).0, other, r.num) <==> HasSem(s, other, r.num)
    ensures HasSem(s, other, r.num) ==>
              CountIn(AdjustWaitCount(s, id, reason.num, reason.zero, adjustment).0, other, r) ==
              CountIn(s, other, r) +
              if other == id && r == reason && AdjustWaitCount(s, id, reason.num, reason.zero, adjustment).1 == 0 then adjustment else 0
  {
    hide Valid;
    ValidFacts(s);
    var (s', result) := AdjustWaitCount(s, id, reason.num, reason.zero, adjustment);
    AdjustWaitCountValid(s, id, reason.num, reason.zero, adjustment);
    if Live(s, id) {
      LiveFacts(s, id);
    }
    if result == 0 {
      PutSetFrame(s, id, SetOf(s', id), other);
    }
  }

  /** Counting out a waiter that is in the queue never fails on a live set. */
  lemma CountOut(s: Store, q: seq<Waiter>, i: nat)
    requires Valid(s) && Agree(s, q) && i < |q|
    requires Valid(AdjustWaitCount(s, q[i].id, q[i].reason.num, q[i].reason.zero, -1).0)
    ensures Agree(AdjustWaitCount(s, q[i].id, q[i].reason.num, q[i].reason.zero, -1).0, q[..i] + q[i + 1..])
  {
    hide Valid, HasSem, CountIn, Tally, AdjustWaitCount;
    var w := q[i];
    ValidFacts(s);
    var (s', result) := AdjustWaitCount(s, w.id, w.reason.num, w.reason.zero, -1);
    ValidFacts(s');
    forall id, reason: Reason | HasSem(s', id, reason.num)
      ensures CountIn(s', id, reason) == Tally(q[..i] + q[i + 1..], id, reason)
    {
      AdjustCount(s, w.id, w.reason, -1, id, reason);
      TallyRemove(q, i, id, reason);
      if id == w.id && reason == w.reason {
        CountsDown(s, id, reason);
      }
    }
  }

  lemma CountsDown(s: Store, id: I32, reason: Reason)
    requires Valid(s) && HasSem(s, id, reason.num) && CountIn(s, id, reason) > 0
    ensures AdjustWaitCount(s, id, reason.num, reason.zero, -1).1 == 0
  {
  }

  // ---- Store changes that leave counts alone ----

  /** Live sets keep their sizes and counts. */
  ghost predicate SameCounts(s: Store, s': Store)
    requires Valid(s) && Valid(s')
  {
    forall id :: Live(s', id) ==> Live(s, id) && SetOf(s', id).nsems == SetOf(s, id).nsems &&
                                  SetOf(s', id).negative == SetOf(s, id).negative && SetOf(s', id).zero == SetOf(s, id).zero
  }

  lemma AgreeStore(s: Store, s': Store, q: seq<Waiter>)
    requires Valid(s) && Valid(s') && Agree(s, q) && SameCounts(s, s')
    ensures Agree(s', q)
  {
    forall id, reason: Reason | HasSem(s', id, reason.num)
      ensures CountIn(s', id, reason) == Tally(q, id, reason)
    {
      assert HasSem(s, id, reason.num) && CountIn(s, id, reason) == CountIn(s', id, reason);
    }
  }

  lemma PutCounts(s: Store, id: I32, t: SemSet, undo: map<UndoKey, I32>)
    requires Valid(s) && Live(s, id) && Valid(PutSet(s, id, t).(undo := undo))
    requires t.active && t.generation == SetOf(s, id).generation && t.nsems == SetOf(s, id).nsems
    requires t.negative == SetOf(s, id).negative && t.zero == SetOf(s, id).zero
    ensures SameCounts(s, PutSet(s, id, t).(undo := undo))
  {
    hide Valid;
    ValidFacts(s);
    forall other {
      PutSetFrame(s, id, t, other);
    }
  }

  /** Every call other than a semget that creates a set leaves the counts alone. */
  lemma CallCounts(s: Store, c: Call, a: Actor, now: I64)
    requires Valid(s)
    requires c.SemGet? ==> CreationSlot(s, c.key, c.nsems, c.flags).None?
    ensures Valid(Exec(s, c, a, now).0) && SameCounts(s, Exec(s, c, a, now).0)
  {
    hide Valid, UndoAfter, UndoVerdict, Cleared, Simulate;
    ValidFacts(s);
    ExecValid(s, c, a, now);
    var s' := Exec(s, c, a, now).0;
    ValidFacts(s');
    match c
    case SemGet(key, nsems, flags) => GetAsCases(s, key, nsems, flags, a.who, now);
    case RemoveSet(id) => RemoveValid(s, id);
    case SetValue(id, _, _) =>
      if s' != s {
        PutCounts(s, id, s'.sets[Slot(s, id)], s'.undo);
      }
    case SetValues(id, _) =>
      if s' != s {
        PutCounts(s, id, s'.sets[Slot(s, id)], s'.undo);
      }
    case SemOps(id, _, _) =>
      if s' != s {
        PutCounts(s, id, s'.sets[Slot(s, id)], s'.undo);
      }
    case SetMeta(id, uid, gid, mode) => SetMetadataValid(s, id, uid, gid, mode, a.who, now);
    case _ =>
  }

  lemma ExitCounts(s: Store, pid: I32, now: I64)
    requires Valid(s)
    ensures Valid(ProcessExit(s, pid, now).0) && SameCounts(s, ProcessExit(s, pid, now).0)
  {
    hide Valid, RestoredSets;
    ValidFacts(s);
    ExitValid(s, pid, now);
    if pid > 0 {
      forall id {
        ExitSetOf(s, pid, now, id);
      }
    }
  }

  // ---- Creation ----

  /** The identifier a semget creates, if it creates one. */
  function NewId(s: Store, c: Call): (r: Option<I32>)
    requires Valid(s)
  {
    if c.SemGet? && CreationSlot(s, c.key, c.nsems, c.flags).Some? then
      var i := CreationSlot(s, c.key, c.nsems, c.flags).value;
      Some(MakeId(i, if s.sets[i].generation == 0 then 1 else s.sets[i].generation))
    else None
  }

  /** No waiter is queued for a semaphore of an identifier that the call issues anew. */
  ghost predicate NotReissued(s: Store, c: Call, q: seq<Waiter>)
    requires Valid(s)
  {
    NewId(s, c).Some? ==> forall i :: 0 <= i < |q| && q[i].id == NewId(s, c).value ==> q[i].reason.num >= c.nsems
  }

  /** A semget that creates a set keeps the agreement exactly when no waiter is still queued for a semaphore of
      the identifier it issues. */
  lemma CreationAgrees(s: Store, c: Call, a: Actor, now: I64, q: seq<Waiter>)
    requires Valid(s) && NewId(s, c).Some? && Agree(s, q)
    ensures Valid(Exec(s, c, a, now).0)
    ensures Agree(Exec(s, c, a, now).0, q) <==> NotReissued(s, c, q)
  {
    var id := NewId(s, c).value;
    var i := CreationSlot(s, c.key, c.nsems, c.flags).value;
    var t := Created(s.sets[i], c.key, c.nsems, c.flags, a.who, now);
    GetAsCases(s, c.key, c.nsems, c.flags, a.who, now);
    InstallValid(s, i, t);
    var s' := Exec(s, c, a, now).0;
    assert s' == s.(sets := s.sets[i := t]) && SetOf(s', id) == t;
    hide Tally, Created, SetValid;
    NewCounts(s, s', id, c.nsems, q);
  }

  lemma NewCounts(s: Store, s': Store, id: I32, nsems: int, q: seq<Waiter>)
    requires Valid(s) && Valid(s') && Agree(s, q) && !Live(s, id) && Live(s', id) && SetOf(s', id).nsems == nsems
    requires forall n :: 0 <= n < nsems ==> SetOf(s', id).negative[n] == 0 && SetOf(s', id).zero[n] == 0
    requires forall other :: Live(s', other) <==> Live(s, other) || other == id
    requires forall other :: Live(s, other) ==> SetOf(s', other) == SetOf(s, other)
    ensures Agree(s', q) <==> forall i :: 0 <= i < |q| && q[i].id == id ==> q[i].reason.num >= nsems
  {
    hide Valid, Tally;
    ValidFacts(s);
    ValidFacts(s');
    LiveFacts(s', id);
    if forall i :: 0 <= i < |q| && q[i].id == id ==> q[i].reason.num >= nsems {
      forall other, reason: Reason | HasSem(s', other, reason.num)
        ensures CountIn(s', other, reason) == Tally(q, other, reason)
      {
        if other == id {
          TallyNone(q, id, reason);
        } else {
          assert HasSem(s, other, reason.num) && CountIn(s, other, reason) == CountIn(s', other, reason);
        }
      }
    } else {
      var i :| 0 <= i < |q| && q[i].id == id && q[i].reason.num < nsems;
      TallySome(q, i);
      assert HasSem(s', id, q[i].reason.num) && CountIn(s', id, q[i].reason) == 0;
    }
  }

  lemma {:induction false} TallyNone(q: seq<Waiter>, id: I32, reason: Reason)
    requires forall i :: 0 <= i < |q| ==> q[i].id != id || q[i].reason != reason
    ensures Tally(q, id, reason) == 0
  {
    if q != [] {
      TallyNone(q[..|q| - 1], id, reason);
    }
  }

  lemma TallySome(q: seq<Waiter>, i: nat)
    requires i < |q|
    ensures Tally(q, q[i].id, q[i].reason) > 0
  {
    TallyRemove(q, i, q[i].id, q[i].reason);
  }

  // ---- Steps ----

  lemma FinishAgrees(b: Broker, i: nat)
    requires Valid(b.store) && i < |b.queue| && Agree(b.store, b.queue)
    ensures Valid(Finish(b, i).store) && Agree(Finish(b, i).store, Finish(b, i).queue)
  {
    hide Valid, Agree, AdjustWaitCount;
    FinishValid(b, i);
    CountOut(b.store, b.queue, i);
    AgreeSame(Finish(b, i).store, b.queue[..i] + b.queue[i + 1..], Finish(b, i).queue);
  }

  lemma LoopAgrees(b: Broker, i: nat, now: I64, peerClosed: bool)
    requires Valid(b.store) && i < |b.queue| && Agree(b.store, b.queue)
    ensures Valid(Loop(b, i, now, peerClosed).0.store)
    ensures Agree(Loop(b, i, now, peerClosed).0.store, Loop(b, i, now, peerClosed).0.queue)
  {
    hide Valid, Agree, Retry, Finish, FirstForSet;
    LoopValid(b, i, now, peerClosed);
    var w := b.queue[i];
    FinishAgrees(b, i);
    AgreeSame(b.store, b.queue, Sleep(b, i).queue);
    RetryAgrees(b, i, now);
    var s := Retry(b, i, now).0;
    FinishAgrees(b.(store := s, completed := b.completed + [Completion(w.id, w.ticket)]), i);
    AgreeSame(s, b.queue, Sleep(b, i).queue);
  }

  lemma RetryAgrees(b: Broker, i: nat, now: I64)
    requires Valid(b.store) && i < |b.queue| && Agree(b.store, b.queue)
    ensures Agree(Retry(b, i, now).0, b.queue)
  {
    hide Valid, Agree, Exec;
    var w := b.queue[i];
    CallCounts(b.store, SemOps(w.id, w.ops, None), w.actor, now);
    AgreeStore(b.store, Retry(b, i, now).0, b.queue);
  }

  lemma BlockAgrees(b: Broker, a: Actor, c: Call, reason: Reason, now: I64, clock: Timespec, peerClosed: bool)
    requires Valid(b.store) && Agree(b.store, b.queue) && c.SemOps? && HasSem(b.store, c.id, reason.num)
    ensures var b' := Block(b, a, c, reason, now, clock, peerClosed).0;
            Valid(b'.store) && Agree(b'.store, b'.queue)
  {
    hide Valid, Agree, AdjustWaitCount, Loop;
    var (s, counted) := AdjustWaitCount(b.store, c.id, reason.num, reason.zero, 1);
    AdjustWaitCountValid(b.store, c.id, reason.num, reason.zero, 1);
    if counted == 0 {
      var b' := Queued(b, s, a, c, reason, clock);
      CountedIn(b.store, b.queue, b'.queue[|b.queue|]);
      LoopAgrees(b', |b.queue|, now, peerClosed);
    }
  }

  lemma CountedIn(s: Store, q: seq<Waiter>, w: Waiter)
    requires Valid(s) && Agree(s, q) && AdjustWaitCount(s, w.id, w.reason.num, w.reason.zero, 1).1 == 0
    requires Valid(AdjustWaitCount(s, w.id, w.reason.num, w.reason.zero, 1).0)
    ensures Agree(AdjustWaitCount(s, w.id, w.reason.num, w.reason.zero, 1).0, q + [w])
  {
    hide Valid, HasSem, CountIn, AdjustWaitCount;
    var s' := AdjustWaitCount(s, w.id, w.reason.num, w.reason.zero, 1).0;
    ValidFacts(s);
    ValidFacts(s');
    forall id, reason: Reason | HasSem(s', id, reason.num)
      ensures CountIn(s', id, reason) == Tally(q + [w], id, reason)
    {
      AdjustCount(s, w.id, w.reason, 1, id, reason);
      assert (q + [w])[..|q|] == q;
    }
  }

  lemma ExecAgrees(b: Broker, a: Actor, c: Call, now: I64)
    requires Valid(b.store) && Agree(b.store, b.queue) && NotReissued(b.store, c, b.queue)
    ensures Valid(Exec(b.store, c, a, now).0) && Agree(Exec(b.store, c, a, now).0, b.queue)
  {
    hide Valid, Agree, Exec, CreationSlot;
    ExecValid(b.store, c, a, now);
    if NewId(b.store, c).Some? {
      CreationAgrees(b.store, c, a, now, b.queue);
    } else {
      CallCounts(b.store, c, a, now);
      AgreeStore(b.store, Exec(b.store, c, a, now).0, b.queue);
    }
  }

  lemma ServeAgrees(b: Broker, a: Actor, c: Call, now: I64, clock: Timespec, peerClosed: bool)
    requires Valid(b.store) && Agree(b.store, b.queue) && NotReissued(b.store, c, b.queue)
    ensures var b' := Serve(b, a, c, now, clock, peerClosed).0;
            Valid(b'.store) && Agree(b'.store, b'.queue)
  {
    hide Valid, Agree, Exec, Block, HasSem, NewId;
    var (s, r) := Exec(b.store, c, a, now);
    ServeValid(b, a, c, now, clock, peerClosed);
    ExecAgrees(b, a, c, now);
    if c.SemOps? && r.result == OP_BLOCKED {
      BlockedStore(b.store, c, a, now);
      assert b.(store := s) == b;
      BlockAgrees(b, a, c, ReasonOf(r), now, clock, peerClosed);
    } else {
      AgreeSame(s, b.queue, WakeIf(b.queue, ChangedState(c, r)));
    }
  }

  lemma FreshAgrees(b: Broker, e: Event)
    requires Valid(b.store) && Possible(b, e) && Agree(b.store, b.queue)
    requires e.Request? ==> NotReissued(b.store, e.call, b.queue)
    ensures Valid(Step(b, e).store) && Agree(Step(b, e).store, Step(b, e).queue)
  {
    hide Valid, Agree, Serve, Loop, Finish, Watch, ProcessExit, NewId;
    StepValid(b, e);
    match e
    case Request(a, c, now, clock, watchError, peerClosed) =>
      var b' := Watching(b, a.pid, watchError).0;
      AgreeSame(b.store, b.queue, b'.queue);
      ServeAgrees(b, a, c, now, clock, peerClosed);
      if c.SemOps? {
        assert NewId(b'.store, c) == NewId(b.store, c);
        ServeAgrees(b', a, c, now, clock, peerClosed);
      }
    case Malformed(a, usesUndo, watchError) => AgreeSame(b.store, b.queue, Watching(b, a.pid, watchError).0.queue);
    case Resume(at, now, clock, failed, peerClosed) =>
      FinishAgrees(b, at);
      LoopAgrees(b, at, now, peerClosed);
    case ProcessGone(w, now) =>
      var (s, changed) := ProcessExit(b.store, b.watchers[w].value, now);
      ExitCounts(b.store, b.watchers[w].value, now);
      AgreeStore(b.store, s, b.queue);
      AgreeSame(s, b.queue, WakeIf(b.queue, changed > 0));
  }

  ghost predicate NeverReissued(b: Broker, es: seq<Event>)
    requires Valid(b.store) && Runs(b, es)
    decreases |es|
  {
    es == [] || ((es[0].Request? ==> NotReissued(b.store, es[0].call, b.queue)) &&
                 (StepValid(b, es[0]); NeverReissued(Step(b, es[0]), es[1..])))
  }

  /** A step that issues an identifier still waited on breaks the agreement. */
  lemma ReissueDisagrees(b: Broker, e: Event)
    requires Valid(b.store) && Possible(b, e) && Agree(b.store, b.queue)
    requires e.Request? && !NotReissued(b.store, e.call, b.queue)
    ensures Valid(Step(b, e).store) && !Agree(Step(b, e).store, Step(b, e).queue)
  {
    hide Valid, Agree, GetAs;
    StepValid(b, e);
    CreationAgrees(b.store, e.call, e.actor, e.now, b.queue);
  }

  /** A step keeps counts and queue in agreement exactly when it does not issue an identifier still waited on. */
  lemma StepAgrees(b: Broker, e: Event)
    requires Valid(b.store) && Possible(b, e) && Agree(b.store, b.queue)
    ensures Valid(Step(b, e).store)
    ensures Agree(Step(b, e).store, Step(b, e).queue) <==> (e.Request? ==> NotReissued(b.store, e.call, b.queue))
  {
    hide Valid, Agree, Step, Possible, NotReissued;
    StepValid(b, e);
    if e.Request? ==> NotReissued(b.store, e.call, b.queue) {
      FreshAgrees(b, e);
    } else {
      ReissueDisagrees(b, e);
    }
  }

  /** Counts and queue agree in every state of the run. */
  ghost predicate AlwaysAgree(b: Broker, es: seq<Event>)
    requires Valid(b.store) && Runs(b, es)
    decreases |es|
  {
    Agree(b.store, b.queue) && (es == [] || (StepValid(b, es[0]); AlwaysAgree(Step(b, es[0]), es[1..])))
  }

  /** In all states of a run GETNCNT and GETZCNT of every live semaphore are the numbers of waiters queued for those
      reasons, if and only if no identifier is issued while a waiter for one of its semaphores is queued. */
  lemma {:induction false} CountsAgree(b: Broker, es: seq<Event>)
    requires Valid(b.store) && Agree(b.store, b.queue) && Runs(b, es)
    ensures AlwaysAgree(b, es) <==> NeverReissued(b, es)
    ensures NeverReissued(b, es) ==> Agree(After(b, es).store, After(b, es).queue) && Reported(After(b, es).store, After(b, es).queue)
    decreases |es|
  {
    hide Valid, Agree, Reported, Step, Possible, NotReissued;
    if es != [] {
      StepAgrees(b, es[0]);
      if es[0].Request? ==> NotReissued(b.store, es[0].call, b.queue) {
        CountsAgree(Step(b, es[0]), es[1..]);
      } else {
        Disagrees(Step(b, es[0]), es[1..]);
      }
    } else {
      AgreeReported(b.store, b.queue);
    }
  }

  lemma Disagrees(b: Broker, es: seq<Event>)
    requires Valid(b.store) && Runs(b, es) && !Agree(b.store, b.queue)
    ensures !AlwaysAgree(b, es)
  {
    hide Valid, Step, Possible, Agree, Runs;
  }
}
