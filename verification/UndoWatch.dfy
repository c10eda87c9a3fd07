/** Every process with pending undo adjustments is watched by exactly one watcher. */
module UndoWatch {
  import opened Types
  import opened SemStore
  import opened StoreInvariant
  import opened StoreCalls
  import opened Timeouts
  import opened Broker
  import opened Conservation

  /** No process has two watchers. */
  ghost predicate Distinct(watchers: seq<Option<I32>>) {
    forall i, j :: 0 <= i < j < |watchers| && watchers[i].Some? ==> watchers[i] != watchers[j]
  }

  /** Every pending adjustment belongs to a watched process. */
  ghost predicate Covered(undo: map<UndoKey, I32>, watchers: seq<Option<I32>>) {
    forall k :: k in undo ==> Some(k.pid) in watchers
  }

  /** A queued request that will use undo comes from a watched process, or from one observed to have exited. */
  ghost predicate QueueCovered(q: seq<Waiter>, watchers: seq<Option<I32>>, exited: set<I32>) {
    forall i :: 0 <= i < |q| && UsesUndo(q[i].ops) ==> Some(q[i].actor.pid) in watchers || q[i].actor.pid in exited
  }

  ghost predicate NoOrphans(b: Broker) {
    Distinct(b.watchers) && Covered(b.store.undo, b.watchers) && QueueCovered(b.queue, b.watchers, b.exited)
  }

  /** The operations with SEM_UNDO cancel out on every semaphore. */
  ghost predicate NetsOut(ops: seq<SemOp>) {
    forall n: U16 :: Net(ops, n, true) == 0
  }

  /** A waiter of a process that is not watched succeeds, its peer still open, with a net undo adjustment. */
  ghost predicate Late(b: Broker, i: nat, now: I64, peerClosed: bool)
    requires Valid(b.store) && i < |b.queue|
  {
    var w := b.queue[i];
    && !peerClosed && FirstForSet(b.queue, i) && Some(w.actor.pid) !in b.watchers
    && TryOp(b.store, w.id, w.ops, w.actor.pid, now).1.result == 0 && !NetsOut(w.ops)
  }

  ghost predicate LateUndo(b: Broker, e: Event)
    requires Valid(b.store) && Possible(b, e)
  {
    e.Resume? && !e.failed && !Expired(e.clock, b.queue[e.at].deadline) && Late(b, e.at, e.now, e.peerClosed)
  }

  /** A process observed to have exited has closed its connections: its waiters find their peer gone. */
  ghost predicate PeerClosedAfterExit(b: Broker, e: Event)
    requires Possible(b, e)
  {
    e.Resume? && b.queue[e.at].actor.pid in b.exited ==> e.peerClosed
  }

  // ---- Effects on the undo map ----

  lemma {:induction false} NoUndoNet(ops: seq<SemOp>, num: int)
    requires !UsesUndo(ops)
    ensures Net(ops, num, true) == 0
  {
    if ops != [] {
      var init := ops[..|ops| - 1];
      assert forall i :: 0 <= i < |init| ==> init[i] == ops[i];
      NoUndoNet(init, num);
    }
  }

  /** Only successful operation lists that use undo add entries, for their caller and their set. */
  lemma TryOpKeys(s: Store, id: I32, ops: seq<SemOp>, pid: I32, now: I64, k: UndoKey)
    requires Valid(s) && k in TryOp(s, id, ops, pid, now).0.undo
    ensures k in s.undo || (k.pid == pid && k.semid == id && UsesUndo(ops) && TryOp(s, id, ops, pid, now).1.result == 0)
  {
    hide Net, Simulate, UsesUndo;
    if TryOp(s, id, ops, pid, now).1.result == 0 {
      UndoAfterInRange(s.undo, id, ops, pid, SetOf(s, id).nsems);
      if !UsesUndo(ops) {
        NoUndoNet(ops, k.semnum);
      }
    }
  }

  lemma CallKeys(s: Store, c: Call, a: Actor, now: I64, k: UndoKey)
    requires Valid(s) && k in Exec(s, c, a, now).0.undo
    ensures k in s.undo ||
            (c.SemOps? && k.pid == a.pid && k.semid == c.id && UsesUndo(c.ops) && Exec(s, c, a, now).1.result == 0)
  {
    hide Valid, TryOp, UsesUndo;
    match c
    case SemGet(key, nsems, flags) => GetAsValid(s, key, nsems, flags, a.who, now);
    case SemOps(id, ops, _) => TryOpKeys(s, id, ops, a.pid, now, k);
    case SetMeta(i, uid, gid, mode) => SetMetadataValid(s, i, uid, gid, mode, a.who, now);
    case _ =>
  }

  lemma CallCovered(s: Store, c: Call, a: Actor, now: I64, watchers: seq<Option<I32>>)
    requires Valid(s) && Covered(s.undo, watchers)
    requires c.SemOps? && UsesUndo(c.ops) ==> Some(a.pid) in watchers
    ensures Covered(Exec(s, c, a, now).0.undo, watchers)
  {
    hide Valid, Exec, UsesUndo;
    forall k | k in Exec(s, c, a, now).0.undo
      ensures Some(k.pid) in watchers
    {
      CallKeys(s, c, a, now, k);
    }
  }

  /** A successful list of an unwatched process keeps every adjustment watched exactly when it nets out to none. */
  lemma LateCovered(s: Store, id: I32, ops: seq<SemOp>, pid: I32, now: I64, watchers: seq<Option<I32>>)
    requires Valid(s) && Covered(s.undo, watchers) && Some(pid) !in watchers && TryOp(s, id, ops, pid, now).1.result == 0
    ensures Covered(TryOp(s, id, ops, pid, now).0.undo, watchers) <==> NetsOut(ops)
  {
    hide Valid, TryOp, UsesUndo;
    var undo' := TryOp(s, id, ops, pid, now).0.undo;
    TryOpValid(s, id, ops, pid, now);
    ValidFacts(TryOp(s, id, ops, pid, now).0);
    SemOpUndo(s, id, ops, pid, now);
    if n: U16 :| Net(ops, n, true) != 0 {
      assert Adj(undo', UndoKey(pid, id, n)) != 0;
      assert UndoKey(pid, id, n) in undo';
      assert !Covered(undo', watchers);
    } else {
      forall k | k in undo'
        ensures k in s.undo
      {
        assert Adj(undo', k) == Adj(s.undo, k);
      }
    }
  }

  // ---- Watching ----

  lemma WatchWorks(watchers: seq<Option<I32>>, pid: I32, error: I32)
    requires Distinct(watchers)
    ensures Distinct(Watch(watchers, pid, error).0)
    ensures Watch(watchers, pid, error).1 == 0 ==> Some(pid) in Watch(watchers, pid, error).0
    ensures forall w: Option<I32> :: w.Some? && w in watchers ==> w in Watch(watchers, pid, error).0
  {
    var i := FirstFree(watchers, 0);
    var r := Watch(watchers, pid, error).0;
    if i < |watchers| {
      assert watchers[i := Some(pid)][i] == Some(pid);
      forall w: Option<I32> | w.Some? && w in watchers
        ensures w in watchers[i := Some(pid)]
      {
        var j :| 0 <= j < |watchers| && watchers[j] == w;
        assert watchers[i := Some(pid)][j] == w;
      }
    }
  }

  lemma WatchingWorks(b: Broker, pid: I32, error: I32)
    requires NoOrphans(b)
    ensures NoOrphans(Watching(b, pid, error).0)
    ensures Watching(b, pid, error).1 == 0 ==> Some(pid) in Watching(b, pid, error).0.watchers
  {
    hide Watch, UsesUndo;
    WatchWorks(b.watchers, pid, error);
  }

  // ---- Steps ----

  lemma FinishOrphans(b: Broker, i: nat)
    requires Valid(b.store) && i < |b.queue| && Distinct(b.watchers) && QueueCovered(b.queue, b.watchers, b.exited)
    ensures NoOrphans(Finish(b, i)) <==> Covered(b.store.undo, b.watchers)
  {
    hide Valid, AdjustWaitCount, UsesUndo;
    var w := b.queue[i];
    AdjustWaitCountValid(b.store, w.id, w.reason.num, w.reason.zero, -1);
    var q := Finish(b, i).queue;
    assert forall j :: 0 <= j < |q| ==> q[j] == b.queue[if j < i then j else j + 1].(woken := true);
  }

  lemma LoopOrphans(b: Broker, i: nat, now: I64, peerClosed: bool)
    requires Valid(b.store) && i < |b.queue| && NoOrphans(b)
    ensures NoOrphans(Loop(b, i, now, peerClosed).0) <==> !Late(b, i, now, peerClosed)
  {
    hide Valid, TryOp, Finish, UsesUndo, FirstForSet, Covered, Distinct, QueueCovered, NetsOut;
    var w := b.queue[i];
    FinishOrphans(b, i);
    if !peerClosed && FirstForSet(b.queue, i) {
      var s := Retry(b, i, now).0;
      RetryCovered(b, i, now);
      FinishOrphans(b.(store := s, completed := b.completed + [Completion(w.id, w.ticket)]), i);
      TryOpAtomic(b.store, w.id, w.ops, w.actor.pid, now);
    }
    SleepCovered(b, i);
  }

  lemma SleepCovered(b: Broker, i: nat)
    requires i < |b.queue|
    ensures QueueCovered(Sleep(b, i).queue, b.watchers, b.exited) <==> QueueCovered(b.queue, b.watchers, b.exited)
  {
    hide UsesUndo;
    var q, q' := b.queue, Sleep(b, i).queue;
    assert forall j :: 0 <= j < |q| ==> q'[j].ops == q[j].ops && q'[j].actor == q[j].actor;
  }

  lemma RetryCovered(b: Broker, i: nat, now: I64)
    requires Valid(b.store) && i < |b.queue| && NoOrphans(b) && FirstForSet(b.queue, i)
    ensures Covered(Retry(b, i, now).0.undo, b.watchers) <==> !Late(b, i, now, false)
  {
    hide Valid, TryOp, UsesUndo, FirstForSet, Distinct, QueueCovered, NetsOut, Covered;
    var w := b.queue[i];
    TryOpAtomic(b.store, w.id, w.ops, w.actor.pid, now);
    if Some(w.actor.pid) in b.watchers {
      CallCovered(b.store, SemOps(w.id, w.ops, None), w.actor, now, b.watchers);
    } else if TryOp(b.store, w.id, w.ops, w.actor.pid, now).1.result == 0 {
      LateCovered(b.store, w.id, w.ops, w.actor.pid, now, b.watchers);
    }
  }

  /** A late undo leaves an adjustment without a watcher. */
  lemma LateOrphans(b: Broker, i: nat, now: I64, peerClosed: bool)
    requires Valid(b.store) && i < |b.queue| && NoOrphans(b) && Late(b, i, now, peerClosed)
    ensures var b' := Loop(b, i, now, peerClosed).0; !Covered(b'.store.undo, b'.watchers)
  {
    hide Valid, TryOp, AdjustWaitCount, UsesUndo, Covered, Distinct, QueueCovered, NetsOut;
    var w, s := b.queue[i], Retry(b, i, now).0;
    RetryCovered(b, i, now);
    AdjustWaitCountValid(s, w.id, w.reason.num, w.reason.zero, -1);
  }

  /** A list without SEM_UNDO, or of a watched process, is never late. */
  lemma NotLate(b: Broker, i: nat, now: I64, peerClosed: bool)
    requires Valid(b.store) && i < |b.queue|
    requires peerClosed || !UsesUndo(b.queue[i].ops) || Some(b.queue[i].actor.pid) in b.watchers
    ensures !Late(b, i, now, peerClosed)
  {
    hide Valid, TryOp, UsesUndo, FirstForSet;
    if !UsesUndo(b.queue[i].ops) {
      forall n: U16
        ensures Net(b.queue[i].ops, n, true) == 0
      {
        NoUndoNet(b.queue[i].ops, n);
      }
    }
  }

  lemma ServeOrphans(b: Broker, a: Actor, c: Call, now: I64, clock: Timespec, peerClosed: bool)
    requires Valid(b.store) && NoOrphans(b)
    requires c.SemOps? && UsesUndo(c.ops) ==> Some(a.pid) in b.watchers
    ensures NoOrphans(Serve(b, a, c, now, clock, peerClosed).0)
  {
    hide Valid, Exec, AdjustWaitCount, Loop, Deadline, UsesUndo, Late;
    var (s, r) := Exec(b.store, c, a, now);
    ExecValid(b.store, c, a, now);
    CallCovered(b.store, c, a, now, b.watchers);
    if c.SemOps? && r.result == OP_BLOCKED {
      var reason := ReasonOf(r);
      var s' := AdjustWaitCount(s, c.id, reason.num, reason.zero, 1).0;
      AdjustWaitCountValid(s, c.id, reason.num, reason.zero, 1);
      var queued := Queued(b.(store := s), s', a, c, reason, clock);
      NotLate(queued, |b.queue|, now, peerClosed);
      LoopOrphans(queued, |b.queue|, now, peerClosed);
    }
  }

  lemma GoneOrphans(b: Broker, w: nat, now: I64)
    requires Valid(b.store) && NoOrphans(b) && w < |b.watchers| && b.watchers[w].Some? && b.watchers[w].value > 0
    ensures NoOrphans(Gone(b, w, now))
  {
    hide Valid, UsesUndo, RestoredSets;
    var pid := b.watchers[w].value;
    var b' := Gone(b, w, now);
    forall p: I32 | Some(p) in b.watchers && p != pid
      ensures Some(p) in b'.watchers
    {
      var j :| 0 <= j < |b.watchers| && b.watchers[j] == Some(p);
      assert b'.watchers[j] == Some(p);
    }
    forall k | k in b'.store.undo
      ensures Some(k.pid) in b'.watchers
    {
      assert k in b.store.undo && k.pid != pid;
    }
  }

  ghost predicate WatchersPositive(b: Broker) {
    forall i :: 0 <= i < |b.watchers| && b.watchers[i].Some? ==> b.watchers[i].value > 0
  }

  lemma StepWatchers(b: Broker, e: Event)
    requires Valid(b.store) && Possible(b, e) && WatchersPositive(b)
    ensures WatchersPositive(Step(b, e))
  {
    hide Valid, Exec, Retry, FirstForSet, AdjustWaitCount, ProcessExit, UsesUndo, Deadline;
  }

  /** A step leaves every adjustment watched unless, and only unless, it is a late undo. */
  lemma StepOrphans(b: Broker, e: Event)
    requires Valid(b.store) && Possible(b, e) && NoOrphans(b) && WatchersPositive(b)
    ensures NoOrphans(Step(b, e)) <==> !LateUndo(b, e)
    ensures LateUndo(b, e) ==> !Covered(Step(b, e).store.undo, Step(b, e).watchers)
  {
    hide Valid, Serve, Loop, Finish, Watching, ProcessExit, UsesUndo, Distinct, Covered, Late, Expired;
    match e
    case Request(a, c, now, clock, watchError, peerClosed) =>
      WatchingWorks(b, a.pid, watchError);
      WatchingStore(b, a.pid, watchError);
      if !(c.SemOps? && UsesUndo(c.ops)) {
        ServeOrphans(b, a, c, now, clock, peerClosed);
      } else if Watching(b, a.pid, watchError).1 == 0 {
        ServeOrphans(Watching(b, a.pid, watchError).0, a, c, now, clock, peerClosed);
      }
    case Malformed(a, _, watchError) => WatchingWorks(b, a.pid, watchError);
    case Resume(at, now, clock, failed, peerClosed) =>
      FinishOrphans(b, at);
      LoopOrphans(b, at, now, peerClosed);
      if Late(b, at, now, peerClosed) {
        LateOrphans(b, at, now, peerClosed);
      }
    case ProcessGone(w, now) => GoneOrphans(b, w, now);
  }

  lemma WatchingStore(b: Broker, pid: I32, error: I32)
    ensures Watching(b, pid, error).0.store == b.store
  {
  }

  ghost predicate NeverLate(b: Broker, es: seq<Event>)
    requires Valid(b.store) && Runs(b, es)
    decreases |es|
  {
    es == [] || (!LateUndo(b, es[0]) && (StepValid(b, es[0]); NeverLate(Step(b, es[0]), es[1..])))
  }

  /** No adjustment is orphaned in any state of the run. */
  ghost predicate AlwaysCovered(b: Broker, es: seq<Event>)
    requires Valid(b.store) && Runs(b, es)
    decreases |es|
  {
    NoOrphans(b) && (es == [] || (StepValid(b, es[0]); AlwaysCovered(Step(b, es[0]), es[1..])))
  }

  ghost predicate PeersCloseAfterExit(b: Broker, es: seq<Event>)
    requires Valid(b.store) && Runs(b, es)
    decreases |es|
  {
    es == [] || (PeerClosedAfterExit(b, es[0]) && (StepValid(b, es[0]); PeersCloseAfterExit(Step(b, es[0]), es[1..])))
  }

  /** Every process with pending adjustments has exactly one watcher in all states of a run, so its exit will be seen
      and its adjustments applied, if and only if no waiter's undo comes late. */
  lemma {:induction false} NoOrphanedUndo(b: Broker, es: seq<Event>)
    requires Valid(b.store) && Runs(b, es) && NoOrphans(b) && WatchersPositive(b)
    ensures AlwaysCovered(b, es) <==> NeverLate(b, es)
    ensures NeverLate(b, es) ==> NoOrphans(After(b, es)) && WatchersPositive(After(b, es))
    decreases |es|
  {
    hide Valid, Step, Possible, NoOrphans, WatchersPositive, LateUndo;
    if es != [] {
      StepValid(b, es[0]);
      StepWatchers(b, es[0]);
      StepOrphans(b, es[0]);
      if NoOrphans(Step(b, es[0])) {
        NoOrphanedUndo(Step(b, es[0]), es[1..]);
      } else {
        Uncovered(Step(b, es[0]), es[1..]);
      }
    }
  }

  lemma Uncovered(b: Broker, es: seq<Event>)
    requires Valid(b.store) && Runs(b, es) && !NoOrphans(b)
    ensures !AlwaysCovered(b, es)
  {
    hide Valid, Step, Possible, NoOrphans, Runs;
  }

  /** Undo never comes late in a run in which exited processes have closed their connections. */
  lemma {:induction false} ClosedPeersNeverLate(b: Broker, es: seq<Event>)
    requires Valid(b.store) && Runs(b, es) && NoOrphans(b) && WatchersPositive(b) && PeersCloseAfterExit(b, es)
    ensures NeverLate(b, es)
    decreases |es|
  {
    hide Valid, Step, Possible, NoOrphans, WatchersPositive, LateUndo, PeerClosedAfterExit;
    if es != [] {
      StepValid(b, es[0]);
      StepWatchers(b, es[0]);
      ClosedNotLate(b, es[0]);
      StepOrphans(b, es[0]);
      ClosedPeersNeverLate(Step(b, es[0]), es[1..]);
    }
  }

  lemma ClosedNotLate(b: Broker, e: Event)
    requires Valid(b.store) && Possible(b, e) && NoOrphans(b) && PeerClosedAfterExit(b, e)
    ensures !LateUndo(b, e)
  {
    hide Valid, Late, UsesUndo, Distinct, Covered, Expired;
    if e.Resume? && (e.peerClosed || !UsesUndo(b.queue[e.at].ops) || Some(b.queue[e.at].actor.pid) in b.watchers) {
      NotLate(b, e.at, e.now, e.peerClosed);
    }
  }

  /** From an empty broker, every process with pending adjustments has exactly one watcher. */
  lemma NoOrphanedUndoFromStart(es: seq<Event>)
    requires Runs(Start(), es)
    ensures NeverLate(Start(), es) ==> NoOrphans(After(Start(), es))
    ensures PeersCloseAfterExit(Start(), es) ==> NeverLate(Start(), es)
  {
    hide NeverLate, PeersCloseAfterExit, AlwaysCovered, Runs, After;
    StartWatched();
    NoOrphanedUndo(Start(), es);
    if PeersCloseAfterExit(Start(), es) {
      ClosedPeersNeverLate(Start(), es);
    }
  }

  lemma StartWatched()
    ensures NoOrphans(Start()) && WatchersPositive(Start())
  {
  }
}
