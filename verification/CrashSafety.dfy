/** A semaphore used only with SEM_UNDO counts resources safely even when processes die. */
module CrashSafety {
  import opened Types
  import opened SemStore
  import opened StoreInvariant
  import opened StoreCalls
  import opened Conservation

  /** The units a process holds: what its exit would give back. */
  function Held(s: Store, pid: I32, id: I32, num: U16): int {
    Adj(s.undo, UndoKey(pid, id, num))
  }

  /** Value plus units held is `total`, and nobody holds a negative number of units. */
  ghost predicate Counted(s: Store, id: I32, num: U16, total: int) {
    && Valid(s) && HasSem(s, id, num)
    && Total(s, id, num) == total <= MAX_VALUE
    && forall pid: I32 :: Held(s, pid, id, num) >= 0
  }

  /** The event respects the discipline: every successful operation on the semaphore carries SEM_UNDO, no process
      releases more than it holds, and nobody rewrites or removes the semaphore. Calls that fail may do anything. */
  ghost predicate Disciplined(s: Store, e: StoreEvent, id: I32, num: U16)
    requires Valid(s)
  {
    match e
    case Perform(RemoveSet(i), _, _) => i != id
    case Perform(SetValue(i, n, v), a, now) => i != id || n != num || SetVal(s, i, n, v, a.pid, now).1 != 0
    case Perform(SetValues(i, vs), a, now) => i != id || SetAll(s, i, vs, a.pid, now).1 != 0
    case Perform(SemOps(i, ops, _), a, now) =>
      i == id && TryOp(s, i, ops, a.pid, now).1.result == 0 ==>
                 (forall k :: 0 <= k < |ops| && ops[k].num == num ==> Has(ops[k].flg, SEM_UNDO)) &&
                  Net(ops, num, false) <= Held(s, a.pid, id, num)
    case _ => true
  }

  ghost predicate DisciplinedRun(s: Store, es: seq<StoreEvent>, id: I32, num: U16)
    requires Valid(s)
    decreases |es|
  {
    es == [] || (Disciplined(s, es[0], id, num) && DisciplinedRun(Apply(s, es[0]), es[1..], id, num))
  }

  lemma {:induction false} NetAllUndo(ops: seq<SemOp>, num: int)
    requires forall k :: 0 <= k < |ops| && ops[k].num == num ==> Has(ops[k].flg, SEM_UNDO)
    ensures Net(ops, num, false) == Net(ops, num, true)
  {
    if ops != [] {
      NetAllUndo(ops[..|ops| - 1], num);
    }
  }

  lemma {:induction false} SumAtLeast(undo: map<UndoKey, I32>, keys: set<UndoKey>, some: set<UndoKey>)
    requires some <= keys <= undo.Keys
    requires forall k :: k in keys ==> undo[k] >= 0
    ensures Sum(undo, keys) >= Sum(undo, some) >= 0
    decreases |keys|
  {
    if keys != {} {
      var k :| k in keys;
      SumTake(undo, keys, k);
      if k in some {
        SumTake(undo, some, k);
      }
      SumAtLeast(undo, keys - {k}, some - {k});
      assert k !in some ==> some - {k} == some;
    }
  }

  /** No process holds more than the units not in the semaphore. */
  lemma HeldAtMost(s: Store, pid: I32, id: I32, num: U16, total: int)
    requires Counted(s, id, num, total)
    ensures 0 <= Held(s, pid, id, num) <= total - Value(s, id, num)
  {
    var k := UndoKey(pid, id, num);
    var keys := KeysOn(s.undo, id, num);
    forall q | q in keys
      ensures s.undo[q] >= 0
    {
      assert q == UndoKey(q.pid, id, num);
      assert Held(s, q.pid, id, num) == s.undo[q];
    }
    if k in s.undo {
      SumAtLeast(s.undo, keys, {k});
      SumTake(s.undo, {k}, k);
      assert {k} - {k} == {};
    } else {
      SumAtLeast(s.undo, keys, {});
    }
  }

  /** A process exit never clamps and keeps the total. */
  lemma ExitNeverClamps(s: Store, pid: I32, now: I64, id: I32, num: U16, total: int)
    requires Counted(s, id, num, total) && pid > 0
    ensures Valid(ProcessExit(s, pid, now).0) && HasSem(ProcessExit(s, pid, now).0, id, num)
    ensures Value(ProcessExit(s, pid, now).0, id, num) == Value(s, id, num) + Held(s, pid, id, num)
    ensures Total(ProcessExit(s, pid, now).0, id, num) == total
  {
    hide ProcessExit, Valid, HasSem, Total, Value;
    ValueRange(s, id, num);
    HeldAtMost(s, pid, id, num, total);
    ExitPointwise(s, pid, now, id, num);
    ExitConserves(s, pid, now, id, num);
  }

  /** A process exit returns exactly the units the process held, and leaves everyone else's. */
  lemma ExitReturnsUnits(s: Store, pid: I32, now: I64, id: I32, num: U16, total: int)
    requires Counted(s, id, num, total) && pid > 0
    ensures Counted(ProcessExit(s, pid, now).0, id, num, total)
    ensures Value(ProcessExit(s, pid, now).0, id, num) == Value(s, id, num) + Held(s, pid, id, num)
    ensures forall q: I32 :: Held(ProcessExit(s, pid, now).0, q, id, num) == if q == pid then 0 else Held(s, q, id, num)
  {
    hide ProcessExit, Valid, HasSem, Total, Value;
    ExitNeverClamps(s, pid, now, id, num, total);
    forall q: I32
      ensures Held(ProcessExit(s, pid, now).0, q, id, num) == if q == pid then 0 else Held(s, q, id, num)
      ensures Held(s, q, id, num) >= 0
    {
      ExitUndo(s, pid, now, UndoKey(q, id, num));
    }
  }

  lemma SemOpCounted(s: Store, id: I32, ops: seq<SemOp>, pid: I32, now: I64, other: I32, num: U16, total: int)
    requires Counted(s, other, num, total) && TryOp(s, id, ops, pid, now).1.result == 0
    requires other == id ==> Net(ops, num, false) == Net(ops, num, true) <= Held(s, pid, other, num)
    ensures Counted(TryOp(s, id, ops, pid, now).0, other, num, total)
  {
    hide TryOp, Valid, HasSem, Total, Value, Net;
    SemOpConserves(s, id, ops, pid, now, other, num);
    forall q: I32
      ensures Held(TryOp(s, id, ops, pid, now).0, q, other, num) >= 0
    {
      assert Held(s, q, other, num) >= 0;
    }
  }

  /** Calls other than operation lists leave the units of everyone alone. */
  lemma CallCounted(s: Store, c: Call, a: Actor, now: I64, id: I32, num: U16, total: int)
    requires Counted(s, id, num, total) && !c.SemOps? && Disciplined(s, Perform(c, a, now), id, num)
    ensures Counted(Exec(s, c, a, now).0, id, num, total)
  {
    hide Valid, HasSem, Total, Exec, SetVal, SetAll, TryOp;
    CountedValid(s, id, num, total);
    CallMoves(s, c, a, now, id, num);
    assert Balance(s, Perform(c, a, now), id, num, total) == total;
    forall pid: I32
      ensures Held(Exec(s, c, a, now).0, pid, id, num) == Held(s, pid, id, num)
    {
      CallHeld(s, c, a, now, UndoKey(pid, id, num));
    }
  }

  lemma CallHeld(s: Store, c: Call, a: Actor, now: I64, k: UndoKey)
    requires Valid(s) && !c.SemOps? && Disciplined(s, Perform(c, a, now), k.semid, k.semnum)
    ensures Adj(Exec(s, c, a, now).0.undo, k) == Adj(s.undo, k)
  {
    match c
    case SemGet(key, nsems, flags) => GetAsValid(s, key, nsems, flags, a.who, now);
    case SetMeta(i, uid, gid, mode) => SetMetadataValid(s, i, uid, gid, mode, a.who, now);
    case _ =>
  }

  lemma CountedValid(s: Store, id: I32, num: U16, total: int)
    requires Counted(s, id, num, total)
    ensures Valid(s) && HasSem(s, id, num)
  {
  }

  lemma EventCounted(s: Store, e: StoreEvent, id: I32, num: U16, total: int)
    requires Counted(s, id, num, total) && Disciplined(s, e, id, num)
    ensures Counted(Apply(s, e), id, num, total)
  {
    hide Counted, Valid, AdjustWaitCount, RestoredSets, HasSem, UndoVerdict, Simulate, UndoAfter, OpsOk;
    CountedValid(s, id, num, total);
    match e
    case Perform(c, a, now) =>
      if c.SemOps? {
        if TryOp(s, c.id, c.ops, a.pid, now).1.result == 0 {
          if c.id == id {
            NetAllUndo(c.ops, num);
          }
          SemOpCounted(s, c.id, c.ops, a.pid, now, id, num, total);
        }
      } else {
        CallCounted(s, c, a, now, id, num, total);
      }
    case Exited(pid, now) =>
      if pid > 0 {
        ExitReturnsUnits(s, pid, now, id, num, total);
      }
    case Count(i, n, zero, adjustment) => CountCounted(s, i, n, zero, adjustment, id, num, total);
  }

  lemma CountCounted(s: Store, i: I32, n: int, zero: bool, adjustment: int, id: I32, num: U16, total: int)
    requires Counted(s, id, num, total)
    ensures Counted(AdjustWaitCount(s, i, n, zero, adjustment).0, id, num, total)
  {
    hide Valid, AdjustWaitCount;
    var s' := AdjustWaitCount(s, i, n, zero, adjustment).0;
    AdjustWaitCountValid(s, i, n, zero, adjustment);
    SameUndoTotal(s, s', id, num);
    assert forall q: I32 :: Held(s', q, id, num) == Held(s, q, id, num);
  }

  /** In every state of every disciplined run, value plus units held stays what it was at the start. */
  lemma {:induction false} CrashSafe(s: Store, es: seq<StoreEvent>, id: I32, num: U16, total: int)
    requires Counted(s, id, num, total) && DisciplinedRun(s, es, id, num)
    ensures Counted(Run(s, es), id, num, total)
    decreases |es|
  {
    if es != [] {
      EventCounted(s, es[0], id, num, total);
      CrashSafe(Apply(s, es[0]), es[1..], id, num, total);
    }
  }

  /** SETVAL starts a count: right after it nobody holds anything. */
  lemma SetValCounts(s: Store, id: I32, num: U16, value: U32, pid: I32, now: I64)
    requires Valid(s) && SetVal(s, id, num, value, pid, now).1 == 0
    ensures Counted(SetVal(s, id, num, value, pid, now).0, id, num, value)
  {
    SetValResets(s, id, num, value, pid, now, id, num);
    assert forall q: I32 :: Held(SetVal(s, id, num, value, pid, now).0, q, id, num) == 0;
    hide Total, Valid, HasSem;
  }

  /** A binary semaphore under the discipline is a mutex: two processes that hold it are one process. */
  lemma MutualExclusion(s: Store, p: I32, q: I32, id: I32, num: U16)
    requires Counted(s, id, num, 1) && Held(s, p, id, num) > 0 && Held(s, q, id, num) > 0
    ensures p == q && Held(s, p, id, num) == 1 && Value(s, id, num) == 0
  {
    HeldAtMost(s, p, id, num, 1);
    assert Value(s, id, num) >= 0;
    assert p == q by {
      var two := {UndoKey(p, id, num), UndoKey(q, id, num)};
      forall k | k in KeysOn(s.undo, id, num)
        ensures s.undo[k] >= 0
      {
        assert k == UndoKey(k.pid, id, num) && Held(s, k.pid, id, num) == s.undo[k];
      }
      SumAtLeast(s.undo, KeysOn(s.undo, id, num), two);
      SumTake(s.undo, two, UndoKey(p, id, num));
      if p != q {
        SumTake(s.undo, two - {UndoKey(p, id, num)}, UndoKey(q, id, num));
      }
    }
  }
}
