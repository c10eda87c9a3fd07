/** Undo accounting: what a semaphore's value plus all pending adjustments does over a run. */
module Conservation {
  import opened Types
  import opened SemStore
  import opened StoreInvariant
  import opened StoreCalls
  import opened Sequential

  // ---- Sums over the undo map ----

  ghost function Sum(undo: map<UndoKey, I32>, keys: set<UndoKey>): int
    requires keys <= undo.Keys
  {
    if keys == {} then 0 else var k :| k in keys; undo[k] + Sum(undo, keys - {k})
  }

  /** The sum does not depend on the order in which entries are taken. */
  lemma {:induction false} SumTake(undo: map<UndoKey, I32>, keys: set<UndoKey>, k: UndoKey)
    requires keys <= undo.Keys && k in keys
    ensures Sum(undo, keys) == undo[k] + Sum(undo, keys - {k})
  {
    var first :| first in keys && Sum(undo, keys) == undo[first] + Sum(undo, keys - {first});
    if first != k {
      SumTake(undo, keys - {first}, k);
      SumTake(undo, keys - {k}, first);
      assert keys - {first} - {k} == keys - {k} - {first};
    }
  }

  lemma {:induction false} SumSame(undo: map<UndoKey, I32>, undo': map<UndoKey, I32>, keys: set<UndoKey>)
    requires keys <= undo.Keys && keys <= undo'.Keys
    requires forall k :: k in keys ==> undo[k] == undo'[k]
    ensures Sum(undo, keys) == Sum(undo', keys)
  {
    if keys != {} {
      var k :| k in keys;
      SumSame(undo, undo', keys - {k});
      SumTake(undo, keys, k);
      SumTake(undo', keys, k);
    }
  }

  function KeysOn(undo: map<UndoKey, I32>, id: I32, num: int): (r: set<UndoKey>) {
    set k | k in undo && k.semid == id && k.semnum == num
  }

  /** The sum of all processes' adjustments on one semaphore. */
  ghost function Pending(undo: map<UndoKey, I32>, id: I32, num: int): int {
    Sum(undo, KeysOn(undo, id, num))
  }

  /** Changing one process's adjustment on a semaphore changes the pending sum by the difference. */
  lemma PendingChange(undo: map<UndoKey, I32>, undo': map<UndoKey, I32>, id: I32, num: int, pid: I32)
    requires 0 <= num < 0x1_0000
    requires forall k: UndoKey :: k.semid == id && k.semnum == num && k.pid != pid ==> Adj(undo', k) == Adj(undo, k)
    requires forall k :: k in undo ==> undo[k] != 0
    requires forall k :: k in undo' ==> undo'[k] != 0
    ensures Pending(undo', id, num) - Pending(undo, id, num) ==
            Adj(undo', UndoKey(pid, id, num)) - Adj(undo, UndoKey(pid, id, num))
  {
    var k := UndoKey(pid, id, num);
    var rest := KeysOn(undo, id, num) - {k};
    assert rest == KeysOn(undo', id, num) - {k} by {
      forall q: UndoKey | q.semid == id && q.semnum == num && q.pid != pid
        ensures q in undo <==> q in undo'
      {
        assert Adj(undo, q) == Adj(undo', q);
      }
      assert forall q :: q in rest ==> q.pid != pid;
    }
    forall q | q in rest
      ensures undo[q] == undo'[q]
    {
      assert Adj(undo, q) == Adj(undo', q);
    }
    SumSame(undo, undo', rest);
    if k in undo {
      SumTake(undo, KeysOn(undo, id, num), k);
    } else {
      assert rest == KeysOn(undo, id, num);
    }
    if k in undo' {
      SumTake(undo', KeysOn(undo', id, num), k);
    } else {
      assert rest == KeysOn(undo', id, num);
    }
  }

  // ---- The total of one semaphore, step by step ----

  /** The value a semaphore would have if every process holding undo adjustments exited without clamping. */
  ghost function Total(s: Store, id: I32, num: int): int
    requires Valid(s) && HasSem(s, id, num)
  {
    Value(s, id, num) + Pending(s.undo, id, num)
  }

  lemma UndoAfterAdj(s: Store, id: I32, ops: seq<SemOp>, pid: I32, k: UndoKey)
    requires Valid(s) && Live(s, id) && OpsOk(ops, SetOf(s, id).nsems)
    requires UndoVerdict(s.undo, id, ops, pid, SetOf(s, id).nsems) == 0
    ensures Adj(UndoAfter(s.undo, id, ops, pid, SetOf(s, id).nsems), k) == AdjAfter(s.undo, k, id, ops, pid)
  {
    var nsems := SetOf(s, id).nsems;
    UndoAfterInRange(s.undo, id, ops, pid, nsems);
    if k !in s.undo && k.pid == pid && k.semid == id {
      assert k == UndoKey(pid, id, k.semnum);
      if k.semnum >= nsems {
        NetZero(ops, k.semnum, true, nsems);
      }
    }
  }

  /** A successful list changes the total of each semaphore by exactly its operations without SEM_UNDO, and
      the caller's adjustment by minus its operations with SEM_UNDO. Other sets and other callers keep theirs. */
  lemma SemOpConserves(s: Store, id: I32, ops: seq<SemOp>, pid: I32, now: I64, other: I32, num: U16)
    requires Valid(s) && HasSem(s, other, num) && TryOp(s, id, ops, pid, now).1.result == 0
    ensures Valid(TryOp(s, id, ops, pid, now).0) && HasSem(TryOp(s, id, ops, pid, now).0, other, num)
    ensures Total(TryOp(s, id, ops, pid, now).0, other, num) ==
            Total(s, other, num) + if other == id then Net(ops, num, false) - Net(ops, num, true) else 0
    ensures forall q: I32 :: Adj(TryOp(s, id, ops, pid, now).0.undo, UndoKey(q, other, num)) ==
                             Adj(s.undo, UndoKey(q, other, num)) - if q == pid && other == id then Net(ops, num, true) else 0
    ensures Value(TryOp(s, id, ops, pid, now).0, other, num) ==
            Value(s, other, num) + if other == id then Net(ops, num, false) else 0
  {
    hide Valid, Total, Net, TryOp, HasSem, Value, Adj, Live, SetOf;
    var s' := TryOp(s, id, ops, pid, now).0;
    TryOpValid(s, id, ops, pid, now);
    SemOpValue(s, id, ops, pid, now, other, num);
    SemOpPending(s, id, ops, pid, now, other, num);
    TotalIs(s, other, num);
    TotalIs(s', other, num);
  }

  lemma TotalIs(s: Store, id: I32, num: int)
    requires Valid(s) && HasSem(s, id, num)
    ensures Total(s, id, num) == Value(s, id, num) + Pending(s.undo, id, num)
  {
  }

  lemma SemOpValue(s: Store, id: I32, ops: seq<SemOp>, pid: I32, now: I64, other: I32, num: U16)
    requires Valid(s) && HasSem(s, other, num) && TryOp(s, id, ops, pid, now).1.result == 0
    ensures Valid(TryOp(s, id, ops, pid, now).0) && HasSem(TryOp(s, id, ops, pid, now).0, other, num)
    ensures Value(TryOp(s, id, ops, pid, now).0, other, num) ==
            Value(s, other, num) + if other == id then Net(ops, num, false) else 0
  {
    hide Valid, UndoVerdict, UndoAfter, OpsOk, Simulate, Net, SetPids, EnabledBefore;
    ValidFacts(s);
    var s' := TryOp(s, id, ops, pid, now).0;
    TryOpValid(s, id, ops, pid, now);
    TryOpSequential(s, id, ops, pid, now);
    PutSetFrame(s, id, SetOf(s', id), other);
  }

  lemma SemOpPending(s: Store, id: I32, ops: seq<SemOp>, pid: I32, now: I64, other: I32, num: U16)
    requires Valid(s) && HasSem(s, other, num) && TryOp(s, id, ops, pid, now).1.result == 0
    ensures Pending(TryOp(s, id, ops, pid, now).0.undo, other, num) ==
            Pending(s.undo, other, num) - if other == id then Net(ops, num, true) else 0
    ensures forall q: I32 :: Adj(TryOp(s, id, ops, pid, now).0.undo, UndoKey(q, other, num)) ==
                             Adj(s.undo, UndoKey(q, other, num)) - if q == pid && other == id then Net(ops, num, true) else 0
  {
    hide Valid, TryOp, Net, Adj, Pending, HasSem, Live;
    var undo' := TryOp(s, id, ops, pid, now).0.undo;
    SemOpUndo(s, id, ops, pid, now);
    TryOpValid(s, id, ops, pid, now);
    ValidFacts(s);
    ValidFacts(TryOp(s, id, ops, pid, now).0);
    PendingChange(s.undo, undo', other, num, pid);
  }

  lemma SemOpUndo(s: Store, id: I32, ops: seq<SemOp>, pid: I32, now: I64)
    requires Valid(s) && TryOp(s, id, ops, pid, now).1.result == 0
    ensures forall k :: Adj(TryOp(s, id, ops, pid, now).0.undo, k) == AdjAfter(s.undo, k, id, ops, pid)
  {
    forall k
      ensures Adj(TryOp(s, id, ops, pid, now).0.undo, k) == AdjAfter(s.undo, k, id, ops, pid)
    {
      UndoAfterAdj(s, id, ops, pid, k);
    }
  }

  /** Exit moves the dead process's adjustment into the value; the total changes by what clamping cuts off. */
  lemma ExitConserves(s: Store, pid: I32, now: I64, id: I32, num: U16)
    requires Valid(s) && HasSem(s, id, num) && pid > 0
    ensures Valid(ProcessExit(s, pid, now).0) && HasSem(ProcessExit(s, pid, now).0, id, num)
    ensures var raw := Value(s, id, num) + Adj(s.undo, UndoKey(pid, id, num));
            Total(ProcessExit(s, pid, now).0, id, num) - Total(s, id, num) == Clamp(raw) - raw
    ensures Total(ProcessExit(s, pid, now).0, id, num) == Total(s, id, num) <==>
            0 <= Value(s, id, num) + Adj(s.undo, UndoKey(pid, id, num)) <= MAX_VALUE
  {
    var s' := ProcessExit(s, pid, now).0;
    ExitPointwise(s, pid, now, id, num);
    forall k {
      ExitUndo(s, pid, now, k);
    }
    ValidFacts(s);
    ValidFacts(s');
    hide ProcessExit, Valid, HasSem;
    PendingChange(s.undo, s'.undo, id, num, pid);
  }

  /** Dropping the adjustments of some semaphores leaves the pending sums of the others. */
  lemma ClearedPending(undo: map<UndoKey, I32>, id: I32, num: Option<int>, other: I32, n: U16)
    ensures Pending(Cleared(undo, id, num), other, n) ==
            if other == id && (num.None? || num.value == n) then 0 else Pending(undo, other, n)
  {
    var undo' := Cleared(undo, id, num);
    if other == id && (num.None? || num.value == n) {
      assert KeysOn(undo', other, n) == {};
    } else {
      assert KeysOn(undo', other, n) == KeysOn(undo, other, n);
      SumSame(undo, undo', KeysOn(undo, other, n));
    }
  }

  /** Writing a value resets the total of that semaphore to it and drops its adjustments. */
  lemma SetValResets(s: Store, id: I32, num: int, value: U32, pid: I32, now: I64, other: I32, n: U16)
    requires Valid(s) && HasSem(s, other, n) && SetVal(s, id, num, value, pid, now).1 == 0
    ensures Valid(SetVal(s, id, num, value, pid, now).0) && HasSem(SetVal(s, id, num, value, pid, now).0, other, n)
    ensures Total(SetVal(s, id, num, value, pid, now).0, other, n) ==
            if other == id && n == num then value else Total(s, other, n)
  {
    hide Valid, Total, Pending, Value, HasSem, SetVal, Cleared;
    var s' := SetVal(s, id, num, value, pid, now).0;
    SetValEffect(s, id, num, value, pid, now, other, n);
    ClearedPending(s.undo, id, Some(num), other, n);
    TotalIs(s, other, n);
    TotalIs(s', other, n);
  }

  lemma SetValEffect(s: Store, id: I32, num: int, value: U32, pid: I32, now: I64, other: I32, n: U16)
    requires Valid(s) && HasSem(s, other, n) && SetVal(s, id, num, value, pid, now).1 == 0
    ensures Valid(SetVal(s, id, num, value, pid, now).0) && HasSem(SetVal(s, id, num, value, pid, now).0, other, n)
    ensures Value(SetVal(s, id, num, value, pid, now).0, other, n) ==
            if other == id && n == num then value else Value(s, other, n)
    ensures SetVal(s, id, num, value, pid, now).0.undo == Cleared(s.undo, id, Some(num))
  {
    hide Cleared;
    SetValValid(s, id, num, value, pid, now);
    PutSetFrame(s, id, SetOf(SetVal(s, id, num, value, pid, now).0, id), other);
  }

  lemma SetAllResets(s: Store, id: I32, values: seq<U16>, pid: I32, now: I64, other: I32, n: U16)
    requires Valid(s) && HasSem(s, other, n) && SetAll(s, id, values, pid, now).1 == 0
    ensures Valid(SetAll(s, id, values, pid, now).0) && HasSem(SetAll(s, id, values, pid, now).0, other, n)
    ensures Total(SetAll(s, id, values, pid, now).0, other, n) ==
            if other == id && n < |values| then values[n] else Total(s, other, n)
  {
    hide Valid, Total, Pending, Value, HasSem, SetAll, Cleared;
    SetAllEffect(s, id, values, pid, now, other, n);
    ClearedPending(s.undo, id, None, other, n);
    TotalIs(s, other, n);
    TotalIs(SetAll(s, id, values, pid, now).0, other, n);
  }

  lemma SetAllEffect(s: Store, id: I32, values: seq<U16>, pid: I32, now: I64, other: I32, n: U16)
    requires Valid(s) && HasSem(s, other, n) && SetAll(s, id, values, pid, now).1 == 0
    ensures Valid(SetAll(s, id, values, pid, now).0) && HasSem(SetAll(s, id, values, pid, now).0, other, n)
    ensures other == id ==> n < |values|
    ensures Value(SetAll(s, id, values, pid, now).0, other, n) == if other == id then values[n] else Value(s, other, n)
    ensures SetAll(s, id, values, pid, now).0.undo == Cleared(s.undo, id, None)
  {
    hide Valid, Cleared;
    ValidFacts(s);
    SetAllValid(s, id, values, pid, now);
    PutSetFrame(s, id, SetOf(SetAll(s, id, values, pid, now).0, id), other);
  }

  // ---- Over runs ----

  /** The value an event writes over a semaphore, if it does. */
  ghost function Written(s: Store, e: StoreEvent, id: I32, num: U16): Option<int>
    requires Valid(s)
  {
    match e
    case Perform(SetValue(i, n, v), a, now) =>
      if i == id && n == num && SetVal(s, i, n, v, a.pid, now).1 == 0 then Some(v) else None
    case Perform(SetValues(i, vs), a, now) =>
      if i == id && num < |vs| && SetAll(s, i, vs, a.pid, now).1 == 0 then Some(vs[num]) else None
    case _ => None
  }

  /** What clamping adds to a semaphore when an exit restores it; zero when the restored value is in range. */
  ghost function Clipped(s: Store, e: StoreEvent, id: I32, num: U16): int
    requires Valid(s) && HasSem(s, id, num)
  {
    match e
    case Exited(pid, _) =>
      var raw := Value(s, id, num) + Adj(s.undo, UndoKey(pid, id, num));
      if pid > 0 then Clamp(raw) - raw else 0
    case _ => 0
  }

  /** The operations without SEM_UNDO that an event applies to a semaphore. */
  ghost function Plain(s: Store, e: StoreEvent, id: I32, num: U16): int
    requires Valid(s)
  {
    match e
    case Perform(SemOps(i, ops, _), a, now) =>
      if i == id && TryOp(s, i, ops, a.pid, now).1.result == 0 then Net(ops, num, false) - Net(ops, num, true) else 0
    case _ => 0
  }

  lemma SameUndoTotal(s: Store, s': Store, id: I32, num: U16)
    requires Valid(s) && Valid(s') && HasSem(s, id, num) && HasSem(s', id, num)
    requires Value(s', id, num) == Value(s, id, num)
    requires forall k: UndoKey :: k.semid == id ==> (k in s.undo <==> k in s'.undo) && (k in s.undo ==> s.undo[k] == s'.undo[k])
    ensures Total(s', id, num) == Total(s, id, num)
  {
    assert KeysOn(s'.undo, id, num) == KeysOn(s.undo, id, num);
    SumSame(s.undo, s'.undo, KeysOn(s.undo, id, num));
  }

  /** The semaphore survives a change of the store, and its total moves by `delta`. */
  ghost predicate Moves(s: Store, s': Store, id: I32, num: U16, delta: int) {
    && Valid(s) && Valid(s') && HasSem(s, id, num) && HasSem(s', id, num)
    && Total(s', id, num) == Total(s, id, num) + delta
  }

  lemma KeepsOthers(s: Store, c: Call, a: Actor, now: I64, id: I32, num: U16)
    requires Valid(s) && HasSem(s, id, num)
    requires c.SemGet? || c.SetMeta? || (c.RemoveSet? && c.id != id)
    ensures Moves(s, Exec(s, c, a, now).0, id, num, 0)
  {
    hide Valid, GetAs, SetMetadata, Total;
    ValidFacts(s);
    match c {
      case SemGet(key, nsems, flags) => GetAsValid(s, key, nsems, flags, a.who, now);
      case SetMeta(i, uid, gid, mode) => SetMetadataValid(s, i, uid, gid, mode, a.who, now);
      case RemoveSet(i) => RemoveValid(s, i);
    }
    ValidFacts(Exec(s, c, a, now).0);
    SameUndoTotal(s, Exec(s, c, a, now).0, id, num);
  }

  /** The total of a semaphore after an event, from the total before it. */
  ghost function Balance(s: Store, e: StoreEvent, id: I32, num: U16, total: int): int
    requires Valid(s) && HasSem(s, id, num)
  {
    if Written(s, e, id, num).Some? then Written(s, e, id, num).value
    else total + Plain(s, e, id, num) + Clipped(s, e, id, num)
  }

  lemma CallMoves(s: Store, c: Call, a: Actor, now: I64, id: I32, num: U16)
    requires Valid(s) && HasSem(s, id, num) && c != RemoveSet(id)
    ensures Moves(s, Exec(s, c, a, now).0, id, num, Balance(s, Perform(c, a, now), id, num, Total(s, id, num)) - Total(s, id, num))
  {
    hide Valid, HasSem, Value, Total, TryOp, SetVal, SetAll, GetAs, Remove, SetMetadata, Net;
    match c
    case SetValue(i, n, v) =>
      if SetVal(s, i, n, v, a.pid, now).1 == 0 {
        SetValResets(s, i, n, v, a.pid, now, id, num);
      }
      SetFailed(s, c, a, now);
    case SetValues(i, vs) =>
      if SetAll(s, i, vs, a.pid, now).1 == 0 {
        SetAllResets(s, i, vs, a.pid, now, id, num);
      }
      SetFailed(s, c, a, now);
    case SemOps(i, ops, _) =>
      TryOpAtomic(s, i, ops, a.pid, now);
      if TryOp(s, i, ops, a.pid, now).1.result == 0 {
        SemOpConserves(s, i, ops, a.pid, now, id, num);
      }
    case SemGet(_, _, _) => KeepsOthers(s, c, a, now, id, num);
    case SetMeta(_, _, _, _) => KeepsOthers(s, c, a, now, id, num);
    case RemoveSet(_) => KeepsOthers(s, c, a, now, id, num);
    case _ =>
  }

  lemma SetFailed(s: Store, c: Call, a: Actor, now: I64)
    requires Valid(s) && (c.SetValue? || c.SetValues?)
    ensures Exec(s, c, a, now).1.result != 0 ==> Exec(s, c, a, now).0 == s
    ensures c.SetValue? && c.value > MAX_VALUE ==> Exec(s, c, a, now).1.result != 0
  {
    hide Valid, Cleared;
  }

  /** Every event other than its removal keeps the semaphore. A write sets its total to the value written; any other
      event moves it by exactly the operations without SEM_UNDO and by what clamping adds. */
  lemma EventConserves(s: Store, e: StoreEvent, id: I32, num: U16)
    requires Valid(s) && HasSem(s, id, num) && (e.Perform? ==> e.call != RemoveSet(id))
    ensures HasSem(Apply(s, e), id, num)
    ensures Total(Apply(s, e), id, num) == Balance(s, e, id, num, Total(s, id, num))
  {
    hide Valid, Exec, AdjustWaitCount, ProcessExit, Total;
    match e
    case Perform(c, a, now) => CallMoves(s, c, a, now, id, num);
    case Exited(pid, now) =>
      if pid > 0 {
        ExitConserves(s, pid, now, id, num);
      } else {
        NoProcess(s, pid, now);
      }
    case Count(i, n, zero, adjustment) =>
      ValidFacts(s);
      AdjustWaitCountValid(s, i, n, zero, adjustment);
      SameUndoTotal(s, AdjustWaitCount(s, i, n, zero, adjustment).0, id, num);
  }

  lemma NoProcess(s: Store, pid: I32, now: I64)
    requires Valid(s) && pid <= 0
    ensures ProcessExit(s, pid, now).0 == s
  {
  }

  /** The total carried through a run, event by event. */
  ghost function Ledger(s: Store, es: seq<StoreEvent>, id: I32, num: U16, total: int): int
    requires Valid(s) && HasSem(s, id, num) && NeverRemoved(es, id)
    decreases |es|
  {
    if es == [] then total
    else
      EventConserves(s, es[0], id, num);
      Ledger(Apply(s, es[0]), es[1..], id, num, Balance(s, es[0], id, num, total))
  }

  /** Over every run that does not remove the set, value plus all pending adjustments is what the ledger says: the last
      value written, or the initial total, moved since by exactly the plain operations and by clamping. */
  lemma {:induction false} RunConserves(s: Store, es: seq<StoreEvent>, id: I32, num: U16)
    requires Valid(s) && HasSem(s, id, num) && NeverRemoved(es, id)
    ensures HasSem(Run(s, es), id, num)
    ensures Total(Run(s, es), id, num) == Ledger(s, es, id, num, Total(s, id, num))
    decreases |es|
  {
    hide Valid, HasSem, Total, Apply, Balance;
    if es != [] {
      EventConserves(s, es[0], id, num);
      RunConserves(Apply(s, es[0]), es[1..], id, num);
    }
  }

  /** No event of the run writes over the semaphore. */
  ghost predicate Unwritten(s: Store, es: seq<StoreEvent>, id: I32, num: U16)
    requires Valid(s)
    decreases |es|
  {
    es == [] || (Written(s, es[0], id, num).None? && Unwritten(Apply(s, es[0]), es[1..], id, num))
  }

  /** All plain operations and all clamping of a run, added up. */
  ghost function MovedSum(s: Store, es: seq<StoreEvent>, id: I32, num: U16): int
    requires Valid(s) && HasSem(s, id, num) && NeverRemoved(es, id)
    decreases |es|
  {
    if es == [] then 0
    else
      EventConserves(s, es[0], id, num);
      Plain(s, es[0], id, num) + Clipped(s, es[0], id, num) + MovedSum(Apply(s, es[0]), es[1..], id, num)
  }

  /** While nobody writes over the semaphore the ledger is the initial total plus that sum. */
  lemma {:induction false} UnwrittenLedger(s: Store, es: seq<StoreEvent>, id: I32, num: U16, total: int)
    requires Valid(s) && HasSem(s, id, num) && NeverRemoved(es, id) && Unwritten(s, es, id, num)
    ensures Ledger(s, es, id, num, total) == total + MovedSum(s, es, id, num)
    decreases |es|
  {
    hide Valid, HasSem, Apply, Plain, Clipped, Written;
    if es != [] {
      EventConserves(s, es[0], id, num);
      UnwrittenLedger(Apply(s, es[0]), es[1..], id, num, Balance(s, es[0], id, num, total));
    }
  }
}
