/** What GETVAL, GETPID and STAT tell after any event, and after any run. */
module Observed {
  import opened Types
  import opened SemStore
  import opened StoreInvariant
  import opened StoreCalls
  import opened Conservation
  import opened Answers

  /** The event is a call that was answered with zero. */
  ghost predicate Succeeds(s: Store, e: StoreEvent)
    requires Valid(s)
  {
    e.Perform? && Exec(s, e.call, e.actor, e.now).1.result == 0
  }

  /** Some operation of the list is on the semaphore. */
  predicate Names(ops: seq<SemOp>, num: int) {
    exists i :: 0 <= i < |ops| && ops[i].num == num
  }

  ghost predicate NotRemovalOf(e: StoreEvent, id: I32) {
    e.Perform? ==> e.call != RemoveSet(id)
  }

  /** The value of a semaphore after an event. */
  ghost function NextValue(s: Store, e: StoreEvent, id: I32, num: U16): int
    requires Valid(s) && HasSem(s, id, num)
  {
    var v := Value(s, id, num);
    match e
    case Perform(SetValue(i, n, x), _, _) => if i == id && n == num && Succeeds(s, e) then x else v
    case Perform(SetValues(i, xs), _, _) => if i == id && num < |xs| && Succeeds(s, e) then xs[num] else v
    case Perform(SemOps(i, ops, _), _, _) => if i == id && Succeeds(s, e) then v + Net(ops, num, false) else v
    case Exited(pid, _) =>
      var raw := v + Adj(s.undo, UndoKey(pid, id, num));
      if pid <= 0 then v else if raw < 0 then 0 else if raw > 32767 then 32767 else raw
    case _ => v
  }

  /** The process that an event makes the last one to have changed a semaphore, if it does. */
  ghost function Toucher(s: Store, e: StoreEvent, id: I32, num: U16): Option<I32>
    requires Valid(s)
  {
    match e
    case Perform(SetValue(i, n, _), a, _) => if i == id && n == num && Succeeds(s, e) then Some(a.pid) else None
    case Perform(SetValues(i, _), a, _) => if i == id && Succeeds(s, e) then Some(a.pid) else None
    case Perform(SemOps(i, ops, _), a, _) => if i == id && Succeeds(s, e) && Names(ops, num) then Some(a.pid) else None
    case Exited(pid, _) => if pid > 0 && UndoKey(pid, id, num) in s.undo then Some(pid) else None
    case _ => None
  }

  ghost function LastPid(s: Store, id: I32, num: int): int
    requires Valid(s) && HasSem(s, id, num)
  {
    SetOf(s, id).lastPids[num]
  }

  // ---- One event ----

  /** GETVAL after any event that does not remove the set. */
  lemma EventValue(s: Store, e: StoreEvent, id: I32, num: U16, a: Actor, now: I64)
    requires Valid(s) && HasSem(s, id, num) && NotRemovalOf(e, id)
    ensures HasSem(Apply(s, e), id, num)
    ensures Exec(Apply(s, e), GetValue(id, num), a, now).1.result == NextValue(s, e, id, num)
  {
    hide Valid, Exec, HasSem, Value, NextValue, Apply, Total, Balance;
    ValidFacts(s);
    EventConserves(s, e, id, num);
    ValueAfter(s, e, id, num);
    ReadAnswers(Apply(s, e), GetValue(id, num), a, now);
  }

  lemma ValueAfter(s: Store, e: StoreEvent, id: I32, num: U16)
    requires Valid(s) && HasSem(s, id, num) && HasSem(Apply(s, e), id, num) && NotRemovalOf(e, id)
    ensures Value(Apply(s, e), id, num) == NextValue(s, e, id, num)
  {
    hide Valid, TryOp, SetVal, SetAll, GetAs, Remove, SetMetadata, AdjustWaitCount, ProcessExit, Net, Value, HasSem;
    ValidFacts(s);
    match e
    case Perform(c, a, now) => CallValue(s, c, a, now, id, num);
    case Exited(pid, now) =>
      if pid > 0 {
        ExitPointwise(s, pid, now, id, num);
      } else {
        NoProcess(s, pid, now);
      }
    case Count(i, n, zero, adjustment) => CountValue(s, i, n, zero, adjustment, id, num);
  }

  lemma CountValue(s: Store, i: I32, n: int, zero: bool, adjustment: int, id: I32, num: U16)
    requires Valid(s) && HasSem(s, id, num)
    ensures Valid(AdjustWaitCount(s, i, n, zero, adjustment).0) && HasSem(AdjustWaitCount(s, i, n, zero, adjustment).0, id, num)
    ensures Value(AdjustWaitCount(s, i, n, zero, adjustment).0, id, num) == Value(s, id, num)
  {
    hide Valid, AdjustWaitCount;
    ValidFacts(s);
    AdjustWaitCountValid(s, i, n, zero, adjustment);
    ValidFacts(AdjustWaitCount(s, i, n, zero, adjustment).0);
  }

  lemma CallValue(s: Store, c: Call, a: Actor, now: I64, id: I32, num: U16)
    requires Valid(s) && HasSem(s, id, num) && c != RemoveSet(id)
    ensures Valid(Exec(s, c, a, now).0) && HasSem(Exec(s, c, a, now).0, id, num)
    ensures Value(Exec(s, c, a, now).0, id, num) == NextValue(s, Perform(c, a, now), id, num)
  {
    hide Valid, TryOp, SetVal, SetAll, GetAs, Remove, SetMetadata, Net;
    ValidFacts(s);
    ExecValid(s, c, a, now);
    ValidFacts(Exec(s, c, a, now).0);
    match c
    case SetValue(i, n, x) => SetValAnswers(s, i, n, x, a, now);
    case SetValues(i, xs) => SetAllAnswers(s, i, xs, a, now);
    case SemOps(i, ops, _) =>
      TryOpAtomic(s, i, ops, a.pid, now);
      if TryOp(s, i, ops, a.pid, now).1.result == 0 {
        SemOpValue(s, i, ops, a.pid, now, id, num);
      }
    case SemGet(key, nsems, flags) => GetAsValid(s, key, nsems, flags, a.who, now);
    case SetMeta(i, uid, gid, mode) => SetMetadataValid(s, i, uid, gid, mode, a.who, now);
    case RemoveSet(i) => RemoveValid(s, i);
    case _ =>
  }

  /** GETPID after any event that does not remove the set. */
  lemma EventPid(s: Store, e: StoreEvent, id: I32, num: U16)
    requires Valid(s) && HasSem(s, id, num) && NotRemovalOf(e, id)
    ensures HasSem(Apply(s, e), id, num)
    ensures LastPid(Apply(s, e), id, num) ==
            if Toucher(s, e, id, num).Some? then Toucher(s, e, id, num).value else LastPid(s, id, num)
  {
    hide Valid, HasSem, LastPid, TryOp, SetVal, SetAll, GetAs, Remove, SetMetadata, AdjustWaitCount, ProcessExit, Names, Total, Balance;
    ValidFacts(s);
    EventConserves(s, e, id, num);
    match e
    case Perform(c, a, now) => CallPid(s, c, a, now, id, num);
    case Exited(pid, now) => ExitPid(s, pid, now, id, num);
    case Count(i, n, zero, adjustment) => CountPid(s, i, n, zero, adjustment, id, num);
  }

  lemma CountPid(s: Store, i: I32, n: int, zero: bool, adjustment: int, id: I32, num: U16)
    requires Valid(s) && HasSem(s, id, num)
    ensures Valid(AdjustWaitCount(s, i, n, zero, adjustment).0) && HasSem(AdjustWaitCount(s, i, n, zero, adjustment).0, id, num)
    ensures LastPid(AdjustWaitCount(s, i, n, zero, adjustment).0, id, num) == LastPid(s, id, num)
  {
    hide Valid;
    ValidFacts(s);
    var (s', r) := AdjustWaitCount(s, i, n, zero, adjustment);
    AdjustWaitCountValid(s, i, n, zero, adjustment);
    if Live(s, i) {
      LiveFacts(s, i);
    }
    if s' != s {
      PutSetFrame(s, i, SetOf(s', i), id);
    }
  }

  lemma ExitPid(s: Store, pid: I32, now: I64, id: I32, num: U16)
    requires Valid(s) && HasSem(s, id, num)
    ensures Valid(ProcessExit(s, pid, now).0) && |ProcessExit(s, pid, now).0.sets| == MAX_SETS && HasSem(ProcessExit(s, pid, now).0, id, num)
    ensures LastPid(ProcessExit(s, pid, now).0, id, num) ==
            if pid > 0 && UndoKey(pid, id, num) in s.undo then pid else LastPid(s, id, num)
  {
    ExitValid(s, pid, now);
    if pid > 0 {
      ExitSetOf(s, pid, now, id);
      var t := SetOf(s, id);
      RestoredPid(t, Slot(s, id), s.undo, pid, now, num);
    }
  }

  lemma RestoredPid(t: SemSet, index: nat, undo: map<UndoKey, I32>, pid: I32, now: I64, num: U16)
    requires index < MAX_SETS && SetValid(t) && t.active && num < t.nsems
    ensures var t' := Restored(t, index, undo, KeysOfPid(undo, pid), pid, now);
            |t'.lastPids| == t.nsems &&
            t'.lastPids[num] == if UndoKey(pid, MakeId(index, t.generation), num) in undo then pid else t.lastPids[num]
  {
    assert UndoKey(pid, MakeId(index, t.generation), num) in undo <==>
           UndoKey(pid, MakeId(index, t.generation), num) in KeysOfPid(undo, pid);
  }

  lemma CallPid(s: Store, c: Call, a: Actor, now: I64, id: I32, num: U16)
    requires Valid(s) && HasSem(s, id, num) && c != RemoveSet(id)
    ensures Valid(Exec(s, c, a, now).0) && HasSem(Exec(s, c, a, now).0, id, num)
    ensures var t := Toucher(s, Perform(c, a, now), id, num);
            LastPid(Exec(s, c, a, now).0, id, num) == if t.Some? then t.value else LastPid(s, id, num)
  {
    hide Valid, TryOp, SetVal, SetAll, GetAs, Remove, SetMetadata, Names;
    ValidFacts(s);
    LiveFacts(s, id);
    ExecValid(s, c, a, now);
    ValidFacts(Exec(s, c, a, now).0);
    match c
    case SetValue(i, n, x) => SetValAnswers(s, i, n, x, a, now);
    case SetValues(i, xs) => SetAllAnswers(s, i, xs, a, now);
    case SemOps(i, ops, _) => SemOpPid(s, i, ops, a.pid, now, id, num);
    case SemGet(key, nsems, flags) => GetAsValid(s, key, nsems, flags, a.who, now);
    case SetMeta(i, uid, gid, mode) => SetMetaAnswers(s, i, uid, gid, mode, a, now);
    case RemoveSet(i) => RemoveValid(s, i);
    case _ =>
  }

  lemma SemOpPid(s: Store, i: I32, ops: seq<SemOp>, pid: I32, now: I64, id: I32, num: U16)
    requires Valid(s) && HasSem(s, id, num)
    ensures Valid(TryOp(s, i, ops, pid, now).0) && |TryOp(s, i, ops, pid, now).0.sets| == MAX_SETS && HasSem(TryOp(s, i, ops, pid, now).0, id, num)
    ensures LastPid(TryOp(s, i, ops, pid, now).0, id, num) ==
            if TryOp(s, i, ops, pid, now).1.result == 0 && i == id && Names(ops, num) then pid else LastPid(s, id, num)
  {
    hide Valid, Simulate, UndoVerdict, UndoAfter, OpsOk;
    ValidFacts(s);
    LiveFacts(s, id);
    TryOpValid(s, i, ops, pid, now);
    var s' := TryOp(s, i, ops, pid, now).0;
    if TryOp(s, i, ops, pid, now).1.result == 0 {
      PutSetFrame(s, i, SetOf(s', i), id);
    }
  }

  /** The times STAT tells: sem_otime moves with successful lists and with exits that restore something in the set,
      sem_ctime with everything else that changes the set on purpose. */
  lemma EventTimes(s: Store, e: StoreEvent, id: I32)
    requires Valid(s) && |s.sets| == MAX_SETS && Live(s, id) && NotRemovalOf(e, id)
    ensures |Apply(s, e).sets| == MAX_SETS && Live(Apply(s, e), id)
    ensures SetOf(Apply(s, e), id).otime ==
            if e.Perform? && e.call.SemOps? && e.call.id == id && Succeeds(s, e) then e.now
            else if e.Exited? && e.pid > 0 && (exists n: U16 :: UndoKey(e.pid, id, n) in s.undo) then e.now
            else SetOf(s, id).otime
    ensures SetOf(Apply(s, e), id).ctime ==
            if e.Perform? && (e.call.SetValue? || e.call.SetValues? || e.call.SetMeta?) && e.call.id == id && Succeeds(s, e) then e.now
            else SetOf(s, id).ctime
  {
    hide Valid, TryOp, SetVal, SetAll, GetAs, Remove, SetMetadata, AdjustWaitCount, ProcessExit;
    match e
    case Perform(c, a, now) => CallTimes(s, c, a, now, id);
    case Exited(pid, now) => ExitTimes(s, pid, now, id);
    case Count(i, n, zero, adjustment) => CountTimes(s, i, n, zero, adjustment, id);
  }

  lemma CountTimes(s: Store, i: I32, n: int, zero: bool, adjustment: int, id: I32)
    requires Valid(s) && |s.sets| == MAX_SETS && Live(s, id)
    ensures var s' := AdjustWaitCount(s, i, n, zero, adjustment).0;
            |s'.sets| == MAX_SETS && Live(s', id) && SetOf(s', id).otime == SetOf(s, id).otime && SetOf(s', id).ctime == SetOf(s, id).ctime
  {
    hide Valid;
    var s' := AdjustWaitCount(s, i, n, zero, adjustment).0;
    if s' != s {
      PutSetFrame(s, i, SetOf(s', i), id);
    }
  }

  lemma ExitTimes(s: Store, pid: I32, now: I64, id: I32)
    requires Valid(s) && |s.sets| == MAX_SETS && Live(s, id)
    ensures var s' := ProcessExit(s, pid, now).0;
            && |s'.sets| == MAX_SETS && Live(s', id) && SetOf(s', id).ctime == SetOf(s, id).ctime
            && SetOf(s', id).otime == if pid > 0 && (exists n: U16 :: UndoKey(pid, id, n) in s.undo) then now else SetOf(s, id).otime
  {
    if pid > 0 {
      ExitSetOf(s, pid, now, id);
      var keys := KeysOfPid(s.undo, pid);
      if n: U16 :| UndoKey(pid, id, n) in s.undo {
        assert UndoValid(s, UndoKey(pid, id, n), s.undo[UndoKey(pid, id, n)]);
        assert Hit(keys, pid, id, n);
      }
    }
  }

  lemma CallTimes(s: Store, c: Call, a: Actor, now: I64, id: I32)
    requires Valid(s) && |s.sets| == MAX_SETS && Live(s, id) && c != RemoveSet(id)
    ensures var s' := Exec(s, c, a, now).0;
            && |s'.sets| == MAX_SETS && Live(s', id)
            && SetOf(s', id).otime ==
               (if c.SemOps? && c.id == id && Exec(s, c, a, now).1.result == 0 then now else SetOf(s, id).otime)
            && SetOf(s', id).ctime ==
               if (c.SetValue? || c.SetValues? || c.SetMeta?) && c.id == id && Exec(s, c, a, now).1.result == 0 then now
               else SetOf(s, id).ctime
  {
    hide Valid, TryOp, SetVal, SetAll, GetAs, Remove, SetMetadata;
    ExecValid(s, c, a, now);
    ValidFacts(Exec(s, c, a, now).0);
    match c
    case SetValue(i, n, x) => SetValAnswers(s, i, n, x, a, now);
    case SetValues(i, xs) => SetAllAnswers(s, i, xs, a, now);
    case SemOps(i, ops, _) => SemOpTimes(s, i, ops, a.pid, now, id);
    case SemGet(key, nsems, flags) => GetAsValid(s, key, nsems, flags, a.who, now);
    case SetMeta(i, uid, gid, mode) => SetMetaAnswers(s, i, uid, gid, mode, a, now);
    case RemoveSet(i) => RemoveValid(s, i);
    case _ =>
  }

  lemma SemOpTimes(s: Store, i: I32, ops: seq<SemOp>, pid: I32, now: I64, id: I32)
    requires Valid(s) && |s.sets| == MAX_SETS && Live(s, id)
    ensures var s' := TryOp(s, i, ops, pid, now).0;
            && |s'.sets| == MAX_SETS && Live(s', id) && SetOf(s', id).ctime == SetOf(s, id).ctime
            && SetOf(s', id).otime == if i == id && TryOp(s, i, ops, pid, now).1.result == 0 then now else SetOf(s, id).otime
  {
    hide Valid, Simulate, UndoVerdict, UndoAfter, OpsOk, SetPids;
    var s' := TryOp(s, i, ops, pid, now).0;
    if TryOp(s, i, ops, pid, now).1.result == 0 {
      PutSetFrame(s, i, SetOf(s', i), id);
    }
  }

  // ---- Runs ----

  /** The last process to have changed a semaphore in a run, or the one before the run. */
  ghost function LastToucher(s: Store, es: seq<StoreEvent>, id: I32, num: U16, pid: int): int
    requires Valid(s)
    decreases |es|
  {
    if es == [] then pid
    else
      var t := Toucher(s, es[0], id, num);
      LastToucher(Apply(s, es[0]), es[1..], id, num, if t.Some? then t.value else pid)
  }

  /** After every run that does not remove the set, GETPID names the last process that set the semaphore, operated on it
      successfully, or had an adjustment on it restored when it exited. */
  lemma {:induction false} RunPid(s: Store, es: seq<StoreEvent>, id: I32, num: U16, a: Actor, now: I64)
    requires Valid(s) && HasSem(s, id, num) && NeverRemoved(es, id)
    ensures HasSem(Run(s, es), id, num)
    ensures Exec(Run(s, es), GetLastPid(id, num), a, now).1.result == LastToucher(s, es, id, num, LastPid(s, id, num))
    decreases |es|
  {
    hide Valid, HasSem, Apply, LastPid, Exec, Toucher;
    if es != [] {
      EventPid(s, es[0], id, num);
      RunPid(Apply(s, es[0]), es[1..], id, num, a, now);
    } else {
      PidRead(s, id, num, a, now);
    }
  }

  lemma PidRead(s: Store, id: I32, num: U16, a: Actor, now: I64)
    requires Valid(s) && HasSem(s, id, num)
    ensures Exec(s, GetLastPid(id, num), a, now).1.result == LastPid(s, id, num)
  {
    ReadAnswers(s, GetLastPid(id, num), a, now);
  }
}
