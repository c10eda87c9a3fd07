/** A set in a reused slot is out of reach of what processes did before it existed. */
module SlotReuse {
  import opened Types
  import opened SemStore
  import opened StoreInvariant
  import opened StoreCalls
  import opened Broker
  import opened UndoWatch

  /** The event is a successful operation list with SEM_UNDO by a process on a set. */
  ghost predicate Undoes(s: Store, e: StoreEvent, pid: I32, id: I32)
    requires Valid(s)
  {
    && e.Perform? && e.call.SemOps? && e.call.id == id && e.actor.pid == pid && UsesUndo(e.call.ops)
    && Exec(s, e.call, e.actor, e.now).1.result == 0
  }

  ghost predicate NeverUndoes(s: Store, es: seq<StoreEvent>, pid: I32, id: I32)
    requires Valid(s)
    decreases |es|
  {
    es == [] || (!Undoes(s, es[0], pid, id) && NeverUndoes(Apply(s, es[0]), es[1..], pid, id))
  }

  /** No adjustment of the process names the set. */
  ghost predicate Clear(s: Store, pid: I32, id: I32) {
    forall k :: k in s.undo ==> k.pid != pid || k.semid != id
  }

  lemma EventClear(s: Store, e: StoreEvent, pid: I32, id: I32)
    requires Valid(s) && Clear(s, pid, id) && !Undoes(s, e, pid, id)
    ensures Clear(Apply(s, e), pid, id)
  {
    hide Valid, Exec, AdjustWaitCount, UsesUndo, RestoredSets;
    match e
    case Perform(c, a, now) =>
      forall k | k in Exec(s, c, a, now).0.undo
        ensures k.pid != pid || k.semid != id
      {
        CallKeys(s, c, a, now, k);
      }
    case Exited(_, _) =>
    case Count(i, n, zero, adjustment) => AdjustWaitCountValid(s, i, n, zero, adjustment);
  }

  lemma {:induction false} RunClear(s: Store, es: seq<StoreEvent>, pid: I32, id: I32)
    requires Valid(s) && Clear(s, pid, id) && NeverUndoes(s, es, pid, id)
    ensures Clear(Run(s, es), pid, id)
    decreases |es|
  {
    hide Valid, Apply, Clear, Undoes;
    if es != [] {
      EventClear(s, es[0], pid, id);
      RunClear(Apply(s, es[0]), es[1..], pid, id);
    }
  }

  /** The exit of a process leaves a set it has no adjustments on exactly as it is: values, pids and times. */
  lemma ExitLeavesSet(s: Store, pid: I32, now: I64, id: I32)
    requires Valid(s) && Clear(s, pid, id)
    ensures Valid(ProcessExit(s, pid, now).0)
    ensures |s.sets| == |ProcessExit(s, pid, now).0.sets| == MAX_SETS
    ensures Live(ProcessExit(s, pid, now).0, id) <==> Live(s, id)
    ensures Live(s, id) ==> SetOf(ProcessExit(s, pid, now).0, id) == SetOf(s, id)
  {
    hide Valid, Restored, RestoredSets;
    ValidFacts(s);
    ExitValid(s, pid, now);
    if pid > 0 {
      ExitSetOf(s, pid, now, id);
      if Live(s, id) {
        LiveSetValid(s, id);
        RestoredClear(SetOf(s, id), Slot(s, id), s.undo, pid, now);
      }
    }
  }

  lemma LiveSetValid(s: Store, id: I32)
    requires Valid(s) && Live(s, id)
    ensures SetValid(SetOf(s, id)) && SetOf(s, id).active && Slot(s, id) < MAX_SETS
  {
  }

  lemma RestoredClear(t: SemSet, index: nat, undo: map<UndoKey, I32>, pid: I32, now: I64)
    requires index < MAX_SETS && SetValid(t) && t.active
    requires forall k :: k in undo ==> k.pid != pid || k.semid != MakeId(index, t.generation)
    ensures Restored(t, index, undo, KeysOfPid(undo, pid), pid, now) == t
  {
    var t' := Restored(t, index, undo, KeysOfPid(undo, pid), pid, now);
    assert forall n :: !Hit(KeysOfPid(undo, pid), pid, MakeId(index, t.generation), n);
    assert t'.values == t.values && t'.lastPids == t.lastPids;
  }

  /** In every run after a set is created, however its slot was used before, the exit of a process that has not
      successfully used SEM_UNDO on the new set leaves it untouched. */
  lemma NewSetUntouched(s: Store, c: Call, a: Actor, now: I64, es: seq<StoreEvent>, pid: I32, later: I64)
    requires Valid(s) && c.SemGet? && CreationSlot(s, c.key, c.nsems, c.flags).Some?
    requires NeverUndoes(Apply(s, Perform(c, a, now)), es, pid, Exec(s, c, a, now).1.result)
    ensures var id := Exec(s, c, a, now).1.result;
            var end := Run(Apply(s, Perform(c, a, now)), es);
            && |end.sets| == |ProcessExit(end, pid, later).0.sets| == MAX_SETS
            && (Live(ProcessExit(end, pid, later).0, id) <==> Live(end, id))
            && (Live(end, id) ==> SetOf(ProcessExit(end, pid, later).0, id) == SetOf(end, id))
  {
    hide Valid, GetAs, Run, NeverUndoes, ProcessExit;
    var s', id := Apply(s, Perform(c, a, now)), Exec(s, c, a, now).1.result;
    NewSetClean(s, c.key, c.nsems, c.flags, a.who, now);
    RunClear(s', es, pid, id);
    ExitLeavesSet(Run(s', es), pid, later, id);
  }
}
