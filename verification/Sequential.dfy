/** What a successful, blocked or refused operation list means, stated operation by operation. */
module Sequential {
  import opened Types
  import opened SemStore
  import opened StoreInvariant

  /** The value the `k`th operation meets: the initial value plus all earlier operations on that semaphore. */
  function Met(values: seq<U16>, ops: seq<SemOp>, k: nat): int
    requires k < |ops| && OpsOk(ops, |values|)
  {
    values[ops[k].num] + Net(ops[..k], ops[k].num, false)
  }

  ghost predicate EnabledBefore(values: seq<U16>, ops: seq<SemOp>, k: nat)
    requires k <= |ops| && OpsOk(ops, |values|)
  {
    forall j :: 0 <= j < k ==> Enabled(Met(values, ops, j), ops[j].op)
  }

  lemma {:induction false} SimulateFrom(values: seq<U16>, ops: seq<SemOp>, current: seq<U16>, i: nat)
    requires i <= |ops| && OpsOk(ops, |values|) && |current| == |values|
    requires forall n :: 0 <= n < |values| ==> current[n] == values[n] + Net(ops[..i], n, false)
    requires EnabledBefore(values, ops, i)
    ensures Simulate(current, ops, i).Done? ==>
              && EnabledBefore(values, ops, |ops|)
              && forall n :: 0 <= n < |values| ==> Simulate(current, ops, i).values[n] == values[n] + Net(ops, n, false)
    ensures Simulate(current, ops, i).Stopped? ==> StopsAt(values, ops, Simulate(current, ops, i).at)
    decreases |ops| - i
  {
    if i == |ops| {
      assert ops[..i] == ops;
    } else if Enabled(current[ops[i].num], ops[i].op) {
      var next := current[ops[i].num := current[ops[i].num] + ops[i].op];
      assert ops[..i + 1][..i] == ops[..i];
      SimulateFrom(values, ops, next, i + 1);
    }
  }

  /** Simulation finishes exactly when every operation is enabled at its turn, with the summed values;
      otherwise it stops at the first operation that is not enabled after its predecessors. */
  lemma SimulateMeans(values: seq<U16>, ops: seq<SemOp>)
    requires OpsOk(ops, |values|)
    ensures Simulate(values, ops, 0).Done? <==> EnabledBefore(values, ops, |ops|)
    ensures Simulate(values, ops, 0).Done? ==>
              forall n :: 0 <= n < |values| ==> Simulate(values, ops, 0).values[n] == values[n] + Net(ops, n, false)
    ensures Simulate(values, ops, 0).Stopped? ==> StopsAt(values, ops, Simulate(values, ops, 0).at)
  {
    SimulateFrom(values, ops, values, 0);
  }

  /** The `k`th operation is the first one not enabled at its turn. */
  ghost predicate StopsAt(values: seq<U16>, ops: seq<SemOp>, k: nat)
    requires k < |ops| && OpsOk(ops, |values|)
  {
    EnabledBefore(values, ops, k) && !Enabled(Met(values, ops, k), ops[k].op)
  }

  /** An operation list is blocked when its first operation that is not enabled may wait. This does not
      mention the undo table or the caller. */
  ghost predicate Blocked(s: Store, id: I32, ops: seq<SemOp>)
    requires Valid(s)
  {
    Live(s, id) && ops != [] && BlockedOn(SetOf(s, id).values, ops)
  }

  ghost predicate BlockedOn(values: seq<U16>, ops: seq<SemOp>) {
    && OpsOk(ops, |values|)
    && exists k :: 0 <= k < |ops| && WaitsAt(values, ops, k)
  }

  ghost predicate WaitsAt(values: seq<U16>, ops: seq<SemOp>, k: nat)
    requires k < |ops| && OpsOk(ops, |values|)
  {
    StopsAt(values, ops, k) && ops[k].op <= 0 && !NoWait(ops[k])
  }

  /** The verdict on a list that stops at its `k`th operation for a reason. */
  ghost predicate RefusedAt(values: seq<U16>, ops: seq<SemOp>, k: nat, r: Outcome)
    requires k < |ops| && OpsOk(ops, |values|)
  {
    && StopsAt(values, ops, k) && ops[k].op <= 0
    && r == Outcome(if NoWait(ops[k]) then -EAGAIN else OP_BLOCKED, Some(Reason(ops[k].num, ops[k].op == 0)))
  }

  /** tryop refines the sequential specification: success adds every operation, each enabled at its turn;
      a reported reason is that of the first operation not enabled after its predecessors. */
  lemma TryOpSequential(s: Store, id: I32, ops: seq<SemOp>, pid: I32, now: I64)
    requires Valid(s)
    ensures var (s', r) := TryOp(s, id, ops, pid, now);
            r.result == 0 ==>
              && Live(s, id) && ops != [] && OpsOk(ops, SetOf(s, id).nsems)
              && EnabledBefore(SetOf(s, id).values, ops, |ops|)
              && UndoVerdict(s.undo, id, ops, pid, SetOf(s, id).nsems) == 0
              && Live(s', id) && |SetOf(s', id).values| == SetOf(s, id).nsems
              && forall n :: 0 <= n < SetOf(s, id).nsems ==>
                   SetOf(s', id).values[n] == SetOf(s, id).values[n] + Net(ops, n, false)
    ensures Live(s, id) && ops != [] && OpsOk(ops, SetOf(s, id).nsems) && EnabledBefore(SetOf(s, id).values, ops, |ops|) &&
            UndoVerdict(s.undo, id, ops, pid, SetOf(s, id).nsems) == 0 ==>
              TryOp(s, id, ops, pid, now).1.result == 0
    ensures TryOp(s, id, ops, pid, now).1.reason.Some? ==>
              && Live(s, id) && OpsOk(ops, SetOf(s, id).nsems)
              && exists k :: 0 <= k < |ops| && RefusedAt(SetOf(s, id).values, ops, k, TryOp(s, id, ops, pid, now).1)
  {
    hide Valid, Simulate, Net, EnabledBefore, Met, UndoVerdict, UndoAfter, SetPids;
    ValidFacts(s);
    if Live(s, id) && OpsOk(ops, SetOf(s, id).nsems) {
      LiveFacts(s, id);
      SimulateMeans(SetOf(s, id).values, ops);
      if TryOp(s, id, ops, pid, now).1.reason.Some? {
        assert RefusedAt(SetOf(s, id).values, ops, Simulate(SetOf(s, id).values, ops, 0).at, TryOp(s, id, ops, pid, now).1);
      }
    }
  }

  /** The first operation that is not enabled would have to wait but must not. */
  ghost predicate RefusesAt(values: seq<U16>, ops: seq<SemOp>, k: nat)
    requires k < |ops| && OpsOk(ops, |values|)
  {
    StopsAt(values, ops, k) && ops[k].op <= 0 && NoWait(ops[k])
  }

  /** The errors of tryop: -EINVAL for what is malformed or dead; -ERANGE when the first operation not enabled would
      overflow, or when the undo deltas leave their range; -EAGAIN, with the reason, when it would have to wait but carries
      IPC_NOWAIT; -ENOSPC when only the undo table is too full. */
  lemma TryOpErrors(s: Store, id: I32, ops: seq<SemOp>, pid: I32, now: I64)
    requires Valid(s)
    ensures |s.sets| == MAX_SETS && |s.undo| <= MAX_UNDO && (Live(s, id) ==> |SetOf(s, id).values| == SetOf(s, id).nsems <= MAX_PER_SET)
    ensures var r := TryOp(s, id, ops, pid, now).1.result;
            if !Live(s, id) || ops == [] || !OpsOk(ops, SetOf(s, id).nsems) then r == -EINVAL
            else
              var t := SetOf(s, id);
              var done := EnabledBefore(t.values, ops, |ops|);
              && r != -EINVAL
              && (r == -ERANGE <==>
                    if done then !DeltasInRange(ops) || !AdjustmentsInRange(s.undo, id, ops, pid, t.nsems)
                    else exists k :: 0 <= k < |ops| && StopsAt(t.values, ops, k) && ops[k].op > 0)
              && (r == -EAGAIN <==> exists k :: 0 <= k < |ops| && RefusesAt(t.values, ops, k))
              && (r == -ENOSPC <==>
                    done && DeltasInRange(ops) && AdjustmentsInRange(s.undo, id, ops, pid, t.nsems) &&
                    |NewKeys(s.undo, id, ops, pid, t.nsems)| > MAX_UNDO - |s.undo|)
              && forall k :: 0 <= k < |ops| && RefusesAt(t.values, ops, k) ==>
                   TryOp(s, id, ops, pid, now).1 == Outcome(-EAGAIN, Some(Reason(ops[k].num, ops[k].op == 0)))
  {
    hide Valid, Simulate, Net, Met, UndoAfter, SetPids, OpsOk, EnabledBefore, DeltasInRange, AdjustmentsInRange, NewKeys;
    ValidFacts(s);
    if Live(s, id) {
      LiveFacts(s, id);
      if OpsOk(ops, SetOf(s, id).nsems) {
        var values := SetOf(s, id).values;
        SimulateMeans(values, ops);
        forall j, k | 0 <= j < |ops| && 0 <= k < |ops| && StopsAt(values, ops, j) && StopsAt(values, ops, k)
          ensures j == k
        {
          StopsOnce(values, ops, j, k);
        }
        StopsMeans(values, ops);
        if Simulate(values, ops, 0).Stopped? {
          var at := Simulate(values, ops, 0).at;
          assert RefusesAt(values, ops, at) <==> ops[at].op <= 0 && NoWait(ops[at]);
        }
      }
    }
  }

  lemma StopsMeans(values: seq<U16>, ops: seq<SemOp>)
    requires OpsOk(ops, |values|)
    ensures EnabledBefore(values, ops, |ops|) <==> forall k :: 0 <= k < |ops| ==> !StopsAt(values, ops, k)
  {
    hide Simulate, Met;
    SimulateMeans(values, ops);
  }

  lemma StopsOnce(values: seq<U16>, ops: seq<SemOp>, j: nat, k: nat)
    requires j < |ops| && k < |ops| && OpsOk(ops, |values|) && StopsAt(values, ops, j) && StopsAt(values, ops, k)
    ensures j == k
  {
  }

  /** tryop reports BLOCKED exactly on blocked lists, with the reason, and then changes nothing. */
  lemma BlockedExactly(s: Store, id: I32, ops: seq<SemOp>, pid: I32, now: I64)
    requires Valid(s)
    ensures TryOp(s, id, ops, pid, now).1.result == OP_BLOCKED <==> Blocked(s, id, ops)
    ensures Blocked(s, id, ops) ==> TryOp(s, id, ops, pid, now).0 == s && TryOp(s, id, ops, pid, now).1.reason.Some? &&
                                    TryOp(s, id, ops, pid, now).1.reason.value.num < SetOf(s, id).nsems
    ensures Blocked(s, id, ops) ==>
              exists k :: 0 <= k < |ops| && WaitsAt(SetOf(s, id).values, ops, k) &&
                          TryOp(s, id, ops, pid, now).1 == Outcome(OP_BLOCKED, Some(Reason(ops[k].num, ops[k].op == 0)))
  {
    hide Valid, Simulate, Met, DeltasInRange, AdjustmentsInRange, NewKeys, UndoAfter, SetPids;
    ValidFacts(s);
    if Live(s, id) {
      LiveFacts(s, id);
    }
    if Live(s, id) && ops != [] && OpsOk(ops, SetOf(s, id).nsems) {
      var values := SetOf(s, id).values;
      SimulateMeans(values, ops);
      match Simulate(values, ops, 0)
      case Done(_) =>
      case Stopped(at) =>
        assert TryOp(s, id, ops, pid, now).1.result == OP_BLOCKED ==> WaitsAt(values, ops, at);
        if Blocked(s, id, ops) {
          var k :| 0 <= k < |ops| && WaitsAt(values, ops, k);
          assert k == at;
        }
    }
  }
}
