/** The result an operation list deserves, said from the values, the undo table and the list alone. */
module Verdict {
  import opened Types
  import opened SemStore
  import opened StoreInvariant
  import opened Sequential

  /** An operation may proceed on a value when zero finds it zero and any other leaves it in range. */
  predicate Proceeds(value: int, op: int) {
    if op == 0 then value == 0 else 0 <= value + op <= 32767
  }

  /** In range, with no bit set but the two flags. */
  predicate WellFormed(ops: seq<SemOp>, nsems: int) {
    ops != [] && forall i :: 0 <= i < |ops| ==> ops[i].num < nsems && ops[i].flg % 0x800 == 0 && ops[i].flg < 0x2000
  }

  /** The value of a semaphore once the first `k` operations have been applied. */
  function Reached(values: seq<U16>, ops: seq<SemOp>, k: nat, num: int): int
    requires k <= |ops| && 0 <= num < |values|
  {
    values[num] + Net(ops[..k], num, false)
  }

  /** The `k`th operation is the first that may not proceed after its predecessors. */
  ghost predicate Halts(values: seq<U16>, ops: seq<SemOp>, k: nat)
    requires k < |ops| && WellFormed(ops, |values|)
  {
    && (forall j :: 0 <= j < k ==> Proceeds(Reached(values, ops, j, ops[j].num), ops[j].op))
    && !Proceeds(Reached(values, ops, k, ops[k].num), ops[k].op)
  }

  /** Some prefix of the list, or the list on top of what the caller has pending, leaves -32768..32767. */
  ghost predicate UndoOverflows(undo: map<UndoKey, I32>, id: I32, ops: seq<SemOp>, pid: I32, nsems: nat) {
    || (exists i, n :: 0 <= i <= |ops| && 0 <= n < 512 && !(-32768 <= -Net(ops[..i], n, true) <= 32767))
    || (exists n: U16 :: n < nsems && Net(ops, n, true) != 0 && !(-32768 <= Adj(undo, UndoKey(pid, id, n)) - Net(ops, n, true) <= 32767))
  }

  /** The semaphores of the set for which the caller needs a new undo entry. */
  ghost function Needed(undo: map<UndoKey, I32>, id: I32, ops: seq<SemOp>, pid: I32, nsems: nat): set<U16> {
    set n: U16 | n < nsems && Net(ops, n, true) != 0 && UndoKey(pid, id, n) !in undo
  }

  /** `r` is the result of the list for the caller. */
  ghost predicate Deserves(s: Store, id: I32, ops: seq<SemOp>, pid: I32, r: int)
    requires Valid(s)
  {
    if !Live(s, id) || !WellFormed(ops, SetOf(s, id).nsems) then r == -EINVAL
    else
      var values, nsems := SetOf(s, id).values, SetOf(s, id).nsems;
      if exists k :: 0 <= k < |ops| && Halts(values, ops, k) then
        forall k :: 0 <= k < |ops| && Halts(values, ops, k) ==>
          r == if ops[k].op > 0 then -ERANGE else if Has(ops[k].flg, IPC_NOWAIT) then -EAGAIN else OP_BLOCKED
      else if UndoOverflows(s.undo, id, ops, pid, nsems) then r == -ERANGE
      else if |s.undo| + |Needed(s.undo, id, ops, pid, nsems)| > 4096 then r == -ENOSPC
      else r == 0
  }

  lemma WellFormedMeans(ops: seq<SemOp>, nsems: int)
    ensures WellFormed(ops, nsems) <==> ops != [] && OpsOk(ops, nsems)
  {
    forall i | 0 <= i < |ops|
      ensures OpOk(ops[i], nsems) <==> ops[i].num < nsems && ops[i].flg % 0x800 == 0 && ops[i].flg < 0x2000
    {
      var f: int := ops[i].flg;
      assert f == 0x800 * (f / 0x800) + f % 0x800;
    }
    hide OpOk;
  }

  lemma ProceedsMeans(values: seq<U16>, ops: seq<SemOp>, k: nat)
    requires k < |ops| && OpsOk(ops, |values|) && EnabledBefore(values, ops, k)
    requires forall n :: 0 <= n < |values| ==> values[n] <= MAX_VALUE
    ensures Enabled(Met(values, ops, k), ops[k].op) <==> Proceeds(Reached(values, ops, k, ops[k].num), ops[k].op)
  {
    MetInRange(values, ops, k, ops[k].num);
  }

  /** While every operation so far was enabled, values stay in range. */
  lemma {:induction false} MetInRange(values: seq<U16>, ops: seq<SemOp>, k: nat, num: int)
    requires k <= |ops| && OpsOk(ops, |values|) && EnabledBefore(values, ops, k) && 0 <= num < |values|
    requires forall n :: 0 <= n < |values| ==> values[n] <= MAX_VALUE
    ensures 0 <= Reached(values, ops, k, num) <= MAX_VALUE
    decreases k
  {
    if k > 0 {
      assert ops[..k][..k - 1] == ops[..k - 1];
      MetInRange(values, ops, k - 1, num);
      assert Enabled(Met(values, ops, k - 1), ops[k - 1].op);
    }
  }

  lemma {:induction false} ProceedsBefore(values: seq<U16>, ops: seq<SemOp>, k: nat)
    requires k <= |ops| && OpsOk(ops, |values|)
    requires forall n :: 0 <= n < |values| ==> values[n] <= MAX_VALUE
    ensures EnabledBefore(values, ops, k) <==> forall j :: 0 <= j < k ==> Proceeds(Reached(values, ops, j, ops[j].num), ops[j].op)
    decreases k
  {
    if k > 0 {
      ProceedsBefore(values, ops, k - 1);
      if EnabledBefore(values, ops, k - 1) {
        ProceedsMeans(values, ops, k - 1);
      }
    }
  }

  lemma HaltsMeans(values: seq<U16>, ops: seq<SemOp>, k: nat)
    requires k < |ops| && OpsOk(ops, |values|) && WellFormed(ops, |values|)
    requires forall n :: 0 <= n < |values| ==> values[n] <= MAX_VALUE
    ensures Halts(values, ops, k) <==> StopsAt(values, ops, k)
  {
    hide Met, Reached, Proceeds, Enabled, OpsOk, WellFormed, EnabledBefore;
    ProceedsBefore(values, ops, k);
    if EnabledBefore(values, ops, k) {
      ProceedsMeans(values, ops, k);
    }
  }

  lemma NeededMeans(undo: map<UndoKey, I32>, id: I32, ops: seq<SemOp>, pid: I32, nsems: nat)
    requires nsems <= MAX_PER_SET
    ensures |Needed(undo, id, ops, pid, nsems)| == |NewKeys(undo, id, ops, pid, nsems)|
  {
    hide Net;
    var a, b := Needed(undo, id, ops, pid, nsems), NewKeys(undo, id, ops, pid, nsems);
    assert b == set n | n in a :: UndoKey(pid, id, n);
    KeyedSize(a, b, pid, id);
  }

  lemma {:induction false} KeyedSize(a: set<U16>, b: set<UndoKey>, pid: I32, id: I32)
    requires b == set n | n in a :: UndoKey(pid, id, n)
    ensures |a| == |b|
  {
    if a != {} {
      var n :| n in a;
      assert UndoKey(pid, id, n) in b;
      KeyedSize(a - {n}, b - {UndoKey(pid, id, n)}, pid, id);
    }
  }

  lemma OverflowMeans(undo: map<UndoKey, I32>, id: I32, ops: seq<SemOp>, pid: I32, nsems: nat)
    ensures UndoOverflows(undo, id, ops, pid, nsems) <==> !DeltasInRange(ops) || !AdjustmentsInRange(undo, id, ops, pid, nsems)
  {
  }

  /** tryop gives every operation list the result it deserves. */
  lemma TryOpDeserves(s: Store, id: I32, ops: seq<SemOp>, pid: I32, now: I64)
    requires Valid(s)
    ensures Deserves(s, id, ops, pid, TryOp(s, id, ops, pid, now).1.result)
  {
    hide Valid, Simulate, Net, Halts, StopsAt, UndoOverflows, Needed, NewKeys, DeltasInRange, AdjustmentsInRange, OpsOk, WellFormed,
         EnabledBefore, UndoAfter, SetPids;
    ValidFacts(s);
    if Live(s, id) {
      LiveFacts(s, id);
      var t := SetOf(s, id);
      WellFormedMeans(ops, t.nsems);
      if WellFormed(ops, t.nsems) {
        LiveValues(s, id);
        SimulateMeans(t.values, ops);
        StopsMeans(t.values, ops);
        forall k | 0 <= k < |ops|
          ensures Halts(t.values, ops, k) <==> StopsAt(t.values, ops, k)
        {
          HaltsMeans(t.values, ops, k);
        }
        if Simulate(t.values, ops, 0).Stopped? {
          var at := Simulate(t.values, ops, 0).at;
          forall k | 0 <= k < |ops| && Halts(t.values, ops, k)
            ensures k == at
          {
            StopsOnce(t.values, ops, k, at);
          }
        }
        OverflowMeans(s.undo, id, ops, pid, t.nsems);
        NeededMeans(s.undo, id, ops, pid, t.nsems);
      }
    }
  }

  lemma LiveValues(s: Store, id: I32)
    requires Valid(s) && Live(s, id)
    ensures forall n :: 0 <= n < |SetOf(s, id).values| ==> SetOf(s, id).values[n] <= MAX_VALUE
  {
  }
}
