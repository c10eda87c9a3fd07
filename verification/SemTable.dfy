/** The store as it is kept in memory: a fixed array of sets and a fixed, linearly scanned array of undo
    entries, updated in place. Every method is proved against the corresponding function on store values. */
module SemTable {
  import opened Types
  import opened SemStore
  import opened StoreInvariant
  import opened UndoTable
  import opened TableLemmas

  class Table {
    const sets: array<SemSet>
    const undo: array<UndoEntry>

    ghost predicate Wf()
      reads sets, undo
    {
      sets.Length == MAX_SETS && undo.Length == MAX_UNDO && Unique(undo[..]) && Valid(View())
    }

    /** The store value the arrays represent. */
    ghost function View(): Store
      reads sets, undo
      requires Unique(undo[..])
    {
      Store(sets[..], MapOf(undo[..]))
    }

    constructor ()
      ensures Wf() && fresh(sets) && fresh(undo)
      ensures View() == Empty()
    {
      sets := new SemSet[MAX_SETS](_ => Vacant(0));
      undo := new UndoEntry[MAX_UNDO](_ => UndoEntry(false, 0, 0, 0, 0));
      new;
      MapIs(undo[..], map[]);
      assert sets[..] == Empty().sets;
    }

    function Find(id: I32): (r: Option<nat>)
      reads sets, undo
      requires Wf()
      ensures r.Some? <==> Live(View(), id)
      ensures r.Some? ==> r.value == Slot(View(), id) && r.value < sets.Length && sets[r.value] == SetOf(View(), id) && SetValid(sets[r.value])
    {
      match DecodeId(id)
      case None => None
      case Some((i, g)) => if sets[i].active && sets[i].generation == g then Some(i) else None
    }

    // ---- Undo table ----

    method FindUndo(k: UndoKey) returns (r: Option<nat>)
      requires Unique(undo[..])
      ensures r.Some? <==> k in MapOf(undo[..])
      ensures r.Some? ==> r.value < undo.Length && undo[r.value].active && KeyOf(undo[r.value]) == k
    {
      hide MapOf;
      for i := 0 to undo.Length
        invariant forall j :: 0 <= j < i ==> !(undo[..][j].active && KeyOf(undo[..][j]) == k)
      {
        if undo[i].active && undo[i].pid == k.pid && undo[i].semid == k.semid && undo[i].semnum == k.semnum {
          assert undo[..][i] == undo[i];
          return Some(i);
        }
      }
      return None;
    }

    method FindFree() returns (r: Option<nat>)
      ensures match r
              case None => forall i :: 0 <= i < undo.Length ==> undo[i].active
              case Some(i) => i < undo.Length && !undo[i].active && forall j :: 0 <= j < i ==> undo[j].active
    {
      for i := 0 to undo.Length
        invariant forall j :: 0 <= j < i ==> undo[j].active
      {
        if !undo[i].active {
          return Some(i);
        }
      }
      return None;
    }

    method ClearUndo(id: I32, num: Option<int>)
      requires Unique(undo[..])
      modifies undo
      ensures Unique(undo[..]) && MapOf(undo[..]) == Cleared(old(MapOf(undo[..])), id, num)
    {
      hide MapOf, Unique;
      ghost var hit := (k: UndoKey) => k.semid == id && (num.None? || k.semnum == num.value);
      ghost var was := undo[..];
      for i := 0 to undo.Length
        invariant forall j :: 0 <= j < i ==>
                    undo[j] == if was[j].active && hit(KeyOf(was[j])) then was[j].(active := false) else was[j]
        invariant forall j :: i <= j < undo.Length ==> undo[j] == was[j]
      {
        if undo[i].active && undo[i].semid == id && (num.None? || undo[i].semnum == num.value) {
          undo[i] := undo[i].(active := false);
        }
      }
      Deactivate(was, undo[..], hit);
    }

    method CountFree() returns (n: nat)
      requires Unique(undo[..])
      ensures n == undo.Length - |MapOf(undo[..])|
    {
      n := 0;
      for i := 0 to undo.Length
        invariant n == Free(undo[..i])
      {
        assert undo[..i + 1][..i] == undo[..i];
        n := n + if undo[i].active then 0 else 1;
      }
      assert undo[..undo.Length] == undo[..];
      FreeCount(undo[..]);
    }

    // ---- semget, removal, values ----

    method GetAs(key: I32, nsems: I32, flags: I32, who: Identity, now: I64) returns (r: I32)
      requires Wf()
      modifies sets
      ensures Wf()
      ensures (View(), r) == SemStore.GetAs(old(View()), key, nsems, flags, who, now)
    {
      hide Valid, MapOf, Unique, Cleared;
      GetAsValid(View(), key, nsems, flags, who, now);
      ghost var s := View();
      if key != IPC_PRIVATE {
        for i := 0 to MAX_SETS
          invariant forall j :: 0 <= j < i ==> !(s.sets[j].active && s.sets[j].key == key)
        {
          if sets[i].active && sets[i].key == key {
            assert s.sets[i] == sets[i];
            if Has(flags, IPC_CREAT) && Has(flags, IPC_EXCL) {
              return -EEXIST;
            }
            if nsems < 0 || nsems > sets[i].nsems {
              return -EINVAL;
            }
            return MakeId(i, sets[i].generation);
          }
        }
        if !Has(flags, IPC_CREAT) {
          return -ENOENT;
        }
      }
      if nsems <= 0 || nsems > MAX_PER_SET {
        return -EINVAL;
      }
      for i := 0 to MAX_SETS
        invariant forall j :: 0 <= j < i ==> s.sets[j].active
      {
        if !sets[i].active {
          assert s.sets[i] == sets[i];
          sets[i] := Created(sets[i], key, nsems, flags, who, now);
          assert sets[..] == s.sets[i := sets[i]];
          return MakeId(i, sets[i].generation);
        }
      }
      return -ENOSPC;
    }

    method Remove(id: I32) returns (r: I32)
      requires Wf()
      modifies sets, undo
      ensures Wf()
      ensures (View(), r) == SemStore.Remove(old(View()), id)
    {
      hide Valid, MapOf, Unique, Cleared;
      RemoveValid(View(), id);
      ghost var s := View();
      var found := Find(id);
      if found.None? {
        return -EINVAL;
      }
      ClearUndo(id, None);
      sets[found.value] := Vacant(NextGeneration(sets[found.value].generation));
      assert sets[..] == s.sets[found.value := sets[found.value]];
      return 0;
    }

    method SetVal(id: I32, num: nat, value: U32, pid: I32, now: I64) returns (r: I32)
      requires Wf()
      modifies sets, undo
      ensures Wf()
      ensures (View(), r) == SemStore.SetVal(old(View()), id, num, value, pid, now)
    {
      hide Valid, MapOf, Unique, Cleared;
      SetValValid(View(), id, num, value, pid, now);
      ghost var s := View();
      var found := Find(id);
      if found.None? || num >= sets[found.value].nsems {
        return -EINVAL;
      }
      if value > MAX_VALUE {
        return -ERANGE;
      }
      ClearUndo(id, Some(num));
      var t := sets[found.value];
      sets[found.value] := t.(values := t.values[num := value], lastPids := t.lastPids[num := pid], ctime := now);
      assert sets[..] == s.sets[found.value := sets[found.value]];
      return 0;
    }

    method SetAll(id: I32, values: seq<U16>, pid: I32, now: I64) returns (r: I32)
      requires Wf()
      modifies sets, undo
      ensures Wf()
      ensures (View(), r) == SemStore.SetAll(old(View()), id, values, pid, now)
    {
      hide Valid, MapOf, Unique, Cleared;
      SetAllValid(View(), id, values, pid, now);
      ghost var s := View();
      var found := Find(id);
      if found.None? || |values| != sets[found.value].nsems {
        return -EINVAL;
      }
      for i := 0 to |values|
        invariant forall j :: 0 <= j < i ==> values[j] <= MAX_VALUE
      {
        if values[i] > MAX_VALUE {
          return -ERANGE;
        }
      }
      ClearUndo(id, None);
      var t := sets[found.value];
      var pids := t.lastPids;
      for i := 0 to |values|
        invariant |pids| == |values| && forall j :: 0 <= j < i ==> pids[j] == pid
      {
        pids := pids[i := pid];
      }
      assert pids == seq(|values|, _ => pid);
      sets[found.value] := t.(values := values, lastPids := pids, ctime := now);
      assert sets[..] == s.sets[found.value := sets[found.value]];
      return 0;
    }

    method AdjustWaitCount(id: I32, num: nat, zero: bool, adjustment: int) returns (r: I32)
      requires Wf()
      modifies sets
      ensures Wf()
      ensures (View(), r) == SemStore.AdjustWaitCount(old(View()), id, num, zero, adjustment)
    {
      hide Valid, MapOf, Unique, Cleared;
      AdjustWaitCountValid(View(), id, num, zero, adjustment);
      ghost var s := View();
      var found := Find(id);
      if found.None? || num >= sets[found.value].nsems || (adjustment != 1 && adjustment != -1) {
        return -EINVAL;
      }
      var t := sets[found.value];
      var count := if zero then t.zero[num] else t.negative[num];
      if (adjustment > 0 && count == 0xffff_ffff) || (adjustment < 0 && count == 0) {
        return -ERANGE;
      }
      var next := if adjustment > 0 then count + 1 else count - 1;
      sets[found.value] := if zero then t.(zero := t.zero[num := next]) else t.(negative := t.negative[num := next]);
      assert sets[..] == s.sets[found.value := sets[found.value]];
      return 0;
    }

    method SetMetadata(id: I32, uid: U32, gid: U32, mode: U32, who: Identity, now: I64) returns (r: I32)
      requires Wf()
      modifies sets
      ensures Wf()
      ensures (View(), r) == SemStore.SetMetadata(old(View()), id, uid, gid, mode, who, now)
    {
      hide Valid, MapOf, Unique;
      SetMetadataValid(View(), id, uid, gid, mode, who, now);
      ghost var s := View();
      var found := Find(id);
      if found.None? {
        return -EINVAL;
      }
      var t := sets[found.value];
      if who.uid != t.perm.uid && who.uid != t.perm.cuid {
        return -EPERM;
      }
      if uid != t.perm.uid || (gid != t.perm.gid && gid != who.gid) || mode >= 0x200 {
        return -EPERM;
      }
      sets[found.value] := t.(perm := t.perm.(gid := gid, mode := mode), ctime := now);
      assert sets[..] == s.sets[found.value := sets[found.value]];
      return 0;
    }

    // ---- Process exit ----

    method ProcessExit(pid: I32, now: I64) returns (r: I32)
      requires Wf()
      modifies sets, undo
      ensures Wf()
      ensures (View(), r) == SemStore.ProcessExit(old(View()), pid, now)
    {
      hide Valid, MapOf, Unique, Partial, Restored, RestoredSets;
      ExitValid(View(), pid, now);
      if pid <= 0 {
        return -EINVAL;
      }
      ghost var s, was := View(), undo[..];
      ghost var done: set<UndoKey> := {};
      PartialStart(s, was, pid, now);
      r := 0;
      for i := 0 to MAX_UNDO
        invariant Partial(s, was, pid, now, i, done, sets[..], undo[..])
        invariant r == if done == {} then 0 else 1
      {
        if undo[i].active && undo[i].pid == pid {
          ghost var k := KeyOf(undo[i]);
          PartialFacts(s, was, pid, now, i, done, sets[..], undo[..]);
          var found := DecodeId(undo[i].semid);
          if found.Some? && sets[found.value.0].active && sets[found.value.0].generation == found.value.1 &&
             undo[i].semnum < sets[found.value.0].nsems
          {
            var slot, n := found.value.0, undo[i].semnum;
            var t := sets[slot];
            RestoreOne(s, was, pid, now, i, done, sets[..], undo[..]);
            sets[slot] := t.(values := t.values[n := Clamp(t.values[n] + undo[i].adjustment)],
                             lastPids := t.lastPids[n := pid], otime := now);
            r := 1;
          }
          undo[i] := undo[i].(active := false);
          done := done + {k};
        } else {
          PartialSkip(s, was, pid, now, i, done, sets[..], undo[..]);
        }
      }
      PartialDone(s, was, pid, now, done, sets[..], undo[..]);
    }

    // ---- Operation lists ----

    method CountRequired(id: I32, ops: seq<SemOp>, pid: I32, deltas: array<int>, nsems: nat) returns (r: Option<nat>)
      requires Unique(undo[..]) && nsems <= MAX_PER_SET <= deltas.Length
      requires forall n :: 0 <= n < MAX_PER_SET ==> deltas[n] == -Net(ops, n, true)
      ensures r.Some? <==> AdjustmentsInRange(MapOf(undo[..]), id, ops, pid, nsems)
      ensures r.Some? ==> r.value == |NewKeys(MapOf(undo[..]), id, ops, pid, nsems)|
    {
      hide MapOf, Net, NewKeys;
      ghost var m := MapOf(undo[..]);
      var required := 0;
      NewKeysNone(m, id, ops, pid);
      for n := 0 to nsems
        invariant required == |NewKeys(m, id, ops, pid, n)|
        invariant AdjustmentsInRange(m, id, ops, pid, n)
      {
        NewKeysStep(m, id, ops, pid, n);
        if deltas[n] != 0 {
          var entry := FindUndo(UndoKey(pid, id, n));
          var adjustment := deltas[n];
          if entry.Some? {
            assert undo[..][entry.value] == undo[entry.value];
            adjustment := adjustment + undo[entry.value].adjustment;
          } else {
            required := required + 1;
          }
          assert adjustment == AdjAfter(m, UndoKey(pid, id, n), id, ops, pid);
          if adjustment < -MAX_VALUE - 1 || adjustment > MAX_VALUE {
            return None;
          }
        }
      }
      return Some(required);
    }

    /** The entry of a key, claiming the first free slot with a zero adjustment if there is none yet. */
    method FindOrClaim(k: UndoKey) returns (at: nat)
      requires undo.Length == MAX_UNDO && Unique(undo[..])
      requires k !in MapOf(undo[..]) ==> |MapOf(undo[..])| < MAX_UNDO
      modifies undo
      ensures Unique(undo[..]) && at < undo.Length && undo[at].active && KeyOf(undo[at]) == k
      ensures MapOf(undo[..]) == if k in old(MapOf(undo[..])) then old(MapOf(undo[..])) else old(MapOf(undo[..]))[k := 0]
    {
      hide MapOf, Unique;
      var entry := FindUndo(k);
      if entry.Some? {
        return entry.value;
      }
      var free := FindFree();
      if free.None? {
        FreeZero(undo[..]);
        FreeCount(undo[..]);
        assert false;
      }
      ghost var was := undo[..];
      Claim(was, free.value, k);
      undo[free.value] := UndoEntry(true, k.pid, k.semid, k.semnum, 0);
      assert undo[..] == was[free.value := undo[free.value]];
      return free.value;
    }

    /** The body of the commit loop: adds to the entry of the key, and drops it when it cancels out. */
    method AddAdjustment(k: UndoKey, delta: int)
      requires undo.Length == MAX_UNDO && Unique(undo[..])
      requires Adjustment(Adj(MapOf(undo[..]), k) + delta)
      requires k !in MapOf(undo[..]) ==> |MapOf(undo[..])| < MAX_UNDO
      modifies undo
      ensures Unique(undo[..])
      ensures MapOf(undo[..]) == Bumped(old(MapOf(undo[..])), k, old(Adj(MapOf(undo[..]), k)) + delta)
    {
      hide MapOf, Unique;
      ghost var m := MapOf(undo[..]);
      var at := FindOrClaim(k);
      ghost var mid := undo[..];
      assert mid[at] == undo[at] && MapOf(mid)[k] == undo[at].adjustment == Adj(m, k);
      Rewrite(mid, at, undo[at].adjustment + delta);
      undo[at] := undo[at].(adjustment := undo[at].adjustment + delta);
      if undo[at].adjustment == 0 {
        undo[at] := undo[at].(active := false);
      }
      assert undo[..] == mid[at := undo[at]];
      BumpedTwice(m, k, Adj(m, k) + delta);
    }

    /** The commit loop. A free slot is found whenever one is needed, so the loop cannot fail half way. */
    method CommitUndo(id: I32, ops: seq<SemOp>, pid: I32, deltas: array<int>, nsems: nat)
      requires undo.Length == MAX_UNDO && Unique(undo[..]) && nsems <= MAX_PER_SET <= deltas.Length
      requires OpsOk(ops, nsems)
      requires forall n :: 0 <= n < MAX_PER_SET ==> deltas[n] == -Net(ops, n, true)
      requires forall k :: k in MapOf(undo[..]) ==> MapOf(undo[..])[k] != 0 && Adjustment(MapOf(undo[..])[k])
      requires |MapOf(undo[..])| <= MAX_UNDO
      requires UndoVerdict(MapOf(undo[..]), id, ops, pid, nsems) == 0
      modifies undo
      ensures Unique(undo[..])
      ensures MapOf(undo[..]) == UndoAfter(old(MapOf(undo[..])), id, ops, pid, nsems)
    {
      hide MapOf, Net, UndoAfter, UndoVerdict, Committed, Unique, Bumped, OpsOk, NewKeys, Adj, Adjustment;
      ghost var m := MapOf(undo[..]);
      CommitStart(m, id, ops, pid, nsems);
      for n := 0 to nsems
        invariant Unique(undo[..])
        invariant Committed(m, MapOf(undo[..]), id, ops, pid, n, nsems)
      {
        CommitFacts(m, MapOf(undo[..]), id, ops, pid, n, nsems);
        CommitStep(m, MapOf(undo[..]), id, ops, pid, n, nsems);
        if deltas[n] != 0 {
          AddAdjustment(UndoKey(pid, id, n), deltas[n]);
        }
      }
      CommitEnd(m, MapOf(undo[..]), id, ops, pid, nsems);
    }

    method TryOp(id: I32, ops: seq<SemOp>, pid: I32, now: I64) returns (r: Outcome)
      requires Wf()
      modifies sets, undo
      ensures Wf()
      ensures (View(), r) == SemStore.TryOp(old(View()), id, ops, pid, now)
      ensures r.result != 0 ==> sets[..] == old(sets[..]) && undo[..] == old(undo[..])
    {
      hide Valid, MapOf, Net, UndoAfter, Simulate, DeltasInRange, NewKeys, AdjustmentsInRange, Unique;
      ghost var s := View();
      TryOpValid(s, id, ops, pid, now);
      var found := Find(id);
      if found.None? || |ops| == 0 {
        return Outcome(-EINVAL, None);
      }
      var t := sets[found.value];
      var ok := ValidateOps(ops, t.nsems);
      if !ok {
        return Outcome(-EINVAL, None);
      }
      var simulation := SimulateOps(t.values, ops);
      if simulation.Stopped? {
        return StopOutcome(ops[simulation.at]);
      }
      var deltas := new int[MAX_PER_SET](_ => 0);
      var inRange := UndoDeltas(ops, deltas, t.nsems);
      if !inRange {
        return Outcome(-ERANGE, None);
      }
      var free := CountFree();
      var required := CountRequired(id, ops, pid, deltas, t.nsems);
      if required.None? {
        return Outcome(-ERANGE, None);
      }
      if required.value > free {
        return Outcome(-ENOSPC, None);
      }
      var pids := MarkPids(t.lastPids, ops, pid);
      sets[found.value] := t.(values := simulation.values, lastPids := pids);
      UndoEntriesValid(s);
      CommitUndo(id, ops, pid, deltas, t.nsems);
      sets[found.value] := sets[found.value].(otime := now);
      assert sets[..] == s.sets[found.value := sets[found.value]];
      return Outcome(0, None);
    }
  }

  // ---- Loops of tryop that only compute ----

  method ValidateOps(ops: seq<SemOp>, nsems: nat) returns (ok: bool)
    ensures ok == OpsOk(ops, nsems)
  {
    for i := 0 to |ops|
      invariant forall j :: 0 <= j < i ==> OpOk(ops[j], nsems)
    {
      if ops[i].num >= nsems || ops[i].flg !in {0, 0x800, 0x1000, 0x1800} {
        return false;
      }
    }
    return true;
  }

  /** The simulation loop works in place on a scratch copy of the values. */
  method SimulateOps(values: seq<U16>, ops: seq<SemOp>) returns (r: Simulation)
    requires OpsOk(ops, |values|)
    ensures r == Simulate(values, ops, 0)
  {
    var working := new U16[|values|](i requires 0 <= i < |values| => values[i]);
    assert working[..] == values;
    for i := 0 to |ops|
      invariant Simulate(values, ops, 0) == Simulate(working[..], ops, i)
    {
      var o := ops[i];
      var value := working[o.num];
      ghost var before := working[..];
      if o.op > 0 {
        if value + o.op > MAX_VALUE {
          return Stopped(i);
        }
        working[o.num] := value + o.op;
      } else if o.op < 0 {
        var amount: int := 0 - (o.op as int);
        if value < amount {
          return Stopped(i);
        }
        working[o.num] := value - amount;
      } else if value != 0 {
        return Stopped(i);
      }
      assert working[o.num] == value + o.op && working[..] == before[o.num := working[o.num]];
    }
    return Done(working[..]);
  }

  method UndoDeltas(ops: seq<SemOp>, deltas: array<int>, nsems: nat) returns (ok: bool)
    requires deltas.Length == MAX_PER_SET && nsems <= MAX_PER_SET && OpsOk(ops, nsems)
    requires forall n :: 0 <= n < MAX_PER_SET ==> deltas[n] == 0
    modifies deltas
    ensures ok == DeltasInRange(ops)
    ensures ok ==> forall n :: 0 <= n < MAX_PER_SET ==> deltas[n] == -Net(ops, n, true)
  {
    for i := 0 to |ops|
      invariant forall n :: 0 <= n < MAX_PER_SET ==> deltas[n] == -Net(ops[..i], n, true)
      invariant forall j, n :: 0 <= j <= i && 0 <= n < MAX_PER_SET ==> Adjustment(-Net(ops[..j], n, true))
    {
      assert ops[..i + 1][..i] == ops[..i];
      if Has(ops[i].flg, SEM_UNDO) {
        var n := ops[i].num;
        var delta := deltas[n] - ops[i].op;
        assert delta == -Net(ops[..i + 1], n, true);
        if delta < -MAX_VALUE - 1 || delta > MAX_VALUE {
          return false;
        }
        deltas[n] := delta;
      }
    }
    assert ops[..|ops|] == ops;
    return true;
  }

  method MarkPids(pids: seq<I32>, ops: seq<SemOp>, pid: I32) returns (r: seq<I32>)
    requires OpsOk(ops, |pids|)
    ensures r == SetPids(pids, ops, pid)
  {
    r := pids;
    for i := 0 to |ops|
      invariant |r| == |pids|
      invariant forall n :: 0 <= n < |pids| ==> r[n] == if exists j :: 0 <= j < i && ops[j].num == n then pid else pids[n]
    {
      r := r[ops[i].num := pid];
    }
  }
}
