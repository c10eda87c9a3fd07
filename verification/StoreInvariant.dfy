/** Every store operation keeps `Valid`, and touches only the set it names. */
module StoreInvariant {
  import opened Types
  import opened SemStore

  // ---- Identifiers ----

  /** Encoding and decoding identifiers are mutually inverse, and identifiers are positive. */
  lemma IdRoundTrip(index: nat, generation: U16)
    requires index < MAX_SETS && 1 <= generation <= MAX_GENERATION
    ensures MakeId(index, generation) > 0
    ensures DecodeId(MakeId(index, generation)) == Some((index, generation))
  {
    assert (generation * 0x1_0000 + (index + 1)) / 0x1_0000 == generation;
  }

  lemma DecodeRoundTrip(id: I32)
    ensures match DecodeId(id)
            case None => forall i: nat, g: U16 :: i < MAX_SETS && 1 <= g <= MAX_GENERATION ==> MakeId(i, g) != id
            case Some((i, g)) => i < MAX_SETS && 1 <= g <= MAX_GENERATION && MakeId(i, g) == id
  {
    forall i: nat, g: U16 | i < MAX_SETS && 1 <= g <= MAX_GENERATION && MakeId(i, g) == id
      ensures DecodeId(id) == Some((i, g))
    {
      IdRoundTrip(i, g);
    }
    assert id == id / 0x1_0000 * 0x1_0000 + id % 0x1_0000;
  }

  /** Live identifiers in the same slot are equal. */
  lemma SameSlot(s: Store, id: I32, other: I32)
    requires |s.sets| == MAX_SETS && Live(s, id) && Live(s, other)
    ensures Slot(s, id) == Slot(s, other) <==> id == other
  {
    DecodeRoundTrip(id);
    DecodeRoundTrip(other);
  }

  /** The facts about a valid store that do not need its quantifiers. */
  lemma ValidFacts(s: Store)
    requires Valid(s)
    ensures |s.sets| == MAX_SETS && |s.undo| <= MAX_UNDO
    ensures forall k :: k in s.undo ==> s.undo[k] != 0
  {
  }

  lemma ValueRange(s: Store, id: I32, num: int)
    requires Valid(s) && HasSem(s, id, num)
    ensures 0 <= Value(s, id, num) <= MAX_VALUE
  {
  }

  lemma LiveFacts(s: Store, id: I32)
    requires Valid(s) && Live(s, id)
    ensures var t := SetOf(s, id);
            1 <= t.nsems <= MAX_PER_SET && |t.values| == |t.lastPids| == |t.negative| == |t.zero| == t.nsems
  {
  }

  // ---- Framing ----

  /** Replacing a set under an unchanged generation leaves every other identifier as it was. */
  lemma PutSetFrame(s: Store, id: I32, t: SemSet, other: I32)
    requires |s.sets| == MAX_SETS && Live(s, id)
    requires t.active && t.generation == SetOf(s, id).generation
    ensures var s' := PutSet(s, id, t);
            && |s'.sets| == MAX_SETS
            && (Live(s', other) <==> Live(s, other))
            && (Live(s, other) ==> SetOf(s', other) == if other == id then t else SetOf(s, other))
  {
    if Live(s, other) {
      SameSlot(s, id, other);
    }
  }

  /** Two slot tables with the same live sets, keys and sizes. */
  predicate SameShape(sets: seq<SemSet>, sets': seq<SemSet>) {
    && |sets| == |sets'| == MAX_SETS
    && forall i :: 0 <= i < MAX_SETS ==>
         && sets'[i].active == sets[i].active && sets'[i].generation == sets[i].generation
         && sets'[i].key == sets[i].key && sets'[i].nsems == sets[i].nsems
  }

  lemma ShapeValid(s: Store, sets: seq<SemSet>, undo: map<UndoKey, I32>)
    requires Valid(s) && SameShape(s.sets, sets)
    requires forall i :: 0 <= i < MAX_SETS ==> SetValid(sets[i])
    requires forall k :: k in undo ==> UndoValid(s, k, undo[k])
    requires |undo| <= MAX_UNDO
    ensures Valid(Store(sets, undo))
  {
    forall i, j | 0 <= i < j < MAX_SETS && SharedKey(sets[i], sets[j])
      ensures sets[i].key == IPC_PRIVATE
    {
      assert SharedKey(s.sets[i], s.sets[j]);
    }
    forall k | k in undo
      ensures UndoValid(Store(sets, undo), k, undo[k])
    {
      assert UndoValid(s, k, undo[k]);
    }
  }

  /** Validity of a store in which one live set and the undo map were replaced. */
  lemma PutSetValid(s: Store, id: I32, t: SemSet, undo: map<UndoKey, I32>)
    requires Valid(s) && Live(s, id)
    requires t.active && SetValid(t)
    requires t.generation == SetOf(s, id).generation && t.key == SetOf(s, id).key && t.nsems == SetOf(s, id).nsems
    requires forall k :: k in undo ==> UndoValid(s, k, undo[k])
    requires |undo| <= MAX_UNDO
    ensures Valid(PutSet(s, id, t).(undo := undo))
  {
    ShapeValid(s, PutSet(s, id, t).sets, undo);
  }

  lemma {:induction false} SubsetSize<T>(a: set<T>, b: set<T>)
    requires a <= b
    ensures |a| <= |b|
  {
    if a != {} {
      var x :| x in a;
      SubsetSize(a - {x}, b - {x});
    }
  }

  lemma SubmapSize<K, V>(a: map<K, V>, b: map<K, V>)
    requires a.Keys <= b.Keys
    ensures |a| <= |b|
  {
    SubsetSize(a.Keys, b.Keys);
    assert |a| == |a.Keys| && |b| == |b.Keys|;
  }

  lemma ClearedValid(s: Store, id: I32, num: Option<int>)
    requires Valid(s)
    ensures var undo := Cleared(s.undo, id, num);
            && |undo| <= MAX_UNDO
            && forall k :: k in undo ==> UndoValid(s, k, undo[k])
  {
    SubmapSize(Cleared(s.undo, id, num), s.undo);
  }

  // ---- Each operation keeps validity ----

  /** Filling an inactive slot keeps validity and every live set. */
  lemma InstallValid(s: Store, i: nat, t: SemSet)
    requires Valid(s) && i < MAX_SETS && !s.sets[i].active
    requires t.active && SetValid(t)
    requires t.key == IPC_PRIVATE || forall j :: 0 <= j < MAX_SETS ==> !SharedKey(s.sets[j], t)
    ensures Valid(s.(sets := s.sets[i := t]))
    ensures forall id :: Live(s, id) ==> Live(s.(sets := s.sets[i := t]), id) &&
                                         SetOf(s.(sets := s.sets[i := t]), id) == SetOf(s, id)
    ensures forall id :: Live(s.(sets := s.sets[i := t]), id) <==> Live(s, id) || id == MakeId(i, t.generation)
    ensures !Live(s, MakeId(i, t.generation))
    ensures SetOf(s.(sets := s.sets[i := t]), MakeId(i, t.generation)) == t
  {
    hide Valid;
    ValidFacts(s);
    InstalledValid(s, i, t);
    IdRoundTrip(i, t.generation);
    forall id {
      InstallFrame(s, i, t, id);
    }
  }

  lemma InstallFrame(s: Store, i: nat, t: SemSet, id: I32)
    requires |s.sets| == MAX_SETS && i < MAX_SETS && !s.sets[i].active && t.active && SetValid(t)
    ensures Live(s, id) ==> Live(s.(sets := s.sets[i := t]), id) && SetOf(s.(sets := s.sets[i := t]), id) == SetOf(s, id)
    ensures Live(s.(sets := s.sets[i := t]), id) <==> Live(s, id) || id == MakeId(i, t.generation)
  {
    IdRoundTrip(i, t.generation);
    DecodeRoundTrip(id);
  }

  lemma InstalledValid(s: Store, i: nat, t: SemSet)
    requires Valid(s) && i < MAX_SETS && !s.sets[i].active
    requires t.active && SetValid(t)
    requires t.key == IPC_PRIVATE || forall j :: 0 <= j < MAX_SETS ==> !SharedKey(s.sets[j], t)
    ensures Valid(s.(sets := s.sets[i := t]))
  {
    var s' := s.(sets := s.sets[i := t]);
    forall a, b | 0 <= a < b < MAX_SETS && SharedKey(s'.sets[a], s'.sets[b])
      ensures s'.sets[a].key == IPC_PRIVATE
    {
      assert a != i && b != i ==> SharedKey(s.sets[a], s.sets[b]);
      assert a == i ==> SharedKey(s.sets[b], t);
      assert b == i ==> SharedKey(s.sets[a], t);
    }
    forall k | k in s'.undo
      ensures UndoValid(s', k, s'.undo[k])
    {
      assert UndoValid(s, k, s.undo[k]);
      InstallFrame(s, i, t, k.semid);
    }
  }

  /** semget either returns an error or a known set, changing nothing, or fills one inactive slot. */
  lemma GetAsCases(s: Store, key: I32, nsems: I32, flags: I32, who: Identity, now: I64)
    requires Valid(s)
    ensures var (s', r) := GetAs(s, key, nsems, flags, who, now);
            match CreationSlot(s, key, nsems, flags)
            case None => s' == s
            case Some(i) =>
              var t := Created(s.sets[i], key, nsems, flags, who, now);
              && i < MAX_SETS && !s.sets[i].active && SetValid(t) && r == MakeId(i, t.generation)
              && s' == s.(sets := s.sets[i := t])
              && (t.key == IPC_PRIVATE || forall j :: 0 <= j < MAX_SETS ==> !SharedKey(s.sets[j], t))
  {
  }

  lemma GetAsValid(s: Store, key: I32, nsems: I32, flags: I32, who: Identity, now: I64)
    requires Valid(s)
    ensures Valid(GetAs(s, key, nsems, flags, who, now).0)
    ensures GetAs(s, key, nsems, flags, who, now).0.undo == s.undo
    ensures forall id :: Live(s, id) ==> Live(GetAs(s, key, nsems, flags, who, now).0, id) &&
                                         SetOf(GetAs(s, key, nsems, flags, who, now).0, id) == SetOf(s, id)
  {
    GetAsCases(s, key, nsems, flags, who, now);
    var slot := CreationSlot(s, key, nsems, flags);
    if slot.Some? {
      InstallValid(s, slot.value, Created(s.sets[slot.value], key, nsems, flags, who, now));
    }
  }

  lemma RemoveValid(s: Store, id: I32)
    requires Valid(s)
    ensures Valid(Remove(s, id).0)
    ensures !Live(Remove(s, id).0, id)
    ensures forall other :: Live(Remove(s, id).0, other) <==> other != id && Live(s, other)
    ensures forall other :: other != id && Live(s, other) ==> SetOf(Remove(s, id).0, other) == SetOf(s, other)
    ensures Live(s, id) ==> forall k :: k in Remove(s, id).0.undo <==> k in s.undo && k.semid != id
  {
    hide Valid;
    ValidFacts(s);
    if Live(s, id) {
      forall other
        ensures Live(Remove(s, id).0, other) <==> other != id && Live(s, other)
        ensures other != id && Live(s, other) ==> SetOf(Remove(s, id).0, other) == SetOf(s, other)
      {
        RemoveFrame(s, id, other);
      }
      RemovedValid(s, id);
    }
  }

  lemma RemoveFrame(s: Store, id: I32, other: I32)
    requires Valid(s) && Live(s, id)
    ensures |Remove(s, id).0.sets| == MAX_SETS
    ensures Live(Remove(s, id).0, other) <==> other != id && Live(s, other)
    ensures other != id && Live(s, other) ==> SetOf(Remove(s, id).0, other) == SetOf(s, other)
  {
    hide Valid, Cleared;
    ValidFacts(s);
    if Live(s, other) {
      SameSlot(s, id, other);
    }
  }

  lemma RemovedValid(s: Store, id: I32)
    requires Valid(s) && Live(s, id)
    ensures Valid(Remove(s, id).0)
  {
    var s' := Remove(s, id).0;
    ClearedValid(s, id, None);
    forall i | 0 <= i < MAX_SETS
      ensures SetValid(s'.sets[i])
    {
      assert i != Slot(s, id) ==> s'.sets[i] == s.sets[i];
    }
    forall a, b | 0 <= a < b < MAX_SETS && SharedKey(s'.sets[a], s'.sets[b])
      ensures s'.sets[a].key == IPC_PRIVATE
    {
      assert SharedKey(s.sets[a], s.sets[b]);
    }
    forall k | k in s'.undo
      ensures UndoValid(s', k, s'.undo[k])
    {
      assert UndoValid(s, k, s.undo[k]);
      RemoveFrame(s, id, k.semid);
    }
  }

  lemma SetValValid(s: Store, id: I32, num: int, value: U32, pid: I32, now: I64)
    requires Valid(s)
    ensures Valid(SetVal(s, id, num, value, pid, now).0)
  {
    if HasSem(s, id, num) && value <= MAX_VALUE {
      var t := SetOf(s, id);
      ClearedValid(s, id, Some(num));
      PutSetValid(s, id, t.(values := t.values[num := value], lastPids := t.lastPids[num := pid], ctime := now),
                  Cleared(s.undo, id, Some(num)));
    }
  }

  lemma SetAllValid(s: Store, id: I32, values: seq<U16>, pid: I32, now: I64)
    requires Valid(s)
    ensures Valid(SetAll(s, id, values, pid, now).0)
  {
    if SetAll(s, id, values, pid, now).1 == 0 {
      ClearedValid(s, id, None);
      PutSetValid(s, id, SetOf(s, id).(values := values, lastPids := seq(|values|, _ => pid), ctime := now),
                  Cleared(s.undo, id, None));
    }
  }

  lemma SetMetadataValid(s: Store, id: I32, uid: U32, gid: U32, mode: U32, who: Identity, now: I64)
    requires Valid(s)
    ensures Valid(SetMetadata(s, id, uid, gid, mode, who, now).0)
    ensures SetMetadata(s, id, uid, gid, mode, who, now).0.undo == s.undo
    ensures var s' := SetMetadata(s, id, uid, gid, mode, who, now).0;
            forall other :: (Live(s', other) <==> Live(s, other)) && (Live(s, other) ==>
              SetOf(s', other).values == SetOf(s, other).values && SetOf(s', other).nsems == SetOf(s, other).nsems &&
              SetOf(s', other).negative == SetOf(s, other).negative && SetOf(s', other).zero == SetOf(s, other).zero)
  {
    if SetMetadata(s, id, uid, gid, mode, who, now).1 == 0 {
      var t := SetOf(s, id);
      var t' := t.(perm := t.perm.(gid := gid, mode := mode), ctime := now);
      PutSetValid(s, id, t', s.undo);
      forall other {
        PutSetFrame(s, id, t', other);
      }
    }
  }

  lemma AdjustWaitCountValid(s: Store, id: I32, num: int, zero: bool, adjustment: int)
    requires Valid(s)
    ensures Valid(AdjustWaitCount(s, id, num, zero, adjustment).0)
    ensures AdjustWaitCount(s, id, num, zero, adjustment).0.undo == s.undo
    ensures var s' := AdjustWaitCount(s, id, num, zero, adjustment).0;
            forall other :: (Live(s', other) <==> Live(s, other)) && (Live(s, other) ==>
              SetOf(s', other).values == SetOf(s, other).values && SetOf(s', other).nsems == SetOf(s, other).nsems)
  {
    var (s', r) := AdjustWaitCount(s, id, num, zero, adjustment);
    if r == 0 && s' != s {
      PutSetValid(s, id, SetOf(s', id), s.undo);
      forall other {
        PutSetFrame(s, id, SetOf(s', id), other);
      }
    }
  }

  lemma AdjustFailed(s: Store, id: I32, num: int, zero: bool, adjustment: int)
    requires Valid(s) && AdjustWaitCount(s, id, num, zero, adjustment).1 != 0
    ensures AdjustWaitCount(s, id, num, zero, adjustment).0 == s
  {
  }

  /** The undo map after a list is valid, and no larger than the capacity check allows. */
  lemma UndoAfterValid(s: Store, id: I32, ops: seq<SemOp>, pid: I32)
    requires Valid(s) && Live(s, id) && OpsOk(ops, SetOf(s, id).nsems)
    requires UndoVerdict(s.undo, id, ops, pid, SetOf(s, id).nsems) == 0
    ensures var undo := UndoAfter(s.undo, id, ops, pid, SetOf(s, id).nsems);
            |undo| <= MAX_UNDO && forall k :: k in undo ==> UndoValid(s, k, undo[k])
  {
    var nsems := SetOf(s, id).nsems;
    UndoAfterInRange(s.undo, id, ops, pid, nsems);
    var undo := UndoAfter(s.undo, id, ops, pid, nsems);
    var fresh' := NewKeys(s.undo, id, ops, pid, nsems);
    SubsetSize(undo.Keys, s.undo.Keys + fresh');
    assert |s.undo.Keys + fresh'| == |s.undo.Keys| + |fresh'|;
    assert |undo| == |undo.Keys| && |s.undo| == |s.undo.Keys|;
  }

  /** An operation list that does not succeed changes nothing: not the values, the pids, the times or the undo table. */
  lemma TryOpAtomic(s: Store, id: I32, ops: seq<SemOp>, pid: I32, now: I64)
    requires Valid(s)
    ensures TryOp(s, id, ops, pid, now).1.result != 0 ==> TryOp(s, id, ops, pid, now).0 == s
    ensures TryOp(s, id, ops, pid, now).1.result == 0 ==> Live(s, id)
  {
    hide Valid, Simulate, UndoVerdict, UndoAfter, OpsOk, SetPids;
  }

  lemma {:induction false} SimulateValid(values: seq<U16>, ops: seq<SemOp>, i: nat)
    requires i <= |ops| && OpsOk(ops, |values|)
    requires forall n :: 0 <= n < |values| ==> values[n] <= MAX_VALUE
    ensures var r := Simulate(values, ops, i);
            r.Done? ==> forall n :: 0 <= n < |values| ==> r.values[n] <= MAX_VALUE
    decreases |ops| - i
  {
    if i < |ops| && Enabled(values[ops[i].num], ops[i].op) {
      SimulateValid(values[ops[i].num := values[ops[i].num] + ops[i].op], ops, i + 1);
    }
  }

  /** tryop keeps validity; the only set it can change is the one it names. */
  lemma TryOpValid(s: Store, id: I32, ops: seq<SemOp>, pid: I32, now: I64)
    requires Valid(s)
    ensures Valid(TryOp(s, id, ops, pid, now).0)
  {
    var (s', r) := TryOp(s, id, ops, pid, now);
    if r.result == 0 {
      var t := SetOf(s, id);
      SimulateValid(t.values, ops, 0);
      UndoAfterValid(s, id, ops, pid);
      PutSetValid(s, id, t.(values := Simulate(t.values, ops, 0).values, lastPids := SetPids(t.lastPids, ops, pid), otime := now),
                  UndoAfter(s.undo, id, ops, pid, t.nsems));
    }
  }

  /** Exit restores a slot without changing what makes it live. */
  lemma RestoredShape(t: SemSet, index: nat, undo: map<UndoKey, I32>, done: set<UndoKey>, pid: I32, now: I64)
    requires index < MAX_SETS && SetValid(t)
    ensures var t' := Restored(t, index, undo, done, pid, now);
            && SetValid(t') && t'.active == t.active && t'.generation == t.generation && t'.key == t.key
            && t'.nsems == t.nsems && t'.negative == t.negative && t'.zero == t.zero
  {
  }

  /** Exit keeps every identifier live or dead, and restores each live set by its own entries. */
  lemma ExitSetOf(s: Store, pid: I32, now: I64, id: I32)
    requires Valid(s) && pid > 0
    ensures var s' := ProcessExit(s, pid, now).0;
            && |s'.sets| == MAX_SETS
            && (Live(s', id) <==> Live(s, id))
            && (Live(s, id) ==>
                 && MakeId(Slot(s, id), SetOf(s, id).generation) == id
                 && SetOf(s', id) == Restored(SetOf(s, id), Slot(s, id), s.undo, KeysOfPid(s.undo, pid), pid, now)
                 && SetOf(s', id).nsems == SetOf(s, id).nsems
                 && SetOf(s', id).negative == SetOf(s, id).negative && SetOf(s', id).zero == SetOf(s, id).zero)
  {
    DecodeRoundTrip(id);
    if DecodeId(id).Some? {
      var i := DecodeId(id).value.0;
      RestoredShape(s.sets[i], i, s.undo, KeysOfPid(s.undo, pid), pid, now);
    }
  }

  lemma ExitValid(s: Store, pid: I32, now: I64)
    requires Valid(s)
    ensures Valid(ProcessExit(s, pid, now).0)
  {
    if pid > 0 {
      var s' := ProcessExit(s, pid, now).0;
      forall i | 0 <= i < MAX_SETS {
        RestoredShape(s.sets[i], i, s.undo, KeysOfPid(s.undo, pid), pid, now);
      }
      SubmapSize(s'.undo, s.undo);
      ShapeValid(s, s'.sets, s'.undo);
    }
  }

  /** One semaphore of a restored set. */
  lemma RestoredAt(t: SemSet, index: nat, undo: map<UndoKey, I32>, pid: I32, now: I64, num: U16)
    requires index < MAX_SETS && SetValid(t) && t.active && num < t.nsems
    ensures |Restored(t, index, undo, KeysOfPid(undo, pid), pid, now).values| == t.nsems
    ensures Restored(t, index, undo, KeysOfPid(undo, pid), pid, now).values[num] ==
            Clamp(t.values[num] + Adj(undo, UndoKey(pid, MakeId(index, t.generation), num)))
  {
    assert UndoKey(pid, MakeId(index, t.generation), num) in undo <==>
           UndoKey(pid, MakeId(index, t.generation), num) in KeysOfPid(undo, pid);
  }

  lemma ExitUndo(s: Store, pid: I32, now: I64, k: UndoKey)
    requires Valid(s) && pid > 0
    ensures Adj(ProcessExit(s, pid, now).0.undo, k) == if k.pid == pid then 0 else Adj(s.undo, k)
  {
  }

  /** Process exit is a pointwise clamped addition of the dead process's adjustments. */
  lemma ExitPointwise(s: Store, pid: I32, now: I64, id: I32, num: U16)
    requires Valid(s) && pid > 0
    ensures Valid(ProcessExit(s, pid, now).0)
    ensures HasSem(ProcessExit(s, pid, now).0, id, num) <==> HasSem(s, id, num)
    ensures HasSem(s, id, num) ==> Value(ProcessExit(s, pid, now).0, id, num) ==
                                   Clamp(Value(s, id, num) + Adj(s.undo, UndoKey(pid, id, num)))
  {
    ExitSetOf(s, pid, now, id);
    ExitValid(s, pid, now);
    if HasSem(s, id, num) {
      RestoredAt(SetOf(s, id), Slot(s, id), s.undo, pid, now, num);
    }
  }

  /** With nothing to restore, exit changes no set. */
  lemma RestoredNone(s: Store, pid: I32, now: I64)
    requires Valid(s)
    ensures RestoredSets(s.sets, s.undo, {}, pid, now) == s.sets
  {
    forall i | 0 <= i < MAX_SETS
      ensures Restored(s.sets[i], i, s.undo, {}, pid, now) == s.sets[i]
    {
      var t, t' := s.sets[i], Restored(s.sets[i], i, s.undo, {}, pid, now);
      assert t'.values == t.values && t'.lastPids == t.lastPids;
    }
  }

  /** Exit is idempotent: a second exit of the same process finds nothing to restore. */
  lemma ExitIdempotent(s: Store, pid: I32, now: I64, later: I64)
    requires Valid(s) && pid > 0
    ensures Valid(ProcessExit(s, pid, now).0)
    ensures ProcessExit(ProcessExit(s, pid, now).0, pid, later) == (ProcessExit(s, pid, now).0, 0)
  {
    hide Valid, RestoredSets;
    ExitValid(s, pid, now);
    var s' := ProcessExit(s, pid, now).0;
    assert KeysOfPid(s'.undo, pid) == {};
    RestoredNone(s', pid, later);
    assert s'.undo - {} == s'.undo;
  }

  /** A new set starts at zero, and no adjustment names it, whatever its slot held before. */
  lemma NewSetClean(s: Store, key: I32, nsems: I32, flags: I32, who: Identity, now: I64)
    requires Valid(s) && CreationSlot(s, key, nsems, flags).Some?
    ensures var (s', id) := GetAs(s, key, nsems, flags, who, now);
            && Valid(s') && Live(s', id) && SetOf(s', id).nsems == nsems
            && (forall n :: 0 <= n < nsems ==> SetOf(s', id).values[n] == 0)
            && forall k :: k in s'.undo ==> k.semid != id
  {
    GetAsCases(s, key, nsems, flags, who, now);
    var i := CreationSlot(s, key, nsems, flags).value;
    InstallValid(s, i, Created(s.sets[i], key, nsems, flags, who, now));
  }
}
