/** The semaphore store as a value: generation-tagged sets and a finite map of undo adjustments.
    Every operation of the store is a function from one store value to the next. */
module SemStore {
  import opened Types

  datatype SemOp = SemOp(num: U16, op: I16, flg: U16)

  datatype Identity = Identity(uid: U32, gid: U32)

  datatype Perm = Perm(uid: U32, gid: U32, cuid: U32, cgid: U32, mode: U32)

  /** One slot. An inactive slot keeps only its generation. */
  datatype SemSet = SemSet(
    active: bool, generation: U16, key: I32, nsems: U16, perm: Perm, otime: I64, ctime: I64,
    values: seq<U16>, lastPids: seq<I32>, negative: seq<U32>, zero: seq<U32>)

  datatype UndoKey = UndoKey(pid: I32, semid: I32, semnum: U16)

  datatype Store = Store(sets: seq<SemSet>, undo: map<UndoKey, I32>)

  /** Why an operation list cannot proceed: the semaphore and the kind of wait. */
  datatype Reason = Reason(num: U16, zero: bool)

  /** What tryop reports: a result code and, for a list that cannot proceed, the reason. */
  datatype Outcome = Outcome(result: I32, reason: Option<Reason>)

  // ---- Identifiers ----

  function MakeId(index: nat, generation: U16): (id: I32)
    requires index < MAX_SETS && generation <= MAX_GENERATION
  {
    generation * 0x1_0000 + (index + 1)
  }

  /** The slot and generation an identifier names, if it is well formed. */
  function DecodeId(id: I32): (r: Option<(nat, U16)>) {
    if id <= 0 || id % 0x1_0000 == 0 || id % 0x1_0000 > MAX_SETS || id / 0x1_0000 == 0 then None
    else Some((id % 0x1_0000 - 1, id / 0x1_0000))
  }

  function NextGeneration(g: U16): U16 {
    if g >= MAX_GENERATION then 1 else g + 1
  }

  // ---- Validity ----

  predicate SetValid(t: SemSet) {
    if t.active then
      && 1 <= t.generation <= MAX_GENERATION
      && 1 <= t.nsems <= MAX_PER_SET
      && |t.values| == |t.lastPids| == |t.negative| == |t.zero| == t.nsems
      && forall i :: 0 <= i < |t.values| ==> t.values[i] <= MAX_VALUE
    else t == Vacant(t.generation) && t.generation <= MAX_GENERATION
  }

  function Vacant(generation: U16): SemSet {
    SemSet(false, generation, 0, 0, Perm(0, 0, 0, 0, 0), 0, 0, [], [], [], [])
  }

  predicate Adjustment(x: int) { -MAX_VALUE - 1 <= x <= MAX_VALUE }

  predicate UndoValid(s: Store, k: UndoKey, adjustment: int)
    requires |s.sets| == MAX_SETS
  {
    Live(s, k.semid) && k.semnum < SetOf(s, k.semid).nsems && adjustment != 0 && Adjustment(adjustment)
  }

  predicate SharedKey(t: SemSet, u: SemSet) { t.active && u.active && t.key == u.key }

  /** What every operation keeps: well-formed slots, one set per shared key, and an undo table
      whose entries are non-zero, in range, and name a semaphore that exists. */
  ghost predicate Valid(s: Store) {
    && |s.sets| == MAX_SETS
    && (forall i :: 0 <= i < MAX_SETS ==> SetValid(s.sets[i]))
    && (forall i, j :: 0 <= i < j < MAX_SETS && SharedKey(s.sets[i], s.sets[j]) ==> s.sets[i].key == IPC_PRIVATE)
    && (forall k :: k in s.undo ==> UndoValid(s, k, s.undo[k]))
    && |s.undo| <= MAX_UNDO
  }

  function Empty(): (s: Store)
    ensures Valid(s)
  {
    Store(seq(MAX_SETS, i => Vacant(0)), map[])
  }

  // ---- Access ----

  /** An identifier is live when its slot is active under the same generation. */
  predicate Live(s: Store, id: I32)
    requires |s.sets| == MAX_SETS
  {
    DecodeId(id).Some? &&
    var (i, g) := DecodeId(id).value;
    s.sets[i].active && s.sets[i].generation == g
  }

  function Slot(s: Store, id: I32): (i: nat)
    requires |s.sets| == MAX_SETS && Live(s, id)
    ensures i < MAX_SETS
  {
    DecodeId(id).value.0
  }

  function SetOf(s: Store, id: I32): SemSet
    requires |s.sets| == MAX_SETS && Live(s, id)
  {
    s.sets[Slot(s, id)]
  }

  function PutSet(s: Store, id: I32, t: SemSet): Store
    requires |s.sets| == MAX_SETS && Live(s, id)
  {
    s.(sets := s.sets[Slot(s, id) := t])
  }

  predicate HasSem(s: Store, id: I32, num: int)
    requires |s.sets| == MAX_SETS
  {
    Live(s, id) && 0 <= num < SetOf(s, id).nsems
  }

  function Value(s: Store, id: I32, num: int): int
    requires Valid(s) && HasSem(s, id, num)
  {
    SetOf(s, id).values[num]
  }

  function Adj(undo: map<UndoKey, I32>, k: UndoKey): int {
    if k in undo then undo[k] else 0
  }

  // ---- semget and removal ----

  /** The first slot at or after `from` satisfying `p`, or the number of slots. */
  function FirstSlot(sets: seq<SemSet>, from: nat, p: SemSet -> bool): (r: nat)
    requires from <= |sets|
    ensures from <= r <= |sets|
    ensures forall i :: from <= i < r ==> !p(sets[i])
    ensures r < |sets| ==> p(sets[r])
    decreases |sets| - from
  {
    if from == |sets| || p(sets[from]) then from else FirstSlot(sets, from + 1, p)
  }

  function Created(t: SemSet, key: I32, nsems: int, flags: int, who: Identity, now: I64): SemSet
    requires 1 <= nsems <= MAX_PER_SET
  {
    SemSet(true, if t.generation == 0 then 1 else t.generation, key, nsems,
           Perm(who.uid, who.gid, who.uid, who.gid, flags % 0x200), 0, now,
           seq(nsems, _ => 0), seq(nsems, _ => 0), seq(nsems, _ => 0), seq(nsems, _ => 0))
  }

  /** The slot where semget creates a set, when it creates one. */
  function CreationSlot(s: Store, key: I32, nsems: int, flags: int): (r: Option<nat>)
    ensures r.Some? ==> r.value < |s.sets| && !s.sets[r.value].active && 1 <= nsems <= MAX_PER_SET
  {
    var known := FirstSlot(s.sets, 0, (t: SemSet) => t.active && t.key == key);
    var free := FirstSlot(s.sets, 0, (t: SemSet) => !t.active);
    if key != IPC_PRIVATE && (known < |s.sets| || !Has(flags, IPC_CREAT)) then None
    else if nsems <= 0 || nsems > MAX_PER_SET || free == |s.sets| then None
    else Some(free)
  }

  function GetAs(s: Store, key: I32, nsems: I32, flags: I32, who: Identity, now: I64): (r: (Store, I32))
    requires Valid(s)
  {
    var known := FirstSlot(s.sets, 0, (t: SemSet) => t.active && t.key == key);
    if key != IPC_PRIVATE && known < |s.sets| then
      (s, if Has(flags, IPC_CREAT) && Has(flags, IPC_EXCL) then -EEXIST
          else if nsems < 0 || nsems > s.sets[known].nsems then -EINVAL
          else MakeId(known, s.sets[known].generation))
    else if key != IPC_PRIVATE && !Has(flags, IPC_CREAT) then (s, -ENOENT)
    else if nsems <= 0 || nsems > MAX_PER_SET then (s, -EINVAL)
    else
      match CreationSlot(s, key, nsems, flags)
      case None => (s, -ENOSPC)
      case Some(i) =>
        var t := Created(s.sets[i], key, nsems, flags, who, now);
        (s.(sets := s.sets[i := t]), MakeId(i, t.generation))
  }

  /** The undo map without the entries of one semaphore, or of a whole set. */
  function Cleared(undo: map<UndoKey, I32>, id: I32, num: Option<int>): (r: map<UndoKey, I32>) {
    map k | k in undo && !(k.semid == id && (num.None? || k.semnum == num.value)) :: undo[k]
  }

  function Remove(s: Store, id: I32): (r: (Store, I32))
    requires Valid(s)
  {
    if !Live(s, id) then (s, -EINVAL)
    else (PutSet(s, id, Vacant(NextGeneration(SetOf(s, id).generation))).(undo := Cleared(s.undo, id, None)), 0)
  }

  // ---- Values, pids, metadata, waiter counts ----

  function GetVal(s: Store, id: I32, num: int): I32
    requires Valid(s)
  {
    if HasSem(s, id, num) then SetOf(s, id).values[num] else -EINVAL
  }

  function GetPid(s: Store, id: I32, num: int): I32
    requires Valid(s)
  {
    if HasSem(s, id, num) then SetOf(s, id).lastPids[num] else -EINVAL
  }

  function GetAll(s: Store, id: I32, count: int): (r: (I32, seq<U16>))
    requires Valid(s)
  {
    if !Live(s, id) || count != SetOf(s, id).nsems then (-EINVAL, []) else (0, SetOf(s, id).values)
  }

  function SetVal(s: Store, id: I32, num: int, value: U32, pid: I32, now: I64): (r: (Store, I32))
    requires Valid(s)
  {
    if !HasSem(s, id, num) then (s, -EINVAL)
    else if value > MAX_VALUE then (s, -ERANGE)
    else
      var t := SetOf(s, id);
      (PutSet(s, id, t.(values := t.values[num := value], lastPids := t.lastPids[num := pid], ctime := now))
       .(undo := Cleared(s.undo, id, Some(num))), 0)
  }

  function SetAll(s: Store, id: I32, values: seq<U16>, pid: I32, now: I64): (r: (Store, I32))
    requires Valid(s)
  {
    if !Live(s, id) || |values| != SetOf(s, id).nsems then (s, -EINVAL)
    else if exists i :: 0 <= i < |values| && values[i] > MAX_VALUE then (s, -ERANGE)
    else
      var t := SetOf(s, id);
      (PutSet(s, id, t.(values := values, lastPids := seq(|values|, _ => pid), ctime := now))
       .(undo := Cleared(s.undo, id, None)), 0)
  }

  function SetMetadata(s: Store, id: I32, uid: U32, gid: U32, mode: U32, who: Identity, now: I64): (r: (Store, I32))
    requires Valid(s)
  {
    if !Live(s, id) then (s, -EINVAL)
    else
      var t := SetOf(s, id);
      if who.uid != t.perm.uid && who.uid != t.perm.cuid then (s, -EPERM)
      else if uid != t.perm.uid || (gid != t.perm.gid && gid != who.gid) || mode >= 0x200 then (s, -EPERM)
      else (PutSet(s, id, t.(perm := t.perm.(gid := gid, mode := mode), ctime := now)), 0)
  }

  function Waiting(t: SemSet, num: int, zero: bool): U32
    requires 0 <= num < |t.negative| && num < |t.zero|
  {
    if zero then t.zero[num] else t.negative[num]
  }

  function GetWaitCount(s: Store, id: I32, num: int, zero: bool): I32
    requires Valid(s)
  {
    if !HasSem(s, id, num) then -EINVAL
    else if Waiting(SetOf(s, id), num, zero) > INT_MAX then INT_MAX
    else Waiting(SetOf(s, id), num, zero)
  }

  /** Waiter counts move by one, and only while they stay representable. */
  function AdjustWaitCount(s: Store, id: I32, num: int, zero: bool, adjustment: int): (r: (Store, I32))
    requires Valid(s)
  {
    if !HasSem(s, id, num) || (adjustment != 1 && adjustment != -1) then (s, -EINVAL)
    else
      var t := SetOf(s, id);
      var count := Waiting(t, num, zero) + adjustment;
      if count < 0 || count > 0xffff_ffff then (s, -ERANGE)
      else (PutSet(s, id, if zero then t.(zero := t.zero[num := count])
                          else t.(negative := t.negative[num := count])), 0)
  }

  // ---- Process exit ----

  function Clamp(x: int): U16 {
    if x < 0 then 0 else if x > MAX_VALUE then MAX_VALUE else x
  }

  predicate Hit(done: set<UndoKey>, pid: I32, id: I32, n: int) {
    0 <= n < 0x1_0000 && UndoKey(pid, id, n) in done
  }

  predicate AnyHit(done: set<UndoKey>, pid: I32, id: I32, nsems: nat) {
    exists n :: 0 <= n < nsems && Hit(done, pid, id, n)
  }

  /** A slot after the adjustments in `done` have been added to it, each clamped to the value range. */
  function Restored(t: SemSet, index: nat, undo: map<UndoKey, I32>, done: set<UndoKey>, pid: I32, now: I64): SemSet
    requires index < MAX_SETS && SetValid(t)
  {
    if !t.active then t
    else
      var id := MakeId(index, t.generation);
      t.(values := seq(t.nsems, n requires 0 <= n < t.nsems =>
                         if Hit(done, pid, id, n) then Clamp(t.values[n] + Adj(undo, UndoKey(pid, id, n))) else t.values[n]),
         lastPids := seq(t.nsems, n requires 0 <= n < t.nsems => if Hit(done, pid, id, n) then pid else t.lastPids[n]),
         otime := if AnyHit(done, pid, id, t.nsems) then now else t.otime)
  }

  function KeysOfPid(undo: map<UndoKey, I32>, pid: I32): set<UndoKey> {
    set k | k in undo && k.pid == pid
  }

  function RestoredSets(sets: seq<SemSet>, undo: map<UndoKey, I32>, done: set<UndoKey>, pid: I32, now: I64): (r: seq<SemSet>)
    requires |sets| == MAX_SETS && forall i :: 0 <= i < MAX_SETS ==> SetValid(sets[i])
    ensures |r| == MAX_SETS
    ensures forall i :: 0 <= i < MAX_SETS ==> r[i] == Restored(sets[i], i, undo, done, pid, now)
  {
    seq(MAX_SETS, i requires 0 <= i < MAX_SETS => Restored(sets[i], i, undo, done, pid, now))
  }

  function ProcessExit(s: Store, pid: I32, now: I64): (r: (Store, I32))
    requires Valid(s)
  {
    if pid <= 0 then (s, -EINVAL)
    else
      var keys := KeysOfPid(s.undo, pid);
      (Store(RestoredSets(s.sets, s.undo, keys, pid, now), s.undo - keys), if keys == {} then 0 else 1)
  }

  // ---- Operation lists ----

  predicate OpsOk(ops: seq<SemOp>, nsems: int) {
    forall i :: 0 <= i < |ops| ==> OpOk(ops[i], nsems)
  }

  /** In range, with no flag other than IPC_NOWAIT and SEM_UNDO. */
  predicate OpOk(o: SemOp, nsems: int) {
    o.num < nsems && o.flg in {0, 0x800, 0x1000, 0x1800}
  }

  predicate Enabled(value: int, op: int) {
    if op > 0 then value + op <= MAX_VALUE else if op < 0 then value >= -op else value == 0
  }

  datatype Simulation = Done(values: seq<U16>) | Stopped(at: nat)

  /** Runs the operations from `i` on over scratch values, stopping at the first that is not enabled. */
  function Simulate(values: seq<U16>, ops: seq<SemOp>, i: nat): (r: Simulation)
    requires i <= |ops| && OpsOk(ops, |values|)
    ensures r.Done? ==> |r.values| == |values|
    ensures r.Stopped? ==> i <= r.at < |ops|
    decreases |ops| - i
  {
    if i == |ops| then Done(values)
    else
      var v := values[ops[i].num];
      if !Enabled(v, ops[i].op) then Stopped(i)
      else Simulate(values[ops[i].num := v + ops[i].op], ops, i + 1)
  }

  /** The sum of the operations on one semaphore: all of them, or only those carrying SEM_UNDO. */
  function Net(ops: seq<SemOp>, num: int, undoOnly: bool): int {
    if ops == [] then 0
    else
      var o := ops[|ops| - 1];
      Net(ops[..|ops| - 1], num, undoOnly) +
      if o.num == num && (undoOnly ==> Has(o.flg, SEM_UNDO)) then o.op else 0
  }

  /** Every prefix of the list accumulates an undo delta that stays in the adjustment range. */
  ghost predicate DeltasInRange(ops: seq<SemOp>) {
    forall i, num :: 0 <= i <= |ops| && 0 <= num < MAX_PER_SET ==> Adjustment(-Net(ops[..i], num, true))
  }

  function AdjAfter(undo: map<UndoKey, I32>, k: UndoKey, id: I32, ops: seq<SemOp>, pid: I32): int {
    Adj(undo, k) - if k.pid == pid && k.semid == id then Net(ops, k.semnum, true) else 0
  }

  /** The entries a list needs that the table does not hold yet. */
  function NewKeys(undo: map<UndoKey, I32>, id: I32, ops: seq<SemOp>, pid: I32, nsems: nat): set<UndoKey>
    requires nsems <= MAX_PER_SET
  {
    set n: U16 | n < nsems && Net(ops, n, true) != 0 && UndoKey(pid, id, n) !in undo :: UndoKey(pid, id, n)
  }

  /** The undo map with the deltas of the list added, and entries that cancel out dropped. */
  function UndoAfter(undo: map<UndoKey, I32>, id: I32, ops: seq<SemOp>, pid: I32, nsems: nat): (r: map<UndoKey, I32>)
    requires nsems <= MAX_PER_SET
    requires AdjustmentsInRange(undo, id, ops, pid, nsems)
    requires OpsOk(ops, nsems)
    requires forall k :: k in undo ==> Adjustment(undo[k])
  {
    UndoAfterInRange(undo, id, ops, pid, nsems);
    map k | k in undo.Keys + NewKeys(undo, id, ops, pid, nsems) && AdjAfter(undo, k, id, ops, pid) != 0
      :: AdjAfter(undo, k, id, ops, pid)
  }

  predicate AdjustmentsInRange(undo: map<UndoKey, I32>, id: I32, ops: seq<SemOp>, pid: I32, nsems: nat) {
    forall n: U16 :: n < nsems && Net(ops, n, true) != 0 ==>
      Adjustment(AdjAfter(undo, UndoKey(pid, id, n), id, ops, pid))
  }

  function SetPids(pids: seq<I32>, ops: seq<SemOp>, pid: I32): seq<I32> {
    seq(|pids|, n requires 0 <= n < |pids| => if exists i :: 0 <= i < |ops| && ops[i].num == n then pid else pids[n])
  }

  predicate NoWait(o: SemOp) { Has(o.flg, IPC_NOWAIT) }

  /** The verdict on an operation list whose simulation stopped at `o`. */
  function StopOutcome(o: SemOp): Outcome {
    if o.op > 0 then Outcome(-ERANGE, None)
    else Outcome(if NoWait(o) then -EAGAIN else OP_BLOCKED, Some(Reason(o.num, o.op == 0)))
  }

  /** The undo verdict on an operation list that simulates to the end. */
  ghost function UndoVerdict(undo: map<UndoKey, I32>, id: I32, ops: seq<SemOp>, pid: I32, nsems: nat): I32
    requires nsems <= MAX_PER_SET && |undo| <= MAX_UNDO
  {
    if !DeltasInRange(ops) || !AdjustmentsInRange(undo, id, ops, pid, nsems) then -ERANGE
    else if |NewKeys(undo, id, ops, pid, nsems)| > MAX_UNDO - |undo| then -ENOSPC
    else 0
  }

  ghost function TryOp(s: Store, id: I32, ops: seq<SemOp>, pid: I32, now: I64): (r: (Store, Outcome))
    requires Valid(s)
  {
    if !Live(s, id) || ops == [] || !OpsOk(ops, SetOf(s, id).nsems) then (s, Outcome(-EINVAL, None))
    else
      var t := SetOf(s, id);
      match Simulate(t.values, ops, 0)
      case Stopped(at) => (s, StopOutcome(ops[at]))
      case Done(values) =>
        var verdict := UndoVerdict(s.undo, id, ops, pid, t.nsems);
        if verdict != 0 then (s, Outcome(verdict, None))
        else (PutSet(s, id, t.(values := values, lastPids := SetPids(t.lastPids, ops, pid), otime := now))
              .(undo := UndoAfter(s.undo, id, ops, pid, t.nsems)), Outcome(0, None))
  }

  lemma UndoAfterInRange(undo: map<UndoKey, I32>, id: I32, ops: seq<SemOp>, pid: I32, nsems: nat)
    requires nsems <= MAX_PER_SET
    requires AdjustmentsInRange(undo, id, ops, pid, nsems)
    requires OpsOk(ops, nsems)
    requires forall k :: k in undo ==> Adjustment(undo[k])
    ensures forall k :: k in undo.Keys + NewKeys(undo, id, ops, pid, nsems) ==>
                          Adjustment(AdjAfter(undo, k, id, ops, pid))
  {
    forall k | k in undo.Keys + NewKeys(undo, id, ops, pid, nsems)
      ensures Adjustment(AdjAfter(undo, k, id, ops, pid))
    {
      if k.pid == pid && k.semid == id {
        assert k == UndoKey(pid, id, k.semnum);
        if k.semnum >= nsems {
          NetZero(ops, k.semnum, true, nsems);
        }
      }
    }
  }

  lemma {:induction false} NetZero(ops: seq<SemOp>, num: int, undoOnly: bool, nsems: int)
    requires OpsOk(ops, nsems) && (num >= nsems)
    ensures Net(ops, num, undoOnly) == 0
  {
    if ops != [] {
      NetZero(ops[..|ops| - 1], num, undoOnly, nsems);
    }
  }
}
