/** The calls a client can make, executed directly on the store, and runs of store events. */
module StoreCalls {
  import opened Types
  import opened SemStore
  import opened StoreInvariant

  datatype Actor = Actor(pid: I32, who: Identity)

  datatype Call =
    | Ping
    | SemGet(key: I32, nsems: I32, flags: I32)
    | RemoveSet(id: I32)
    | GetValue(id: I32, num: U32)
    | GetLastPid(id: I32, num: U32)
    | GetNegative(id: I32, num: U32)
    | GetZero(id: I32, num: U32)
    | SetValue(id: I32, num: U32, value: U32)
    | GetValues(id: I32, count: nat)
    | SetValues(id: I32, values: seq<U16>)
    | SemOps(id: I32, ops: seq<SemOp>, timeout: Option<I64>)
    | Stat(id: I32)
    | StatIndex(index: U32)
    | SetMeta(id: I32, uid: U32, gid: U32, mode: U32)
    | Info(dynamic: bool)

  datatype Metadata = Metadata(
    key: I32, perm: Perm, nsems: U32, otime: I64, ctime: I64, sequence: U32)

  datatype Payload = Nothing | Values(values: seq<U16>) | Wait(reason: Reason) | Meta(meta: Metadata) | Limits(limits: seq<I32>)

  datatype Reply = Reply(result: I32, payload: Payload)

  function MetadataOf(t: SemSet): Metadata {
    Metadata(t.key, t.perm, t.nsems, t.otime, t.ctime, t.generation)
  }

  // ---- Limits reported by IPC_INFO and SEM_INFO ----

  const SET_STRUCT_SIZE: I32 := 80

  function CountActive(sets: seq<SemSet>): (n: nat)
    ensures n <= |sets|
  {
    if sets == [] then 0
    else CountActive(sets[..|sets| - 1]) + if sets[|sets| - 1].active then 1 else 0
  }

  function CountSems(sets: seq<SemSet>): (n: nat)
    ensures (forall i :: 0 <= i < |sets| && sets[i].active ==> sets[i].nsems <= MAX_PER_SET) ==> n <= MAX_PER_SET * |sets|
  {
    if sets == [] then 0
    else CountSems(sets[..|sets| - 1]) + if sets[|sets| - 1].active then sets[|sets| - 1].nsems else 0
  }

  /** The highest active index, or zero when no set is active. */
  function Highest(sets: seq<SemSet>): (n: nat)
    ensures sets == [] ==> n == 0
    ensures n < |sets| || n == 0
    ensures forall i :: 0 <= i < |sets| && sets[i].active ==> i <= n
    ensures n > 0 ==> sets[n].active
  {
    if sets == [] then 0
    else if sets[|sets| - 1].active then |sets| - 1
    else Highest(sets[..|sets| - 1])
  }

  function LimitsOf(s: Store, dynamic: bool): (r: seq<I32>)
    requires Valid(s)
    ensures |r| == 10
  {
    [MAX_SETS, MAX_SETS, MAX_SETS * MAX_PER_SET, MAX_SETS, MAX_PER_SET, MAX_PER_SET, MAX_PER_SET,
     if dynamic then CountActive(s.sets) else SET_STRUCT_SIZE, MAX_VALUE,
     if dynamic then CountSems(s.sets) else MAX_VALUE]
  }

  /** One call executed directly on the store. */
  ghost function Exec(s: Store, c: Call, a: Actor, now: I64): (r: (Store, Reply))
    requires Valid(s)
  {
    match c
    case Ping => (s, Reply(0, Nothing))
    case SemGet(key, nsems, flags) =>
      var (s', r) := GetAs(s, key, nsems, flags, a.who, now); (s', Reply(r, Nothing))
    case RemoveSet(id) => var (s', r) := Remove(s, id); (s', Reply(r, Nothing))
    case GetValue(id, num) => (s, Reply(GetVal(s, id, num), Nothing))
    case GetLastPid(id, num) => (s, Reply(GetPid(s, id, num), Nothing))
    case GetNegative(id, num) => (s, Reply(GetWaitCount(s, id, num, false), Nothing))
    case GetZero(id, num) => (s, Reply(GetWaitCount(s, id, num, true), Nothing))
    case SetValue(id, num, value) =>
      var (s', r) := SetVal(s, id, num, value, a.pid, now); (s', Reply(r, Nothing))
    case GetValues(id, count) =>
      var (r, values) := GetAll(s, id, count); (s, Reply(r, if r == 0 then Values(values) else Nothing))
    case SetValues(id, values) =>
      var (s', r) := SetAll(s, id, values, a.pid, now); (s', Reply(r, Nothing))
    case SemOps(id, ops, timeout) =>
      var (s', r) := TryOp(s, id, ops, a.pid, now);
      (s', Reply(r.result, if r.result == OP_BLOCKED && r.reason.Some? then Wait(r.reason.value) else Nothing))
    case Stat(id) => (s, if Live(s, id) then Reply(0, Meta(MetadataOf(SetOf(s, id)))) else Reply(-EINVAL, Nothing))
    case StatIndex(i) =>
      (s, if i < MAX_SETS && s.sets[i].active then Reply(MakeId(i, s.sets[i].generation), Meta(MetadataOf(s.sets[i])))
          else Reply(-EINVAL, Nothing))
    case SetMeta(id, uid, gid, mode) =>
      var (s', r) := SetMetadata(s, id, uid, gid, mode, a.who, now); (s', Reply(r, Nothing))
    case Info(dynamic) => (s, Reply(Highest(s.sets), Limits(LimitsOf(s, dynamic))))
  }

  /** Everything that can happen to a store. */
  datatype StoreEvent =
    | Perform(call: Call, actor: Actor, now: I64)
    | Exited(pid: I32, now: I64)
    | Count(id: I32, num: U16, zero: bool, adjustment: int)

  ghost function Apply(s: Store, e: StoreEvent): (s': Store)
    requires Valid(s)
    ensures Valid(s')
  {
    ApplyValid(s, e);
    Applied(s, e)
  }

  ghost function Applied(s: Store, e: StoreEvent): Store
    requires Valid(s)
  {
    match e
    case Perform(c, a, now) => Exec(s, c, a, now).0
    case Exited(pid, now) => ProcessExit(s, pid, now).0
    case Count(id, num, zero, adjustment) => AdjustWaitCount(s, id, num, zero, adjustment).0
  }

  /** Every store operation keeps the store invariant. */
  lemma ExecValid(s: Store, c: Call, a: Actor, now: I64)
    requires Valid(s)
    ensures Valid(Exec(s, c, a, now).0)
  {
    hide Valid, TryOp, GetAs, Remove, SetVal, SetAll, SetMetadata;
    match c
    case SemGet(key, nsems, flags) => GetAsValid(s, key, nsems, flags, a.who, now);
    case RemoveSet(id) => RemoveValid(s, id);
    case SetValue(id, num, value) => SetValValid(s, id, num, value, a.pid, now);
    case SetValues(id, values) => SetAllValid(s, id, values, a.pid, now);
    case SemOps(id, ops, timeout) => TryOpValid(s, id, ops, a.pid, now);
    case SetMeta(id, uid, gid, mode) => SetMetadataValid(s, id, uid, gid, mode, a.who, now);
    case _ =>
  }

  lemma ApplyValid(s: Store, e: StoreEvent)
    requires Valid(s)
    ensures Valid(Applied(s, e))
  {
    match e
    case Perform(c, a, now) => ExecValid(s, c, a, now);
    case Exited(pid, now) => ExitValid(s, pid, now);
    case Count(id, num, zero, adjustment) => AdjustWaitCountValid(s, id, num, zero, adjustment);
  }

  /** Every event other than semget and removal keeps which sets exist, their keys and their sizes. */
  lemma EventShape(s: Store, e: StoreEvent)
    requires Valid(s) && !(e.Perform? && (e.call.SemGet? || e.call.RemoveSet?))
    ensures SameShape(s.sets, Apply(s, e).sets)
  {
    hide Valid, Exec, ProcessExit;
    match e
    case Perform(c, a, now) => CallShape(s, c, a, now);
    case Exited(pid, now) => ExitShape(s, pid, now);
    case Count(_, _, _, _) => ValidFacts(s);
  }

  lemma ExitShape(s: Store, pid: I32, now: I64)
    requires Valid(s)
    ensures SameShape(s.sets, ProcessExit(s, pid, now).0.sets)
  {
    if pid > 0 {
      forall i | 0 <= i < MAX_SETS {
        RestoredShape(s.sets[i], i, s.undo, KeysOfPid(s.undo, pid), pid, now);
      }
      hide Restored;
    }
  }

  lemma CallShape(s: Store, c: Call, a: Actor, now: I64)
    requires Valid(s) && !c.SemGet? && !c.RemoveSet?
    ensures SameShape(s.sets, Exec(s, c, a, now).0.sets)
  {
    hide Valid, Cleared, UndoVerdict, UndoAfter, OpsOk, Simulate, SetPids;
    ValidFacts(s);
  }

  lemma SameShapeLive(s: Store, s': Store, id: I32)
    requires SameShape(s.sets, s'.sets)
    ensures Live(s', id) <==> Live(s, id)
    ensures Live(s, id) ==> SetOf(s', id).key == SetOf(s, id).key && SetOf(s', id).nsems == SetOf(s, id).nsems
  {
  }

  predicate NeverRemoved(es: seq<StoreEvent>, id: I32) {
    forall i :: 0 <= i < |es| && es[i].Perform? ==> es[i].call != RemoveSet(id)
  }

  /** The store after a run; `Valid` holds in every state along it. */
  ghost function Run(s: Store, es: seq<StoreEvent>): (s': Store)
    requires Valid(s)
    ensures Valid(s')
    decreases |es|
  {
    if es == [] then s else Run(Apply(s, es[0]), es[1..])
  }

  lemma {:induction false} RunAppend(s: Store, es: seq<StoreEvent>, fs: seq<StoreEvent>)
    requires Valid(s)
    ensures Run(s, es + fs) == Run(Run(s, es), fs)
    decreases |es|
  {
    if es == [] {
      assert es + fs == fs;
    } else {
      assert (es + fs)[1..] == es[1..] + fs;
      RunAppend(Apply(s, es[0]), es[1..], fs);
    }
  }
}
