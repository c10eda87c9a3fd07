/** Generation-tagged identifiers and shared keys over runs of the store. */
module Identifiers {
  import opened Types
  import opened SemStore
  import opened StoreInvariant
  import opened StoreCalls

  /** The event is a successful removal from the slot. */
  predicate RemovesFrom(s: Store, e: StoreEvent, slot: nat)
    requires |s.sets| == MAX_SETS
  {
    e.Perform? && e.call.RemoveSet? && Live(s, e.call.id) && Slot(s, e.call.id) == slot
  }

  ghost function Removals(s: Store, es: seq<StoreEvent>, slot: nat): nat
    requires Valid(s)
    decreases |es|
  {
    if es == [] then 0
    else (if RemovesFrom(s, es[0], slot) then 1 else 0) + Removals(Apply(s, es[0]), es[1..], slot)
  }

  /** The generation `r` removals later, counted around the cycle 1..0x7fff. */
  function Advance(g: int, r: nat): int {
    1 + (g - 1 + r) % MAX_GENERATION
  }

  /** Only removals advance a generation that has been used. */
  lemma EventGeneration(s: Store, e: StoreEvent, slot: nat)
    requires Valid(s) && slot < MAX_SETS && s.sets[slot].generation >= 1
    ensures Apply(s, e).sets[slot].generation ==
            if RemovesFrom(s, e, slot) then NextGeneration(s.sets[slot].generation) else s.sets[slot].generation
  {
    if e.Perform? && e.call.SemGet? {
      GetAsCases(s, e.call.key, e.call.nsems, e.call.flags, e.actor.who, e.now);
    } else if !(e.Perform? && e.call.RemoveSet?) {
      EventShape(s, e);
      hide Apply;
    }
  }

  lemma GenerationRange(s: Store, slot: nat)
    requires Valid(s) && slot < MAX_SETS
    ensures s.sets[slot].generation <= MAX_GENERATION
  {
  }

  lemma {:induction false} RunGeneration(s: Store, es: seq<StoreEvent>, slot: nat)
    requires Valid(s) && slot < MAX_SETS && s.sets[slot].generation >= 1
    ensures |Run(s, es).sets| == MAX_SETS
    ensures Run(s, es).sets[slot].generation == Advance(s.sets[slot].generation, Removals(s, es, slot))
    decreases |es|
  {
    hide Valid, Apply, RemovesFrom, Advance, NextGeneration;
    ValidFacts(s);
    var g := s.sets[slot].generation;
    GenerationRange(s, slot);
    AdvanceFixed(g, 0);
    ValidFacts(Run(s, es));
    if es == [] {
    } else {
      ValidFacts(Apply(s, es[0]));
      EventGeneration(s, es[0], slot);
      NextInRange(g);
      RunGeneration(Apply(s, es[0]), es[1..], slot);
      AdvanceOnce(g, Removals(Apply(s, es[0]), es[1..], slot));
    }
  }

  lemma AdvanceOnce(g: U16, r: nat)
    requires 1 <= g <= MAX_GENERATION
    ensures Advance(NextGeneration(g), r) == Advance(g, r + 1)
  {
    if g == MAX_GENERATION {
      assert (g - 1 + (r + 1)) % MAX_GENERATION == (MAX_GENERATION + r) % MAX_GENERATION == r % MAX_GENERATION;
    }
  }

  /** The event that removes a set. */
  function RemovalOf(id: I32): StoreEvent { Perform(RemoveSet(id), Actor(1, Identity(0, 0)), 0) }

  /** A removed identifier comes back only when its slot is active and has been removed a multiple of 32767
      times, counting its own removal; until then it stays dead. */
  lemma RemovedIdStaysDead(s: Store, id: I32, es: seq<StoreEvent>)
    requires Valid(s) && Live(s, id)
    ensures var slot := Slot(s, id);
            var s1 := Apply(s, RemovalOf(id));
            Live(Run(s1, es), id) <==>
            Run(s1, es).sets[slot].active && (1 + Removals(s1, es, slot)) % MAX_GENERATION == 0
  {
    hide Apply, Run, Removals, Valid, Advance, NextGeneration;
    ValidFacts(s);
    var slot := Slot(s, id);
    var g := s.sets[slot].generation;
    var s1 := Apply(s, RemovalOf(id));
    DecodeRoundTrip(id);
    ValidFacts(s1);
    ValidFacts(Run(s1, es));
    EventGeneration(s, RemovalOf(id), slot);
    NextInRange(g);
    RunGeneration(s1, es, slot);
    AdvanceOnce(g, Removals(s1, es, slot));
    AdvanceFixed(g, 1 + Removals(s1, es, slot));
  }

  lemma NextInRange(g: U16)
    requires 1 <= g
    ensures 1 <= NextGeneration(g) <= MAX_GENERATION
  {
  }

  lemma AdvanceFixed(g: int, r: nat)
    requires 1 <= g <= MAX_GENERATION
    ensures Advance(g, r) == g <==> r % MAX_GENERATION == 0
  {
    var q, m := r / MAX_GENERATION, r % MAX_GENERATION;
    assert r == q * MAX_GENERATION + m;
    ModShift(g - 1 + m, q);
  }

  lemma {:induction false} ModShift(x: nat, q: nat)
    ensures (x + q * MAX_GENERATION) % MAX_GENERATION == x % MAX_GENERATION
  {
    if q > 0 {
      ModShift(x, q - 1);
      assert x + q * MAX_GENERATION == (x + (q - 1) * MAX_GENERATION) + MAX_GENERATION;
    }
  }

  /** The identifier a call names, if it names one. */
  function Target(c: Call): Option<I32> {
    match c
    case RemoveSet(id) => Some(id)
    case GetValue(id, _) => Some(id)
    case GetLastPid(id, _) => Some(id)
    case GetNegative(id, _) => Some(id)
    case GetZero(id, _) => Some(id)
    case SetValue(id, _, _) => Some(id)
    case GetValues(id, _) => Some(id)
    case SetValues(id, _) => Some(id)
    case SemOps(id, _, _) => Some(id)
    case Stat(id) => Some(id)
    case SetMeta(id, _, _, _) => Some(id)
    case _ => None
  }

  /** Every call that names a dead identifier is rejected and changes nothing. */
  lemma DeadIdRejected(s: Store, c: Call, a: Actor, now: I64)
    requires Valid(s) && Target(c).Some? && !Live(s, Target(c).value)
    ensures Exec(s, c, a, now) == (s, Reply(-EINVAL, Nothing))
  {
    hide Valid, Simulate, UndoVerdict, Cleared;
  }

  // ---- Shared keys ----

  /** semget with a shared key and no IPC_EXCL finds the live set of that key. */
  lemma KeyedLookup(s: Store, id: I32, nsems: I32, flags: I32, who: Identity, now: I64)
    requires Valid(s) && Live(s, id) && SetOf(s, id).key != IPC_PRIVATE
    requires 0 <= nsems <= SetOf(s, id).nsems && !(Has(flags, IPC_CREAT) && Has(flags, IPC_EXCL))
    ensures GetAs(s, SetOf(s, id).key, nsems, flags, who, now) == (s, id)
  {
    var key := SetOf(s, id).key;
    var known := FirstSlot(s.sets, 0, (t: SemSet) => t.active && t.key == key);
    assert known <= Slot(s, id);
    if known < Slot(s, id) {
      assert SharedKey(s.sets[known], s.sets[Slot(s, id)]);
    }
    DecodeRoundTrip(id);
  }

  lemma EventKeepsSet(s: Store, e: StoreEvent, id: I32)
    requires Valid(s) && Live(s, id) && (e.Perform? ==> e.call != RemoveSet(id))
    ensures Live(Apply(s, e), id)
    ensures SetOf(Apply(s, e), id).key == SetOf(s, id).key && SetOf(Apply(s, e), id).nsems == SetOf(s, id).nsems
  {
    if e.Perform? && e.call.SemGet? {
      GetAsValid(s, e.call.key, e.call.nsems, e.call.flags, e.actor.who, e.now);
    } else if e.Perform? && e.call.RemoveSet? {
      RemoveValid(s, e.call.id);
    } else {
      EventShape(s, e);
      SameShapeLive(s, Apply(s, e), id);
      hide Apply, Valid;
    }
  }

  /** Until a set is removed, semget on its shared key keeps returning the same identifier. */
  lemma {:induction false} KeyedIdStable(s: Store, es: seq<StoreEvent>, id: I32, nsems: I32, flags: I32, who: Identity, now: I64)
    requires Valid(s) && Live(s, id) && SetOf(s, id).key != IPC_PRIVATE && NeverRemoved(es, id)
    requires 0 <= nsems <= SetOf(s, id).nsems && !(Has(flags, IPC_CREAT) && Has(flags, IPC_EXCL))
    ensures GetAs(Run(s, es), SetOf(s, id).key, nsems, flags, who, now) == (Run(s, es), id)
    decreases |es|
  {
    if es == [] {
      KeyedLookup(s, id, nsems, flags, who, now);
    } else {
      EventKeepsSet(s, es[0], id);
      KeyedIdStable(Apply(s, es[0]), es[1..], id, nsems, flags, who, now);
    }
  }
}
