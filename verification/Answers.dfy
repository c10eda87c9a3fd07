/** What every call on the store answers and changes, said over live sets. */
module Answers {
  import opened Types
  import opened SemStore
  import opened StoreInvariant
  import opened StoreCalls
  import opened Identifiers

  // ---- semget ----

  /** Some live set has the key. */
  ghost predicate KeyLive(s: Store, key: I32)
    requires |s.sets| == MAX_SETS
  {
    exists id :: Live(s, id) && SetOf(s, id).key == key
  }

  /** A live set with the key has fewer semaphores than asked for, or the number asked for is negative. */
  ghost predicate TooSmall(s: Store, key: I32, nsems: int)
    requires |s.sets| == MAX_SETS
  {
    exists id :: Live(s, id) && SetOf(s, id).key == key && !(0 <= nsems <= SetOf(s, id).nsems)
  }

  predicate Full(s: Store)
    requires |s.sets| == MAX_SETS
  {
    forall i :: 0 <= i < MAX_SETS ==> s.sets[i].active
  }

  /** Whether semget has to make a set: for a private key always, for a shared one if none has it and it is asked to. */
  ghost predicate Makes(s: Store, key: I32, flags: int)
    requires |s.sets| == MAX_SETS
  {
    key == 0 || (!KeyLive(s, key) && Has(flags, 0x200))
  }

  /** A set as semget makes it. */
  predicate Pristine(t: SemSet, key: I32, nsems: int, flags: int, who: Identity, now: I64) {
    && t.active && t.key == key && t.nsems == nsems
    && |t.values| == |t.lastPids| == |t.negative| == |t.zero| == nsems
    && (forall n :: 0 <= n < nsems ==> t.values[n] == t.lastPids[n] == t.negative[n] == t.zero[n] == 0)
    && t.perm == Perm(who.uid, who.gid, who.uid, who.gid, flags % 0x200) && t.otime == 0 && t.ctime == now
  }

  /** Every identifier but one names the same set as before, or still none. */
  ghost predicate OthersKept(s: Store, s': Store, id: I32)
    requires |s.sets| == |s'.sets| == MAX_SETS
  {
    forall other :: other != id ==> (Live(s', other) <==> Live(s, other)) && (Live(s, other) ==> SetOf(s', other) == SetOf(s, other))
  }

  lemma SlotLive(s: Store, i: nat)
    requires Valid(s) && i < MAX_SETS && s.sets[i].active
    ensures s.sets[i].generation <= MAX_GENERATION
    ensures var id := MakeId(i, s.sets[i].generation); id > 0 && Live(s, id) && SetOf(s, id) == s.sets[i]
  {
    IdRoundTrip(i, s.sets[i].generation);
  }

  /** The scan for a shared key finds the one live set that has it, if there is one. */
  lemma KnownSlot(s: Store, key: I32)
    requires Valid(s)
    ensures var known := FirstSlot(s.sets, 0, (t: SemSet) => t.active && t.key == key);
            && (known < MAX_SETS <==> KeyLive(s, key))
            && (known < MAX_SETS && key != IPC_PRIVATE ==>
                  s.sets[known].generation <= MAX_GENERATION &&
                  forall id :: Live(s, id) && SetOf(s, id).key == key <==> id == MakeId(known, s.sets[known].generation))
  {
    var known := FirstSlot(s.sets, 0, (t: SemSet) => t.active && t.key == key);
    if known < MAX_SETS {
      SlotLive(s, known);
      forall id | Live(s, id) && SetOf(s, id).key == key && key != IPC_PRIVATE
        ensures id == MakeId(known, s.sets[known].generation)
      {
        var i := Slot(s, id);
        assert SharedKey(s.sets[known], s.sets[i]);
        SameSlot(s, id, MakeId(known, s.sets[known].generation));
      }
    }
  }

  lemma FreeSlot(s: Store)
    requires |s.sets| == MAX_SETS
    ensures FirstSlot(s.sets, 0, (t: SemSet) => !t.active) == MAX_SETS <==> Full(s)
  {
  }

  /** Exactly when semget gives which error; otherwise it gives a live set with the key. */
  lemma SemGetAnswers(s: Store, key: I32, nsems: I32, flags: I32, a: Actor, now: I64)
    requires Valid(s)
    ensures |s.sets| == MAX_SETS
    ensures var r := Exec(s, SemGet(key, nsems, flags), a, now).1;
            var both := Has(flags, 0x200) && Has(flags, 0x400);
            && r.payload == Nothing
            && (r.result == -EEXIST <==> key != 0 && KeyLive(s, key) && both)
            && (r.result == -ENOENT <==> key != 0 && !KeyLive(s, key) && !Has(flags, 0x200))
            && (r.result == -EINVAL <==>
                  if Makes(s, key, flags) then !(1 <= nsems <= 512)
                  else KeyLive(s, key) && !both && TooSmall(s, key, nsems))
            && (r.result == -ENOSPC <==> Makes(s, key, flags) && 1 <= nsems <= 512 && Full(s))
            && (r.result in {-EEXIST, -ENOENT, -EINVAL, -ENOSPC} || r.result > 0)
  {
    hide Valid, Full;
    ValidFacts(s);
    KnownSlot(s, key);
    FreeSlot(s);
    var known := FirstSlot(s.sets, 0, (t: SemSet) => t.active && t.key == key);
    if known < MAX_SETS {
      SlotLive(s, known);
    }
    var slot := CreationSlot(s, key, nsems, flags);
    if slot.Some? {
      var i := slot.value;
      GenerationRange(s, i);
      IdRoundTrip(i, if s.sets[i].generation == 0 then 1 else s.sets[i].generation);
    }
  }

  /** What a successful semget returns is live with its key. If the set was there already nothing changes; otherwise it
      is pristine, its identifier was dead, and no other set and no adjustment changes. An error changes nothing. */
  lemma SemGetEffect(s: Store, key: I32, nsems: I32, flags: I32, a: Actor, now: I64)
    requires Valid(s)
    ensures |s.sets| == |Exec(s, SemGet(key, nsems, flags), a, now).0.sets| == MAX_SETS
    ensures var (s', r) := Exec(s, SemGet(key, nsems, flags), a, now);
            var id := r.result;
            if id <= 0 || !Makes(s, key, flags) then s' == s && (id > 0 ==> Live(s, id) && SetOf(s, id).key == key && key != 0)
            else
              && !Live(s, id) && Live(s', id) && Pristine(SetOf(s', id), key, nsems, flags, a.who, now)
              && OthersKept(s, s', id) && s'.undo == s.undo
  {
    hide Valid, Full;
    ValidFacts(s);
    KnownSlot(s, key);
    var known := FirstSlot(s.sets, 0, (t: SemSet) => t.active && t.key == key);
    if known < MAX_SETS {
      SlotLive(s, known);
    }
    GetAsCases(s, key, nsems, flags, a.who, now);
    var slot := CreationSlot(s, key, nsems, flags);
    if slot.Some? {
      var i := slot.value;
      InstallValid(s, i, Created(s.sets[i], key, nsems, flags, a.who, now));
    }
  }

  /** After a successful semget on a shared key, every semget on it that does not insist on a new set and asks for no
      more semaphores returns the same identifier, whoever calls it. */
  lemma SemGetAgain(s: Store, c: Call, a: Actor, now: I64, n: I32, flags: I32, b: Actor, later: I64)
    requires Valid(s) && c.SemGet? && c.key != 0 && Exec(s, c, a, now).1.result > 0
    requires !(Has(flags, 0x200) && Has(flags, 0x400))
    ensures Valid(Exec(s, c, a, now).0) && |Exec(s, c, a, now).0.sets| == MAX_SETS && Live(Exec(s, c, a, now).0, Exec(s, c, a, now).1.result)
    ensures 0 <= n <= SetOf(Exec(s, c, a, now).0, Exec(s, c, a, now).1.result).nsems ==>
              Exec(Exec(s, c, a, now).0, SemGet(c.key, n, flags), b, later) == Exec(s, c, a, now)
  {
    hide Valid, GetAs;
    ExecValid(s, c, a, now);
    SemGetEffect(s, c.key, c.nsems, c.flags, a, now);
    var (s', r) := Exec(s, c, a, now);
    if 0 <= n <= SetOf(s', r.result).nsems {
      KeyedLookup(s', r.result, n, flags, b.who, later);
      SemGetAnswers(s, c.key, c.nsems, c.flags, a, now);
    }
  }

  // ---- SETVAL, SETALL, IPC_RMID, IPC_SET ----

  /** The adjustments are as before except those a predicate selects, which are gone. */
  ghost predicate Dropped(undo: map<UndoKey, I32>, undo': map<UndoKey, I32>, gone: UndoKey -> bool) {
    forall k :: (k in undo' <==> k in undo && !gone(k)) && (k in undo' ==> undo'[k] == undo[k])
  }

  lemma SetValAnswers(s: Store, id: I32, num: U32, value: U32, a: Actor, now: I64)
    requires Valid(s)
    ensures |s.sets| == |Exec(s, SetValue(id, num, value), a, now).0.sets| == MAX_SETS
    ensures var (s', r) := Exec(s, SetValue(id, num, value), a, now);
            if !HasSem(s, id, num) then s' == s && r == Reply(-EINVAL, Nothing)
            else if value > 32767 then s' == s && r == Reply(-ERANGE, Nothing)
            else
              && r == Reply(0, Nothing) && Live(s', id) && OthersKept(s, s', id)
              && Dropped(s.undo, s'.undo, (k: UndoKey) => k.semid == id && k.semnum == num)
              && var t, t' := SetOf(s, id), SetOf(s', id);
              && |t.values| == |t'.values| == |t.lastPids| == |t'.lastPids| == t.nsems
              && (forall n :: 0 <= n < t.nsems ==> t'.values[n] == if n == num then value else t.values[n])
              && (forall n :: 0 <= n < t.nsems ==> t'.lastPids[n] == if n == num then a.pid else t.lastPids[n])
              && t' == t.(values := t'.values, lastPids := t'.lastPids, ctime := now)
  {
    hide Valid;
    ValidFacts(s);
    if HasSem(s, id, num) && value <= MAX_VALUE {
      LiveFacts(s, id);
      var s' := Exec(s, SetValue(id, num, value), a, now).0;
      forall other {
        PutSetFrame(s, id, SetOf(s', id), other);
      }
    }
  }

  lemma SetAllAnswers(s: Store, id: I32, values: seq<U16>, a: Actor, now: I64)
    requires Valid(s)
    ensures |s.sets| == |Exec(s, SetValues(id, values), a, now).0.sets| == MAX_SETS
    ensures var (s', r) := Exec(s, SetValues(id, values), a, now);
            if !Live(s, id) || |values| != SetOf(s, id).nsems then s' == s && r == Reply(-EINVAL, Nothing)
            else if exists i :: 0 <= i < |values| && values[i] > 32767 then s' == s && r == Reply(-ERANGE, Nothing)
            else
              && r == Reply(0, Nothing) && Live(s', id) && OthersKept(s, s', id)
              && Dropped(s.undo, s'.undo, (k: UndoKey) => k.semid == id)
              && var t, t' := SetOf(s, id), SetOf(s', id);
              && t'.values == values && |t'.lastPids| == t.nsems && (forall n :: 0 <= n < t.nsems ==> t'.lastPids[n] == a.pid)
              && t' == t.(values := t'.values, lastPids := t'.lastPids, ctime := now)
  {
    hide Valid;
    ValidFacts(s);
    if Exec(s, SetValues(id, values), a, now).1.result == 0 {
      LiveFacts(s, id);
      var s' := Exec(s, SetValues(id, values), a, now).0;
      forall other {
        PutSetFrame(s, id, SetOf(s', id), other);
      }
    }
  }

  lemma RemoveAnswers(s: Store, id: I32, a: Actor, now: I64)
    requires Valid(s)
    ensures |s.sets| == |Exec(s, RemoveSet(id), a, now).0.sets| == MAX_SETS
    ensures var (s', r) := Exec(s, RemoveSet(id), a, now);
            if !Live(s, id) then s' == s && r == Reply(-EINVAL, Nothing)
            else r == Reply(0, Nothing) && !Live(s', id) && OthersKept(s, s', id) && Dropped(s.undo, s'.undo, (k: UndoKey) => k.semid == id)
  {
    hide Valid;
    ValidFacts(s);
    RemoveValid(s, id);
    ValidFacts(Remove(s, id).0);
  }

  /** IPC_SET is for the owner and the creator, keeps the owner, and takes only a group the caller or the set has. */
  lemma SetMetaAnswers(s: Store, id: I32, uid: U32, gid: U32, mode: U32, a: Actor, now: I64)
    requires Valid(s)
    ensures |s.sets| == |Exec(s, SetMeta(id, uid, gid, mode), a, now).0.sets| == MAX_SETS
    ensures var (s', r) := Exec(s, SetMeta(id, uid, gid, mode), a, now);
            if !Live(s, id) then s' == s && r == Reply(-EINVAL, Nothing)
            else
              var t := SetOf(s, id);
              if a.who.uid in {t.perm.uid, t.perm.cuid} && uid == t.perm.uid && gid in {t.perm.gid, a.who.gid} && mode <= 511 then
                && r == Reply(0, Nothing) && Live(s', id) && OthersKept(s, s', id) && s'.undo == s.undo
                && SetOf(s', id) == t.(perm := Perm(t.perm.uid, gid, t.perm.cuid, t.perm.cgid, mode), ctime := now)
              else s' == s && r == Reply(-EPERM, Nothing)
  {
    hide Valid;
    ValidFacts(s);
    var s' := Exec(s, SetMeta(id, uid, gid, mode), a, now).0;
    if s' != s {
      forall other {
        PutSetFrame(s, id, SetOf(s', id), other);
      }
    }
  }

  /** A waiter count moves by one unless there is no such semaphore or the count cannot be represented. */
  lemma AdjustAnswers(s: Store, id: I32, num: U16, zero: bool, up: bool)
    requires Valid(s)
    ensures |s.sets| == MAX_SETS
    ensures var (s', r) := AdjustWaitCount(s, id, num, zero, if up then 1 else -1);
            if !HasSem(s, id, num) then s' == s && r == -EINVAL
            else
              && |SetOf(s, id).zero| == |SetOf(s, id).negative| == SetOf(s, id).nsems
              && var t := SetOf(s, id);
                 var count := if zero then t.zero[num] else t.negative[num];
              if (up && count == 0xffff_ffff) || (!up && count == 0) then s' == s && r == -ERANGE
              else
                && r == 0 && s'.undo == s.undo && |s'.sets| == MAX_SETS && Live(s', id) && OthersKept(s, s', id)
                && SetOf(s', id) == if zero then t.(zero := t.zero[num := if up then count + 1 else count - 1])
                                    else t.(negative := t.negative[num := if up then count + 1 else count - 1])
  {
    hide Valid;
    ValidFacts(s);
    if Live(s, id) {
      LiveFacts(s, id);
    }
    var (s', r) := AdjustWaitCount(s, id, num, zero, if up then 1 else -1);
    if HasSem(s, id, num) && r == 0 {
      forall other {
        PutSetFrame(s, id, SetOf(s', id), other);
      }
    }
  }

  /** Exit refuses what is no process, and reports a change exactly when the process had adjustments. */
  lemma ExitAnswers(s: Store, pid: I32, now: I64)
    requires Valid(s)
    ensures ProcessExit(s, pid, now).1 == -EINVAL <==> pid <= 0
    ensures ProcessExit(s, pid, now).1 > 0 <==> pid > 0 && exists k :: k in s.undo && k.pid == pid
    ensures pid <= 0 || (forall k :: k in s.undo ==> k.pid != pid) ==> ProcessExit(s, pid, now).0 == s
  {
    hide Valid, RestoredSets;
    if k :| k in s.undo && k.pid == pid {
      assert k in KeysOfPid(s.undo, pid);
    } else if pid > 0 {
      assert KeysOfPid(s.undo, pid) == {};
      RestoredNone(s, pid, now);
      assert s.undo - {} == s.undo;
    }
  }

  // ---- Reading ----

  /** The calls that only read, and what they read. */
  lemma ReadAnswers(s: Store, c: Call, a: Actor, now: I64)
    requires Valid(s)
    ensures |s.sets| == MAX_SETS
    ensures c.Ping? ==> Exec(s, c, a, now) == (s, Reply(0, Nothing))
    ensures c.GetValue? ==>
              Exec(s, c, a, now) == (s, Reply(if HasSem(s, c.id, c.num) then Value(s, c.id, c.num) else -EINVAL, Nothing))
    ensures c.GetLastPid? ==>
              Exec(s, c, a, now).0 == s && Exec(s, c, a, now).1.payload == Nothing &&
              (HasSem(s, c.id, c.num) ==>
                 |SetOf(s, c.id).lastPids| == SetOf(s, c.id).nsems && Exec(s, c, a, now).1.result == SetOf(s, c.id).lastPids[c.num]) &&
              (!HasSem(s, c.id, c.num) ==> Exec(s, c, a, now).1.result == -EINVAL)
    ensures c.GetValues? ==>
              Exec(s, c, a, now) == (s, if Live(s, c.id) && c.count == SetOf(s, c.id).nsems then Reply(0, Values(SetOf(s, c.id).values))
                                        else Reply(-EINVAL, Nothing))
  {
    hide Valid, HasSem;
    ValidFacts(s);
    ReadWidths(s, c);
  }

  lemma ReadWidths(s: Store, c: Call)
    requires Valid(s)
    ensures |s.sets| == MAX_SETS
    ensures c.GetValue? && HasSem(s, c.id, c.num) ==> 0 <= Value(s, c.id, c.num) <= 32767
    ensures c.GetLastPid? && HasSem(s, c.id, c.num) ==> |SetOf(s, c.id).lastPids| == SetOf(s, c.id).nsems && c.num < SetOf(s, c.id).nsems
  {
  }

  /** STAT describes the set an identifier names; STAT_INDEX goes through the slots and also gives the identifier, under
      which STAT tells the same. */
  lemma StatAnswers(s: Store, id: I32, index: U32, a: Actor, now: I64)
    requires Valid(s)
    ensures |s.sets| == MAX_SETS
    ensures var (s', r) := Exec(s, Stat(id), a, now);
            && s' == s && (r == Reply(-EINVAL, Nothing) <==> !Live(s, id))
            && (Live(s, id) ==>
                  && r.result == 0 && r.payload.Meta? && DecodeId(id).Some?
                  && var t, m := SetOf(s, id), r.payload.meta;
                  && m.key == t.key && m.perm == t.perm && m.nsems == t.nsems && m.otime == t.otime && m.ctime == t.ctime
                  && m.sequence == DecodeId(id).value.1)
    ensures var (s', r) := Exec(s, StatIndex(index), a, now);
            && s' == s && (r == Reply(-EINVAL, Nothing) <==> index >= MAX_SETS || !s.sets[index].active)
            && (r.result > 0 ==> Live(s, r.result) && Slot(s, r.result) == index && Exec(s, Stat(r.result), a, now).1 == Reply(0, r.payload))
            && (r.result > 0 || r == Reply(-EINVAL, Nothing))
  {
    hide Valid;
    ValidFacts(s);
    if index < MAX_SETS && s.sets[index].active {
      SlotLive(s, index);
      GenerationRange(s, index);
      IdRoundTrip(index, s.sets[index].generation);
    }
  }

  /** IPC_INFO and SEM_INFO: the limits, the highest slot in use, and, for SEM_INFO, how many sets there are. */
  lemma InfoAnswers(s: Store, dynamic: bool, a: Actor, now: I64)
    requires Valid(s)
    ensures |s.sets| == MAX_SETS
    ensures var (s', r) := Exec(s, Info(dynamic), a, now);
            && s' == s && 0 <= r.result < MAX_SETS
            && (forall i :: 0 <= i < MAX_SETS && s.sets[i].active ==> i <= r.result)
            && (r.result > 0 ==> s.sets[r.result].active)
            && r.payload.Limits? && |r.payload.limits| == 10
            && r.payload.limits[..7] == [128, 128, 65536, 128, 512, 512, 512] && r.payload.limits[8] == 32767
            && (dynamic ==> r.payload.limits[7] == |set i | 0 <= i < MAX_SETS && s.sets[i].active|)
            && r.payload.limits[9] == if dynamic then CountSems(s.sets) else 32767
  {
    hide Valid;
    ValidFacts(s);
    ActiveCount(s.sets);
  }

  /** The total of semaphores SEM_INFO tells: zero for no sets, and moved by exactly the slot that changes. */
  lemma {:induction false} SemsTotal(sets: seq<SemSet>, i: nat, t: SemSet)
    requires i < |sets|
    ensures CountSems([]) == 0
    ensures CountSems(sets[i := t]) - CountSems(sets) ==
            (if t.active then t.nsems else 0) - (if sets[i].active then sets[i].nsems else 0)
    decreases |sets|
  {
    var n := |sets| - 1;
    if i < n {
      assert sets[i := t][..n] == sets[..n][i := t];
      SemsTotal(sets[..n], i, t);
    } else {
      assert sets[i := t][..n] == sets[..n];
    }
  }

  lemma {:induction false} ActiveCount(sets: seq<SemSet>)
    ensures CountActive(sets) == |set i | 0 <= i < |sets| && sets[i].active|
  {
    var all := set i | 0 <= i < |sets| && sets[i].active;
    if sets != [] {
      var n := |sets| - 1;
      var init := set i | 0 <= i < n && sets[..n][i].active;
      ActiveCount(sets[..n]);
      assert all == if sets[n].active then init + {n} else init;
    }
  }
}
