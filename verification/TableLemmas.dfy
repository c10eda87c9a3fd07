/** Ghost bookkeeping for the loops of the in-memory store. */
module TableLemmas {
  import opened Types
  import opened SemStore
  import opened StoreInvariant
  import opened UndoTable

  // ---- Commit loop ----

  /** The adjustment of `k` once the deltas of semaphores below `n` are committed. */
  function AdjUpTo(m: map<UndoKey, I32>, k: UndoKey, id: I32, ops: seq<SemOp>, pid: I32, n: int): int {
    Adj(m, k) - if k.pid == pid && k.semid == id && k.semnum < n then Net(ops, k.semnum, true) else 0
  }

  /** The entries still to be created by the commit loop from semaphore `n` on. */
  function ToCreate(m: map<UndoKey, I32>, id: I32, ops: seq<SemOp>, pid: I32, n: nat, nsems: nat): set<UndoKey>
    requires nsems <= MAX_PER_SET
  {
    set k | k in NewKeys(m, id, ops, pid, nsems) && k.semnum >= n
  }

  /** The commit loop's invariant: entries are non-zero, semaphores below `n` are committed, and the table has
      room for every entry still to be created. */
  ghost predicate Committed(m: map<UndoKey, I32>, cur: map<UndoKey, I32>, id: I32, ops: seq<SemOp>, pid: I32, n: nat, nsems: nat)
    requires nsems <= MAX_PER_SET
  {
    && (forall k :: k in cur ==> cur[k] != 0)
    && (forall k :: Adj(cur, k) == AdjUpTo(m, k, id, ops, pid, n))
    && |cur| + |ToCreate(m, id, ops, pid, n, nsems)| <= MAX_UNDO
    && (forall k :: k in m ==> m[k] != 0 && Adjustment(m[k]))
    && OpsOk(ops, nsems) && AdjustmentsInRange(m, id, ops, pid, nsems)
  }

  lemma CommitStart(m: map<UndoKey, I32>, id: I32, ops: seq<SemOp>, pid: I32, nsems: nat)
    requires nsems <= MAX_PER_SET && OpsOk(ops, nsems) && |m| <= MAX_UNDO
    requires forall k :: k in m ==> m[k] != 0 && Adjustment(m[k])
    requires UndoVerdict(m, id, ops, pid, nsems) == 0
    ensures Committed(m, m, id, ops, pid, 0, nsems)
  {
    assert ToCreate(m, id, ops, pid, 0, nsems) == NewKeys(m, id, ops, pid, nsems);
  }

  /** What the loop body may rely on at semaphore `n`. */
  lemma CommitFacts(m: map<UndoKey, I32>, cur: map<UndoKey, I32>, id: I32, ops: seq<SemOp>, pid: I32, n: U16, nsems: nat)
    requires n < nsems <= MAX_PER_SET && Committed(m, cur, id, ops, pid, n, nsems)
    ensures UndoKey(pid, id, n) in cur <==> UndoKey(pid, id, n) in m
    ensures Adj(cur, UndoKey(pid, id, n)) == Adj(m, UndoKey(pid, id, n))
    ensures Net(ops, n, true) != 0 ==> Adjustment(Adj(cur, UndoKey(pid, id, n)) - Net(ops, n, true))
    ensures Net(ops, n, true) != 0 && UndoKey(pid, id, n) !in cur ==> |cur| < MAX_UNDO
  {
    var k := UndoKey(pid, id, n);
    assert Adj(cur, k) == AdjUpTo(m, k, id, ops, pid, n) == Adj(m, k);
    assert AdjAfter(m, k, id, ops, pid) == Adj(m, k) - Net(ops, n, true);
    if Net(ops, n, true) != 0 && k !in cur {
      assert k in ToCreate(m, id, ops, pid, n, nsems);
    }
  }

  /** The map with one adjustment set to `v`, where zero means no entry. */
  function Bumped(m: map<UndoKey, I32>, k: UndoKey, v: int): (r: map<UndoKey, I32>)
    requires Adjustment(v)
    ensures forall q :: Adj(r, q) == if q == k then v else Adj(m, q)
    ensures (forall q :: q in m ==> m[q] != 0) ==> forall q :: q in r ==> r[q] != 0
    ensures r.Keys <= m.Keys + {k} && (v == 0 ==> k !in r)
  {
    if v == 0 then m - {k} else m[k := v]
  }

  /** Claiming a free slot adds an entry with a zero adjustment. */
  lemma Claim(t: seq<UndoEntry>, at: nat, k: UndoKey)
    requires Unique(t) && at < |t| && !t[at].active && k !in MapOf(t)
    ensures var t' := t[at := UndoEntry(true, k.pid, k.semid, k.semnum, 0)];
            Unique(t') && MapOf(t') == MapOf(t)[k := 0]
  {
    hide MapOf, Unique;
    Overwrite(t, at, UndoEntry(true, k.pid, k.semid, k.semnum, 0));
    assert MapOf(t) - {} == MapOf(t);
  }

  lemma BumpedTwice(m: map<UndoKey, I32>, k: UndoKey, v: int)
    requires Adjustment(v)
    ensures Bumped(m[k := 0], k, v) == Bumped(m, k, v)
  {
    assert m[k := 0][k := v] == m[k := v];
    assert k !in m ==> m[k := 0] - {k} == m - {k};
    assert m[k := 0] - {k} == m - {k};
  }

  function WithAdjustment(e: UndoEntry, v: I32): UndoEntry {
    if v == 0 then e.(adjustment := v, active := false) else e.(adjustment := v)
  }

  /** Changing the adjustment of an active entry, dropping it at zero. */
  lemma Rewrite(t: seq<UndoEntry>, at: nat, v: I32)
    requires Unique(t) && at < |t| && t[at].active && Adjustment(v)
    ensures Unique(t[at := WithAdjustment(t[at], v)])
    ensures MapOf(t[at := WithAdjustment(t[at], v)]) == Bumped(MapOf(t), KeyOf(t[at]), v)
  {
    hide MapOf, Unique;
    Overwrite(t, at, WithAdjustment(t[at], v));
    assert v != 0 ==> (MapOf(t) - {KeyOf(t[at])}) + map[KeyOf(t[at]) := v] == MapOf(t)[KeyOf(t[at]) := v];
    assert (MapOf(t) - {KeyOf(t[at])}) + map[] == MapOf(t) - {KeyOf(t[at])};
  }

  /** One turn of the commit loop, as a change of the map. */
  lemma CommitStep(m: map<UndoKey, I32>, cur: map<UndoKey, I32>, id: I32, ops: seq<SemOp>, pid: I32, n: U16, nsems: nat)
    requires n < nsems <= MAX_PER_SET && Committed(m, cur, id, ops, pid, n, nsems)
    ensures Net(ops, n, true) == 0 ==> Committed(m, cur, id, ops, pid, n + 1, nsems)
    ensures var v := Adj(cur, UndoKey(pid, id, n)) - Net(ops, n, true);
            Net(ops, n, true) != 0 ==>
              Adjustment(v) && Committed(m, Bumped(cur, UndoKey(pid, id, n), v), id, ops, pid, n + 1, nsems)
  {
    hide Net, Bumped, Committed, Adj;
    if Net(ops, n, true) == 0 {
      CommitSkip(m, cur, id, ops, pid, n, nsems);
    } else {
      CommitFacts(m, cur, id, ops, pid, n, nsems);
      CommitBump(m, cur, id, ops, pid, n, nsems, Adj(cur, UndoKey(pid, id, n)) - Net(ops, n, true));
    }
  }

  lemma CommitSkip(m: map<UndoKey, I32>, cur: map<UndoKey, I32>, id: I32, ops: seq<SemOp>, pid: I32, n: U16, nsems: nat)
    requires n < nsems <= MAX_PER_SET && Committed(m, cur, id, ops, pid, n, nsems) && Net(ops, n, true) == 0
    ensures Committed(m, cur, id, ops, pid, n + 1, nsems)
  {
    hide Net, NewKeys, AdjustmentsInRange, ToCreate, OpsOk, Adj, AdjUpTo;
    ToCreateStep(m, id, ops, pid, n, nsems);
    CommitAdj(m, cur, cur, id, ops, pid, n);
  }

  lemma CommitBump(m: map<UndoKey, I32>, cur: map<UndoKey, I32>, id: I32, ops: seq<SemOp>, pid: I32, n: U16, nsems: nat, v: int)
    requires n < nsems <= MAX_PER_SET && Committed(m, cur, id, ops, pid, n, nsems)
    requires Net(ops, n, true) != 0 && v == Adj(cur, UndoKey(pid, id, n)) - Net(ops, n, true) && Adjustment(v)
    ensures Committed(m, Bumped(cur, UndoKey(pid, id, n), v), id, ops, pid, n + 1, nsems)
  {
    hide Net, NewKeys, AdjustmentsInRange, ToCreate, OpsOk, Adj, AdjUpTo, Bumped;
    var k := UndoKey(pid, id, n);
    var next := Bumped(cur, k, v);
    CommitFacts(m, cur, id, ops, pid, n, nsems);
    ToCreateStep(m, id, ops, pid, n, nsems);
    CommitAdj(m, cur, next, id, ops, pid, n);
    SizeAfter(cur, next, k);
  }

  lemma CommitAdj(m: map<UndoKey, I32>, cur: map<UndoKey, I32>, next: map<UndoKey, I32>,
                  id: I32, ops: seq<SemOp>, pid: I32, n: U16)
    requires forall k :: Adj(cur, k) == AdjUpTo(m, k, id, ops, pid, n)
    requires forall k :: Adj(next, k) == Adj(cur, k) - if k == UndoKey(pid, id, n) then Net(ops, n, true) else 0
    ensures forall k :: Adj(next, k) == AdjUpTo(m, k, id, ops, pid, n + 1)
  {
    hide Net, Adj;
    forall k
      ensures Adj(next, k) == AdjUpTo(m, k, id, ops, pid, n + 1)
    {
      assert Adj(cur, k) == AdjUpTo(m, k, id, ops, pid, n);
    }
  }

  lemma ToCreateStep(m: map<UndoKey, I32>, id: I32, ops: seq<SemOp>, pid: I32, n: U16, nsems: nat)
    requires n < nsems <= MAX_PER_SET
    ensures |ToCreate(m, id, ops, pid, n + 1, nsems)| <= |ToCreate(m, id, ops, pid, n, nsems)|
    ensures Net(ops, n, true) != 0 && UndoKey(pid, id, n) !in m ==>
              |ToCreate(m, id, ops, pid, n + 1, nsems)| == |ToCreate(m, id, ops, pid, n, nsems)| - 1
  {
    hide Net;
    var k := UndoKey(pid, id, n);
    var before, after := ToCreate(m, id, ops, pid, n, nsems), ToCreate(m, id, ops, pid, n + 1, nsems);
    assert after == before - {k};
  }

  lemma SizeAfter(cur: map<UndoKey, I32>, next: map<UndoKey, I32>, k: UndoKey)
    requires next.Keys <= cur.Keys + {k}
    ensures |next| <= |cur| + if k in cur then 0 else 1
  {
    SubsetSize(next.Keys, cur.Keys + {k});
    assert |next| == |next.Keys| && |cur| == |cur.Keys|;
    assert k in cur ==> cur.Keys + {k} == cur.Keys;
  }

  lemma CommitEnd(m: map<UndoKey, I32>, cur: map<UndoKey, I32>, id: I32, ops: seq<SemOp>, pid: I32, nsems: nat)
    requires nsems <= MAX_PER_SET && Committed(m, cur, id, ops, pid, nsems, nsems)
    ensures cur == UndoAfter(m, id, ops, pid, nsems)
  {
    UndoAfterInRange(m, id, ops, pid, nsems);
    var target := UndoAfter(m, id, ops, pid, nsems);
    forall k
      ensures Adj(cur, k) == Adj(target, k)
    {
      assert Adj(cur, k) == AdjUpTo(m, k, id, ops, pid, nsems);
      if k.pid == pid && k.semid == id {
        assert k == UndoKey(pid, id, k.semnum);
        if k.semnum >= nsems {
          NetZero(ops, k.semnum, true, nsems);
        }
      }
    }
    SameAdjustments(cur, target);
  }

  /** Counting required entries one semaphore further. */
  lemma NewKeysStep(m: map<UndoKey, I32>, id: I32, ops: seq<SemOp>, pid: I32, n: U16)
    requires n < MAX_PER_SET
    ensures var k := UndoKey(pid, id, n);
            NewKeys(m, id, ops, pid, n + 1) ==
            NewKeys(m, id, ops, pid, n) + if Net(ops, n, true) != 0 && k !in m then {k} else {}
    ensures UndoKey(pid, id, n) !in NewKeys(m, id, ops, pid, n)
  {
  }

  lemma NewKeysNone(m: map<UndoKey, I32>, id: I32, ops: seq<SemOp>, pid: I32)
    ensures NewKeys(m, id, ops, pid, 0) == {}
  {
  }

  lemma UndoEntriesValid(s: Store)
    requires Valid(s)
    ensures forall k :: k in s.undo ==> s.undo[k] != 0 && Adjustment(s.undo[k])
  {
  }

  // ---- Exit loop ----

  /** The table after `i` entries of the exit loop: those of the process are off, and make up `done`. */
  ghost predicate Scanned(was: seq<UndoEntry>, pid: I32, i: nat, done: set<UndoKey>, undo: seq<UndoEntry>) {
    && |was| == |undo| && i <= |was|
    && (forall j :: 0 <= j < i ==> undo[j] == if was[j].active && was[j].pid == pid then was[j].(active := false) else was[j])
    && (forall j :: i <= j < |was| ==> undo[j] == was[j])
    && (forall k :: k in done <==> exists j :: 0 <= j < i && was[j].active && was[j].pid == pid && KeyOf(was[j]) == k)
  }

  /** The exit loop's invariant: exactly the adjustments of the scanned entries have been added. */
  ghost predicate Partial(s: Store, was: seq<UndoEntry>, pid: I32, now: I64, i: nat, done: set<UndoKey>,
                          sets: seq<SemSet>, undo: seq<UndoEntry>)
  {
    && Valid(s) && Unique(was) && s.undo == MapOf(was) && |was| == MAX_UNDO
    && Scanned(was, pid, i, done, undo)
    && sets == RestoredSets(s.sets, s.undo, done, pid, now)
  }

  lemma PartialStart(s: Store, was: seq<UndoEntry>, pid: I32, now: I64)
    requires Valid(s) && Unique(was) && s.undo == MapOf(was) && |was| == MAX_UNDO
    ensures Partial(s, was, pid, now, 0, {}, s.sets, was)
  {
    RestoredNone(s, pid, now);
  }

  /** The entry the loop is at names a set that is still live, and was not processed before. */
  lemma PartialFacts(s: Store, was: seq<UndoEntry>, pid: I32, now: I64, i: nat, done: set<UndoKey>,
                     sets: seq<SemSet>, undo: seq<UndoEntry>)
    requires Partial(s, was, pid, now, i, done, sets, undo) && i < |undo| && undo[i].active && undo[i].pid == pid
    ensures |sets| == MAX_SETS && |was| == |undo| == MAX_UNDO
    ensures KeyOf(undo[i]) !in done && KeyOf(undo[i]) in s.undo
    ensures Live(s, undo[i].semid) && undo[i].semnum < SetOf(s, undo[i].semid).nsems
    ensures s.undo[KeyOf(undo[i])] == undo[i].adjustment
    ensures var slot := Slot(s, undo[i].semid);
            && sets[slot].active && sets[slot].generation == s.sets[slot].generation
            && SetValid(s.sets[slot]) && SetValid(sets[slot]) && sets[slot].nsems == s.sets[slot].nsems
            && sets[slot] == Restored(s.sets[slot], slot, s.undo, done, pid, now)
            && MakeId(slot, s.sets[slot].generation) == undo[i].semid
  {
    hide MapOf;
    assert KeyOf(was[i]) in MapOf(was);
    assert UndoValid(s, KeyOf(undo[i]), s.undo[KeyOf(undo[i])]);
    DecodeRoundTrip(undo[i].semid);
    var slot := Slot(s, undo[i].semid);
    RestoredShape(s.sets[slot], slot, s.undo, done, pid, now);
  }

  /** Restoring one more entry changes one semaphore of one set. */
  lemma RestoreSlot(t: SemSet, slot: nat, undo: map<UndoKey, I32>, done: set<UndoKey>, pid: I32, now: I64, n: U16)
    requires slot < MAX_SETS && SetValid(t) && t.active && n < t.nsems
    requires UndoKey(pid, MakeId(slot, t.generation), n) !in done
    ensures var k := UndoKey(pid, MakeId(slot, t.generation), n);
            var u := Restored(t, slot, undo, done, pid, now);
            |u.values| == |u.lastPids| == t.nsems &&
            Restored(t, slot, undo, done + {k}, pid, now) ==
            u.(values := u.values[n := Clamp(u.values[n] + Adj(undo, k))], lastPids := u.lastPids[n := pid], otime := now)
  {
    var k := UndoKey(pid, MakeId(slot, t.generation), n);
    var u, u' := Restored(t, slot, undo, done, pid, now), Restored(t, slot, undo, done + {k}, pid, now);
    assert u'.values == u.values[n := Clamp(u.values[n] + Adj(undo, k))];
    assert u'.lastPids == u.lastPids[n := pid];
    assert Hit(done + {k}, pid, MakeId(slot, t.generation), n);
  }

  lemma RestoreElsewhere(t: SemSet, slot: nat, undo: map<UndoKey, I32>, done: set<UndoKey>, pid: I32, now: I64, k: UndoKey)
    requires slot < MAX_SETS && SetValid(t)
    requires t.active ==> k.semid != MakeId(slot, t.generation) || k.pid != pid
    ensures Restored(t, slot, undo, done + {k}, pid, now) == Restored(t, slot, undo, done, pid, now)
  {
    var u, u' := Restored(t, slot, undo, done, pid, now), Restored(t, slot, undo, done + {k}, pid, now);
    if t.active {
      var id := MakeId(slot, t.generation);
      assert forall n :: Hit(done + {k}, pid, id, n) <==> Hit(done, pid, id, n);
      assert u'.values == u.values && u'.lastPids == u.lastPids;
    }
  }

  /** The body of the exit loop on an entry of the process. */
  lemma RestoreOne(s: Store, was: seq<UndoEntry>, pid: I32, now: I64, i: nat, done: set<UndoKey>,
                   sets: seq<SemSet>, undo: seq<UndoEntry>)
    requires Partial(s, was, pid, now, i, done, sets, undo) && i < |undo| && undo[i].active && undo[i].pid == pid
    requires |sets| == MAX_SETS && Live(s, undo[i].semid) && undo[i].semnum < |sets[Slot(s, undo[i].semid)].values|
    requires undo[i].semnum < |sets[Slot(s, undo[i].semid)].lastPids|
    ensures var slot, n := Slot(s, undo[i].semid), undo[i].semnum;
            var t := sets[slot];
            var t' := t.(values := t.values[n := Clamp(t.values[n] + undo[i].adjustment)],
                         lastPids := t.lastPids[n := pid], otime := now);
            Partial(s, was, pid, now, i + 1, done + {KeyOf(undo[i])}, sets[slot := t'], undo[i := undo[i].(active := false)])
  {
    hide Valid, Unique, Scanned, MapOf, Restored, RestoredSets;
    ValidFacts(s);
    PartialFacts(s, was, pid, now, i, done, sets, undo);
    RestoreSets(s, undo[i], done, pid, now);
    ScanOne(was, pid, i, done, undo);
  }

  lemma RestoreSets(s: Store, e: UndoEntry, done: set<UndoKey>, pid: I32, now: I64)
    requires Valid(s) && e.pid == pid && KeyOf(e) in s.undo && e.adjustment == s.undo[KeyOf(e)] && KeyOf(e) !in done
    requires Live(s, e.semid) && e.semnum < SetOf(s, e.semid).nsems
    ensures var slot, n := Slot(s, e.semid), e.semnum;
            var sets := RestoredSets(s.sets, s.undo, done, pid, now);
            var t := sets[slot];
            && |t.values| == |t.lastPids| == s.sets[slot].nsems
            && RestoredSets(s.sets, s.undo, done + {KeyOf(e)}, pid, now) ==
               sets[slot := t.(values := t.values[n := Clamp(t.values[n] + e.adjustment)],
                               lastPids := t.lastPids[n := pid], otime := now)]
  {
    hide Restored;
    var k, slot, n := KeyOf(e), Slot(s, e.semid), e.semnum;
    var sets := RestoredSets(s.sets, s.undo, done, pid, now);
    DecodeRoundTrip(e.semid);
    RestoreSlot(s.sets[slot], slot, s.undo, done, pid, now, n);
    forall j | 0 <= j < MAX_SETS && j != slot
      ensures Restored(s.sets[j], j, s.undo, done + {k}, pid, now) == sets[j]
    {
      if s.sets[j].active {
        IdRoundTrip(j, s.sets[j].generation);
      }
      RestoreElsewhere(s.sets[j], j, s.undo, done, pid, now, k);
    }
  }

  lemma ScanOne(was: seq<UndoEntry>, pid: I32, i: nat, done: set<UndoKey>, undo: seq<UndoEntry>)
    requires Scanned(was, pid, i, done, undo) && i < |was| && undo[i].active && undo[i].pid == pid
    ensures Scanned(was, pid, i + 1, done + {KeyOf(undo[i])}, undo[i := undo[i].(active := false)])
  {
    forall k
      ensures k in done + {KeyOf(was[i])} <==>
              exists j :: 0 <= j < i + 1 && was[j].active && was[j].pid == pid && KeyOf(was[j]) == k
    {
    }
  }

  lemma PartialSkip(s: Store, was: seq<UndoEntry>, pid: I32, now: I64, i: nat, done: set<UndoKey>,
                    sets: seq<SemSet>, undo: seq<UndoEntry>)
    requires Partial(s, was, pid, now, i, done, sets, undo) && i < |undo| && !(undo[i].active && undo[i].pid == pid)
    ensures Partial(s, was, pid, now, i + 1, done, sets, undo)
  {
    hide MapOf, Valid, RestoredSets, Unique;
  }

  lemma PartialDone(s: Store, was: seq<UndoEntry>, pid: I32, now: I64, done: set<UndoKey>,
                    sets: seq<SemSet>, undo: seq<UndoEntry>)
    requires Partial(s, was, pid, now, MAX_UNDO, done, sets, undo) && pid > 0
    ensures Unique(undo) && Store(sets, MapOf(undo)) == SemStore.ProcessExit(s, pid, now).0
    ensures done == KeysOfPid(s.undo, pid)
  {
    hide MapOf, Valid, RestoredSets;
    Deactivate(was, undo, (k: UndoKey) => k.pid == pid);
    assert done == KeysOfPid(s.undo, pid) by {
      forall k
        ensures k in done <==> k in s.undo && k.pid == pid
      {
      }
    }
    assert MapOf(undo) == s.undo - done;
  }
}
