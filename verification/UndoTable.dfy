/** The linearly scanned undo table as a finite map. */
module UndoTable {
  import opened Types
  import opened SemStore

  datatype UndoEntry = UndoEntry(active: bool, pid: I32, semid: I32, semnum: U16, adjustment: I32)

  function KeyOf(e: UndoEntry): UndoKey { UndoKey(e.pid, e.semid, e.semnum) }

  /** No two active entries have the same process, set and semaphore. */
  ghost predicate Unique(t: seq<UndoEntry>) {
    forall i, j :: 0 <= i < j < |t| && t[i].active && t[j].active ==> KeyOf(t[i]) != KeyOf(t[j])
  }

  ghost function MapOf(t: seq<UndoEntry>): (m: map<UndoKey, I32>)
    requires Unique(t)
    ensures forall i :: 0 <= i < |t| && t[i].active ==> KeyOf(t[i]) in m && m[KeyOf(t[i])] == t[i].adjustment
    ensures forall k :: k in m ==> exists i :: 0 <= i < |t| && t[i].active && KeyOf(t[i]) == k
  {
    map i | 0 <= i < |t| && t[i].active :: KeyOf(t[i]) := t[i].adjustment
  }

  /** The map is determined by the active entries. */
  lemma MapIs(t: seq<UndoEntry>, m: map<UndoKey, I32>)
    requires Unique(t)
    requires forall i :: 0 <= i < |t| && t[i].active ==> KeyOf(t[i]) in m && m[KeyOf(t[i])] == t[i].adjustment
    requires forall k :: k in m ==> exists i :: 0 <= i < |t| && t[i].active && KeyOf(t[i]) == k
    ensures MapOf(t) == m
  {
    hide MapOf;
  }

  lemma OverwriteUnique(t: seq<UndoEntry>, i: nat, e: UndoEntry)
    requires Unique(t) && i < |t|
    requires e.active ==> KeyOf(e) !in MapOf(t) || (t[i].active && KeyOf(t[i]) == KeyOf(e))
    ensures Unique(t[i := e])
  {
    hide MapOf;
    var t' := t[i := e];
    forall a, b | 0 <= a < b < |t'| && t'[a].active && t'[b].active
      ensures KeyOf(t'[a]) != KeyOf(t'[b])
    {
      assert b == i ==> KeyOf(t[a]) in MapOf(t);
      assert a == i ==> KeyOf(t[b]) in MapOf(t);
    }
  }

  /** Overwriting one entry, with a key not used elsewhere, is a map update. */
  lemma Overwrite(t: seq<UndoEntry>, i: nat, e: UndoEntry)
    requires Unique(t) && i < |t|
    requires e.active ==> KeyOf(e) !in MapOf(t) || (t[i].active && KeyOf(t[i]) == KeyOf(e))
    ensures Unique(t[i := e])
    ensures MapOf(t[i := e]) == (MapOf(t) - if t[i].active then {KeyOf(t[i])} else {}) +
                                if e.active then map[KeyOf(e) := e.adjustment] else map[]
  {
    hide MapOf;
    OverwriteUnique(t, i, e);
    var t' := t[i := e];
    var m := (MapOf(t) - if t[i].active then {KeyOf(t[i])} else {}) +
             if e.active then map[KeyOf(e) := e.adjustment] else map[];
    forall k | k in m
      ensures exists j :: 0 <= j < |t'| && t'[j].active && KeyOf(t'[j]) == k
    {
      if e.active && k == KeyOf(e) {
        assert t'[i] == e;
      } else {
        var j :| 0 <= j < |t| && t[j].active && KeyOf(t[j]) == k;
        assert t'[j] == t[j];
      }
    }
    MapIs(t', m);
  }

  function Free(t: seq<UndoEntry>): (n: nat) {
    if t == [] then 0 else Free(t[..|t| - 1]) + if t[|t| - 1].active then 0 else 1
  }

  lemma MapSnoc(t: seq<UndoEntry>)
    requires Unique(t) && t != []
    ensures var init, e := t[..|t| - 1], t[|t| - 1];
            && Unique(init)
            && (e.active ==> KeyOf(e) !in MapOf(init))
            && MapOf(t) == if e.active then MapOf(init)[KeyOf(e) := e.adjustment] else MapOf(init)
  {
    hide MapOf;
    var n := |t| - 1;
    var init, e := t[..n], t[n];
    assert Unique(init);
    forall i | 0 <= i < n && t[i].active
      ensures KeyOf(t[i]) in MapOf(init) && MapOf(init)[KeyOf(t[i])] == t[i].adjustment
    {
      assert init[i] == t[i];
    }
    forall k | k in MapOf(init)
      ensures exists i :: 0 <= i < n && t[i].active && KeyOf(t[i]) == k
    {
      var i :| 0 <= i < n && init[i].active && KeyOf(init[i]) == k;
      assert t[i] == init[i];
    }
    MapIs(t, if e.active then MapOf(init)[KeyOf(e) := e.adjustment] else MapOf(init));
  }

  /** Active entries and map entries are equally many. */
  lemma {:induction false} FreeCount(t: seq<UndoEntry>)
    requires Unique(t)
    ensures |MapOf(t)| + Free(t) == |t|
  {
    hide MapOf, Unique;
    if t == [] {
      MapIs(t, map[]);
    } else {
      MapSnoc(t);
      FreeCount(t[..|t| - 1]);
    }
  }

  lemma {:induction false} FreeZero(t: seq<UndoEntry>)
    ensures Free(t) == 0 <==> forall i :: 0 <= i < |t| ==> t[i].active
  {
    if t != [] {
      var init := t[..|t| - 1];
      FreeZero(init);
      assert forall i :: 0 <= i < |init| ==> init[i] == t[i];
    }
  }

  /** Deactivating exactly the entries a predicate selects. */
  lemma Deactivate(t: seq<UndoEntry>, t': seq<UndoEntry>, hit: UndoKey -> bool)
    requires Unique(t) && |t'| == |t|
    requires forall i :: 0 <= i < |t| ==> t'[i] == if t[i].active && hit(KeyOf(t[i])) then t[i].(active := false) else t[i]
    ensures Unique(t')
    ensures MapOf(t') == map k | k in MapOf(t) && !hit(k) :: MapOf(t)[k]
  {
    hide MapOf;
    assert forall i :: 0 <= i < |t| && t'[i].active ==> t[i].active && t[i] == t'[i];
    var m := map k | k in MapOf(t) && !hit(k) :: MapOf(t)[k];
    forall k | k in m
      ensures exists i :: 0 <= i < |t'| && t'[i].active && KeyOf(t'[i]) == k
    {
      var i :| 0 <= i < |t| && t[i].active && KeyOf(t[i]) == k;
      assert t'[i] == t[i];
    }
    MapIs(t', m);
  }

  /** Maps without zero entries are determined by their adjustments. */
  lemma SameAdjustments(a: map<UndoKey, I32>, b: map<UndoKey, I32>)
    requires forall k :: k in a ==> a[k] != 0
    requires forall k :: k in b ==> b[k] != 0
    requires forall k :: Adj(a, k) == Adj(b, k)
    ensures a == b
  {
    assert forall k :: k in a ==> Adj(b, k) != 0;
    assert forall k :: k in b ==> Adj(a, k) != 0;
    assert forall k :: k in a ==> Adj(a, k) == Adj(b, k);
  }
}
