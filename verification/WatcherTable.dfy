/** The fixed array of process watchers. */
module WatcherTable {
  import opened Types
  import B = Broker

  class Watchers {
    const slots: array<Option<I32>>

    constructor ()
      ensures slots.Length == MAX_WATCHERS && fresh(slots)
      ensures forall i :: 0 <= i < slots.Length ==> slots[i].None?
    {
      slots := new Option<I32>[MAX_WATCHERS](_ => None);
    }

    /** One pass finds the process or remembers the first free slot; `error` is what opening a handle on the
        process reported. */
    method Watch(pid: I32, error: I32) returns (r: I32, started: bool)
      modifies slots
      ensures started <==> slots[..] != old(slots[..])
      ensures (slots[..], r) == B.Watch(old(slots[..]), pid, error)
    {
      var available: Option<nat> := None;
      for i := 0 to slots.Length
        invariant forall j :: 0 <= j < i ==> slots[j] != Some(pid)
        invariant available.None? ==> forall j :: 0 <= j < i ==> slots[j].Some?
        invariant available.Some? ==> available.value < i && slots[available.value].None? &&
                                      forall j :: 0 <= j < available.value ==> slots[j].Some?
      {
        if slots[i] == Some(pid) {
          assert slots[..][i] == Some(pid);
          return 0, false;
        }
        if slots[i].None? && available.None? {
          available := Some(i);
        }
      }
      assert forall j :: 0 <= j < slots.Length ==> slots[..][j] == slots[j];
      if available.None? {
        return -ENOSPC, false;
      }
      if error != 0 {
        return error, false;
      }
      ghost var was := slots[..];
      assert B.FirstFree(was, 0) == available.value;
      slots[available.value] := Some(pid);
      assert slots[..] == was[available.value := Some(pid)];
      assert slots[..][available.value] != was[available.value];
      return 0, true;
    }
  }
}
