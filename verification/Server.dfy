/** The broker as one object: the store table, the linked list of waiters and the watcher array, updated in place
    by the critical sections of its threads. Each method is proved to be the matching step of the transition system. */
module Server {
  import opened Types
  import opened SemStore
  import opened StoreInvariant
  import opened StoreCalls
  import opened Timeouts
  import opened UndoTable
  import opened WaiterList
  import B = Broker
  import T = SemTable
  import W = WatcherTable

  class Server {
    const table: T.Table
    const list: List
    const watchers: W.Watchers
    ghost var exited: set<I32>
    ghost var tickets: nat
    ghost var completed: seq<B.Completion>

    ghost predicate Ok()
      reads table.sets, table.undo, list, list.nodes
    {
      table.Wf() && list.Valid()
    }

    /** The state of the transition system this object is in. */
    ghost function View(): B.Broker
      reads this, table.sets, table.undo, list, list.nodes, watchers.slots
      requires Ok()
    {
      B.Broker(table.View(), list.Waiters(), watchers.slots[..], exited, tickets, completed)
    }

    constructor ()
      ensures Ok() && fresh(table.sets) && fresh(table.undo) && fresh(list) && fresh(watchers.slots)
      ensures View() == B.Start()
    {
      table := new T.Table();
      list := new List();
      watchers := new W.Watchers();
      exited, tickets, completed := {}, 0, [];
      new;
      assert watchers.slots[..] == B.Start().watchers;
    }

    // ---- Executing one decoded call ----

    method Execute(c: Call, a: Actor, now: I64) returns (r: Reply)
      requires Ok()
      modifies table.sets, table.undo
      ensures Ok()
      ensures (table.View(), r) == Exec(old(table.View()), c, a, now)
    {
      hide Valid, Unique, MapOf, GetAs, Remove, SetVal, SetAll, TryOp, SetMetadata;
      match c
      case Ping => return Reply(0, Nothing);
      case SemGet(key, nsems, flags) =>
        var x := table.GetAs(key, nsems, flags, a.who, now);
        return Reply(x, Nothing);
      case RemoveSet(id) =>
        var x := table.Remove(id);
        return Reply(x, Nothing);
      case SetValue(id, num, value) =>
        var x := table.SetVal(id, num, value, a.pid, now);
        return Reply(x, Nothing);
      case SetValues(id, values) =>
        var x := table.SetAll(id, values, a.pid, now);
        return Reply(x, Nothing);
      case SemOps(id, ops, _) =>
        var x := table.TryOp(id, ops, a.pid, now);
        return Reply(x.result, if x.result == OP_BLOCKED && x.reason.Some? then Wait(x.reason.value) else Nothing);
      case SetMeta(id, uid, gid, mode) =>
        var x := table.SetMetadata(id, uid, gid, mode, a.who, now);
        return Reply(x, Nothing);
      case GetValues(_, _) => r := InspectSet(c, a, now);
      case Stat(_) => r := InspectSet(c, a, now);
      case StatIndex(_) => r := InspectSet(c, a, now);
      case Info(dynamic) =>
        var limits := CountLimits(dynamic);
        return Reply(Highest(table.sets[..]), Limits(limits));
      case _ => r := InspectSemaphore(c, a, now);
    }

    /** The calls that read one semaphore. */
    method InspectSemaphore(c: Call, a: Actor, now: I64) returns (r: Reply)
      requires Ok() && (c.GetValue? || c.GetLastPid? || c.GetNegative? || c.GetZero?)
      ensures (table.View(), r) == Exec(table.View(), c, a, now)
    {
      hide Valid, Unique, MapOf;
      ValidFacts(table.View());
      if c.GetNegative? || c.GetZero? {
        var count := WaitCount(c.id, c.num, c.GetZero?);
        return Reply(count, Nothing);
      }
      var found := table.Find(c.id);
      if found.None? || c.num >= table.sets[found.value].nsems {
        return Reply(-EINVAL, Nothing);
      }
      var t := table.sets[found.value];
      return Reply(if c.GetValue? then t.values[c.num] else t.lastPids[c.num], Nothing);
    }

    /** The calls that read one set. */
    method InspectSet(c: Call, a: Actor, now: I64) returns (r: Reply)
      requires Ok() && (c.GetValues? || c.Stat? || c.StatIndex?)
      ensures (table.View(), r) == Exec(table.View(), c, a, now)
    {
      hide Valid, Unique, MapOf;
      ValidFacts(table.View());
      if c.StatIndex? {
        if c.index >= MAX_SETS || !table.sets[c.index].active {
          return Reply(-EINVAL, Nothing);
        }
        GenerationFits(table.View(), c.index);
        return Reply(MakeId(c.index, table.sets[c.index].generation), Meta(MetadataOf(table.sets[c.index])));
      }
      var found := table.Find(c.id);
      if found.None? || (c.GetValues? && c.count != table.sets[found.value].nsems) {
        return Reply(-EINVAL, Nothing);
      }
      var t := table.sets[found.value];
      return Reply(0, if c.GetValues? then Values(t.values) else Meta(MetadataOf(t)));
    }

    method WaitCount(id: I32, num: U32, zero: bool) returns (r: I32)
      requires Ok()
      ensures r == GetWaitCount(table.View(), id, num, zero)
    {
      hide Valid, Unique, MapOf;
      ValidFacts(table.View());
      var found := table.Find(id);
      if found.None? || num >= table.sets[found.value].nsems {
        return -EINVAL;
      }
      var t := table.sets[found.value];
      var count := if zero then t.zero[num] else t.negative[num];
      return if count > INT_MAX then INT_MAX else count;
    }

    /** Counts active sets and semaphores in one pass over the slots. */
    method CountLimits(dynamic: bool) returns (r: seq<I32>)
      requires Ok()
      ensures r == LimitsOf(table.View(), dynamic)
    {
      hide Valid, Unique, MapOf;
      ValidFacts(table.View());
      ghost var sets := table.View().sets;
      var active, sems := 0, 0;
      for i := 0 to MAX_SETS
        invariant active == CountActive(sets[..i]) && sems == CountSems(sets[..i])
      {
        assert sets[..i + 1][..i] == sets[..i];
        if table.sets[i].active {
          active := active + 1;
          sems := sems + table.sets[i].nsems;
        }
      }
      assert sets[..MAX_SETS] == sets;
      CountsFit(table.View());
      return [MAX_SETS, MAX_SETS, MAX_SETS * MAX_PER_SET, MAX_SETS, MAX_PER_SET, MAX_PER_SET, MAX_PER_SET,
              if dynamic then active else SET_STRUCT_SIZE, MAX_VALUE, if dynamic then sems else MAX_VALUE];
    }

    // ---- Waiters ----

    method Broadcast()
      requires Ok()
      modifies list.nodes`woken
      ensures Ok() && list.nodes == old(list.nodes) && View() == old(View()).(queue := B.Wake(old(View()).queue))
    {
      hide Valid, Unique, MapOf, List.Valid, List.Waiters;
      list.WakeAll();
    }

    method Count(id: I32, reason: Reason, adjustment: int) returns (r: I32)
      requires Ok()
      modifies table.sets
      ensures Ok()
      ensures View() == old(View()).(store := AdjustWaitCount(old(View()).store, id, reason.num, reason.zero, adjustment).0)
      ensures r == AdjustWaitCount(old(View()).store, id, reason.num, reason.zero, adjustment).1
    {
      hide Valid, Unique, MapOf, List.Valid, List.Waiters, AdjustWaitCount;
      r := table.AdjustWaitCount(id, reason.num, reason.zero, adjustment);
    }

    method Unqueue(w: Node, ghost i: nat)
      requires Ok() && i < |list.nodes| && list.nodes[i] == w
      modifies list, list.nodes`next
      ensures Ok() && list.nodes == Without(old(list.nodes), i)
      ensures View() == old(View()).(queue := Without(old(View()).queue, i))
    {
      hide Valid, Unique, MapOf, List.Valid, List.Waiters;
      list.Remove(w, i);
    }

    /** Unlinks a waiter, gives back its count and wakes the others. */
    method FinishWaiter(w: Node, ghost i: nat)
      requires Ok() && i < |list.nodes| && list.nodes[i] == w
      modifies table.sets, list, list.nodes`next, list.nodes`woken
      ensures Ok() && View() == B.Finish(old(View()), i)
    {
      hide Valid, Unique, MapOf, AdjustWaitCount, List.Valid, List.Waiters, Server.Ok;
      ghost var waiter := ViewAt(i);
      Unqueue(w, i);
      var r := Count(w.info.id, w.info.reason, -1);
      Broadcast();
    }

    lemma ViewValid()
      requires Ok()
      ensures Valid(View().store) && |View().queue| == |list.nodes|
    {
    }

    /** The node at a position carries the waiter of the transition system. */
    lemma ViewAt(i: nat) returns (waiter: B.Waiter)
      requires Ok() && i < |list.nodes|
      ensures |View().queue| == |list.nodes| && waiter == View().queue[i] && Valid(View().store)
      ensures waiter.id == list.nodes[i].info.id && waiter.reason == list.nodes[i].info.reason
    {
      waiter := View().queue[i];
    }

    /** One turn of the waiting loop of a queued request. */
    method Turn(w: Node, ghost i: nat, now: I64, peerClosed: bool) returns (a: B.Answer)
      requires Ok() && i < |list.nodes| && list.nodes[i] == w
      modifies this, table.sets, table.undo, list, list.nodes`next, list.nodes`woken
      ensures Ok() && (View(), a) == B.Loop(old(View()), i, now, peerClosed)
    {
      hide Valid, Unique, MapOf, AdjustWaitCount, B.Finish, Exec, List.Valid, List.Waiters, B.FirstForSet;
      if peerClosed {
        FinishWaiter(w, i);
        return B.Dropped;
      }
      var first := list.IsFirstForSet(w);
      if first {
        var r := Execute(SemOps(w.info.id, w.info.ops, None), w.info.actor, now);
        if r.result != OP_BLOCKED {
          completed := completed + [B.Completion(w.info.id, w.ticket)];
          FinishWaiter(w, i);
          return B.Answered(r);
        }
      }
      list.PutToSleep(w, i);
      return B.Sleeping;
    }

    /** A waiter returns from its sleep. */
    method Resume(w: Node, ghost i: nat, now: I64, clock: Timespec, failed: bool, peerClosed: bool) returns (a: B.Answer)
      requires Ok() && i < |list.nodes| && list.nodes[i] == w
      modifies this, table.sets, table.undo, list, list.nodes`next, list.nodes`woken
      ensures Ok() && (View(), a) == B.Awake(old(View()), B.Resume(i, now, clock, failed, peerClosed))
    {
      hide Valid, Unique, MapOf, B.Finish, B.Loop;
      if failed {
        FinishWaiter(w, i);
        return B.Dropped;
      }
      if Expired(clock, w.info.deadline) {
        FinishWaiter(w, i);
        return B.Answered(Reply(-EAGAIN, Nothing));
      }
      a := Turn(w, i, now, peerClosed);
    }

    // ---- New requests ----

    /** Appends a waiter for a blocked request. */
    method Append(a: Actor, c: Call, reason: Reason, clock: Timespec) returns (w: Node)
      requires Ok() && c.SemOps?
      modifies this, list, list.nodes`next
      ensures Ok() && fresh(w) && list.nodes == old(list.nodes) + [w]
      ensures View() == B.Queued(old(View()), old(View()).store, a, c, reason, clock)
    {
      hide Valid, Unique, MapOf, List.Valid, List.Waiters, Deadline;
      var deadline := if c.timeout.Some? then Some(Deadline(clock, c.timeout.value)) else None;
      w := new Node(B.Waiter(0, a, c.id, c.ops, reason, deadline, true), tickets);
      list.Enqueue(w);
      tickets := tickets + 1;
    }

    /** Counts and queues a request that came back blocked, and takes its first turn of the loop. */
    method Block(a: Actor, c: Call, reason: Reason, now: I64, clock: Timespec, peerClosed: bool) returns (r: B.Answer)
      requires Ok() && c.SemOps?
      modifies this, table.sets, table.undo, list, list.nodes`next, list.nodes`woken
      ensures Ok() && (View(), r) == B.Block(old(View()), a, c, reason, now, clock, peerClosed)
    {
      hide Valid, Unique, MapOf, AdjustWaitCount, List.Valid, List.Waiters, B.Loop, B.Queued, Server.Ok, Server.View;
      ViewValid();
      var counted := Count(c.id, reason, 1);
      if counted != 0 {
        AdjustFailed(old(View()).store, c.id, reason.num, reason.zero, 1);
        return B.Dropped;
      }
      ViewValid();
      QueuedStore(old(View()), View().store, a, c, reason, clock);
      var w := Append(a, c, reason, clock);
      r := Turn(w, |list.nodes| - 1, now, peerClosed);
    }

    /** Executes a request and queues it if it blocks. */
    method Serve(a: Actor, c: Call, now: I64, clock: Timespec, peerClosed: bool) returns (r: B.Answer)
      requires Ok()
      modifies this, table.sets, table.undo, list, list.nodes`next, list.nodes`woken
      ensures Ok() && (View(), r) == B.Serve(old(View()), a, c, now, clock, peerClosed)
    {
      hide Valid, Unique, MapOf, List.Valid, List.Waiters, B.Block, Exec;
      var reply := Execute(c, a, now);
      if c.SemOps? && reply.result == OP_BLOCKED {
        r := Block(a, c, B.ReasonOf(reply), now, clock, peerClosed);
        return;
      }
      if B.ChangedState(c, reply) {
        list.WakeAll();
      }
      return B.Answered(reply);
    }

    /** Starts watching a process, telling the monitor by a broadcast. */
    method WatchCaller(pid: I32, watchError: I32) returns (error: I32)
      requires Ok()
      modifies list.nodes`woken, watchers.slots
      ensures Ok() && list.nodes == old(list.nodes) && (View(), error) == B.Watching(old(View()), pid, watchError)
    {
      hide Valid, Unique, MapOf, List.Valid, List.Waiters, B.Watch;
      var started;
      error, started := watchers.Watch(pid, watchError);
      if started {
        list.WakeAll();
      }
    }

    /** A new request. Its caller is watched first if it uses undo. */
    method Handle(a: Actor, c: Call, now: I64, clock: Timespec, watchError: I32, peerClosed: bool) returns (r: B.Answer)
      requires Ok()
      modifies this, table.sets, table.undo, list, list.nodes`next, list.nodes`woken, watchers.slots
      ensures Ok() && (View(), r) == B.Handle(old(View()), a, c, now, clock, watchError, peerClosed)
    {
      hide Valid, Unique, MapOf, List.Valid, List.Waiters, B.Serve, B.Watching;
      if c.SemOps? {
        var undo := ScanUndo(c.ops);
        if undo {
          var error := WatchCaller(a.pid, watchError);
          if error != 0 {
            return B.Answered(Reply(error, Nothing));
          }
        }
      }
      r := Serve(a, c, now, clock, peerClosed);
    }

    /** The monitor handles the exit of one watched process. */
    method ProcessGone(slot: nat, now: I64)
      requires Ok() && slot < watchers.slots.Length && watchers.slots[slot].Some?
      modifies this, table.sets, table.undo, list.nodes`woken, watchers.slots
      ensures Ok() && View() == B.Gone(old(View()), slot, now)
    {
      hide Valid, Unique, MapOf, List.Valid, List.Waiters, ProcessExit;
      var pid := watchers.slots[slot].value;
      var changed := table.ProcessExit(pid, now);
      ghost var was := watchers.slots[..];
      watchers.slots[slot] := None;
      assert watchers.slots[..] == was[slot := None];
      exited := exited + {pid};
      if changed > 0 {
        list.WakeAll();
      }
    }
  }

  /** Looks for SEM_UNDO in an operation list. */
  method ScanUndo(ops: seq<SemOp>) returns (r: bool)
    ensures r == B.UsesUndo(ops)
  {
    for i := 0 to |ops|
      invariant forall j :: 0 <= j < i ==> !Has(ops[j].flg, SEM_UNDO)
    {
      if Has(ops[i].flg, SEM_UNDO) {
        return true;
      }
    }
    return false;
  }

  lemma QueuedStore(b: B.Broker, s: Store, a: Actor, c: Call, reason: Reason, clock: Timespec)
    requires c.SemOps?
    ensures B.Queued(b.(store := s), s, a, c, reason, clock) == B.Queued(b, s, a, c, reason, clock)
    ensures |B.Queued(b, s, a, c, reason, clock).queue| == |b.queue| + 1
    ensures B.Queued(b, s, a, c, reason, clock).store == s
  {
  }

  lemma CountsFit(s: Store)
    requires Valid(s)
    ensures CountActive(s.sets) <= MAX_SETS && CountSems(s.sets) <= MAX_SETS * MAX_PER_SET
  {
  }

  lemma GenerationFits(s: Store, i: nat)
    requires Valid(s) && i < MAX_SETS && s.sets[i].active
    ensures s.sets[i].generation <= MAX_GENERATION
  {
  }
}
