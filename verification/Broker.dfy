/** The blocking broker as a transition system. Each critical section under the broker mutex is one step; a
    broadcast marks every sleeping waiter as woken. Clocks, peer closure, process exit and spurious wake-ups are
    choices of the environment, carried by the events. */
module Broker {
  import opened Types
  import opened SemStore
  import opened StoreInvariant
  import opened StoreCalls
  import opened Timeouts

  /** A blocked request. The reason is the one recorded when it was queued. */
  datatype Waiter = Waiter(
    ticket: nat, actor: Actor, id: I32, ops: seq<SemOp>, reason: Reason, deadline: Option<Timespec>, woken: bool)

  datatype Completion = Completion(id: I32, ticket: nat)

  /** The broker state. `exited`, `tickets` and `completed` are history: processes whose exit was observed, the
      number of requests queued so far, and the retries that completed, in order. */
  datatype Broker = Broker(
    store: Store, queue: seq<Waiter>, watchers: seq<Option<I32>>,
    exited: set<I32>, tickets: nat, completed: seq<Completion>)

  datatype Event =
    | Request(actor: Actor, call: Call, now: I64, clock: Timespec, watchError: I32, peerClosed: bool)
    | Malformed(actor: Actor, usesUndo: bool, watchError: I32)
    | Resume(at: nat, now: I64, clock: Timespec, failed: bool, peerClosed: bool)
    | ProcessGone(watcher: nat, now: I64)

  datatype Answer = Answered(reply: Reply) | Dropped | Sleeping

  function Start(): (b: Broker)
    ensures Valid(b.store)
  {
    Broker(Empty(), [], seq(MAX_WATCHERS, _ => None), {}, 0, [])
  }

  /** The broadcast. */
  function Wake(q: seq<Waiter>): (r: seq<Waiter>)
    ensures |r| == |q|
    ensures forall i :: 0 <= i < |q| ==> r[i] == q[i].(woken := true)
  {
    seq(|q|, i requires 0 <= i < |q| => q[i].(woken := true))
  }

  function WakeIf(q: seq<Waiter>, broadcast: bool): seq<Waiter> {
    if broadcast then Wake(q) else q
  }

  /** No earlier waiter in the queue waits for the same set. */
  predicate FirstForSet(q: seq<Waiter>, i: nat)
    requires i < |q|
  {
    forall j :: 0 <= j < i ==> q[j].id != q[i].id
  }

  predicate UsesUndo(ops: seq<SemOp>) {
    exists i :: 0 <= i < |ops| && Has(ops[i].flg, SEM_UNDO)
  }

  /** Replies after which the broker broadcasts. */
  predicate ChangedState(c: Call, r: Reply) {
    r.result == 0 && (c.RemoveSet? || c.SetValue? || c.SetValues? || c.SemOps?)
  }

  // ---- Process watchers ----

  function FirstFree(watchers: seq<Option<I32>>, from: nat): (r: nat)
    requires from <= |watchers|
    ensures from <= r <= |watchers|
    ensures forall i :: from <= i < r ==> watchers[i].Some?
    ensures r < |watchers| ==> watchers[r].None?
    decreases |watchers| - from
  {
    if from == |watchers| || watchers[from].None? then from else FirstFree(watchers, from + 1)
  }

  /** Starts watching a process unless it is watched already. */
  function Watch(watchers: seq<Option<I32>>, pid: I32, error: I32): (r: (seq<Option<I32>>, I32)) {
    if Some(pid) in watchers then (watchers, 0)
    else
      var i := FirstFree(watchers, 0);
      if i == |watchers| then (watchers, -ENOSPC)
      else if error != 0 then (watchers, error)
      else (watchers[i := Some(pid)], 0)
  }

  // ---- Steps ----

  /** A waiter leaves: it is unlinked, its count is given back, and everyone else is woken. */
  function Finish(b: Broker, i: nat): Broker
    requires Valid(b.store) && i < |b.queue|
  {
    var w := b.queue[i];
    b.(store := AdjustWaitCount(b.store, w.id, w.reason.num, w.reason.zero, -1).0,
       queue := Wake(b.queue[..i] + b.queue[i + 1..]))
  }

  function Sleep(b: Broker, i: nat): Broker
    requires i < |b.queue|
  {
    b.(queue := b.queue[i := b.queue[i].(woken := false)])
  }

  /** One turn of the waiting loop: give up if the peer is gone, retry if first for the set, else sleep. */
  ghost function Loop(b: Broker, i: nat, now: I64, peerClosed: bool): (r: (Broker, Answer))
    requires Valid(b.store) && i < |b.queue|
  {
    var w := b.queue[i];
    if peerClosed then (Finish(b, i), Dropped)
    else if !FirstForSet(b.queue, i) then (Sleep(b, i), Sleeping)
    else
      var (s, r) := Retry(b, i, now);
      if r.result == OP_BLOCKED then (Sleep(b.(store := s), i), Sleeping)
      else (Finish(b.(store := s, completed := b.completed + [Completion(w.id, w.ticket)]), i), Answered(r))
  }

  /** The dispatcher run again on the waiter's request. */
  ghost function Retry(b: Broker, i: nat, now: I64): (r: (Store, Reply))
    requires Valid(b.store) && i < |b.queue|
    ensures Valid(r.0)
  {
    var w := b.queue[i];
    ExecValid(b.store, SemOps(w.id, w.ops, None), w.actor, now);
    Exec(b.store, SemOps(w.id, w.ops, None), w.actor, now)
  }

  /** The broker with a blocked request appended to its queue, about to take its first turn of the loop. */
  function Queued(b: Broker, s: Store, a: Actor, c: Call, reason: Reason, clock: Timespec): Broker
    requires c.SemOps?
  {
    var deadline := if c.timeout.Some? then Some(Deadline(clock, c.timeout.value)) else None;
    b.(store := s, queue := b.queue + [Waiter(b.tickets, a, c.id, c.ops, reason, deadline, true)], tickets := b.tickets + 1)
  }

  /** A request that came back blocked is counted, queued and takes its first turn of the loop. */
  ghost function Block(b: Broker, a: Actor, c: Call, reason: Reason, now: I64, clock: Timespec, peerClosed: bool): (r: (Broker, Answer))
    requires Valid(b.store) && c.SemOps?
  {
    var (s, counted) := AdjustWaitCount(b.store, c.id, reason.num, reason.zero, 1);
    AdjustWaitCountValid(b.store, c.id, reason.num, reason.zero, 1);
    if counted != 0 then (b, Dropped)
    else Loop(Queued(b, s, a, c, reason, clock), |b.queue|, now, peerClosed)
  }

  function ReasonOf(r: Reply): Reason {
    if r.payload.Wait? then r.payload.reason else Reason(0, false)
  }

  /** Executing a request whose caller is being watched if need be. */
  ghost function Serve(b: Broker, a: Actor, c: Call, now: I64, clock: Timespec, peerClosed: bool): (r: (Broker, Answer))
    requires Valid(b.store)
  {
    var (s, r) := Exec(b.store, c, a, now);
    ExecValid(b.store, c, a, now);
    if c.SemOps? && r.result == OP_BLOCKED then
      Block(b.(store := s), a, c, ReasonOf(r), now, clock, peerClosed)
    else (b.(store := s, queue := WakeIf(b.queue, ChangedState(c, r))), Answered(r))
  }

  /** The broker after starting to watch a process, or the error that prevented it. */
  function Watching(b: Broker, pid: I32, error: I32): (r: (Broker, I32)) {
    var (watchers, e) := Watch(b.watchers, pid, error);
    (b.(watchers := watchers, queue := WakeIf(b.queue, watchers != b.watchers)), e)
  }

  /** A new request: watch the caller if it uses undo, execute, and queue it if it blocks. */
  ghost function Handle(b: Broker, a: Actor, c: Call, now: I64, clock: Timespec, watchError: I32, peerClosed: bool): (r: (Broker, Answer))
    requires Valid(b.store)
  {
    if c.SemOps? && UsesUndo(c.ops) then
      var (b', error) := Watching(b, a.pid, watchError);
      if error != 0 then (b', Answered(Reply(error, Nothing))) else Serve(b', a, c, now, clock, peerClosed)
    else Serve(b, a, c, now, clock, peerClosed)
  }

  /** A waiter returns from its sleep: a failed wait or an expired deadline ends it, otherwise it loops. */
  ghost function Awake(b: Broker, e: Event): (r: (Broker, Answer))
    requires Valid(b.store) && e.Resume? && e.at < |b.queue|
  {
    if e.failed then (Finish(b, e.at), Dropped)
    else if Expired(e.clock, b.queue[e.at].deadline) then (Finish(b, e.at), Answered(Reply(-EAGAIN, Nothing)))
    else Loop(b, e.at, e.now, e.peerClosed)
  }

  ghost predicate Possible(b: Broker, e: Event) {
    match e
    case Request(a, c, _, _, watchError, _) => a.pid > 0 && watchError <= 0
    case Malformed(a, _, watchError) => a.pid > 0 && watchError <= 0
    case Resume(at, _, _, _, _) => at < |b.queue|
    case ProcessGone(w, _) => w < |b.watchers| && b.watchers[w].Some?
  }

  /** The monitor observed that a watched process has exited. */
  ghost function Gone(b: Broker, watcher: nat, now: I64): Broker
    requires Valid(b.store) && watcher < |b.watchers| && b.watchers[watcher].Some?
  {
    var pid := b.watchers[watcher].value;
    var (s, changed) := ProcessExit(b.store, pid, now);
    b.(store := s, watchers := b.watchers[watcher := None], exited := b.exited + {pid},
       queue := WakeIf(b.queue, changed > 0))
  }

  ghost function Step(b: Broker, e: Event): (b': Broker)
    requires Valid(b.store) && Possible(b, e)
  {
    match e
    case Request(a, c, now, clock, watchError, peerClosed) => Handle(b, a, c, now, clock, watchError, peerClosed).0
    case Malformed(a, usesUndo, watchError) =>
      if usesUndo then Watching(b, a.pid, watchError).0 else b
    case Resume(_, _, _, _, _) => Awake(b, e).0
    case ProcessGone(w, now) => Gone(b, w, now)
  }

  // ---- Store validity ----

  lemma FinishValid(b: Broker, i: nat)
    requires Valid(b.store) && i < |b.queue|
    ensures Valid(Finish(b, i).store)
  {
    hide Valid, AdjustWaitCount;
    var w := b.queue[i];
    AdjustWaitCountValid(b.store, w.id, w.reason.num, w.reason.zero, -1);
  }

  lemma LoopValid(b: Broker, i: nat, now: I64, peerClosed: bool)
    requires Valid(b.store) && i < |b.queue|
    ensures Valid(Loop(b, i, now, peerClosed).0.store)
  {
    hide Valid, Finish, Retry, FirstForSet;
    var w := b.queue[i];
    FinishValid(b, i);
    var s := Retry(b, i, now).0;
    FinishValid(b.(store := s, completed := b.completed + [Completion(w.id, w.ticket)]), i);
  }

  lemma ServeValid(b: Broker, a: Actor, c: Call, now: I64, clock: Timespec, peerClosed: bool)
    requires Valid(b.store)
    ensures Valid(Serve(b, a, c, now, clock, peerClosed).0.store)
  {
    hide Valid, Exec, AdjustWaitCount, Loop, Deadline;
    var (s, r) := Exec(b.store, c, a, now);
    ExecValid(b.store, c, a, now);
    if c.SemOps? {
      var reason := ReasonOf(r);
      AdjustWaitCountValid(s, c.id, reason.num, reason.zero, 1);
      var s' := AdjustWaitCount(s, c.id, reason.num, reason.zero, 1).0;
      LoopValid(Queued(b.(store := s), s', a, c, reason, clock), |b.queue|, now, peerClosed);
    }
  }

  lemma StepValid(b: Broker, e: Event)
    requires Valid(b.store) && Possible(b, e)
    ensures Valid(Step(b, e).store)
  {
    hide Valid, Serve, ProcessExit, Finish, Loop, Watch;
    match e
    case Request(a, c, now, clock, watchError, peerClosed) =>
      ServeValid(b, a, c, now, clock, peerClosed);
      ServeValid(Watching(b, a.pid, watchError).0, a, c, now, clock, peerClosed);
    case Malformed(_, _, _) =>
    case Resume(at, now, _, _, peerClosed) =>
      FinishValid(b, at);
      LoopValid(b, at, now, peerClosed);
    case ProcessGone(w, now) => ExitValid(b.store, b.watchers[w].value, now);
  }

  /** A run: every event is enabled in the state it meets. */
  ghost predicate Runs(b: Broker, es: seq<Event>)
    requires Valid(b.store)
    decreases |es|
  {
    es == [] || (Possible(b, es[0]) && (StepValid(b, es[0]); Runs(Step(b, es[0]), es[1..])))
  }

  ghost function After(b: Broker, es: seq<Event>): (b': Broker)
    requires Valid(b.store) && Runs(b, es)
    ensures Valid(b'.store)
    decreases |es|
  {
    if es == [] then b else StepValid(b, es[0]); After(Step(b, es[0]), es[1..])
  }
}
