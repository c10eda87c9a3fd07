/** Responses and requests stay paired across interrupts, errors, reconnects and forks. */
module Correlation {
  import opened Types

  /** A request on a connection. The token is history: it tells two requests apart even when their ids coincide. */
  datatype Call = Call(requestId: U32, opcode: U16, token: nat)

  /** One connection: the requests sent on it, how many of them the broker has answered (in order, copying opcode
      and request id), and how many answers have been read. */
  datatype Connection = Connection(sent: seq<Call>, answered: nat, read: nat)

  /** One client structure, as one process sees it. */
  datatype Client = Client(pid: int, socket: Option<nat>, connectionPid: int, nextRequestId: U32, pending: Option<Call>)

  /** All connections and client structures; `accepted` records, for each accepted response, the token of the
      pending request and the token of the request the broker answered. */
  datatype System = System(connections: seq<Connection>, clients: seq<Client>, tokens: nat, accepted: seq<(nat, nat)>, rejected: nat)

  datatype Event =
    | Send(client: nat, opcode: U16, sendFails: bool)
    | ConnectFails(client: nat)
    | Answer(connection: nat)
    | Read(client: nat)
    | Fails(client: nat)
    | Close(client: nat)
    | Fork(client: nat, child: int)
    | NewClient(pid: int)

  predicate Connected(c: Client) { c.socket.Some? && c.connectionPid == c.pid }

  function Closed(c: Client): Client { c.(socket := None, connectionPid := 0, pending := None) }

  function NextId(id: U32): U32 { if id == 0xffff_ffff then 1 else id + 1 }

  /** What each event needs. Process ids are not reused. A process may fork at any time, also while another of its
      threads is in a call; the child's copy of that structure has no call in progress. */
  predicate Possible(s: System, e: Event) {
    match e
    case Send(i, _, _) => i < |s.clients| && s.clients[i].pending.None?
    case ConnectFails(i) => i < |s.clients| && s.clients[i].pending.None? && !Connected(s.clients[i])
    case Answer(c) => c < |s.connections| && s.connections[c].answered < |s.connections[c].sent|
    case Read(i) =>
      i < |s.clients| && s.clients[i].pending.Some? && s.clients[i].socket.Some? &&
      s.clients[i].socket.value < |s.connections| &&
      var c := s.connections[s.clients[i].socket.value];
      c.read < c.answered <= |c.sent|
    case Fails(i) => i < |s.clients| && s.clients[i].pending.Some?
    case Close(i) => i < |s.clients| && s.clients[i].pending.None?
    case Fork(i, child) => i < |s.clients| && FreshPid(s, child)
    case NewClient(pid) => FreshPid(s, pid) || exists i :: 0 <= i < |s.clients| && s.clients[i].pid == pid
  }

  predicate FreshPid(s: System, pid: int) {
    pid > 0 && forall i :: 0 <= i < |s.clients| ==> s.clients[i].pid != pid && s.clients[i].connectionPid != pid
  }

  /** The connection used for a call: the cached one if this process opened it, otherwise a new one. */
  function Connect(s: System, i: nat): System
    requires i < |s.clients|
  {
    var c := s.clients[i];
    if Connected(c) then s
    else s.(connections := s.connections + [Connection([], 0, 0)],
            clients := s.clients[i := c.(socket := Some(|s.connections|), connectionPid := c.pid)])
  }

  function Step(s: System, e: Event): System
    requires Possible(s, e)
  {
    match e
    case Send(i, opcode, sendFails) =>
      var s1 := Connect(s, i);
      var c := s1.clients[i];
      var id := NextId(c.nextRequestId);
      if sendFails || c.socket.value >= |s1.connections| then s1.(clients := s1.clients[i := Closed(c.(nextRequestId := id))])
      else
        var call := Call(id, opcode, s.tokens);
        var k := c.socket.value;
        s1.(clients := s1.clients[i := c.(nextRequestId := id, pending := Some(call))],
            connections := s1.connections[k := s1.connections[k].(sent := s1.connections[k].sent + [call])],
            tokens := s.tokens + 1)
    case ConnectFails(i) => s.(clients := s.clients[i := Closed(s.clients[i])])
    case Answer(c) => s.(connections := s.connections[c := s.connections[c].(answered := s.connections[c].answered + 1)])
    case Read(i) =>
      var c := s.clients[i];
      var k := c.socket.value;
      var response := s.connections[k].sent[s.connections[k].read];
      var s1 := s.(connections := s.connections[k := s.connections[k].(read := s.connections[k].read + 1)]);
      if response.requestId == c.pending.value.requestId && response.opcode == c.pending.value.opcode then
        s1.(clients := s.clients[i := c.(pending := None)], accepted := s.accepted + [(c.pending.value.token, response.token)])
      else s1.(clients := s.clients[i := Closed(c)], rejected := s.rejected + 1)
    case Fails(i) => s.(clients := s.clients[i := Closed(s.clients[i])])
    case Close(i) => s.(clients := s.clients[i := Closed(s.clients[i])])
    case Fork(i, child) => s.(clients := s.clients + [s.clients[i].(pid := child, pending := None)])
    case NewClient(pid) => s.(clients := s.clients + [Client(pid, None, 0, 0, None)])
  }

  /** A connected client has read every answer it asked for, except that of its pending request, which is the
      last one sent. A pending request belongs to a connected client. */
  predicate ClientInStep(s: System, i: nat)
    requires i < |s.clients|
  {
    var c := s.clients[i];
    && c.pid > 0
    && (c.socket.Some? ==> c.socket.value < |s.connections| && c.connectionPid > 0)
    && (c.pending.Some? ==> Connected(c))
    && (Connected(c) ==>
          var k := s.connections[c.socket.value];
          if c.pending.Some? then |k.sent| == k.read + 1 && k.sent[k.read] == c.pending.value else |k.sent| == k.read)
  }

  /** Client structures that share a connection are copies made by fork: they agree on who opened it, and at most
      one of them is in that process. */
  predicate Apart(s: System, i: nat, j: nat)
    requires i < |s.clients| && j < |s.clients|
  {
    var c, d := s.clients[i], s.clients[j];
    i != j && c.socket.Some? && c.socket == d.socket ==> c.connectionPid == d.connectionPid && !(Connected(c) && Connected(d))
  }

  predicate InStep(s: System) {
    && (forall i :: 0 <= i < |s.clients| ==> ClientInStep(s, i))
    && (forall i, j :: 0 <= i < |s.clients| && 0 <= j < |s.clients| ==> Apart(s, i, j))
    && (forall n :: 0 <= n < |s.accepted| ==> s.accepted[n].0 == s.accepted[n].1)
    && s.rejected == 0
  }

  /** Changing one client and the connection only it is connected to leaves the others in step. */
  lemma OthersInStep(s: System, s': System, i: nat)
    requires InStep(s) && i < |s.clients| == |s'.clients|
    requires forall j :: 0 <= j < |s.clients| && j != i ==> s'.clients[j] == s.clients[j]
    requires |s.connections| <= |s'.connections|
    requires forall k :: 0 <= k < |s.connections| && s'.connections[k] != s.connections[k] ==>
               s.clients[i].socket == Some(k) && Connected(s.clients[i])
    ensures forall j :: 0 <= j < |s'.clients| && j != i ==> ClientInStep(s', j)
  {
    forall j | 0 <= j < |s'.clients| && j != i
      ensures ClientInStep(s', j)
    {
      assert ClientInStep(s, j) && Apart(s, i, j);
    }
  }

  lemma PairsApart(s: System, s': System, i: nat)
    requires InStep(s) && i < |s.clients| == |s'.clients|
    requires forall j :: 0 <= j < |s.clients| && j != i ==> s'.clients[j] == s.clients[j]
    requires var c, c' := s.clients[i], s'.clients[i];
             c'.socket == None || c'.socket == Some(|s.connections|) ||
             (c'.socket == c.socket && c'.connectionPid == c.connectionPid && c'.pid == c.pid)
    ensures forall j, k :: 0 <= j < |s'.clients| && 0 <= k < |s'.clients| ==> Apart(s', j, k)
  {
    forall j, k | 0 <= j < |s'.clients| && 0 <= k < |s'.clients|
      ensures Apart(s', j, k)
    {
      assert Apart(s, j, k) && ClientInStep(s, j) && ClientInStep(s, k);
    }
  }

  lemma ConnectInStep(s: System, i: nat)
    requires InStep(s) && i < |s.clients| && s.clients[i].pending.None?
    ensures InStep(Connect(s, i)) && Connected(Connect(s, i).clients[i])
    ensures |Connect(s, i).clients| == |s.clients| && Connect(s, i).clients[i].pending.None?
    ensures Connect(s, i).clients[i].socket.value < |Connect(s, i).connections|
  {
    hide InStep;
    Clients(s);
    assert ClientInStep(s, i);
    if !Connected(s.clients[i]) {
      var s' := Connect(s, i);
      OthersInStep(s, s', i);
      PairsApart(s, s', i);
      assert ClientInStep(s', i);
      Together(s, s');
    }
  }

  lemma Clients(s: System)
    requires InStep(s)
    ensures forall i :: 0 <= i < |s.clients| ==> ClientInStep(s, i)
  {
  }

  lemma Together(s: System, s': System)
    requires InStep(s) && s'.rejected == s.rejected && s'.accepted == s.accepted
    requires forall i :: 0 <= i < |s'.clients| ==> ClientInStep(s', i)
    requires forall i, j :: 0 <= i < |s'.clients| && 0 <= j < |s'.clients| ==> Apart(s', i, j)
    ensures InStep(s')
  {
  }

  lemma SendInStep(s: System, e: Event)
    requires InStep(s) && e.Send? && Possible(s, e)
    ensures InStep(Step(s, e))
  {
    hide InStep;
    var i := e.client;
    ConnectInStep(s, i);
    var s1, s' := Connect(s, i), Step(s, e);
    Clients(s1);
    assert ClientInStep(s1, i);
    OthersInStep(s1, s', i);
    PairsApart(s1, s', i);
    assert ClientInStep(s', i);
    Together(s1, s');
  }

  /** The response a client reads next answers the request it has pending. */
  lemma ReadInStep(s: System, e: Event)
    requires InStep(s) && e.Read? && Possible(s, e)
    ensures InStep(Step(s, e)) && |Step(s, e).accepted| == |s.accepted| + 1
  {
    hide InStep;
    var i := e.client;
    var s' := Step(s, e);
    Clients(s);
    assert ClientInStep(s, i);
    OthersInStep(s, s', i);
    PairsApart(s, s', i);
    assert ClientInStep(s', i);
    var token := s.clients[i].pending.value.token;
    assert s'.accepted == s.accepted + [(token, token)];
    TogetherAccepting(s, s');
  }

  lemma TogetherAccepting(s: System, s': System)
    requires InStep(s) && s'.rejected == s.rejected && |s'.accepted| == |s.accepted| + 1
    requires s'.accepted[..|s.accepted|] == s.accepted && s'.accepted[|s.accepted|].0 == s'.accepted[|s.accepted|].1
    requires forall i :: 0 <= i < |s'.clients| ==> ClientInStep(s', i)
    requires forall i, j :: 0 <= i < |s'.clients| && 0 <= j < |s'.clients| ==> Apart(s', i, j)
    ensures InStep(s')
  {
    forall n | 0 <= n < |s'.accepted|
      ensures s'.accepted[n].0 == s'.accepted[n].1
    {
      assert n < |s.accepted| ==> s'.accepted[n] == s'.accepted[..|s.accepted|][n];
    }
  }

  lemma AnswerInStep(s: System, e: Event)
    requires InStep(s) && e.Answer? && Possible(s, e)
    ensures InStep(Step(s, e))
  {
    var s' := Step(s, e);
    forall i | 0 <= i < |s'.clients|
      ensures ClientInStep(s', i)
    {
      assert ClientInStep(s, i);
    }
    forall i, j | 0 <= i < |s'.clients| && 0 <= j < |s'.clients|
      ensures Apart(s', i, j)
    {
      assert Apart(s, i, j);
    }
  }

  lemma CloseInStep(s: System, i: nat)
    requires InStep(s) && i < |s.clients|
    ensures InStep(s.(clients := s.clients[i := Closed(s.clients[i])]))
  {
    hide InStep;
    var s' := s.(clients := s.clients[i := Closed(s.clients[i])]);
    Clients(s);
    OthersInStep(s, s', i);
    PairsApart(s, s', i);
    assert ClientInStep(s, i) && ClientInStep(s', i);
    Together(s, s');
  }

  lemma AddClientInStep(s: System, c: Client)
    requires InStep(s) && c.pid > 0 && c.pending.None?
    requires c.socket.None? ||
             exists i :: 0 <= i < |s.clients| && c.socket == s.clients[i].socket &&
                         c.connectionPid == s.clients[i].connectionPid && c.pid != c.connectionPid
    ensures InStep(s.(clients := s.clients + [c]))
  {
    var s' := s.(clients := s.clients + [c]);
    forall i | 0 <= i < |s'.clients|
      ensures ClientInStep(s', i)
    {
      if i < |s.clients| {
        assert ClientInStep(s, i);
      } else if c.socket.Some? {
        var k :| 0 <= k < |s.clients| && c.socket == s.clients[k].socket && c.connectionPid == s.clients[k].connectionPid;
        assert ClientInStep(s, k);
      }
    }
    forall i, j | 0 <= i < |s'.clients| && 0 <= j < |s'.clients|
      ensures Apart(s', i, j)
    {
      if c.socket.Some? {
        var k :| 0 <= k < |s.clients| && c.socket == s.clients[k].socket && c.connectionPid == s.clients[k].connectionPid;
        assert i < |s.clients| ==> Apart(s, i, k);
        assert j < |s.clients| ==> Apart(s, k, j);
      }
      assert i < |s.clients| && j < |s.clients| ==> Apart(s, i, j);
    }
  }

  lemma StepInStep(s: System, e: Event)
    requires InStep(s) && Possible(s, e)
    ensures InStep(Step(s, e))
  {
    hide InStep;
    Clients(s);
    match e
    case Send(_, _, _) => SendInStep(s, e);
    case ConnectFails(i) => CloseInStep(s, i);
    case Answer(_) => AnswerInStep(s, e);
    case Read(_) => ReadInStep(s, e);
    case Fails(i) => CloseInStep(s, i);
    case Close(i) => CloseInStep(s, i);
    case Fork(i, child) => AddClientInStep(s, s.clients[i].(pid := child, pending := None));
    case NewClient(pid) =>
      assert forall i :: 0 <= i < |s.clients| ==> ClientInStep(s, i) ==> s.clients[i].pid > 0;
      AddClientInStep(s, Client(pid, None, 0, 0, None));
  }

  /** The connection a call uses: the cached one if this process opened it, otherwise the new one. */
  function Used(c: Client, added: nat): nat {
    if Connected(c) then c.socket.value else added
  }

  /** A client structure after a completed exchange. */
  function Exchanged(c: Client, added: nat): Client {
    c.(socket := Some(Used(c, added)), connectionPid := c.pid, nextRequestId := NextId(c.nextRequestId))
  }

  /** A client structure after an exchange that failed once it had a connection. */
  function Failed(c: Client): Client {
    Closed(c.(nextRequestId := NextId(c.nextRequestId)))
  }

  /** What a whole exchange does to the client structure: sending, the broker's answer and reading it; or failing to
      connect, to send or to receive. */
  lemma ExchangeSteps(s: System, i: nat, opcode: U16)
    requires InStep(s) && i < |s.clients| && s.clients[i].pending.None?
    ensures var c := s.clients[i];
            var sent := Step(s, Send(i, opcode, false));
            var k := Used(c, |s.connections|);
            && k < |sent.connections|
            && Step(s, Send(i, opcode, true)).clients[i] == Failed(c)
            && Possible(sent, Fails(i)) && Step(sent, Fails(i)).clients[i] == Failed(c)
            && (sent.connections[k].answered < |sent.connections[k].sent| ==>
                  Possible(sent, Answer(k)) &&
                  (var answered := Step(sent, Answer(k));
                   answered.connections[k].answered == |answered.connections[k].sent| ==>
                     Possible(answered, Read(i)) && Step(answered, Read(i)).clients[i] == Exchanged(c, |s.connections|)))
  {
    ConnectInStep(s, i);
    var s1 := Connect(s, i);
    assert ClientInStep(s1, i);
    hide InStep;
  }

  predicate Runs(s: System, es: seq<Event>)
    decreases |es|
  {
    es == [] || (Possible(s, es[0]) && Runs(Step(s, es[0]), es[1..]))
  }

  function After(s: System, es: seq<Event>): System
    requires Runs(s, es)
    decreases |es|
  {
    if es == [] then s else After(Step(s, es[0]), es[1..])
  }

  /** Over every run of clients, any response a client accepts is the broker's answer to that very request, and no
      response is ever refused as uncorrelated. */
  lemma {:induction false} ResponsesCorrelate(s: System, es: seq<Event>)
    requires InStep(s) && Runs(s, es)
    ensures InStep(After(s, es))
    decreases |es|
  {
    hide InStep, Step, Possible;
    if es != [] {
      StepInStep(s, es[0]);
      ResponsesCorrelate(Step(s, es[0]), es[1..]);
    }
  }

  /** No client and no connection yet. */
  function Nobody(): System { System([], [], 0, [], 0) }

  lemma ResponsesCorrelateFromStart(es: seq<Event>)
    requires Runs(Nobody(), es)
    ensures After(Nobody(), es).rejected == 0
    ensures forall n :: 0 <= n < |After(Nobody(), es).accepted| ==> After(Nobody(), es).accepted[n].0 == After(Nobody(), es).accepted[n].1
  {
    ResponsesCorrelate(Nobody(), es);
  }

  // ---- Request ids ----

  /** The request id `k` requests later. */
  function NthId(id: U32, k: nat): U32
    decreases k
  {
    if k == 0 then id else NextId(NthId(id, k - 1))
  }

  const ID_CYCLE: int := 0xffff_ffff

  lemma {:induction false} NthIdIs(id: U32, k: nat)
    requires id >= 1
    ensures NthId(id, k) == 1 + (id - 1 + k) % ID_CYCLE
    decreases k
  {
    if k > 0 {
      NthIdIs(id, k - 1);
      CycleNext(id - 1 + (k - 1));
    } else {
      CycleShift(id - 1, 0);
    }
  }

  lemma CycleNext(x: nat)
    ensures (x + 1) % ID_CYCLE == if x % ID_CYCLE == ID_CYCLE - 1 then 0 else x % ID_CYCLE + 1
  {
    var q, m := x / ID_CYCLE, x % ID_CYCLE;
    assert x == q * ID_CYCLE + m;
    if m == ID_CYCLE - 1 {
      assert x + 1 == 0 + (q + 1) * ID_CYCLE;
      CycleShift(0, q + 1);
    } else {
      CycleShift(m + 1, q);
    }
  }

  /** Request ids are never zero, and a client uses one again only after all the 4294967295 others. */
  lemma RequestIdsDistinct(id: U32, k: nat)
    ensures NthId(id, k + 1) != 0
    ensures id >= 1 ==> (NthId(id, k) == id <==> k % ID_CYCLE == 0)
  {
    if id >= 1 {
      NthIdIs(id, k);
      var q, m := k / ID_CYCLE, k % ID_CYCLE;
      assert k == q * ID_CYCLE + m;
      CycleShift(id - 1 + m, q);
    }
  }

  lemma {:induction false} CycleShift(x: nat, q: nat)
    ensures (x + q * ID_CYCLE) % ID_CYCLE == x % ID_CYCLE
  {
    if q > 0 {
      CycleShift(x, q - 1);
      assert x + q * ID_CYCLE == (x + (q - 1) * ID_CYCLE) + ID_CYCLE;
    }
  }

  /** In any state, a response to another request is refused and the connection dropped. */
  lemma ForeignRefused(s: System, i: nat)
    requires Possible(s, Read(i))
    ensures var c := s.clients[i];
            var k := s.connections[c.socket.value];
            k.sent[k.read].requestId != c.pending.value.requestId || k.sent[k.read].opcode != c.pending.value.opcode ==>
              && Step(s, Read(i)).accepted == s.accepted && Step(s, Read(i)).rejected == s.rejected + 1
              && Step(s, Read(i)).clients[i].socket == None && Step(s, Read(i)).clients[i].pending == None
  {
  }
}
