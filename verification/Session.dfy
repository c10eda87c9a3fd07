/** The client structure, updated in place: its cached connection, the process that opened it, and the last request id. */
module Session {
  import opened Types
  import opened StoreCalls
  import opened Wire
  import opened Dispatcher
  import opened Transport
  import C = Client
  import K = Correlation

  datatype Result = Result(error: I32, response: Packet)
  datatype Answer = GaveUp(error: I32) | Replied(reply: Reply)

  class Session {
    var socket: Option<nat>
    var connectionPid: int
    var nextRequestId: U32

    /** The client structure as a process sees it between calls. */
    ghost function View(pid: int): K.Client
      reads this
    {
      K.Client(pid, socket, connectionPid, nextRequestId, None)
    }

    constructor ()
      ensures forall pid :: View(pid) == K.Client(pid, None, 0, 0, None)
    {
      socket, connectionPid, nextRequestId := None, 0, 0;
    }

    method Close()
      modifies this
      ensures forall pid :: View(pid) == K.Closed(old(View(pid)))
    {
      socket := None;
      connectionPid := 0;
    }

    /** Keeps the cached connection only in the process that opened it; otherwise drops it and connects again. */
    method EnsureConnection(pid: int, added: Option<nat>, error: I32) returns (r: I32)
      requires error < 0
      modifies this
      ensures r == if K.Connected(old(View(pid))) || added.Some? then 0 else error
      ensures View(pid) == if K.Connected(old(View(pid))) then old(View(pid))
                           else if added.Some? then old(View(pid)).(socket := added, connectionPid := pid)
                           else K.Closed(old(View(pid)))
    {
      if socket.Some? && connectionPid == pid {
        return 0;
      }
      Close();
      if added.None? {
        return error;
      }
      socket := added;
      connectionPid := pid;
      return 0;
    }

    /** One request and its response. Success keeps the connection, sends exactly the numbered request and reads
        exactly the next packet, which matches it; every failure leaves the structure without a connection. */
    method Exchange(pid: int, sockets: seq<Socket>, added: Option<nat>, error: I32, request: Packet, restart: bool)
      returns (r: Result)
      requires error < 0 && |request.payload| == request.header.length
      requires forall i :: 0 <= i < |sockets| ==> Honest(sockets[i].script)
      requires socket.Some? ==> socket.value < |sockets|
      requires added.Some? ==> added.value < |sockets|
      modifies this, sockets
      ensures r.error <= 0
      ensures var c := old(View(pid));
              View(pid) == if !K.Connected(c) && added.None? then K.Closed(c)
                           else if r.error != 0 then K.Failed(c)
                           else K.Exchanged(c, if added.Some? then added.value else 0)
      ensures !K.Connected(old(View(pid))) && added.None? ==> r.error == error
      ensures r.error == 0 ==>
                && socket.Some? && socket.value < |sockets|
                && var numbered := request.(header := request.header.(requestId := nextRequestId));
                   var used := sockets[socket.value];
                && used.outgoing == old(used.outgoing) + Serialize(numbered)
                && Parse(old(used.incoming)) == Next(r.response, used.incoming)
                && C.Correlated(numbered.header, r.response.header)
      ensures var c := old(View(pid));
              K.Connected(c) || added.Some? ==>
                var k := K.Used(c, if added.Some? then added.value else 0);
                var numbered := request.header.(requestId := K.NextId(c.nextRequestId));
                old(Smooth(sockets[k].script, restart)) && HeaderStatus(numbered) == 0 ==>
                  r.error == match Parse(old(sockets[k].incoming))
                             case Next(p, _) => if C.Correlated(numbered, p.header) then 0 else -EPROTO
                             case End => -ECONNRESET
                             case Malformed(e) => e
    {
      hide Parse, Serialize, HeaderStatus, C.Correlated;
      r := Result(0, request);
      var e := EnsureConnection(pid, added, error);
      if e != 0 {
        return r.(error := e);
      }
      nextRequestId := if nextRequestId == 0xffff_ffff then 1 else nextRequestId + 1;
      var numbered := request.(header := request.header.(requestId := nextRequestId));
      var used := sockets[socket.value];
      e := SendPacket(used, numbered);
      var response := request;
      if e == 0 {
        e, response := Receive(used, restart);
      }
      if e != 0 {
        Close();
        return r.(error := if e == TRANSPORT_EOF then -ECONNRESET else e);
      }
      if !C.Correlated(numbered.header, response.header) {
        Close();
        return r.(error := -EPROTO);
      }
      return Result(0, response);
    }

    /** A whole call. A reply is what the client's checks make of the packet that answered exactly this request; a
        response that fails them closes the connection, unless it is a bare "blocked". */
    method Perform(pid: int, sockets: seq<Socket>, added: Option<nat>, error: I32, c: Call, restart: bool)
      returns (r: Answer, ghost p: Packet)
      requires error < 0 && C.Sendable(c)
      requires forall i :: 0 <= i < |sockets| ==> Honest(sockets[i].script)
      requires socket.Some? ==> socket.value < |sockets|
      requires added.Some? ==> added.value < |sockets|
      modifies this, sockets
      ensures r.GaveUp? ==> r.error < 0 && (socket == None || (c.SemOps? && |p.payload| == 0 && p.header.result == OP_BLOCKED))
      ensures r.Replied? ==>
                && View(pid) == K.Exchanged(old(View(pid)), if added.Some? then added.value else 0)
                && socket.Some? && socket.value < |sockets|
                && var request := C.Request(c, nextRequestId);
                   var used := sockets[socket.value];
                && used.outgoing == old(used.outgoing) + Serialize(request)
                && Parse(old(used.incoming)) == Next(p, used.incoming)
                && C.Accept(c, request.header, p) == C.Accepted(r.reply)
      ensures var v := old(View(pid));
              !K.Connected(v) && added.None? ==> r == GaveUp(error)
      ensures var v := old(View(pid));
              K.Connected(v) || added.Some? ==>
                var k := K.Used(v, if added.Some? then added.value else 0);
                old(Smooth(sockets[k].script, restart)) ==>
                  match Parse(old(sockets[k].incoming))
                  case End => r == GaveUp(-ECONNRESET)
                  case Malformed(e) => r == GaveUp(e)
                  case Next(q, _) =>
                    var accepted := C.Accept(c, C.Request(c, K.NextId(v.nextRequestId)).header, q);
                    r == if accepted.Accepted? then Replied(accepted.reply) else GaveUp(-EPROTO)
    {
      hide Parse, Serialize, HeaderStatus, C.RequestBytes, C.Correlated, GetU32, ValuesAt, C.LimitsAt, C.MetadataAt;
      C.RequestFramed(c, K.NextId(nextRequestId));
      var result := Exchange(pid, sockets, added, error, C.Request(c, 0), restart);
      p := result.response;
      if result.error != 0 {
        return GaveUp(result.error), p;
      }
      match C.Accept(c, C.Request(c, nextRequestId).header, result.response)
      case Accepted(reply) => return Replied(reply), p;
      case ProtocolError =>
        if !(c.SemOps? && |result.response.payload| == 0) {
          Close();
        }
        return GaveUp(-EPROTO), p;
    }
  }
}
