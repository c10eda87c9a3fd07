/** The client's request encoder and response checks, and the transparency of a call through the wire. */
module Client {
  import opened Types
  import opened SemStore
  import opened StoreCalls
  import opened Sequential
  import opened Wire
  import opened Dispatcher

  // ---- Requests ----

  function OpBytes(o: SemOp): (b: Bytes)
    ensures |b| == 8
  {
    U16Bytes(o.num) + I16Bytes(o.op) + U16Bytes(o.flg) + U16Bytes(0)
  }

  function OpsBytes(ops: seq<SemOp>): (b: Bytes)
    ensures |b| == 8 * |ops|
  {
    if ops == [] then [] else OpsBytes(ops[..|ops| - 1]) + OpBytes(ops[|ops| - 1])
  }

  /** Calls the client sends; others it rejects itself with an error. */
  predicate Sendable(c: Call) {
    match c
    case GetValues(_, count) => 1 <= count <= MAX_PER_SET
    case SetValues(_, values) => 1 <= |values| <= MAX_PER_SET
    case SemOps(_, ops, timeout) => 1 <= |ops| <= MAX_PER_SET && (timeout.Some? ==> timeout.value >= 0)
    case _ => true
  }

  /** semget flags the dispatcher lets through. */
  predicate FlagsInMask(c: Call) { c.SemGet? ==> 0 <= c.flags < 0x800 }

  function Opcode(c: Call): U16 {
    match c
    case Ping => PING
    case SemGet(_, _, _) => SEMGET
    case RemoveSet(_) => REMOVE
    case GetValue(_, _) => GETVAL
    case GetLastPid(_, _) => GETPID
    case GetNegative(_, _) => GETNCNT
    case GetZero(_, _) => GETZCNT
    case SetValue(_, _, _) => SETVAL
    case GetValues(_, _) => GETALL
    case SetValues(_, _) => SETALL
    case SemOps(_, _, timeout) => if timeout.Some? then SEMTIMEDOP else SEMOP
    case Stat(_) => STAT
    case StatIndex(_) => STAT_INDEX
    case SetMeta(_, _, _, _) => SETMETA
    case Info(_) => INFO
  }

  function RequestBytes(c: Call): (b: Bytes)
    requires Sendable(c)
  {
    match c
    case Ping => []
    case SemGet(key, nsems, flags) => I32Bytes(key) + I32Bytes(nsems) + U32Bytes(ToU32(flags))
    case RemoveSet(id) => I32Bytes(id)
    case GetValue(id, num) => I32Bytes(id) + U32Bytes(num)
    case GetLastPid(id, num) => I32Bytes(id) + U32Bytes(num)
    case GetNegative(id, num) => I32Bytes(id) + U32Bytes(num)
    case GetZero(id, num) => I32Bytes(id) + U32Bytes(num)
    case SetValue(id, num, value) => I32Bytes(id) + U32Bytes(num) + U32Bytes(value)
    case GetValues(id, count) => I32Bytes(id) + U32Bytes(count)
    case SetValues(id, values) => I32Bytes(id) + U32Bytes(|values|) + ValuesBytes(values)
    case SemOps(id, ops, timeout) =>
      I32Bytes(id) + U32Bytes(|ops|) + (if timeout.Some? then I64Bytes(timeout.value) else []) + OpsBytes(ops)
    case Stat(id) => I32Bytes(id)
    case StatIndex(index) => U32Bytes(index)
    case SetMeta(id, uid, gid, mode) => I32Bytes(id) + U32Bytes(uid) + U32Bytes(gid) + U32Bytes(mode)
    case Info(dynamic) => U32Bytes(if dynamic then 1 else 0)
  }

  function Request(c: Call, requestId: U32): Packet
    requires Sendable(c)
  {
    RequestLength(c);
    Packet(Header(VERSION, REQUEST, Opcode(c), requestId, |RequestBytes(c)|, 0), RequestBytes(c))
  }

  lemma RequestLength(c: Call)
    requires Sendable(c)
    ensures |RequestBytes(c)| <= MAX_PAYLOAD
  {
    hide U16Bytes, U32Bytes, U64Bytes, ValuesBytes, OpsBytes;
  }

  lemma RequestFramed(c: Call, requestId: U32)
    requires Sendable(c)
    ensures Framed(Request(c, requestId))
  {
    hide RequestBytes;
    RequestLength(c);
  }

  // ---- Responses ----

  datatype Accepted = Accepted(reply: Reply) | ProtocolError

  function MetadataAt(b: Bytes): Metadata
    requires |b| == 56
  {
    Metadata(GetI32(b, 0), Perm(GetU32(b, 4), GetU32(b, 8), GetU32(b, 12), GetU32(b, 16), GetU32(b, 20)),
             GetU32(b, 24), GetI64(b, 32), GetI64(b, 40), GetU32(b, 48))
  }

  function LimitsAt(b: Bytes, at: nat, count: nat): (r: seq<I32>)
    requires at + 4 * count <= |b|
    ensures |r| == count
  {
    seq(count, i requires 0 <= i < count => GetI32(b, at + 4 * i))
  }

  /** The checks every exchange makes on the response header. */
  predicate Correlated(request: Header, response: Header) {
    && response.version == VERSION && response.kind == RESPONSE && response.opcode == request.opcode
    && response.requestId == request.requestId && !(response.result < 0 && response.length != 0)
  }

  /** What the client makes of a response to a call. */
  function Accept(c: Call, request: Header, p: Packet): (r: Accepted)
    requires |p.payload| == p.header.length
  {
    var result := p.header.result;
    if !Correlated(request, p.header) then ProtocolError
    else if c.GetValues? then
      if result != 0 then Accepted(Reply(result, Nothing))
      else if |p.payload| != 4 + c.count * 2 || GetU32(p.payload, 0) != c.count then ProtocolError
      else Accepted(Reply(0, Values(ValuesAt(p.payload, 4, c.count))))
    else if c.Stat? || c.StatIndex? then
      if result < 0 then Accepted(Reply(result, Nothing))
      else if |p.payload| != 56 || GetU32(p.payload, 28) != 0 || GetU32(p.payload, 52) != 0 then ProtocolError
      else Accepted(Reply(if c.Stat? then 0 else result, Meta(MetadataAt(p.payload))))
    else if c.Info? then
      if result < 0 then Accepted(Reply(result, Nothing))
      else if |p.payload| != 40 then ProtocolError
      else Accepted(Reply(result, Limits(LimitsAt(p.payload, 0, 10))))
    else if |p.payload| != 0 || (c.SemOps? && result == OP_BLOCKED) then ProtocolError
    else Accepted(Reply(result, Nothing))
  }

  // ---- Round trips ----

  lemma {:induction false} ValuesRoundTrip(values: seq<U16>, b: Bytes, at: nat, i: nat)
    requires Sits(b, at, ValuesBytes(values)) && i < |values|
    ensures GetU16(b, at + 2 * i) == values[i]
  {
    hide U16Bytes, GetU16;
    var n := |values| - 1;
    var init := values[..n];
    assert ValuesBytes(values) == ValuesBytes(init) + U16Bytes(values[n]);
    if i == n {
      assert b[at + 2 * n..at + 2 * n + 2] == b[at..at + 2 * |values|][2 * n..] == U16Bytes(values[n]);
      ReadU16(b, at + 2 * n, values[n]);
    } else {
      assert b[at..at + 2 * n] == b[at..at + 2 * |values|][..2 * n] == ValuesBytes(init);
      ValuesRoundTrip(init, b, at, i);
    }
  }

  lemma {:induction false} LimitsRoundTrip(limits: seq<I32>, b: Bytes, at: nat, i: nat)
    requires Sits(b, at, LimitsBytes(limits)) && i < |limits|
    ensures GetI32(b, at + 4 * i) == limits[i]
  {
    hide U32Bytes, GetU32;
    var n := |limits| - 1;
    var init := limits[..n];
    assert LimitsBytes(limits) == LimitsBytes(init) + I32Bytes(limits[n]);
    if i == n {
      assert b[at + 4 * n..at + 4 * n + 4] == b[at..at + 4 * |limits|][4 * n..] == I32Bytes(limits[n]);
      ReadSigned(b, at + 4 * n);
    } else {
      assert b[at..at + 4 * n] == b[at..at + 4 * |limits|][..4 * n] == LimitsBytes(init);
      LimitsRoundTrip(init, b, at, i);
    }
  }

  lemma OpRoundTrip(o: SemOp, b: Bytes, at: nat)
    requires Sits(b, at, OpBytes(o))
    ensures OpAt(b, at) == o && GetU16(b, at + 6) == 0
  {
    hide U16Bytes, GetU16;
    var f := OpBytes(o);
    assert f[..2] == U16Bytes(o.num) && f[2..4] == I16Bytes(o.op) && f[4..6] == U16Bytes(o.flg) && f[6..8] == U16Bytes(0);
    var g := b[at..at + 8];
    assert forall i :: 0 <= i < 8 ==> g[i] == b[at + i];
    assert b[at..at + 2] == f[..2] && b[at + 2..at + 4] == f[2..4];
    assert b[at + 4..at + 6] == f[4..6] && b[at + 6..at + 8] == f[6..8];
    ReadU16(b, at, o.num);
    ReadSigned(b, at + 2);
    ReadU16(b, at + 4, o.flg);
    ReadU16(b, at + 6, 0);
  }

  lemma {:induction false} OpsRoundTrip(ops: seq<SemOp>, b: Bytes, at: nat, i: nat)
    requires Sits(b, at, OpsBytes(ops)) && i < |ops|
    ensures OpAt(b, at + 8 * i) == ops[i] && GetU16(b, at + 8 * i + 6) == 0
  {
    hide OpBytes, GetU16;
    var n := |ops| - 1;
    var init := ops[..n];
    assert OpsBytes(ops) == OpsBytes(init) + OpBytes(ops[n]);
    if i == n {
      assert b[at + 8 * n..at + 8 * n + 8] == b[at..at + 8 * |ops|][8 * n..] == OpBytes(ops[n]);
      OpRoundTrip(ops[n], b, at + 8 * n);
    } else {
      assert b[at..at + 8 * n] == b[at..at + 8 * |ops|][..8 * n] == OpsBytes(init);
      OpsRoundTrip(init, b, at, i);
    }
  }

  lemma MetadataFields(m: Metadata)
    ensures var b := MetadataBytes(m);
            && GetI32(b, 0) == m.key && GetU32(b, 4) == m.perm.uid && GetU32(b, 8) == m.perm.gid
            && GetU32(b, 12) == m.perm.cuid && GetU32(b, 16) == m.perm.cgid && GetU32(b, 20) == m.perm.mode
            && GetU32(b, 24) == m.nsems && GetU32(b, 28) == 0 && GetI64(b, 32) == m.otime && GetI64(b, 40) == m.ctime
            && GetU32(b, 48) == m.sequence && GetU32(b, 52) == 0
  {
    hide U32Bytes, U64Bytes, GetU32, GetU64, Sits;
    var b := MetadataBytes(m);
    var b4 := I32Bytes(m.key);
    var b8 := b4 + U32Bytes(m.perm.uid);
    var b12 := b8 + U32Bytes(m.perm.gid);
    var b16 := b12 + U32Bytes(m.perm.cuid);
    var b20 := b16 + U32Bytes(m.perm.cgid);
    var b24 := b20 + U32Bytes(m.perm.mode);
    var b28 := b24 + U32Bytes(m.nsems);
    var b32 := b28 + U32Bytes(0);
    var b40 := b32 + I64Bytes(m.otime);
    var b48 := b40 + I64Bytes(m.ctime);
    var b52 := b48 + U32Bytes(m.sequence);
    Whole(b4);
    Append(b4, U32Bytes(m.perm.uid));
    Append(b8, U32Bytes(m.perm.gid));
    Append(b12, U32Bytes(m.perm.cuid));
    Append(b16, U32Bytes(m.perm.cgid));
    Append(b20, U32Bytes(m.perm.mode));
    Append(b24, U32Bytes(m.nsems));
    Append(b28, U32Bytes(0));
    Append(b32, I64Bytes(m.otime));
    Append(b40, I64Bytes(m.ctime));
    Append(b48, U32Bytes(m.sequence));
    Append(b52, U32Bytes(0));
    ReadSigned(b, 0);
    ReadU32(b, 4, m.perm.uid);
    ReadU32(b, 8, m.perm.gid);
    ReadU32(b, 12, m.perm.cuid);
    ReadU32(b, 16, m.perm.cgid);
    ReadU32(b, 20, m.perm.mode);
    ReadU32(b, 24, m.nsems);
    ReadU32(b, 28, 0);
    ReadSigned(b, 32);
    ReadSigned(b, 40);
    ReadU32(b, 48, m.sequence);
    ReadU32(b, 52, 0);
  }

  lemma MetadataRoundTrip(m: Metadata)
    ensures MetadataAt(MetadataBytes(m)) == m
    ensures GetU32(MetadataBytes(m), 28) == 0 && GetU32(MetadataBytes(m), 52) == 0
  {
    hide MetadataBytes, GetU32, GetU64, FromU32, FromU64;
    MetadataFields(m);
  }

  lemma ScalarRequestRoundTrip(c: Call)
    requires Sendable(c) && FlagsInMask(c) && !c.SemOps? && !c.SetValues?
    ensures DecodeCall(Opcode(c), RequestBytes(c)) == Decoded(c)
  {
    hide U32Bytes, GetU32, FromU32, Sits, DecodeOps, ValuesAt;
    var b := RequestBytes(c);
    if |b| >= 4 {
      ReadSigned(b, 0);
    }
    match c
    case SemGet(key, nsems, flags) =>
      Fields(b, I32Bytes(key), I32Bytes(nsems), U32Bytes(ToU32(flags)), []);
      ReadSigned(b, 4);
      ReadU32(b, 8, ToU32(flags));
    case GetValue(id, num) => Pair(b, id, num);
    case GetLastPid(id, num) => Pair(b, id, num);
    case GetNegative(id, num) => Pair(b, id, num);
    case GetZero(id, num) => Pair(b, id, num);
    case SetValue(id, num, value) =>
      Fields(b, I32Bytes(id), U32Bytes(num), U32Bytes(value), []);
      ReadU32(b, 4, num);
      ReadU32(b, 8, value);
    case GetValues(id, count) => Pair(b, id, count);
    case StatIndex(index) => Whole(b); ReadU32(b, 0, index);
    case SetMeta(id, uid, gid, mode) =>
      Fields(b, I32Bytes(id), U32Bytes(uid), U32Bytes(gid), U32Bytes(mode));
      ReadU32(b, 4, uid);
      ReadU32(b, 8, gid);
      ReadU32(b, 12, mode);
    case Info(dynamic) => Whole(b); ReadU32(b, 0, if dynamic then 1 else 0);
    case RemoveSet(id) => Whole(b);
    case Stat(id) => Whole(b);
    case Ping =>
  }

  lemma Pair(b: Bytes, id: I32, num: U32)
    requires b == I32Bytes(id) + U32Bytes(num)
    ensures |b| == 8 && GetI32(b, 0) == id && GetU32(b, 4) == num
  {
    hide U32Bytes, GetU32, FromU32, Sits;
    Fields(b, I32Bytes(id), U32Bytes(num), [], []);
    ReadSigned(b, 0);
    ReadU32(b, 4, num);
  }

  lemma SetValuesRoundTrip(id: I32, values: seq<U16>)
    requires 1 <= |values| <= MAX_PER_SET
    ensures DecodeCall(SETALL, RequestBytes(SetValues(id, values))) == Decoded(SetValues(id, values))
  {
    hide U32Bytes, GetU32, FromU32, ValuesBytes, GetU16;
    var b := RequestBytes(SetValues(id, values));
    assert Sits(b, 0, I32Bytes(id)) && Sits(b, 4, U32Bytes(|values|)) && Sits(b, 8, ValuesBytes(values));
    ReadSigned(b, 0);
    ReadU32(b, 4, |values|);
    forall i | 0 <= i < |values|
      ensures GetU16(b, 8 + 2 * i) == values[i]
    {
      ValuesRoundTrip(values, b, 8, i);
    }
    assert ValuesAt(b, 8, |values|) == values;
  }

  lemma SemOpsRoundTrip(c: Call)
    requires Sendable(c) && c.SemOps?
    ensures DecodeCall(Opcode(c), RequestBytes(c)) == Decoded(c)
  {
    hide U32Bytes, U64Bytes, GetU32, GetU64, FromU32, OpsBytes, OpAt, GetU16;
    var b, prefix := RequestBytes(c), PrefixSize(Opcode(c));
    assert Sits(b, 0, I32Bytes(c.id)) && Sits(b, 4, U32Bytes(|c.ops|)) && Sits(b, prefix, OpsBytes(c.ops));
    ReadSigned(b, 0);
    ReadU32(b, 4, |c.ops|);
    if c.timeout.Some? {
      assert Sits(b, 8, I64Bytes(c.timeout.value));
      ReadSigned(b, 8);
    }
    forall i | 0 <= i < |c.ops|
      ensures OpAt(b, prefix + 8 * i) == c.ops[i] && GetU16(b, prefix + 8 * i + 6) == 0
    {
      OpsRoundTrip(c.ops, b, prefix, i);
    }
    assert OpsAt(b, prefix, |c.ops|) == c.ops;
  }

  /** Every call the client sends is decoded by the dispatcher as the same call. */
  lemma RequestRoundTrip(c: Call)
    requires Sendable(c) && FlagsInMask(c)
    ensures DecodeCall(Opcode(c), RequestBytes(c)) == Decoded(c)
  {
    hide DecodeCall, RequestBytes;
    if c.SemOps? {
      SemOpsRoundTrip(c);
    } else if c.SetValues? {
      SetValuesRoundTrip(c.id, c.values);
    } else {
      ScalarRequestRoundTrip(c);
    }
  }

  /** The client recovers every reply the broker sends to an open peer. */
  lemma ReplyRoundTrip(s: Store, c: Call, a: Actor, now: I64, request: Header)
    requires Valid(s) && Sendable(c) && request.opcode == Opcode(c)
    ensures Exec(s, c, a, now).1.payload.Values? ==> |Exec(s, c, a, now).1.payload.values| <= MAX_PER_SET
    ensures Exec(s, c, a, now).1.payload.Limits? ==> |Exec(s, c, a, now).1.payload.limits| == 10
    ensures Framed(Response(request, Exec(s, c, a, now).1))
    ensures Accept(c, request, Response(request, Exec(s, c, a, now).1)) ==
            if c.SemOps? && Exec(s, c, a, now).1.result == OP_BLOCKED then ProtocolError else Accepted(Exec(s, c, a, now).1)
  {
    hide Exec, ValuesBytes, LimitsBytes, MetadataBytes, GetU32, ValuesAt, LimitsAt, MetadataAt;
    ReplyShape(s, c, a, now);
    var r := Exec(s, c, a, now).1;
    match r.payload
    case Nothing =>
    case Wait(_) =>
    case Values(values) => ValuesReply(values);
    case Meta(m) => MetadataRoundTrip(m);
    case Limits(limits) => LimitsReply(limits);
  }

  lemma ValuesReply(values: seq<U16>)
    requires |values| <= MAX_PER_SET
    ensures var b := PayloadBytes(Values(values));
            |b| == 4 + 2 * |values| && GetU32(b, 0) == |values| && ValuesAt(b, 4, |values|) == values
  {
    hide U32Bytes, ValuesBytes, GetU32, GetU16, Sits;
    var b := PayloadBytes(Values(values));
    Whole(U32Bytes(|values|));
    Append(U32Bytes(|values|), ValuesBytes(values));
    ReadU32(b, 0, |values|);
    forall i | 0 <= i < |values|
      ensures GetU16(b, 4 + 2 * i) == values[i]
    {
      ValuesRoundTrip(values, b, 4, i);
    }
  }

  lemma LimitsReply(limits: seq<I32>)
    ensures LimitsAt(LimitsBytes(limits), 0, |limits|) == limits
  {
    hide LimitsBytes, GetU32, FromU32, Sits;
    var b := LimitsBytes(limits);
    Whole(b);
    forall i | 0 <= i < |limits|
      ensures GetI32(b, 0 + 4 * i) == limits[i]
    {
      LimitsRoundTrip(limits, b, 0, i);
    }
  }

  /** The reason of a blocked list, as the broker reads it back from the dispatcher's response. */
  lemma ReasonReply(reason: Reason)
    ensures var b := PayloadBytes(Wait(reason));
            |b| == 8 && GetU16(b, 0) == reason.num && GetU16(b, 2) == (if reason.zero then 1 else 0) && GetU32(b, 4) == 0
  {
    hide U16Bytes, U32Bytes, GetU16, GetU32, Sits;
    var b := PayloadBytes(Wait(reason));
    var b2 := U16Bytes(reason.num);
    var b4 := b2 + U16Bytes(if reason.zero then 1 else 0);
    Whole(b2);
    Append(b2, U16Bytes(if reason.zero then 1 else 0));
    Append(b4, U32Bytes(0));
    ReadU16(b, 0, reason.num);
    ReadU16(b, 2, if reason.zero then 1 else 0);
    ReadU32(b, 4, 0);
  }

  /** Flags outside the dispatcher's mask are refused before the store is reached. */
  lemma MaskRefused(c: Call)
    requires Sendable(c) && !FlagsInMask(c)
    ensures c.SemGet? && DecodeCall(Opcode(c), RequestBytes(c)) == Refused(-EINVAL)
  {
    hide U32Bytes, GetU32, FromU32, Sits, DecodeOps, ValuesAt;
    var b := RequestBytes(c);
    Fields(b, I32Bytes(c.key), I32Bytes(c.nsems), U32Bytes(ToU32(c.flags)), []);
    ReadU32(b, 8, ToU32(c.flags));
  }

  /** Wire transparency: encoding a call, dispatching it and decoding the response has the same effect on the store
      and returns the same reply as the direct store call, and both packets pass the transport's header checks. The
      two exceptions are semget flags outside the dispatcher's mask, which are refused with -EINVAL, and a list that
      blocks: it changes nothing, and its response, which stays inside the broker, carries the reason. */
  lemma WireTransparent(s: Store, c: Call, a: Actor, now: I64, requestId: U32)
    requires Valid(s) && Sendable(c) && a.pid > 0
    ensures Framed(Request(c, requestId))
    ensures var d := Dispatch(s, Request(c, requestId), a, now);
            var blocked := c.SemOps? && Exec(s, c, a, now).1.result == OP_BLOCKED;
            && d.Responded? && Framed(d.response)
            && d.store == (if FlagsInMask(c) then Exec(s, c, a, now).0 else s)
            && Accept(c, Request(c, requestId).header, d.response) ==
               (if blocked then ProtocolError
                else Accepted(if FlagsInMask(c) then Exec(s, c, a, now).1 else Reply(-EINVAL, Nothing)))
            && (blocked ==> d.store == s && Exec(s, c, a, now).1.payload.Wait? && d.response.header.result == OP_BLOCKED &&
                            d.response.payload == PayloadBytes(Exec(s, c, a, now).1.payload))
  {
    hide Exec, DecodeCall, RequestBytes, Accept, Response, FlagsInMask;
    RequestLength(c);
    if FlagsInMask(c) {
      RequestRoundTrip(c);
      ReplyShape(s, c, a, now);
      ReplyRoundTrip(s, c, a, now, Request(c, requestId).header);
      BlockedResponse(s, c, a, now, Request(c, requestId).header);
    } else {
      MaskRefused(c);
      RefusedReply(c, Request(c, requestId).header);
    }
  }

  lemma BlockedResponse(s: Store, c: Call, a: Actor, now: I64, request: Header)
    requires Valid(s)
    ensures var r := Exec(s, c, a, now).1;
            c.SemOps? && r.result == OP_BLOCKED ==>
              && Exec(s, c, a, now).0 == s && r.payload.Wait?
              && Response(request, r).header.result == OP_BLOCKED && Response(request, r).payload == PayloadBytes(r.payload)
  {
    hide Valid, TryOp, Blocked, PayloadBytes;
    if c.SemOps? {
      BlockedExactly(s, c.id, c.ops, a.pid, now);
    }
  }

  lemma RefusedReply(c: Call, request: Header)
    requires Sendable(c) && !FlagsInMask(c) && request.opcode == Opcode(c)
    ensures Framed(Response(request, Reply(-EINVAL, Nothing)))
    ensures Accept(c, request, Response(request, Reply(-EINVAL, Nothing))) == Accepted(Reply(-EINVAL, Nothing))
  {
  }

  // ---- Loops over payloads ----

  /** Writes one operation record in place. */
  method WriteOp(output: array<Byte>, wire: nat, o: SemOp)
    requires wire + 8 <= output.Length
    modifies output
    ensures output[..] == Put(old(output[..]), wire, OpBytes(o))
  {
    hide U16Bytes, Put;
    ghost var b := output[..];
    PutU16(output, wire, o.num);
    PutU16(output, wire + 2, ToU16(o.op));
    PutPut(b, wire, U16Bytes(o.num), I16Bytes(o.op));
    PutU16(output, wire + 4, o.flg);
    PutPut(b, wire, U16Bytes(o.num) + I16Bytes(o.op), U16Bytes(o.flg));
    PutU16(output, wire + 6, 0);
    PutPut(b, wire, U16Bytes(o.num) + I16Bytes(o.op) + U16Bytes(o.flg), U16Bytes(0));
  }

  /** Writes the set identifier and the number of entries that follow. */
  method WritePrefix(output: array<Byte>, id: I32, count: U32)
    requires 8 <= output.Length
    modifies output
    ensures output[..8] == I32Bytes(id) + U32Bytes(count)
  {
    hide U32Bytes, Put;
    ghost var b := output[..];
    PutU32(output, 0, ToU32(id));
    PutU32(output, 4, count);
    PutPut(b, 0, I32Bytes(id), U32Bytes(count));
    Extend(b, 0, I32Bytes(id) + U32Bytes(count));
    assert output[..8] == output[..][..8];
  }

  /** Fills the payload of a semop or semtimedop request. */
  method WriteSemOps(output: array<Byte>, id: I32, ops: seq<SemOp>, timeout: Option<I64>)
    requires Sendable(SemOps(id, ops, timeout)) && output.Length == MAX_PAYLOAD
    modifies output
    ensures output[..|RequestBytes(SemOps(id, ops, timeout))|] == RequestBytes(SemOps(id, ops, timeout))
  {
    hide U32Bytes, U64Bytes, OpBytes, Put;
    WritePrefix(output, id, |ops|);
    var prefix := 8;
    ghost var b := output[..];
    ghost var head := I32Bytes(id) + U32Bytes(|ops|);
    assert b[..8] == head;
    if timeout.Some? {
      PutU64(output, 8, ToU64(timeout.value));
      Extend(b, 8, I64Bytes(timeout.value));
      prefix := 16;
      head := head + I64Bytes(timeout.value);
    }
    assert output[..][..prefix] == head + OpsBytes(ops[..0]);
    for i := 0 to |ops|
      invariant output[..][..prefix + 8 * i] == head + OpsBytes(ops[..i])
    {
      b := output[..];
      WriteOp(output, prefix + 8 * i, ops[i]);
      ExtendOps(b, head, ops, i);
    }
    assert ops[..|ops|] == ops;
    assert head + OpsBytes(ops) == RequestBytes(SemOps(id, ops, timeout));
  }

  lemma ExtendOps(b: Bytes, head: Bytes, ops: seq<SemOp>, i: nat)
    requires i < |ops| && |head| + 8 * |ops| <= |b| && b[..|head| + 8 * i] == head + OpsBytes(ops[..i])
    ensures Put(b, |head| + 8 * i, OpBytes(ops[i]))[..|head| + 8 * (i + 1)] == head + OpsBytes(ops[..i + 1])
  {
    hide OpBytes, Put;
    Extend(b, |head| + 8 * i, OpBytes(ops[i]));
    assert ops[..i + 1][..i] == ops[..i];
  }

  /** Fills the payload of a SETALL request. */
  method WriteSetAll(output: array<Byte>, id: I32, values: seq<U16>)
    requires Sendable(SetValues(id, values)) && output.Length == MAX_PAYLOAD
    modifies output
    ensures output[..8 + 2 * |values|] == RequestBytes(SetValues(id, values))
  {
    hide U16Bytes, U32Bytes, Put;
    WritePrefix(output, id, |values|);
    ghost var head := I32Bytes(id) + U32Bytes(|values|);
    assert output[..][..8] == head + ValuesBytes(values[..0]);
    for i := 0 to |values|
      invariant output[..][..8 + 2 * i] == head + ValuesBytes(values[..i])
    {
      ghost var b := output[..];
      PutU16(output, 8 + 2 * i, values[i]);
      ExtendValues(b, head, values, i);
    }
    assert values[..|values|] == values;
    assert output[..8 + 2 * |values|] == output[..][..8 + 2 * |values|];
  }

  /** Reads the values of a GETALL response, or of a SETALL request in the dispatcher. */
  method ReadValues(b: array<Byte>, at: nat, count: nat) returns (values: seq<U16>)
    requires at + 2 * count <= b.Length
    ensures values == ValuesAt(b[..], at, count)
  {
    hide GetU16;
    var output := new U16[count](_ => 0);
    for i := 0 to count
      invariant forall j :: 0 <= j < i ==> output[j] == GetU16(b[..], at + 2 * j)
    {
      output[i] := GetU16(b[..], at + 2 * i);
    }
    return output[..];
  }

  /** Reads the ten limits of an INFO response. */
  method ReadLimits(b: array<Byte>, count: nat) returns (limits: seq<I32>)
    requires 4 * count <= b.Length
    ensures limits == LimitsAt(b[..], 0, count)
  {
    hide GetU32, FromU32;
    var output := new I32[count](_ => 0);
    for i := 0 to count
      invariant forall j :: 0 <= j < i ==> output[j] == GetI32(b[..], 0 + 4 * j)
    {
      output[i] := GetI32(b[..], 0 + 4 * i);
    }
    return output[..];
  }
}
