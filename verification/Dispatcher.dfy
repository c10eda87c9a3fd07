/** The broker's request decoder, dispatcher and response encoder. */
module Dispatcher {
  import opened Types
  import opened SemStore
  import opened StoreInvariant
  import opened StoreCalls
  import opened Wire
  import opened Broker

  /** A framed packet; exactly the bytes its header announces. */
  datatype Packet = Packet(header: Header, payload: Bytes)

  predicate Framed(p: Packet) { |p.payload| == p.header.length && HeaderStatus(p.header) == 0 }

  datatype DecodedCall = Decoded(call: Call) | Refused(error: I32)

  // ---- Decoding requests ----

  function OpAt(b: Bytes, at: nat): SemOp
    requires at + 8 <= |b|
  {
    SemOp(GetU16(b, at), GetI16(b, at + 2), GetU16(b, at + 4))
  }

  function OpsAt(b: Bytes, at: nat, count: nat): (r: seq<SemOp>)
    requires at + 8 * count <= |b|
    ensures |r| == count
  {
    seq(count, i requires 0 <= i < count => OpAt(b, at + 8 * i))
  }

  predicate ReservedZero(b: Bytes, at: nat, count: nat)
    requires at + 8 * count <= |b|
  {
    forall i :: 0 <= i < count ==> GetU16(b, at + 8 * i + 6) == 0
  }

  function ValuesAt(b: Bytes, at: nat, count: nat): (r: seq<U16>)
    requires at + 2 * count <= |b|
    ensures |r| == count
  {
    seq(count, i requires 0 <= i < count => GetU16(b, at + 2 * i))
  }

  function PrefixSize(opcode: U16): nat { if opcode == SEMTIMEDOP then 16 else 8 }

  function DecodeOps(opcode: U16, b: Bytes): DecodedCall {
    var prefix := PrefixSize(opcode);
    if |b| < prefix then Refused(-EMSGSIZE)
    else
      var count := GetU32(b, 4);
      if count == 0 || count > MAX_PER_SET || |b| != prefix + count * 8 then Refused(-EMSGSIZE)
      else if opcode == SEMTIMEDOP && GetI64(b, 8) < 0 then Refused(-EINVAL)
      else if !ReservedZero(b, prefix, count) then Refused(-EPROTO)
      else Decoded(SemOps(GetI32(b, 0), OpsAt(b, prefix, count), if opcode == SEMTIMEDOP then Some(GetI64(b, 8)) else None))
  }

  function DecodeCall(opcode: U16, b: Bytes): DecodedCall {
    if opcode == PING then (if |b| == 0 then Decoded(Ping) else Refused(-EMSGSIZE))
    else if opcode == SEMGET then
      if |b| != 12 then Refused(-EMSGSIZE)
      else if GetU32(b, 8) >= 0x800 then Refused(-EINVAL)
      else Decoded(SemGet(GetI32(b, 0), GetI32(b, 4), GetU32(b, 8)))
    else if opcode == REMOVE then (if |b| == 4 then Decoded(RemoveSet(GetI32(b, 0))) else Refused(-EMSGSIZE))
    else if opcode == GETVAL || opcode == GETPID || opcode == GETNCNT || opcode == GETZCNT then
      if |b| != 8 then Refused(-EMSGSIZE)
      else
        var (id, num) := (GetI32(b, 0), GetU32(b, 4));
        Decoded(if opcode == GETVAL then GetValue(id, num) else if opcode == GETPID then GetLastPid(id, num)
                else if opcode == GETZCNT then GetZero(id, num) else GetNegative(id, num))
    else if opcode == SETVAL then
      if |b| != 12 then Refused(-EMSGSIZE) else Decoded(SetValue(GetI32(b, 0), GetU32(b, 4), GetU32(b, 8)))
    else if opcode == GETALL then
      if |b| != 8 then Refused(-EMSGSIZE)
      else if GetU32(b, 4) == 0 || GetU32(b, 4) > MAX_PER_SET then Refused(-EINVAL)
      else Decoded(GetValues(GetI32(b, 0), GetU32(b, 4)))
    else if opcode == SETALL then
      if |b| < 8 then Refused(-EMSGSIZE)
      else
        var count := GetU32(b, 4);
        if count == 0 || count > MAX_PER_SET || |b| != 8 + count * 2 then Refused(-EMSGSIZE)
        else Decoded(SetValues(GetI32(b, 0), ValuesAt(b, 8, count)))
    else if opcode == SEMOP || opcode == SEMTIMEDOP then DecodeOps(opcode, b)
    else if opcode == STAT then (if |b| == 4 then Decoded(Stat(GetI32(b, 0))) else Refused(-EMSGSIZE))
    else if opcode == STAT_INDEX then (if |b| == 4 then Decoded(StatIndex(GetU32(b, 0))) else Refused(-EMSGSIZE))
    else if opcode == SETMETA then
      if |b| == 16 then Decoded(SetMeta(GetI32(b, 0), GetU32(b, 4), GetU32(b, 8), GetU32(b, 12))) else Refused(-EMSGSIZE)
    else if opcode == INFO then
      if |b| != 4 then Refused(-EMSGSIZE)
      else if GetU32(b, 0) > 1 then Refused(-EINVAL)
      else Decoded(Info(GetU32(b, 0) == 1))
    else Refused(-ENOSYS)
  }

  // ---- Encoding responses ----

  function ValuesBytes(values: seq<U16>): (b: Bytes)
    ensures |b| == 2 * |values|
  {
    if values == [] then [] else ValuesBytes(values[..|values| - 1]) + U16Bytes(values[|values| - 1])
  }

  function LimitsBytes(limits: seq<I32>): (b: Bytes)
    ensures |b| == 4 * |limits|
  {
    if limits == [] then [] else LimitsBytes(limits[..|limits| - 1]) + I32Bytes(limits[|limits| - 1])
  }

  function MetadataBytes(m: Metadata): (b: Bytes)
    ensures |b| == 56
  {
    I32Bytes(m.key) + U32Bytes(m.perm.uid) + U32Bytes(m.perm.gid) + U32Bytes(m.perm.cuid) + U32Bytes(m.perm.cgid) +
    U32Bytes(m.perm.mode) + U32Bytes(m.nsems) + U32Bytes(0) + I64Bytes(m.otime) + I64Bytes(m.ctime) +
    U32Bytes(m.sequence) + U32Bytes(0)
  }

  function PayloadBytes(p: Payload): (b: Bytes)
    requires p.Values? ==> |p.values| <= MAX_PER_SET
  {
    match p
    case Nothing => []
    case Values(values) => U32Bytes(|values|) + ValuesBytes(values)
    case Wait(reason) => U16Bytes(reason.num) + U16Bytes(if reason.zero then 1 else 0) + U32Bytes(0)
    case Meta(m) => MetadataBytes(m)
    case Limits(limits) => LimitsBytes(limits)
  }

  function Response(request: Header, r: Reply): (p: Packet)
    requires r.payload.Values? ==> |r.payload.values| <= MAX_PER_SET
    requires r.payload.Limits? ==> |r.payload.limits| == 10
  {
    var payload := if r.result < 0 then [] else PayloadBytes(r.payload);
    Packet(Header(VERSION, RESPONSE, request.opcode, request.requestId, |payload|, r.result), payload)
  }

  // ---- Dispatch ----

  datatype Dispatched = Failed(error: I32) | Responded(store: Store, response: Packet)

  ghost function Dispatch(s: Store, p: Packet, a: Actor, now: I64): (r: Dispatched)
    requires Valid(s)
  {
    if a.pid <= 0 then Failed(-EINVAL)
    else if p.header.version != VERSION || p.header.kind != REQUEST || p.header.result != 0 || p.header.length > MAX_PAYLOAD then Failed(-EPROTO)
    else
      match DecodeCall(p.header.opcode, p.payload)
      case Refused(error) => Responded(s, Response(p.header, Reply(error, Nothing)))
      case Decoded(c) =>
        ReplyShape(s, c, a, now);
        var (s', r) := Exec(s, c, a, now);
        Responded(s', Response(p.header, r))
  }

  /** The payload of a direct reply fits its call, and errors carry none. */
  lemma ReplyShape(s: Store, c: Call, a: Actor, now: I64)
    requires Valid(s)
    ensures var r := Exec(s, c, a, now).1;
            && (r.payload.Values? ==> c.GetValues? && |r.payload.values| == c.count <= MAX_PER_SET && r.result == 0)
            && (r.payload.Limits? ==> c.Info? && |r.payload.limits| == 10 && r.result >= 0)
            && (r.payload.Meta? ==> (c.Stat? || c.StatIndex?) && r.result >= 0)
            && (r.payload.Wait? ==> c.SemOps? && r.result == OP_BLOCKED)
            && (c.GetValues? && r.result == 0 ==> r.payload.Values?)
            && (c.Info? ==> r.payload.Limits?)
            && ((c.Stat? || c.StatIndex?) && r.result >= 0 ==> r.payload.Meta?)
            && (c.GetValues? || c.Stat? ==> r.result <= 0)
  {
    hide Valid, Live, MakeId, TryOp, GetAs, Remove, SetVal, SetAll, SetMetadata, GetVal, GetPid, GetAll, GetWaitCount, LimitsOf, MetadataOf;
    ValidFacts(s);
    match c
    case GetValues(id, count) => GetAllShape(s, id, count);
    case StatIndex(i) =>
      if i < MAX_SETS && s.sets[i].active {
        ActiveId(s, i);
      }
    case _ =>
  }

  lemma GetAllShape(s: Store, id: I32, count: int)
    requires Valid(s)
    ensures GetAll(s, id, count).0 <= 0
    ensures GetAll(s, id, count).0 == 0 ==> |GetAll(s, id, count).1| == count <= MAX_PER_SET
  {
  }

  lemma ActiveId(s: Store, i: nat)
    requires Valid(s) && i < MAX_SETS && s.sets[i].active
    ensures MakeId(i, s.sets[i].generation) > 0
  {
  }

  // ---- Undo detection ----

  /** The broker's own scan of a request for SEM_UNDO, made before dispatching it. */
  predicate RequestUsesUndo(opcode: U16, b: Bytes) {
    (opcode == SEMOP || opcode == SEMTIMEDOP) && |b| >= PrefixSize(opcode) &&
    var count := GetU32(b, 4);
    count != 0 && count <= MAX_PER_SET && |b| == PrefixSize(opcode) + count * 8 &&
    exists i :: 0 <= i < count && Has(GetU16(b, PrefixSize(opcode) + i * 8 + 4), SEM_UNDO)
  }

  /** The scan agrees with the dispatcher's decoding of every request the dispatcher accepts. */
  lemma UndoDetection(opcode: U16, b: Bytes)
    requires DecodeCall(opcode, b).Decoded?
    ensures RequestUsesUndo(opcode, b) <==>
            DecodeCall(opcode, b).call.SemOps? && UsesUndo(DecodeCall(opcode, b).call.ops)
  {
    hide GetU16, GetU32, FromU32, Has;
    if opcode == SEMOP || opcode == SEMTIMEDOP {
      var prefix, count, ops := PrefixSize(opcode), GetU32(b, 4), DecodeCall(opcode, b).call.ops;
      assert forall i :: 0 <= i < count ==> ops[i].flg == GetU16(b, prefix + i * 8 + 4);
      if RequestUsesUndo(opcode, b) {
        var i :| 0 <= i < count && Has(GetU16(b, prefix + i * 8 + 4), SEM_UNDO);
        assert Has(ops[i].flg, SEM_UNDO);
      }
      if UsesUndo(ops) {
        var i :| 0 <= i < |ops| && Has(ops[i].flg, SEM_UNDO);
        assert Has(GetU16(b, prefix + i * 8 + 4), SEM_UNDO);
      }
    }
  }

  // ---- Loops over payloads ----

  /** Decodes the operation records of a request, refusing a record whose reserved field is set. */
  method ReadOps(b: array<Byte>, prefix: nat, count: nat) returns (r: Option<seq<SemOp>>)
    requires prefix + 8 * count <= b.Length
    ensures r.Some? <==> ReservedZero(b[..], prefix, count)
    ensures r.Some? ==> r.value == OpsAt(b[..], prefix, count)
  {
    var operations := new SemOp[count](_ => SemOp(0, 0, 0));
    for i := 0 to count
      invariant forall j :: 0 <= j < i ==> GetU16(b[..], prefix + 8 * j + 6) == 0
      invariant forall j :: 0 <= j < i ==> operations[j] == OpAt(b[..], prefix + 8 * j)
    {
      var wire := prefix + 8 * i;
      if GetU16(b[..], wire + 6) != 0 {
        return None;
      }
      operations[i] := SemOp(GetU16(b[..], wire), GetI16(b[..], wire + 2), GetU16(b[..], wire + 4));
    }
    assert operations[..] == OpsAt(b[..], prefix, count);
    return Some(operations[..]);
  }

  /** Writes the values of a GETALL response behind their count. */
  method WriteValues(output: array<Byte>, values: seq<U16>)
    requires 4 + 2 * |values| <= output.Length && |values| <= MAX_PER_SET
    modifies output
    ensures output[..4 + 2 * |values|] == U32Bytes(|values|) + ValuesBytes(values)
  {
    hide U16Bytes, U32Bytes, Put;
    ghost var b := output[..];
    PutU32(output, 0, |values|);
    Extend(b, 0, U32Bytes(|values|));
    assert b[..0] == [];
    for i := 0 to |values|
      invariant output[..][..4 + 2 * i] == U32Bytes(|values|) + ValuesBytes(values[..i])
    {
      b := output[..];
      PutU16(output, 4 + 2 * i, values[i]);
      ExtendValues(b, U32Bytes(|values|), values, i);
    }
    assert values[..|values|] == values;
    assert output[..4 + 2 * |values|] == output[..][..4 + 2 * |values|];
  }

  lemma ExtendValues(b: Bytes, head: Bytes, values: seq<U16>, i: nat)
    requires i < |values| && |head| + 2 * |values| <= |b| && b[..|head| + 2 * i] == head + ValuesBytes(values[..i])
    ensures Put(b, |head| + 2 * i, U16Bytes(values[i]))[..|head| + 2 * (i + 1)] == head + ValuesBytes(values[..i + 1])
  {
    hide U16Bytes, Put;
    Extend(b, |head| + 2 * i, U16Bytes(values[i]));
    assert values[..i + 1][..i] == values[..i];
  }
}
