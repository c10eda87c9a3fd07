/** The bytes on the wire, field by field, and what each side refuses. */
module Layout {
  import opened Types
  import opened SemStore
  import opened StoreCalls
  import opened Wire
  import opened Dispatcher
  import opened Client

  // ---- Headers ----

  /** The header of a semget request, byte by byte. */
  lemma HeaderVector()
    ensures HeaderBytes(Header(1, 1, 2, 0x7856_3412, 12, 0)) ==
            [0x54, 0x47, 0x53, 0x43, 0x01, 0x00, 0x01, 0x00, 0x02, 0x00, 0x00, 0x00,
             0x12, 0x34, 0x56, 0x78, 0x0c, 0x00, 0x00, 0x00, 0x00, 0x00, 0x00, 0x00]
  {
    assert U32Bytes(MAGIC) == [0x54, 0x47, 0x53, 0x43] && U16Bytes(1) == [1, 0] && U16Bytes(2) == [2, 0] && U16Bytes(0) == [0, 0];
    assert U32Bytes(0x7856_3412) == [0x12, 0x34, 0x56, 0x78] && U32Bytes(12) == [12, 0, 0, 0] && I32Bytes(0) == [0, 0, 0, 0];
  }

  /** The fields of every header at their offsets. */
  lemma HeaderLayout(h: Header)
    ensures var b := HeaderBytes(h);
            && |b| == 24 && GetU32(b, 0) == 0x4353_4754 && GetU16(b, 4) == h.version && GetU16(b, 6) == h.kind
            && GetU16(b, 8) == h.opcode && GetU16(b, 10) == 0 && GetU32(b, 12) == h.requestId && GetU32(b, 16) == h.length
            && GetI32(b, 20) == h.result
  {
    hide GetU16, GetU32, FromU32;
    HeaderFields(h);
  }

  /** A header is valid exactly when its version is 1, it is a request or a response with a known opcode, its payload
      fits, and, for a request, its result is zero. A payload that is too long has its own error. */
  lemma HeaderStatusExactly(h: Header)
    ensures HeaderStatus(h) == 0 <==>
            h.version == 1 && h.kind in {1, 2} && 1 <= h.opcode <= 16 && h.length <= 8192 && (h.kind == 1 ==> h.result == 0)
    ensures HeaderStatus(h) == -EMSGSIZE <==> h.version == 1 && h.kind in {1, 2} && 1 <= h.opcode <= 16 && h.length > 8192
    ensures HeaderStatus(h) in {0, -EMSGSIZE, -EPROTO}
  {
  }

  /** A header is refused exactly when it is not the encoding of a valid one. */
  lemma HeaderRefused(b: Bytes)
    requires |b| == 24
    ensures DecodeHeader(b).Good? <==> exists h :: HeaderStatus(h) == 0 && HeaderBytes(h) == b
  {
    hide HeaderBytes, DecodeHeader, HeaderStatus;
    if DecodeHeader(b).Good? {
      HeaderCanonical(b);
      GoodStatus(b);
    }
    forall h | HeaderStatus(h) == 0 && HeaderBytes(h) == b
      ensures DecodeHeader(b).Good?
    {
      HeaderRoundTrip(h);
    }
  }

  lemma GoodStatus(b: Bytes)
    requires |b| == 24 && DecodeHeader(b).Good?
    ensures HeaderStatus(DecodeHeader(b).header) == 0
  {
  }

  // ---- Requests ----

  /** The fields of every request at their offsets, with its opcode. */
  lemma RequestLayout(c: Call)
    requires Sendable(c)
    ensures var b, op := RequestBytes(c), Opcode(c);
            match c
            case Ping => op == 1 && |b| == 0
            case SemGet(key, nsems, flags) =>
              op == 2 && |b| == 12 && GetI32(b, 0) == key && GetI32(b, 4) == nsems && GetI32(b, 8) == flags
            case RemoveSet(id) => op == 3 && |b| == 4 && GetI32(b, 0) == id
            case GetValue(id, num) => op == 4 && |b| == 8 && GetI32(b, 0) == id && GetU32(b, 4) == num
            case SetValue(id, num, value) =>
              op == 5 && |b| == 12 && GetI32(b, 0) == id && GetU32(b, 4) == num && GetU32(b, 8) == value
            case GetLastPid(id, num) => op == 6 && |b| == 8 && GetI32(b, 0) == id && GetU32(b, 4) == num
            case GetValues(id, count) => op == 7 && |b| == 8 && GetI32(b, 0) == id && GetU32(b, 4) == count
            case SetValues(id, values) =>
              && op == 8 && |b| == 8 + 2 * |values| && GetI32(b, 0) == id && GetU32(b, 4) == |values|
              && forall i :: 0 <= i < |values| ==> GetU16(b, 8 + 2 * i) == values[i]
            case SemOps(id, ops, timeout) =>
              var at := if timeout.Some? then 16 else 8;
              && op == (if timeout.Some? then 14 else 9) && |b| == at + 8 * |ops| && GetI32(b, 0) == id && GetU32(b, 4) == |ops|
              && (timeout.Some? ==> GetI64(b, 8) == timeout.value)
              && forall i :: 0 <= i < |ops| ==>
                   && GetU16(b, at + 8 * i) == ops[i].num && GetI16(b, at + 8 * i + 2) == ops[i].op
                   && GetU16(b, at + 8 * i + 4) == ops[i].flg && GetU16(b, at + 8 * i + 6) == 0
            case GetNegative(id, num) => op == 10 && |b| == 8 && GetI32(b, 0) == id && GetU32(b, 4) == num
            case GetZero(id, num) => op == 11 && |b| == 8 && GetI32(b, 0) == id && GetU32(b, 4) == num
            case Stat(id) => op == 12 && |b| == 4 && GetI32(b, 0) == id
            case SetMeta(id, uid, gid, mode) =>
              op == 13 && |b| == 16 && GetI32(b, 0) == id && GetU32(b, 4) == uid && GetU32(b, 8) == gid && GetU32(b, 12) == mode
            case Info(dynamic) => op == 15 && |b| == 4 && GetU32(b, 0) == if dynamic then 1 else 0
            case StatIndex(index) => op == 16 && |b| == 4 && GetU32(b, 0) == index
  {
    hide U32Bytes, U64Bytes, GetU32, GetU64, FromU32, FromU64, GetU16, FromU16, Sits, ValuesBytes, OpsBytes;
    var b := RequestBytes(c);
    match c
    case SemGet(key, nsems, flags) =>
      Fields(b, I32Bytes(key), I32Bytes(nsems), I32Bytes(flags), []);
      ReadSigned(b, 0);
      ReadSigned(b, 4);
      ReadSigned(b, 8);
    case GetValue(id, num) => Pair(b, id, num);
    case GetLastPid(id, num) => Pair(b, id, num);
    case GetNegative(id, num) => Pair(b, id, num);
    case GetZero(id, num) => Pair(b, id, num);
    case GetValues(id, count) => Pair(b, id, count);
    case SetValue(id, num, value) =>
      Fields(b, I32Bytes(id), U32Bytes(num), U32Bytes(value), []);
      ReadSigned(b, 0);
      ReadU32(b, 4, num);
      ReadU32(b, 8, value);
    case SetMeta(id, uid, gid, mode) =>
      Fields(b, I32Bytes(id), U32Bytes(uid), U32Bytes(gid), U32Bytes(mode));
      ReadSigned(b, 0);
      ReadU32(b, 4, uid);
      ReadU32(b, 8, gid);
      ReadU32(b, 12, mode);
    case RemoveSet(id) => Whole(b); ReadSigned(b, 0);
    case Stat(id) => Whole(b); ReadSigned(b, 0);
    case StatIndex(index) => Whole(b); ReadU32(b, 0, index);
    case Info(dynamic) => Whole(b); ReadU32(b, 0, if dynamic then 1 else 0);
    case SetValues(id, values) => ValuesLayout(id, values);
    case SemOps(id, ops, timeout) => OpsLayout(id, ops, timeout);
    case Ping =>
  }

  lemma ValuesLayout(id: I32, values: seq<U16>)
    requires 1 <= |values| <= MAX_PER_SET
    ensures var b := RequestBytes(SetValues(id, values));
            && |b| == 8 + 2 * |values| && GetI32(b, 0) == id && GetU32(b, 4) == |values|
            && forall i :: 0 <= i < |values| ==> GetU16(b, 8 + 2 * i) == values[i]
  {
    hide U32Bytes, GetU32, FromU32, GetU16, Sits, ValuesBytes;
    var b := RequestBytes(SetValues(id, values));
    var b4 := I32Bytes(id);
    var b8 := b4 + U32Bytes(|values|);
    Whole(b4);
    Append(b4, U32Bytes(|values|));
    Append(b8, ValuesBytes(values));
    ReadSigned(b, 0);
    ReadU32(b, 4, |values|);
    forall i | 0 <= i < |values|
      ensures GetU16(b, 8 + 2 * i) == values[i]
    {
      ValuesRoundTrip(values, b, 8, i);
    }
  }

  lemma OpsLayout(id: I32, ops: seq<SemOp>, timeout: Option<I64>)
    requires Sendable(SemOps(id, ops, timeout))
    ensures var b := RequestBytes(SemOps(id, ops, timeout));
            var at := if timeout.Some? then 16 else 8;
            && |b| == at + 8 * |ops| && GetI32(b, 0) == id && GetU32(b, 4) == |ops|
            && (timeout.Some? ==> GetI64(b, 8) == timeout.value)
            && forall i :: 0 <= i < |ops| ==>
                 && GetU16(b, at + 8 * i) == ops[i].num && GetI16(b, at + 8 * i + 2) == ops[i].op
                 && GetU16(b, at + 8 * i + 4) == ops[i].flg && GetU16(b, at + 8 * i + 6) == 0
  {
    hide U32Bytes, U64Bytes, GetU32, GetU64, FromU32, FromU64, GetU16, FromU16, Sits, OpsBytes;
    var b := RequestBytes(SemOps(id, ops, timeout));
    var at := if timeout.Some? then 16 else 8;
    var b4 := I32Bytes(id);
    var b8 := b4 + U32Bytes(|ops|);
    var b16 := b8 + if timeout.Some? then I64Bytes(timeout.value) else [];
    Whole(b4);
    Append(b4, U32Bytes(|ops|));
    Append(b8, if timeout.Some? then I64Bytes(timeout.value) else []);
    Append(b16, OpsBytes(ops));
    ReadSigned(b, 0);
    ReadU32(b, 4, |ops|);
    ReadSigned(b, 8);
    forall i | 0 <= i < |ops|
      ensures OpAt(b, at + 8 * i) == ops[i] && GetU16(b, at + 8 * i + 6) == 0
    {
      OpsRoundTrip(ops, b, at, i);
    }
  }

  // ---- Responses ----

  /** The fields of every response payload at their offsets. */
  lemma PayloadLayout(p: Payload)
    requires p.Values? ==> |p.values| <= MAX_PER_SET
    ensures var b := PayloadBytes(p);
            match p
            case Nothing => |b| == 0
            case Values(values) =>
              && |b| == 4 + 2 * |values| && GetU32(b, 0) == |values|
              && forall i :: 0 <= i < |values| ==> GetU16(b, 4 + 2 * i) == values[i]
            case Wait(reason) =>
              |b| == 8 && GetU16(b, 0) == reason.num && GetU16(b, 2) == (if reason.zero then 1 else 0) && GetU32(b, 4) == 0
            case Meta(m) =>
              && |b| == 56 && GetI32(b, 0) == m.key && GetU32(b, 4) == m.perm.uid && GetU32(b, 8) == m.perm.gid
              && GetU32(b, 12) == m.perm.cuid && GetU32(b, 16) == m.perm.cgid && GetU32(b, 20) == m.perm.mode
              && GetU32(b, 24) == m.nsems && GetU32(b, 28) == 0 && GetI64(b, 32) == m.otime && GetI64(b, 40) == m.ctime
              && GetU32(b, 48) == m.sequence && GetU32(b, 52) == 0
            case Limits(limits) => |b| == 4 * |limits| && forall i :: 0 <= i < |limits| ==> GetI32(b, 4 * i) == limits[i]
  {
    hide MetadataBytes, GetU32, GetU64, GetU16, FromU32, FromU64, ValuesBytes, LimitsBytes;
    match p
    case Nothing =>
    case Values(values) => ValuesReply(values);
    case Wait(reason) => ReasonReply(reason);
    case Meta(m) => MetadataFields(m);
    case Limits(limits) =>
      var b := PayloadBytes(p);
      LimitsReply(limits);
      forall i | 0 <= i < |limits|
        ensures GetI32(b, 4 * i) == limits[i]
      {
        assert LimitsAt(b, 0, |limits|)[i] == GetI32(b, 0 + 4 * i);
      }
  }

  /** A response carries its request's opcode and id, its result, and no payload if that is an error. */
  lemma ResponseMatches(request: Header, r: Reply)
    requires r.payload.Values? ==> |r.payload.values| <= MAX_PER_SET
    requires r.payload.Limits? ==> |r.payload.limits| == 10
    ensures var p := Response(request, r);
            && p.header.version == 1 && p.header.kind == 2 && p.header.opcode == request.opcode
            && p.header.requestId == request.requestId && p.header.result == r.result && p.header.length == |p.payload|
            && p.payload == if r.result < 0 then [] else PayloadBytes(r.payload)
  {
    hide PayloadBytes;
  }

  /** The client accepts nothing that does not answer its request: another version, kind, opcode or request id, an error
      with a payload, or a payload of another length than its call calls for. */
  lemma AcceptedMatches(c: Call, request: Header, p: Packet)
    requires |p.payload| == p.header.length && Accept(c, request, p).Accepted?
    ensures p.header.version == 1 && p.header.kind == 2 && p.header.opcode == request.opcode
    ensures p.header.requestId == request.requestId && (p.header.result < 0 ==> |p.payload| == 0)
    ensures p.header.result < 0 ==> Accept(c, request, p).reply == Reply(p.header.result, Nothing)
    ensures p.header.result >= 0 && (c.Stat? || c.StatIndex?) ==> |p.payload| == 56
    ensures p.header.result >= 0 && c.Info? ==> |p.payload| == 40
    ensures p.header.result == 0 && c.GetValues? ==> |p.payload| == 4 + 2 * c.count
    ensures !(c.Stat? || c.StatIndex? || c.Info? || c.GetValues?) ==>
              |p.payload| == 0 && Accept(c, request, p).reply == Reply(p.header.result, Nothing)
    ensures c.SemOps? ==> p.header.result != 1
  {
    hide GetU32, MetadataAt, LimitsAt, ValuesAt;
  }

  // ---- What the dispatcher refuses ----

  lemma {:induction false} ValuesBack(b: Bytes, at: nat, count: nat)
    requires at + 2 * count <= |b|
    ensures ValuesBytes(ValuesAt(b, at, count)) == b[at..at + 2 * count]
    decreases count
  {
    hide U16Bytes, GetU16;
    if count > 0 {
      var n := count - 1;
      ValuesBack(b, at, n);
      assert ValuesAt(b, at, count)[..n] == ValuesAt(b, at, n);
      WriteRead(b, at + 2 * n);
      assert b[at..at + 2 * count] == b[at..at + 2 * n] + b[at + 2 * n..at + 2 * n + 2];
    }
  }

  lemma OpBack(b: Bytes, at: nat)
    requires at + 8 <= |b| && GetU16(b, at + 6) == 0
    ensures OpBytes(OpAt(b, at)) == b[at..at + 8]
  {
    hide U16Bytes, GetU16, U32Bytes, GetU32;
    WriteRead(b, at);
    HalfBack(b, at + 2);
    WriteRead(b, at + 4);
    WriteRead(b, at + 6);
    assert b[at..at + 8] == b[at..at + 2] + b[at + 2..at + 4] + b[at + 4..at + 6] + b[at + 6..at + 8];
  }

  lemma HalfBack(b: Bytes, at: nat)
    requires at + 2 <= |b|
    ensures I16Bytes(GetI16(b, at)) == b[at..at + 2]
  {
    hide U16Bytes, GetU16, U32Bytes, GetU32;
    WriteRead(b, at);
  }

  lemma {:induction false} OpsBack(b: Bytes, at: nat, count: nat)
    requires at + 8 * count <= |b| && ReservedZero(b, at, count)
    ensures OpsBytes(OpsAt(b, at, count)) == b[at..at + 8 * count]
    decreases count
  {
    hide OpBytes, OpAt, GetU16;
    if count > 0 {
      var n := count - 1;
      OpsBack(b, at, n);
      assert OpsAt(b, at, count)[..n] == OpsAt(b, at, n);
      OpBack(b, at + 8 * n);
      assert b[at..at + 8 * count] == b[at..at + 8 * n] + b[at + 8 * n..at + 8 * n + 8];
    }
  }

  lemma LongBack(b: Bytes, at: nat)
    requires at + 8 <= |b|
    ensures I64Bytes(GetI64(b, at)) == b[at..at + 8]
  {
    WordBytes(b, at);
    WordBytes(b, at + 4);
    var lo: int, hi: int := GetU32(b, at), GetU32(b, at + 4);
    var v: int := GetU64(b, at);
    assert v == lo + hi * 0x1_0000_0000 && v % 0x1_0000_0000 == lo && v / 0x1_0000_0000 == hi;
    assert b[at..at + 8] == b[at..at + 4] + b[at + 4..at + 8];
    LongSigned(GetU64(b, at));
    hide U32Bytes, GetU32;
  }

  lemma LongSigned(v: U64)
    ensures ToU64(FromU64(v)) == v
  {
  }

  /** Every payload the dispatcher accepts is the encoding of the call it decodes, so no two payloads mean the same. */
  lemma RequestCanonical(opcode: U16, b: Bytes)
    requires DecodeCall(opcode, b).Decoded?
    ensures var c := DecodeCall(opcode, b).call; Sendable(c) && FlagsInMask(c) && Opcode(c) == opcode && RequestBytes(c) == b
  {
    hide U32Bytes, U64Bytes, GetU32, GetU64, FromU64, GetU16, ValuesBytes, ValuesAt, OpsBytes, OpsAt, ReservedZero;
    WriteRead(b, 0);
    WriteRead(b, 4);
    WriteRead(b, 8);
    WriteRead(b, 12);
    assert |b| == 4 ==> b == b[0..4];
    assert |b| == 8 ==> b == b[0..4] + b[4..8];
    assert |b| == 12 ==> b == b[0..4] + b[4..8] + b[8..12];
    assert |b| == 16 ==> b == b[0..4] + b[4..8] + b[8..12] + b[12..16];
    if opcode == SETALL {
      var count := GetU32(b, 4);
      ValuesBack(b, 8, count);
      assert b == b[0..4] + b[4..8] + b[8..8 + 2 * count];
    } else if opcode == SEMOP || opcode == SEMTIMEDOP {
      OpsCanonical(opcode, b);
    }
  }

  lemma OpsCanonical(opcode: U16, b: Bytes)
    requires (opcode == SEMOP || opcode == SEMTIMEDOP) && DecodeOps(opcode, b).Decoded?
    ensures var c := DecodeOps(opcode, b).call; c.SemOps? && Sendable(c) && Opcode(c) == opcode && RequestBytes(c) == b
  {
    hide U32Bytes, U64Bytes, GetU32, GetU64, FromU64, GetU16, OpsBytes, OpsAt, ReservedZero;
    var count, prefix := GetU32(b, 4), PrefixSize(opcode);
    WriteRead(b, 0);
    WriteRead(b, 4);
    OpsBack(b, prefix, count);
    if opcode == SEMTIMEDOP {
      LongBack(b, 8);
      assert b == b[0..4] + b[4..8] + b[8..16] + b[16..16 + 8 * count];
    } else {
      assert b == b[0..4] + b[4..8] + [] + b[8..8 + 8 * count];
    }
  }

  /** A request is refused exactly when no call the client may send encodes to it. */
  lemma DecodedExactly(opcode: U16, b: Bytes)
    ensures DecodeCall(opcode, b).Decoded? <==>
            exists c :: Sendable(c) && FlagsInMask(c) && Opcode(c) == opcode && RequestBytes(c) == b
  {
    hide DecodeCall, RequestBytes, FlagsInMask, Sendable, Opcode;
    if DecodeCall(opcode, b).Decoded? {
      RequestCanonical(opcode, b);
    }
    forall c | Sendable(c) && FlagsInMask(c) && Opcode(c) == opcode && RequestBytes(c) == b
      ensures DecodeCall(opcode, b).Decoded?
    {
      RequestRoundTrip(c);
    }
  }

  /** An operation list of the length its count announces. */
  predicate Sized(opcode: U16, b: Bytes) {
    var prefix := if opcode == 14 then 16 else 8;
    |b| >= prefix && 1 <= GetU32(b, 4) <= 512 && |b| == prefix + 8 * GetU32(b, 4)
  }

  /** The error of a refused request: an unknown opcode, a value out of range in a payload of the right length, a
      reserved field that is set, or else the wrong length. */
  lemma RefusedErrors(opcode: U16, b: Bytes)
    requires DecodeCall(opcode, b).Refused?
    ensures var error := DecodeCall(opcode, b).error;
            var ranged := || (opcode == 2 && |b| == 12 && GetU32(b, 8) >= 0x800)
                          || (opcode == 7 && |b| == 8 && !(1 <= GetU32(b, 4) <= 512))
                          || (opcode == 15 && |b| == 4 && GetU32(b, 0) > 1)
                          || (opcode == 14 && Sized(opcode, b) && GetI64(b, 8) < 0);
            && (error == -ENOSYS <==> !(1 <= opcode <= 16))
            && (error == -EINVAL <==> ranged)
            && (error == -EPROTO <==> opcode in {9, 14} && Sized(opcode, b) && !ranged)
            && (error == -EMSGSIZE <==> 1 <= opcode <= 16 && !ranged && !(opcode in {9, 14} && Sized(opcode, b)))
  {
    hide GetU32, GetU16, GetU64, FromU64, FromU32, ReservedZero;
  }

  /** A refused request is answered with its error and changes nothing; one from nowhere, or that is no request, is not
      answered at all. */
  lemma DispatchRefuses(s: Store, p: Packet, a: Actor, now: I64)
    requires Valid(s) && Framed(p)
    ensures Dispatch(s, p, a, now).Failed? <==> a.pid <= 0 || p.header.kind != 1
    ensures Dispatch(s, p, a, now).Responded? && DecodeCall(p.header.opcode, p.payload).Refused? ==>
              Dispatch(s, p, a, now) ==
              Responded(s, Response(p.header, Reply(DecodeCall(p.header.opcode, p.payload).error, Nothing)))
  {
    hide Exec, DecodeCall, Response, Valid;
  }
}
