/** Explicit little-endian integers and the 24-byte packet header. */
module Wire {
  import opened Types

  const MAGIC: U32 := 0x43534754
  const VERSION: U16 := 1
  const HEADER_SIZE: nat := 24
  const MAX_PAYLOAD: nat := 8192
  const REQUEST: U16 := 1
  const RESPONSE: U16 := 2

  const PING: U16 := 1
  const SEMGET: U16 := 2
  const REMOVE: U16 := 3
  const GETVAL: U16 := 4
  const SETVAL: U16 := 5
  const GETPID: U16 := 6
  const GETALL: U16 := 7
  const SETALL: U16 := 8
  const SEMOP: U16 := 9
  const GETNCNT: U16 := 10
  const GETZCNT: U16 := 11
  const STAT: U16 := 12
  const SETMETA: U16 := 13
  const SEMTIMEDOP: U16 := 14
  const INFO: U16 := 15
  const STAT_INDEX: U16 := 16

  type Bytes = seq<Byte>

  // ---- Unsigned and two's-complement integers ----

  function U16Bytes(v: U16): (b: Bytes)
    ensures |b| == 2
  {
    [v % 0x100, v / 0x100]
  }

  function U32Bytes(v: U32): (b: Bytes)
    ensures |b| == 4
  {
    [v % 0x100, v / 0x100 % 0x100, v / 0x1_0000 % 0x100, v / 0x100_0000]
  }

  function U64Bytes(v: U64): (b: Bytes)
    ensures |b| == 8
  {
    U32Bytes(v % 0x1_0000_0000) + U32Bytes(v / 0x1_0000_0000)
  }

  function GetU16(b: Bytes, at: nat): U16
    requires at + 2 <= |b|
  {
    var hi: int := b[at + 1];
    b[at] + hi * 0x100
  }

  function GetU32(b: Bytes, at: nat): U32
    requires at + 4 <= |b|
  {
    var b1: int, b2: int, b3: int := b[at + 1], b[at + 2], b[at + 3];
    b[at] + b1 * 0x100 + b2 * 0x1_0000 + b3 * 0x100_0000
  }

  function GetU64(b: Bytes, at: nat): U64
    requires at + 8 <= |b|
  {
    GetU32(b, at) + GetU32(b, at + 4) * 0x1_0000_0000
  }

  function ToU16(v: I16): U16 { if v < 0 then v + 0x1_0000 else v }
  function ToU32(v: I32): U32 { if v < 0 then v + 0x1_0000_0000 else v }
  function ToU64(v: I64): U64 { if v < 0 then v + 0x1_0000_0000_0000_0000 else v }
  function FromU16(v: U16): I16 { if v >= 0x8000 then v - 0x1_0000 else v }
  function FromU32(v: U32): I32 { if v >= 0x8000_0000 then v - 0x1_0000_0000 else v }
  function FromU64(v: U64): I64 { if v >= 0x8000_0000_0000_0000 then v - 0x1_0000_0000_0000_0000 else v }

  function I16Bytes(v: I16): Bytes { U16Bytes(ToU16(v)) }
  function I32Bytes(v: I32): Bytes { U32Bytes(ToU32(v)) }
  function I64Bytes(v: I64): Bytes { U64Bytes(ToU64(v)) }
  function GetI16(b: Bytes, at: nat): I16 requires at + 2 <= |b| { FromU16(GetU16(b, at)) }
  function GetI32(b: Bytes, at: nat): I32 requires at + 4 <= |b| { FromU32(GetU32(b, at)) }
  function GetI64(b: Bytes, at: nat): I64 requires at + 8 <= |b| { FromU64(GetU64(b, at)) }

  /** `field` sits in `b` at offset `at`. */
  predicate Sits(b: Bytes, at: nat, field: Bytes) {
    at + |field| <= |b| && b[at..at + |field|] == field
  }

  lemma ReadU16(b: Bytes, at: nat, v: U16)
    requires Sits(b, at, U16Bytes(v))
    ensures GetU16(b, at) == v
  {
    var f := b[at..at + 2];
    assert f[0] == b[at] && f[1] == b[at + 1];
  }

  lemma ReadU32(b: Bytes, at: nat, v: U32)
    requires Sits(b, at, U32Bytes(v))
    ensures GetU32(b, at) == v
  {
    var f := b[at..at + 4];
    assert f[0] == b[at] && f[1] == b[at + 1] && f[2] == b[at + 2] && f[3] == b[at + 3];
    assert v / 0x1_0000 == v / 0x100 / 0x100 && v / 0x100_0000 == v / 0x1_0000 / 0x100;
  }

  lemma ReadU64(b: Bytes, at: nat, v: U64)
    requires Sits(b, at, U64Bytes(v))
    ensures GetU64(b, at) == v
  {
    var lo, hi := U32Bytes(v % 0x1_0000_0000), U32Bytes(v / 0x1_0000_0000);
    assert b[at..at + 4] == U64Bytes(v)[..4] == lo;
    assert b[at + 4..at + 8] == U64Bytes(v)[4..] == hi;
    ReadU32(b, at, v % 0x1_0000_0000);
    ReadU32(b, at + 4, v / 0x1_0000_0000);
  }

  /** Signed values survive the wire. */
  lemma ReadSigned(b: Bytes, at: nat)
    ensures forall v: I16 :: Sits(b, at, I16Bytes(v)) ==> GetI16(b, at) == v
    ensures forall v: I32 :: Sits(b, at, I32Bytes(v)) ==> GetI32(b, at) == v
    ensures forall v: I64 :: Sits(b, at, I64Bytes(v)) ==> GetI64(b, at) == v
  {
    forall v: I16 | Sits(b, at, I16Bytes(v))
      ensures GetI16(b, at) == v
    {
      ReadU16(b, at, ToU16(v));
    }
    forall v: I32 | Sits(b, at, I32Bytes(v))
      ensures GetI32(b, at) == v
    {
      ReadU32(b, at, ToU32(v));
    }
    forall v: I64 | Sits(b, at, I64Bytes(v))
      ensures GetI64(b, at) == v
    {
      ReadU64(b, at, ToU64(v));
    }
  }

  lemma Whole(b: Bytes)
    ensures Sits(b, 0, b)
  {
  }

  /** Appending a field puts it at the end and leaves the fields before it where they are. */
  lemma Append(b: Bytes, field: Bytes)
    ensures Sits(b + field, |b|, field)
    ensures forall at: nat, f :: Sits(b, at, f) ==> Sits(b + field, at, f)
  {
    forall at: nat, f | Sits(b, at, f)
      ensures Sits(b + field, at, f)
    {
      assert (b + field)[at..at + |f|] == b[at..at + |f|];
    }
  }

  /** Four-byte fields one after another, with the last ones possibly missing. */
  lemma Fields(b: Bytes, x: Bytes, y: Bytes, z: Bytes, w: Bytes)
    requires b == x + y + z + w && |x| == |y| == 4 && (|z| == 4 || z == w == [])
    ensures Sits(b, 0, x) && Sits(b, 4, y) && Sits(b, 8, z) && (|z| == 4 ==> Sits(b, 12, w))
  {
  }

  /** Reading four bytes and writing them again gives the same bytes. */
  lemma WriteRead(b: Bytes, at: nat)
    ensures at + 2 <= |b| ==> U16Bytes(GetU16(b, at)) == b[at..at + 2]
    ensures at + 4 <= |b| ==> U32Bytes(GetU32(b, at)) == b[at..at + 4]
    ensures at + 4 <= |b| ==> I32Bytes(GetI32(b, at)) == b[at..at + 4]
  {
    if at + 4 <= |b| {
      WordBytes(b, at);
      SignedBack(GetU32(b, at));
    }
  }

  lemma WordBytes(b: Bytes, at: nat)
    requires at + 4 <= |b|
    ensures U32Bytes(GetU32(b, at)) == b[at..at + 4]
  {
    var v: int := GetU32(b, at);
    var b0: int, b1: int, b2: int, b3: int := b[at], b[at + 1], b[at + 2], b[at + 3];
    assert v / 0x100 == b1 + b2 * 0x100 + b3 * 0x1_0000;
    assert v / 0x1_0000 == b2 + b3 * 0x100;
    assert v / 0x100_0000 == b3;
    assert b[at..at + 4] == [b[at], b[at + 1], b[at + 2], b[at + 3]];
  }

  lemma SignedBack(v: U32)
    ensures ToU32(FromU32(v)) == v
  {
  }

  // ---- Writing into a buffer ----

  /** A buffer with a field written at an offset. */
  function Put(b: Bytes, at: nat, field: Bytes): (r: Bytes)
    requires at + |field| <= |b|
    ensures |r| == |b| && Sits(r, at, field)
  {
    b[..at] + field + b[at + |field|..]
  }

  method PutU16(output: array<Byte>, at: nat, v: U16)
    requires at + 2 <= output.Length
    modifies output
    ensures output[..] == Put(old(output[..]), at, U16Bytes(v))
  {
    output[at] := v % 0x100;
    output[at + 1] := v / 0x100;
  }

  method PutU32(output: array<Byte>, at: nat, v: U32)
    requires at + 4 <= output.Length
    modifies output
    ensures output[..] == Put(old(output[..]), at, U32Bytes(v))
  {
    output[at] := v % 0x100;
    output[at + 1] := v / 0x100 % 0x100;
    output[at + 2] := v / 0x1_0000 % 0x100;
    output[at + 3] := v / 0x100_0000;
  }

  method PutU64(output: array<Byte>, at: nat, v: U64)
    requires at + 8 <= output.Length
    modifies output
    ensures output[..] == Put(old(output[..]), at, U64Bytes(v))
  {
    PutU32(output, at, v % 0x1_0000_0000);
    PutU32(output, at + 4, v / 0x1_0000_0000);
  }

  // ---- Headers ----

  datatype Header = Header(version: U16, kind: U16, opcode: U16, requestId: U32, length: U32, result: I32)

  /** Zero for a header that may be sent and received, otherwise the error. */
  function HeaderStatus(h: Header): I32 {
    if h.version != VERSION then -EPROTO
    else if h.kind != REQUEST && h.kind != RESPONSE then -EPROTO
    else if h.opcode < PING || h.opcode > STAT_INDEX then -EPROTO
    else if h.length > MAX_PAYLOAD then -EMSGSIZE
    else if h.kind == REQUEST && h.result != 0 then -EPROTO
    else 0
  }

  function HeaderBytes(h: Header): (b: Bytes)
    ensures |b| == HEADER_SIZE
  {
    U32Bytes(MAGIC) + U16Bytes(h.version) + U16Bytes(h.kind) + U16Bytes(h.opcode) + U16Bytes(0) +
    U32Bytes(h.requestId) + U32Bytes(h.length) + I32Bytes(h.result)
  }

  datatype DecodedHeader = Good(header: Header) | Bad(error: I32)

  function DecodeHeader(b: Bytes): (r: DecodedHeader)
    requires |b| == HEADER_SIZE
  {
    if GetU32(b, 0) != MAGIC || GetU16(b, 10) != 0 then Bad(-EPROTO)
    else
      var h := Header(GetU16(b, 4), GetU16(b, 6), GetU16(b, 8), GetU32(b, 12), GetU32(b, 16), GetI32(b, 20));
      if HeaderStatus(h) != 0 then Bad(HeaderStatus(h)) else Good(h)
  }

  lemma HeaderFields(h: Header)
    ensures var b := HeaderBytes(h);
            && GetU32(b, 0) == MAGIC && GetU16(b, 4) == h.version && GetU16(b, 6) == h.kind && GetU16(b, 8) == h.opcode
            && GetU16(b, 10) == 0 && GetU32(b, 12) == h.requestId && GetU32(b, 16) == h.length && GetI32(b, 20) == h.result
  {
    hide Sits, U16Bytes, U32Bytes, GetU16, GetU32;
    var b := HeaderBytes(h);
    var b4 := U32Bytes(MAGIC);
    var b6 := b4 + U16Bytes(h.version);
    var b8 := b6 + U16Bytes(h.kind);
    var b10 := b8 + U16Bytes(h.opcode);
    var b12 := b10 + U16Bytes(0);
    var b16 := b12 + U32Bytes(h.requestId);
    var b20 := b16 + U32Bytes(h.length);
    Whole(b4);
    Append(b4, U16Bytes(h.version));
    Append(b6, U16Bytes(h.kind));
    Append(b8, U16Bytes(h.opcode));
    Append(b10, U16Bytes(0));
    Append(b12, U32Bytes(h.requestId));
    Append(b16, U32Bytes(h.length));
    Append(b20, I32Bytes(h.result));
    ReadU32(b, 0, MAGIC);
    ReadU16(b, 4, h.version);
    ReadU16(b, 6, h.kind);
    ReadU16(b, 8, h.opcode);
    ReadU16(b, 10, 0);
    ReadU32(b, 12, h.requestId);
    ReadU32(b, 16, h.length);
    ReadSigned(b, 20);
  }

  /** A valid header survives encoding and decoding. */
  lemma HeaderRoundTrip(h: Header)
    requires HeaderStatus(h) == 0
    ensures DecodeHeader(HeaderBytes(h)) == Good(h)
  {
    hide HeaderBytes, HeaderStatus, GetU16, GetU32, FromU32;
    HeaderFields(h);
  }

  /** Every accepted 24-byte header encodes back to the same bytes, so no two byte strings decode alike. */
  lemma HeaderCanonical(b: Bytes)
    requires |b| == HEADER_SIZE && DecodeHeader(b).Good?
    ensures HeaderBytes(DecodeHeader(b).header) == b
  {
    hide U16Bytes, U32Bytes, GetU16, GetU32, ToU32, FromU32;
    WriteRead(b, 0);
    WriteRead(b, 4);
    WriteRead(b, 6);
    WriteRead(b, 8);
    WriteRead(b, 10);
    WriteRead(b, 12);
    WriteRead(b, 16);
    WriteRead(b, 20);
    assert b == b[0..4] + b[4..6] + b[6..8] + b[8..10] + b[10..12] + b[12..16] + b[16..20] + b[20..24];
  }

  /** Writes a header into the first 24 bytes of a buffer. */
  method EncodeHeader(output: array<Byte>, h: Header) returns (r: I32)
    requires output.Length >= HEADER_SIZE
    modifies output
    ensures r == HeaderStatus(h)
    ensures r != 0 ==> output[..] == old(output[..])
    ensures r == 0 ==> output[..] == HeaderBytes(h) + old(output[HEADER_SIZE..])
  {
    hide Put, U16Bytes, U32Bytes;
    r := HeaderStatus(h);
    if r != 0 {
      return;
    }
    ghost var b0 := output[..];
    PutU32(output, 0, MAGIC);
    ghost var b1 := output[..];
    PutU16(output, 4, h.version);
    ghost var b2 := output[..];
    PutU16(output, 6, h.kind);
    ghost var b3 := output[..];
    PutU16(output, 8, h.opcode);
    ghost var b4 := output[..];
    PutU16(output, 10, 0);
    ghost var b5 := output[..];
    PutU32(output, 12, h.requestId);
    ghost var b6 := output[..];
    PutU32(output, 16, h.length);
    ghost var b7 := output[..];
    PutU32(output, 20, ToU32(h.result));
    Extend(b0, 0, U32Bytes(MAGIC));
    Extend(b1, 4, U16Bytes(h.version));
    Extend(b2, 6, U16Bytes(h.kind));
    Extend(b3, 8, U16Bytes(h.opcode));
    Extend(b4, 10, U16Bytes(0));
    Extend(b5, 12, U32Bytes(h.requestId));
    Extend(b6, 16, U32Bytes(h.length));
    Extend(b7, 20, I32Bytes(h.result));
    assert b0[..0] + U32Bytes(MAGIC) == U32Bytes(MAGIC);
    assert output[..] == output[..][..HEADER_SIZE] + output[..][HEADER_SIZE..];
  }

  /** Two adjacent writes are one. */
  lemma PutPut(b: Bytes, at: nat, x: Bytes, y: Bytes)
    requires at + |x| + |y| <= |b|
    ensures Put(Put(b, at, x), at + |x|, y) == Put(b, at, x + y)
  {
    var b1 := Put(b, at, x);
    assert b1[..at + |x|] == b[..at] + x;
    assert b1[at + |x| + |y|..] == b[at + |x| + |y|..];
  }

  /** Writing a field right after a finished prefix extends the prefix and leaves the rest. */
  lemma Extend(b: Bytes, at: nat, field: Bytes)
    requires at + |field| <= |b|
    ensures Put(b, at, field)[..at + |field|] == b[..at] + field
    ensures forall n :: at + |field| <= n <= |b| ==> Put(b, at, field)[n..] == b[n..]
  {
  }
}
