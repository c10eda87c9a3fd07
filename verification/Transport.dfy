/** Framing over a byte stream that may deliver and take bytes in pieces of any size. */
module Transport {
  import opened Types
  import opened Wire
  import opened Dispatcher

  const TRANSPORT_EOF: I32 := 1

  /** What the operating system does with one read or write: moves at most `n + 1` bytes, moves none, is interrupted
      by a signal, or fails. A read that moves no bytes reports end of file, so only writes can be stuck. */
  datatype Io = Piece(n: nat) | Stuck | Interrupted | Broken(errno: I32)

  /** Only short transfers and, where they are restarted, interruptions. */
  predicate Smooth(script: seq<Io>, restart: bool) {
    forall i :: 0 <= i < |script| ==> script[i].Piece? || (restart && script[i].Interrupted?)
  }

  predicate Honest(script: seq<Io>) {
    forall i :: 0 <= i < |script| && script[i].Broken? ==> script[i].errno > 0
  }

  datatype Transfer = Moved(data: Bytes) | Error(errno: I32)

  /** How many bytes one read moves. */
  function Moves(io: Io, avail: nat, limit: nat): nat {
    var n := if io.Piece? then io.n + 1 else 1;
    var count := if n < limit then n else limit;
    if count < avail then count else avail
  }

  function Rest(script: seq<Io>): seq<Io> { if script == [] then [] else script[1..] }

  /** What one read does, given the bytes still to come. Once the script is used up every transfer completes. */
  function Attempt(script: seq<Io>, incoming: Bytes, limit: nat): (r: Transfer)
    requires limit > 0
    ensures r.Moved? ==> |r.data| <= limit && r.data <= incoming && (r.data == [] <==> incoming == [])
  {
    var io := if script == [] then Piece(limit) else script[0];
    if io.Interrupted? then Error(EINTR)
    else if io.Broken? then Error(io.errno)
    else Moved(incoming[..Moves(io, |incoming|, limit)])
  }

  /** A connected stream socket: the bytes that will arrive before end of file, the bytes sent so far, and how the
      coming reads and writes will behave. Once the script is used up every transfer completes. */
  class Socket {
    var incoming: Bytes
    var outgoing: Bytes
    var script: seq<Io>

    constructor (incoming: Bytes, script: seq<Io>)
      ensures this.incoming == incoming && this.script == script && outgoing == []
    {
      this.incoming, this.outgoing, this.script := incoming, [], script;
    }

    method Recv(limit: nat) returns (r: Transfer)
      requires limit > 0
      modifies this
      ensures outgoing == old(outgoing) && script == Rest(old(script))
      ensures r == Attempt(old(script), old(incoming), limit)
      ensures old(incoming) == if r.Moved? then r.data + incoming else incoming
    {
      var io := if script == [] then Piece(limit) else script[0];
      script := if script == [] then [] else script[1..];
      match io
      case Interrupted => r := Error(EINTR);
      case Broken(errno) => r := Error(errno);
      case _ =>
        var count := Moves(io, |incoming|, limit);
        r := Moved(incoming[..count]);
        incoming := incoming[count..];
    }

    method Send(data: Bytes) returns (r: Transfer)
      requires data != []
      modifies this
      ensures incoming == old(incoming)
      ensures script == if old(script) == [] then [] else old(script)[1..]
      ensures r.Moved? ==> r.data <= data && outgoing == old(outgoing) + r.data
      ensures r.Moved? && r.data == [] <==> old(script) != [] && old(script)[0].Stuck?
      ensures r.Moved? && r.data != [] ==>
                |r.data| == if old(script) != [] && old(script)[0].Piece? && old(script)[0].n + 1 < |data| then old(script)[0].n + 1
                            else |data|
      ensures r.Error? ==> outgoing == old(outgoing)
      ensures old(script) == [] || old(script)[0].Piece? || old(script)[0].Stuck? ==> r.Moved?
      ensures old(script) != [] && old(script)[0].Interrupted? ==> r == Error(EINTR)
      ensures old(script) != [] && old(script)[0].Broken? ==> r == Error(old(script)[0].errno)
    {
      var io := if script == [] then Piece(|data|) else script[0];
      script := if script == [] then [] else script[1..];
      match io
      case Interrupted => r := Error(EINTR);
      case Broken(errno) => r := Error(errno);
      case Stuck => r := Moved([]);
      case Piece(n) =>
        var count := if n + 1 < |data| then n + 1 else |data|;
        r := Moved(data[..count]);
        outgoing := outgoing + data[..count];
    }
  }

  /** How a read of `left` bytes ends when `avail` bytes are still to come and reads behave as scripted, and what is left
      of the script. End of file is clean only before the first byte; an interruption is passed over or reported. */
  function Fetched(script: seq<Io>, avail: nat, left: nat, clean: bool, restart: bool): (r: (I32, seq<Io>))
    requires Honest(script)
    ensures Honest(r.1) && (r.0 == 0 ==> left <= avail) && (Smooth(script, restart) ==> Smooth(r.1, restart))
    ensures Smooth(script, restart) ==>
              r.0 == if left <= avail then 0 else if clean && avail == 0 then TRANSPORT_EOF else -EPROTO
    ensures r.0 == TRANSPORT_EOF ==> clean && avail == 0 && left > 0
    ensures r.0 == 0 || r.0 == TRANSPORT_EOF || r.0 < 0
  {
    if left == 0 then (0, script)
    else if script == [] then (if left <= avail then 0 else if clean && avail == 0 then TRANSPORT_EOF else -EPROTO, [])
    else if script[0].Interrupted? || script[0] == Broken(EINTR) then
      if restart then Fetched(script[1..], avail, left, clean, restart) else (-EINTR, script[1..])
    else if script[0].Broken? then (-script[0].errno, script[1..])
    else if avail == 0 then (if clean then TRANSPORT_EOF else -EPROTO, script[1..])
    else
      var count := Moves(script[0], avail, left);
      Fetched(script[1..], avail - count, left - count, false, restart)
  }

  method Copy(output: array<Byte>, offset: nat, data: Bytes)
    requires offset + |data| <= output.Length
    modifies output
    ensures output[..offset + |data|] == old(output[..offset]) + data
  {
    forall i | 0 <= i < |data| {
      output[offset + i] := data[i];
    }
  }

  /** One read into the buffer: some bytes, or none and another attempt, or the end. */
  method Pull(socket: Socket, output: array<Byte>, offset: nat, length: nat, clean: bool, restart: bool)
    returns (done: bool, r: I32, n: nat)
    requires offset < length <= output.Length && Honest(socket.script)
    modifies socket, output
    ensures socket.outgoing == old(socket.outgoing) && Honest(socket.script) && offset + n <= length
    ensures output[..offset + n] + socket.incoming == old(output[..offset] + socket.incoming)
    ensures var was := old(Fetched(socket.script, |socket.incoming|, length - offset, clean, restart));
            if done then r != 0 && was == (r, socket.script)
            else was == Fetched(socket.script, |socket.incoming|, length - offset - n, clean && n == 0, restart)
    ensures !done && n == 0 ==> |socket.script| < |old(socket.script)|
    ensures |socket.script| <= |old(socket.script)|
  {
    hide Honest, Smooth, Fetched, Attempt;
    FetchedStep(socket.script, socket.incoming, length - offset, clean, restart);
    var received := socket.Recv(length - offset);
    match received
    case Moved(data) =>
      if |data| == 0 {
        return true, if clean then TRANSPORT_EOF else -EPROTO, 0;
      }
      assert output[..offset] + (data + socket.incoming) == output[..offset] + data + socket.incoming;
      Copy(output, offset, data);
      return false, 0, |data|;
    case Error(errno) =>
      if errno != EINTR {
        return true, -errno, 0;
      }
      if !restart {
        return true, -EINTR, 0;
      }
      return false, 0, 0;
  }

  /** Fills the buffer with exactly `length` bytes. */
  method ReceiveExact(socket: Socket, output: array<Byte>, length: nat, cleanEof: bool, restart: bool) returns (r: I32)
    requires length <= output.Length && Honest(socket.script)
    modifies socket, output
    ensures Honest(socket.script) && (old(Smooth(socket.script, restart)) ==> Smooth(socket.script, restart))
    ensures r == 0 ==> |old(socket.incoming)| >= length && output[..length] == old(socket.incoming)[..length] &&
                       socket.incoming == old(socket.incoming)[length..]
    ensures r == TRANSPORT_EOF ==> cleanEof && length > 0 && old(socket.incoming) == []
    ensures (r == 0 || r == TRANSPORT_EOF || r < 0) && socket.outgoing == old(socket.outgoing)
    ensures (r, socket.script) == old(Fetched(socket.script, |socket.incoming|, length, cleanEof, restart))
  {
    hide Honest, Smooth, Fetched;
    ghost var stream := socket.incoming;
    ghost var result := Fetched(socket.script, |socket.incoming|, length, cleanEof, restart);
    var offset: nat := 0;
    while offset < length
      invariant socket.outgoing == old(socket.outgoing) && Honest(socket.script)
      invariant offset <= length && output[..offset] + socket.incoming == stream
      invariant Fetched(socket.script, |socket.incoming|, length - offset, cleanEof && offset == 0, restart) == result
      decreases |socket.script| + length - offset
    {
      var done, e, n := Pull(socket, output, offset, length, cleanEof && offset == 0, restart);
      if done {
        return e;
      }
      offset := offset + n;
    }
    FetchedDone(socket.script, |socket.incoming|, cleanEof && offset == 0, restart);
    return 0;
  }

  /** One read. */
  lemma FetchedStep(script: seq<Io>, incoming: Bytes, left: nat, clean: bool, restart: bool)
    requires Honest(script) && left > 0
    ensures Honest(Rest(script))
    ensures var r := Fetched(script, |incoming|, left, clean, restart);
            match Attempt(script, incoming, left)
            case Moved(data) =>
              r == if data == [] then (if clean then TRANSPORT_EOF else -EPROTO, Rest(script))
                   else Fetched(Rest(script), |incoming| - |data|, left - |data|, false, restart)
            case Error(errno) =>
              && errno > 0 && script != []
              && r == if errno != EINTR then (-errno, Rest(script))
                      else if restart then Fetched(Rest(script), |incoming|, left, clean, restart)
                      else (-EINTR, Rest(script))
  {
  }

  lemma FetchedDone(script: seq<Io>, avail: nat, clean: bool, restart: bool)
    requires Honest(script)
    ensures Fetched(script, avail, 0, clean, restart) == (0, script)
  {
  }

  /** How many of `left` bytes writes that behave as scripted deliver, and with what result: a stuck write gives up
      with -EPIPE, a failing one with its error, and interruptions are passed over. */
  function Delivered(script: seq<Io>, left: nat): (r: (nat, I32))
    requires Honest(script)
    ensures r.0 <= left && r.1 <= 0 && (r.1 == 0 <==> r.0 == left)
    ensures Smooth(script, true) ==> r.1 == 0
  {
    if left == 0 then (0, 0)
    else if script == [] then (left, 0)
    else
      match script[0]
      case Piece(n) =>
        var count := if n + 1 < left then n + 1 else left;
        var rest := Delivered(script[1..], left - count);
        (count + rest.0, rest.1)
      case Stuck => (0, -EPIPE)
      case Interrupted => Delivered(script[1..], left)
      case Broken(errno) => if errno == EINTR then Delivered(script[1..], left) else (0, -errno)
  }

  /** One write of a delivery. */
  lemma DeliveredStep(script: seq<Io>, left: nat)
    requires Honest(script) && left > 0
    ensures script == [] ==> Delivered(script, left) == (left, 0) && Delivered([], 0) == (0, 0)
    ensures script != [] ==>
              && Honest(script[1..]) && (Smooth(script, true) ==> Smooth(script[1..], true))
              && (Smooth(script, false) ==> Smooth(script[1..], false))
              && match script[0]
                 case Piece(n) =>
                   var count := if n + 1 < left then n + 1 else left;
                   var rest := Delivered(script[1..], left - count);
                   Delivered(script, left) == (count + rest.0, rest.1)
                 case Stuck => Delivered(script, left) == (0, -EPIPE)
                 case Interrupted => Delivered(script, left) == Delivered(script[1..], left)
                 case Broken(errno) => errno > 0 && Delivered(script, left) == if errno == EINTR then Delivered(script[1..], left) else (0, -errno)
  {
  }

  /** Sends the buffer as far as the writes carry it; interrupted writes are always restarted. */
  method SendExact(socket: Socket, input: Bytes) returns (r: I32)
    requires Honest(socket.script)
    modifies socket
    ensures socket.incoming == old(socket.incoming)
    ensures Honest(socket.script) && (old(Smooth(socket.script, true)) ==> Smooth(socket.script, true))
    ensures old(Smooth(socket.script, false)) ==> Smooth(socket.script, false)
    ensures var (n, result) := old(Delivered(socket.script, |input|));
            r == result && socket.outgoing == old(socket.outgoing) + input[..n]
  {
    hide Delivered, Honest, Smooth;
    var offset: nat := 0;
    while offset < |input|
      invariant offset <= |input| && socket.incoming == old(socket.incoming)
      invariant socket.outgoing == old(socket.outgoing) + input[..offset]
      invariant old(Smooth(socket.script, false)) ==> Smooth(socket.script, false)
      invariant Honest(socket.script) && var (n, result) := old(Delivered(socket.script, |input|));
                Delivered(socket.script, |input| - offset) == (n - offset, result)
      invariant Honest(socket.script) && (old(Smooth(socket.script, true)) ==> Smooth(socket.script, true))
      decreases |socket.script|, |input| - offset
    {
      DeliveredStep(socket.script, |input| - offset);
      var sent := socket.Send(input[offset..]);
      match sent
      case Moved(data) =>
        if data == [] {
          return -EPIPE;
        }
        assert input[..offset] + data == input[..offset + |data|];
        offset := offset + |data|;
      case Error(errno) =>
        if errno != EINTR {
          return -errno;
        }
    }
    return 0;
  }

  // ---- Packets ----

  function Serialize(p: Packet): Bytes { HeaderBytes(p.header) + p.payload }

  function SerializeAll(ps: seq<Packet>): Bytes {
    if ps == [] then [] else Serialize(ps[0]) + SerializeAll(ps[1..])
  }

  datatype Parsed = Next(packet: Packet, rest: Bytes) | End | Malformed(error: I32)

  /** What one packet read finds at the front of a stream. */
  function Parse(b: Bytes): (r: Parsed)
    ensures r.Next? ==> Framed(r.packet) && Serialize(r.packet) + r.rest == b && |r.rest| < |b|
    ensures r.Malformed? ==> r.error < 0
  {
    if b == [] then End
    else if |b| < HEADER_SIZE then Malformed(-EPROTO)
    else
      match DecodeHeader(b[..HEADER_SIZE])
      case Bad(error) => Malformed(error)
      case Good(h) =>
        if |b| < HEADER_SIZE + h.length then Malformed(-EPROTO)
        else
          HeaderCanonical(b[..HEADER_SIZE]);
          assert b == b[..HEADER_SIZE] + b[HEADER_SIZE..HEADER_SIZE + h.length] + b[HEADER_SIZE + h.length..];
          Next(Packet(h, b[HEADER_SIZE..HEADER_SIZE + h.length]), b[HEADER_SIZE + h.length..])
  }

  lemma ParseSerialized(p: Packet, rest: Bytes)
    requires Framed(p)
    ensures Parse(Serialize(p) + rest) == Next(p, rest)
  {
    hide HeaderBytes, DecodeHeader;
    var b := Serialize(p) + rest;
    assert b[..HEADER_SIZE] == HeaderBytes(p.header);
    HeaderRoundTrip(p.header);
    assert b[HEADER_SIZE..HEADER_SIZE + p.header.length] == p.payload;
    assert b[HEADER_SIZE + p.header.length..] == rest;
  }

  /** A stream that stops inside a packet is an error; end of file is clean only at a packet boundary. */
  lemma ParseTruncated(p: Packet, n: nat)
    requires Framed(p) && 0 < n < |Serialize(p)|
    ensures Parse(Serialize(p)[..n]) == Malformed(-EPROTO)
  {
    hide HeaderBytes, DecodeHeader;
    var b := Serialize(p)[..n];
    if n >= HEADER_SIZE {
      assert b[..HEADER_SIZE] == HeaderBytes(p.header);
      HeaderRoundTrip(p.header);
    }
  }

  /** Reads one packet: 24 header bytes, then the payload the header announces. */
  method Receive(socket: Socket, restart: bool) returns (r: I32, p: Packet)
    requires Honest(socket.script)
    modifies socket
    ensures Honest(socket.script) && (old(Smooth(socket.script, restart)) ==> Smooth(socket.script, restart))
    ensures r == 0 ==> Parse(old(socket.incoming)) == Next(p, socket.incoming)
    ensures r == TRANSPORT_EOF ==> old(socket.incoming) == []
    ensures (r == 0 || r == TRANSPORT_EOF || r < 0) && socket.outgoing == old(socket.outgoing)
    ensures var (e, rest) := old(Fetched(socket.script, |socket.incoming|, HEADER_SIZE, true, restart));
            r == if e != 0 then e
                 else
                   var header := DecodeHeader(old(socket.incoming)[..HEADER_SIZE]);
                   if header.Bad? then header.error
                   else Fetched(rest, |old(socket.incoming)| - HEADER_SIZE, header.header.length, false, restart).0
    ensures old(Smooth(socket.script, restart)) ==>
              match Parse(old(socket.incoming))
              case Next(_, _) => r == 0
              case End => r == TRANSPORT_EOF
              case Malformed(error) => r == error
  {
    hide Honest, Smooth, Fetched, Serialize, GetU16, GetU32, FromU32;
    ghost var stream := socket.incoming;
    p := Packet(Header(0, 0, 0, 0, 0, 0), []);
    var wireHeader := new Byte[HEADER_SIZE](_ => 0);
    r := ReceiveExact(socket, wireHeader, HEADER_SIZE, true, restart);
    if r != 0 {
      return;
    }
    assert wireHeader[..] == wireHeader[..HEADER_SIZE] == stream[..HEADER_SIZE];
    match DecodeHeader(wireHeader[..])
    case Bad(error) =>
      r := error;
    case Good(h) =>
      var payload := new Byte[MAX_PAYLOAD](_ => 0);
      r := ReceiveExact(socket, payload, h.length, false, restart);
      if r == 0 {
        p := Packet(h, payload[..h.length]);
      }
  }

  /** Sends one packet as its serialization, or nothing if its header is invalid. */
  method SendPacket(socket: Socket, p: Packet) returns (r: I32)
    requires Honest(socket.script) && |p.payload| == p.header.length
    modifies socket
    ensures socket.incoming == old(socket.incoming)
    ensures Honest(socket.script) && (old(Smooth(socket.script, true)) ==> Smooth(socket.script, true))
    ensures r <= 0
    ensures HeaderStatus(p.header) != 0 ==> r == HeaderStatus(p.header) && socket.outgoing == old(socket.outgoing)
    ensures old(Smooth(socket.script, false)) ==> Smooth(socket.script, false)
    ensures HeaderStatus(p.header) == 0 ==> r == old(Delivered(socket.script, |Serialize(p)|)).1
    ensures r == 0 ==> socket.outgoing == old(socket.outgoing) + Serialize(p)
    ensures old(Smooth(socket.script, true)) && HeaderStatus(p.header) == 0 ==> r == 0
  {
    var wire := new Byte[HEADER_SIZE + MAX_PAYLOAD](_ => 0);
    r := EncodeHeader(wire, p.header);
    if r != 0 {
      return;
    }
    forall i | 0 <= i < |p.payload| {
      wire[HEADER_SIZE + i] := p.payload[i];
    }
    assert wire[..HEADER_SIZE] == HeaderBytes(p.header);
    assert wire[..HEADER_SIZE + |p.payload|] == Serialize(p);
    r := SendExact(socket, wire[..HEADER_SIZE + |p.payload|]);
  }

  lemma {:induction false} SerializeAppend(ps: seq<Packet>, p: Packet)
    ensures SerializeAll(ps + [p]) == SerializeAll(ps) + Serialize(p)
  {
    if ps == [] {
      assert (ps + [p])[1..] == [];
    } else {
      assert (ps + [p])[1..] == ps[1..] + [p];
      SerializeAppend(ps[1..], p);
    }
  }

  lemma SerializeNone()
    ensures SerializeAll([]) == []
  {
  }

  /** Sending packets over any pattern of short and interrupted writes puts their serialization on the stream. */
  method SendAll(socket: Socket, ps: seq<Packet>) returns (r: I32)
    requires Honest(socket.script) && Smooth(socket.script, true) && forall i :: 0 <= i < |ps| ==> Framed(ps[i])
    modifies socket
    ensures r == 0 && socket.outgoing == old(socket.outgoing) + SerializeAll(ps)
  {
    hide Serialize, SerializeAll, Honest, Smooth;
    SerializeNone();
    assert ps[..0] == [];
    for i := 0 to |ps|
      invariant Honest(socket.script) && Smooth(socket.script, true)
      invariant socket.outgoing == old(socket.outgoing) + SerializeAll(ps[..i])
    {
      r := SendPacket(socket, ps[i]);
      SerializeAppend(ps[..i], ps[i]);
      assert ps[..i + 1] == ps[..i] + [ps[i]];
    }
    assert ps[..|ps|] == ps;
    return 0;
  }

  /** The front of a stream of packets is the first packet. After the last one, nothing is a clean end, and a packet
      that is cut short is an error. */
  lemma ParseAll(ps: seq<Packet>, last: Packet, n: nat)
    requires Framed(last) && n < |Serialize(last)| && forall i :: 0 <= i < |ps| ==> Framed(ps[i])
    ensures var cut := Serialize(last)[..n];
            Parse(SerializeAll(ps) + cut) == if ps != [] then Next(ps[0], SerializeAll(ps[1..]) + cut)
                                             else if n == 0 then End else Malformed(-EPROTO)
  {
    hide Parse, Serialize, Framed;
    var cut := Serialize(last)[..n];
    if ps != [] {
      assert SerializeAll(ps) + cut == Serialize(ps[0]) + (SerializeAll(ps[1..]) + cut);
      ParseSerialized(ps[0], SerializeAll(ps[1..]) + cut);
    } else {
      assert SerializeAll(ps) + cut == cut;
      if n == 0 {
        ParseNothing();
      } else {
        ParseTruncated(last, n);
      }
    }
  }

  lemma ParseNothing()
    ensures Parse([]) == End
  {
  }

  /** Receiving a stream of packets that may stop inside one more, over any pattern of short and interrupted reads,
      gives exactly the whole packets, and then a clean end of file or, if one was cut short, an error. */
  method ReceiveAll(socket: Socket, ghost ps: seq<Packet>, ghost last: Packet, ghost n: nat) returns (r: I32, received: seq<Packet>)
    requires Honest(socket.script) && Smooth(socket.script, true)
    requires Framed(last) && n < |Serialize(last)| && forall i :: 0 <= i < |ps| ==> Framed(ps[i])
    requires socket.incoming == SerializeAll(ps) + Serialize(last)[..n]
    modifies socket
    ensures received == ps && r == if n == 0 then TRANSPORT_EOF else -EPROTO
  {
    hide Parse, Serialize, Framed, Honest, Smooth;
    received := [];
    ghost var left := ps;
    assert received + left == ps;
    while true
      invariant Honest(socket.script) && Smooth(socket.script, true)
      invariant received + left == ps && socket.incoming == SerializeAll(left) + Serialize(last)[..n]
      invariant forall i :: 0 <= i < |left| ==> Framed(left[i])
      decreases |left|
    {
      ParseAll(left, last, n);
      var result, p := Receive(socket, true);
      if result != 0 {
        return result, received;
      }
      received := received + [p];
      left := left[1..];
    }
  }
}
