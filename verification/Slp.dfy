/** Server List Ping: packet framing on both sides, and the status exchange from the client's handshake
    to the status text it returns. */
module Slp {
  import opened Prelude
  import opened Wire
  import VarInt

  /** `int32(n)` of a length. */
  function Int32(n: nat): int32 { ToI32(n % 0x1_0000_0000) }

  function Concat(parts: seq<bytes>): bytes {
    if parts == [] then [] else parts[0] + Concat(parts[1..])
  }

  function Framed(body: bytes): bytes {
    VarInt.Encode(Int32(|body|)) + body
  }

  /** The client's packets carry the id as a VarInt, the server's as a plain byte. */
  function ClientBody(id: byte, parts: seq<bytes>): bytes { VarInt.Encode(id) + Concat(parts) }

  function ServerBody(id: byte, parts: seq<bytes>): bytes { [id] + Concat(parts) }

  function WriteString(s: bytes): bytes { VarInt.Encode(Int32(|s|)) + s }

  function WriteUint16(v: int): bytes
    requires 0 <= v < 0x1_0000
  {
    [v / 0x100, v % 0x100]
  }

  /** The two builders make the same packet exactly for ids below 0x80. */
  lemma BuildersAgreeIff(id: byte, parts: seq<bytes>)
    ensures ClientBody(id, parts) == ServerBody(id, parts) <==> id < 0x80
  {
    if id >= 0x80 {
      assert ClientBody(id, parts)[0] == id % 0x80 + 0x80 && ClientBody(id, parts)[1] == id / 0x80;
      assert |VarInt.Encode(id)| >= 2;
      assert |ClientBody(id, parts)| > |ServerBody(id, parts)|;
    }
  }

  datatype SlpError =
    | BadVarInt(e: VarInt.DecodeError)
    | ShortRead
    | Implausible
    | UnexpectedId
    | TooLongText
    | SlicePanic

  datatype Frame = Frame(body: bytes, rest: bytes)

  const MAX_FRAME := 0x10_0000

  /** One length-prefixed body off the front of a stream, with the server's plausibility check. */
  function ReadFrame(s: bytes): (r: Result<Frame, SlpError>)
    ensures r.Ok? ==> |r.value.rest| < |s|
  {
    match VarInt.Decode(s)
    case Err(e) => Err(BadVarInt(e))
    case Ok(d) =>
      var t := s[VarInt.Taken(s)..];
      if d.value < 0 || d.value > MAX_FRAME then Err(Implausible)
      else if d.value > |t| then Err(ShortRead)
      else Ok(Frame(t[..d.value], t[d.value..]))
  }

  lemma FrameLength(body: bytes, tail: bytes)
    requires |body| < 0x8000_0000
    ensures VarInt.Decode(Framed(body) + tail) == Ok(VarInt.Decoded(|body|, VarInt.Taken(Framed(body) + tail)))
    ensures (Framed(body) + tail)[VarInt.Taken(Framed(body) + tail)..] == body + tail
  {
    assert Framed(body) + tail == VarInt.Encode(|body|) + (body + tail);
    VarInt.RoundTrip(|body|, body + tail);
  }

  /** A framed body reads back, with what follows untouched, exactly up to the size limit. */
  lemma FrameReadsBackIff(body: bytes, tail: bytes)
    requires |body| < 0x8000_0000
    ensures ReadFrame(Framed(body) + tail) == Ok(Frame(body, tail)) <==> |body| <= 1_048_576
  {
    FrameLength(body, tail);
  }

  function ReadFrames(s: bytes): Result<seq<bytes>, SlpError>
    decreases |s|
  {
    if s == [] then Ok([])
    else
      match ReadFrame(s)
      case Err(e) => Err(e)
      case Ok(f) =>
        match ReadFrames(f.rest)
        case Err(e) => Err(e)
        case Ok(more) => Ok([f.body] + more)
  }

  function FrameAll(bodies: seq<bytes>): bytes {
    if bodies == [] then [] else Framed(bodies[0]) + FrameAll(bodies[1..])
  }

  /** Packet boundaries survive the stream: however many packets are written back to back, the reader
      gets the same bodies, in the same number and order. */
  lemma {:induction false} FramesReadBack(bodies: seq<bytes>)
    requires forall b :: b in bodies ==> |b| <= MAX_FRAME
    ensures ReadFrames(FrameAll(bodies)) == Ok(bodies)
  {
    hide Framed, ReadFrame;
    if bodies != [] {
      var tail := FrameAll(bodies[1..]);
      FrameReadsBackIff(bodies[0], tail);
      FramesReadBack(bodies[1..]);
      assert [bodies[0]] + bodies[1..] == bodies;
    }
  }

  // ---------- The status exchange ----------

  const UNKNOWN_PROTOCOL: int32 := -1

  function Handshake(host: bytes, port: int): bytes
    requires 0 <= port < 0x1_0000
  {
    ClientBody(0, [VarInt.Encode(UNKNOWN_PROTOCOL), WriteString(host), WriteUint16(port), VarInt.Encode(1)])
  }

  /** What the client sends before it reads. */
  function Request(host: bytes, port: int): bytes
    requires 0 <= port < 0x1_0000
  {
    Framed(Handshake(host, port)) + Framed(ClientBody(0, []))
  }

  /** What the server sends once two packets have arrived. */
  function Respond(input: bytes, status: bytes): Result<bytes, SlpError> {
    match ReadFrame(input)
    case Err(e) => Err(e)
    case Ok(first) =>
      match ReadFrame(first.rest)
      case Err(e) => Err(e)
      case Ok(second) => Ok(Framed(ServerBody(0, [WriteString(status)])))
  }

  function ParseText(s: bytes): Result<bytes, SlpError> {
    match VarInt.Decode(s)
    case Err(e) => Err(BadVarInt(e))
    case Ok(n) =>
      var t := s[VarInt.Taken(s)..];
      if n.value > |t| then Err(TooLongText)
      else if n.value < 0 then Err(SlicePanic)
      else Ok(t[..n.value])
  }

  function ParseBody(body: bytes): Result<bytes, SlpError> {
    match VarInt.Decode(body)
    case Err(e) => Err(BadVarInt(e))
    case Ok(id) =>
      if id.value != 0 then Err(UnexpectedId) else ParseText(body[VarInt.Taken(body)..])
  }

  /** The client's parsing of a response, up to the text it hands to the JSON decoder. A negative length
      faults, in allocating the body or in slicing the text. */
  function ParseStatus(s: bytes): Result<bytes, SlpError> {
    match VarInt.Decode(s)
    case Err(e) => Err(BadVarInt(e))
    case Ok(d) =>
      var t := s[VarInt.Taken(s)..];
      if d.value < 0 then Err(SlicePanic)
      else if d.value > |t| then Err(ShortRead)
      else ParseBody(t[..d.value])
  }

  lemma TextParses(text: bytes)
    requires |text| < 0x8000_0000
    ensures ParseText(WriteString(text)) == Ok(text)
  {
    FrameLength(text, []);
    assert WriteString(text) == Framed(text) == Framed(text) + [];
    assert text + [] == text;
  }

  /** What the server makes of a length and what follows it. */
  lemma FrameOutcomes(n: int32, s: bytes)
    ensures ReadFrame(VarInt.Encode(n) + s) ==
            if n < 0 || n > 1_048_576 then Err(Implausible)
            else if n > |s| then Err(ShortRead)
            else Ok(Frame(s[..n], s[n..]))
  {
    hide VarInt.Decode, VarInt.Encode;
    VarInt.RoundTrip(n, s);
    var all := VarInt.Encode(n) + s;
    assert all[|VarInt.Encode(n)|..] == s;
  }

  /** What the client makes of a packet id, a text length and what follows them. */
  lemma StatusOutcomes(id: int32, n: int32, s: bytes)
    ensures ParseBody(VarInt.Encode(id) + (VarInt.Encode(n) + s)) ==
            if id != 0 then Err(UnexpectedId)
            else if n > |s| then Err(TooLongText)
            else if n < 0 then Err(SlicePanic)
            else Ok(s[..n])
  {
    hide VarInt.Decode, VarInt.Encode;
    var inner := VarInt.Encode(n) + s;
    VarInt.RoundTrip(id, inner);
    VarInt.RoundTrip(n, s);
    assert (VarInt.Encode(id) + inner)[|VarInt.Encode(id)|..] == inner;
    assert inner[|VarInt.Encode(n)|..] == s;
  }

  /** The client gets from a response exactly the text that the server's `WriteString` encoded. */
  lemma StatusReadsBack(text: bytes, tail: bytes)
    requires |text| < 0x8000_0000 - 6
    ensures ParseStatus(Framed(ServerBody(0, [WriteString(text)])) + tail) == Ok(text)
  {
    var body := ServerBody(0, [WriteString(text)]);
    VarInt.RoundTrip(Int32(|text|), []);
    assert Concat([WriteString(text)]) == WriteString(text);
    FrameLength(body, tail);
    assert (body + tail)[..|body|] == body;
    VarInt.RoundTrip(0, WriteString(text));
    assert body == VarInt.Encode(0) + WriteString(text);
    TextParses(text);
  }

  lemma ConcatFour(a: bytes, b: bytes, c: bytes, d: bytes)
    ensures |Concat([a, b, c, d])| == |a| + |b| + |c| + |d|
  {
    assert [a, b, c, d][1..] == [b, c, d] && [b, c, d][1..] == [c, d] && [c, d][1..] == [d] && [d][1..] == [];
    assert Concat([d]) == d;
    assert |Concat([c, d])| == |c| + |d|;
    assert |Concat([b, c, d])| == |b| + |Concat([c, d])|;
  }

  lemma HandshakeSize(host: bytes, port: int)
    requires 0 <= port < 0x1_0000
    ensures |Handshake(host, port)| <= |host| + 14
  {
    VarInt.RoundTrip(UNKNOWN_PROTOCOL, []);
    VarInt.RoundTrip(Int32(|host|), []);
    ConcatFour(VarInt.Encode(UNKNOWN_PROTOCOL), WriteString(host), WriteUint16(port), VarInt.Encode(1));
  }

  lemma SmallNumbers()
    ensures VarInt.Encode(0) == [0] && VarInt.Encode(1) == [1] && |VarInt.Encode(-1)| == 5
  {
    var u: uint32 := 0xFFFF_FFFF;
    assert VarInt.EncodeU(0xF) == [0xF];
    assert |VarInt.EncodeU(0x7FF)| == 2;
    assert |VarInt.EncodeU(0x3_FFFF)| == 3;
    assert |VarInt.EncodeU(0x1FF_FFFF)| == 4;
    assert |VarInt.EncodeU(u)| == 5;
  }

  lemma ConcatIs(a: bytes, b: bytes, c: bytes, d: bytes)
    ensures Concat([a, b, c, d]) == a + (b + (c + d))
  {
    assert [a, b, c, d][1..] == [b, c, d] && [b, c, d][1..] == [c, d] && [c, d][1..] == [d] && [d][1..] == [];
    assert Concat([d]) == d;
    assert Concat([c, d]) == c + d;
  }

  lemma TextParsesWith(text: bytes, tail: bytes)
    requires |text| < 0x8000_0000
    ensures ParseText(WriteString(text) + tail) == Ok(text)
  {
    FrameLength(text, tail);
    assert WriteString(text) == Framed(text);
    assert (text + tail)[..|text|] == text;
  }

  /** What the handshake says, read the way the protocol reads it: packet 0, protocol version -1, the host, the
      port with the high byte first, and the next state 1. */
  lemma HandshakeReadsBack(host: bytes, port: int)
    requires 0 <= port < 0x1_0000 && |host| < 0x8000_0000
    ensures var body := Handshake(host, port);
            && |body| >= 9 && body[0] == 0
            && VarInt.Decode(body[1..]) == Ok(VarInt.Decoded(-1, 5))
            && ParseText(body[6..]) == Ok(host)
            && var n := |body| - 3;
               var high: int := body[n];
               0x100 * high + body[n + 1] == port && body[n + 2] == 1
  {
    hide VarInt.Decode, VarInt.Encode, ParseText;
    var version, text, last := VarInt.Encode(-1), WriteString(host), WriteUint16(port) + VarInt.Encode(1);
    var body := Handshake(host, port);
    SmallNumbers();
    ConcatIs(version, text, WriteUint16(port), VarInt.Encode(1));
    assert body == [0] + (version + (text + last));
    assert body[1..] == version + (text + last);
    assert body[6..] == text + last;
    VarInt.RoundTrip(-1, text + last);
    TextParsesWith(host, last);
    assert body[|body| - 3..] == last;
  }

  /** The whole exchange: the server can frame the client's two packets, and the client gets back the
      server's status text unchanged. */
  lemma ExchangeDeliversStatus(host: bytes, port: int, status: bytes)
    requires 0 <= port < 0x1_0000 && |host| <= MAX_FRAME - 14 && |status| < 0x8000_0000 - 6
    ensures Respond(Request(host, port), status).Ok?
    ensures ParseStatus(Respond(Request(host, port), status).value) == Ok(status)
  {
    HandshakeSize(host, port);
    var ask := Framed(ClientBody(0, []));
    assert ClientBody(0, []) == [0];
    FrameReadsBackIff(Handshake(host, port), ask);
    FrameReadsBackIff(ClientBody(0, []), []);
    assert ask + [] == ask;
    StatusReadsBack(status, []);
    var answer := Framed(ServerBody(0, [WriteString(status)]));
    assert answer + [] == answer;
  }

  // ---------- The code ----------

  /** The server's readPacket. */
  method ReadPacket(r: Stream) returns (res: Result<bytes, SlpError>)
    modifies r
    ensures match ReadFrame(old(r.data))
            case Ok(f) => res == Ok(f.body) && r.data == f.rest
            case Err(e) => res == Err(e)
  {
    var length := VarInt.ReadVarInt(r);
    if length.Err? {
      return Err(BadVarInt(length.error));
    }
    if length.value < 0 || length.value > MAX_FRAME {
      return Err(Implausible);
    }
    var ok, body := r.ReadFull(length.value);
    if !ok {
      return Err(ShortRead);
    }
    return Ok(body);
  }

  method BuildPacket(id: byte, parts: seq<bytes>) returns (packet: bytes)
    ensures packet == Framed(ClientBody(id, parts))
  {
    var body := VarInt.WriteVarInt(id);
    for i := 0 to |parts|
      invariant body + Concat(parts[i..]) == ClientBody(id, parts)
    {
      assert parts[i..] == [parts[i]] + parts[i + 1..];
      body := body + parts[i];
    }
    assert body + Concat([]) == body;
    var prefix := VarInt.WriteVarInt(Int32(|body|));
    return prefix + body;
  }

  /** The reading half of Probe, up to the JSON decoder. */
  method ReadStatus(conn: Stream) returns (res: Result<bytes, SlpError>)
    modifies conn
    ensures res == ParseStatus(old(conn.data))
  {
    var pktLen := VarInt.ReadVarInt(conn);
    if pktLen.Err? {
      return Err(BadVarInt(pktLen.error));
    }
    if pktLen.value < 0 {
      return Err(SlicePanic);
    }
    var ok, body := conn.ReadFull(pktLen.value);
    if !ok {
      return Err(ShortRead);
    }
    var r := new VarInt.ByteReader(body);
    assert body[0..] == body;
    var pid := r.NextVarInt();
    if pid.Err? {
      return Err(BadVarInt(pid.error));
    }
    if pid.value != 0 {
      return Err(UnexpectedId);
    }
    ghost var rest := body[r.pos..];
    ghost var at := r.pos;
    var jsonLen := r.NextVarInt();
    if jsonLen.Err? {
      return Err(BadVarInt(jsonLen.error));
    }
    assert rest[VarInt.Taken(rest)..] == body[r.pos..];
    if jsonLen.value > |body| - r.pos {
      return Err(TooLongText);
    }
    if jsonLen.value < 0 {
      return Err(SlicePanic);
    }
    assert body[r.pos..r.pos + jsonLen.value] == body[r.pos..][..jsonLen.value];
    return Ok(body[r.pos..r.pos + jsonLen.value]);
  }
}
