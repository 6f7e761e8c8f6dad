/** The RCON packet codec, the client session, and the server that answers it. */
module Rcon {
  import opened Prelude
  import opened Wire

  const TYPE_LOGIN: int32 := 3
  const TYPE_EXEC: int32 := 2
  const TYPE_RESPONSE: int32 := 0
  const MAX_PAYLOAD := 1413

  datatype Packet = Packet(id: int32, ptype: int32, payload: bytes)

  datatype ReadError = ShortRead | Implausible | IndexPanic

  // ---------- Codec ----------

  function Encode(p: Packet): bytes
    requires |p.payload| <= 0x7FFF_FFFF - 14
  {
    PutU32LE(10 + |p.payload|) + PutU32LE(ToU32(p.id)) + PutU32LE(ToU32(p.ptype)) + p.payload + [0, 0]
  }

  function UpToNul(b: bytes): (r: bytes)
    ensures 0 !in r && r <= b
    ensures |r| < |b| ==> b[|r|] == 0
    ensures 0 !in b ==> r == b
  {
    if b == [] || b[0] == 0 then [] else [b[0]] + UpToNul(b[1..])
  }

  function ParseBody(body: bytes): Packet
    requires |body| >= 8
  {
    Packet(ToI32(GetU32LE(body[0..4])), ToI32(GetU32LE(body[4..8])), UpToNul(body[8..]))
  }

  datatype Reading = Reading(packet: Packet, rest: bytes)

  /** The client's reader, which refuses lengths outside 10..4096. */
  function Decode(s: bytes): Result<Reading, ReadError> {
    if |s| < 4 then Err(ShortRead)
    else
      var n := GetU32LE(s[..4]);
      if n < 10 || n > 4096 then Err(Implausible)
      else if |s| < 4 + n then Err(ShortRead)
      else Ok(Reading(ParseBody(s[4..4 + n]), s[4 + n..]))
  }

  /** The server's reader, which takes any length and faults on a body too short for its header. */
  function DecodeServer(s: bytes): Result<Reading, ReadError> {
    if |s| < 4 then Err(ShortRead)
    else
      var n := GetU32LE(s[..4]);
      if |s| < 4 + n then Err(ShortRead)
      else if n < 8 then Err(IndexPanic)
      else Ok(Reading(ParseBody(s[4..4 + n]), s[4 + n..]))
  }

  lemma {:induction false} NulCuts(b: bytes, tail: bytes)
    requires tail != [] && tail[0] == 0
    ensures UpToNul(b + tail) == UpToNul(b)
  {
    if b != [] && b[0] != 0 {
      assert (b + tail)[1..] == b[1..] + tail;
      NulCuts(b[1..], tail);
    }
  }

  lemma BodyParses(p: Packet)
    ensures ParseBody(PutU32LE(ToU32(p.id)) + PutU32LE(ToU32(p.ptype)) + p.payload + [0, 0])
         == p.(payload := UpToNul(p.payload))
  {
    var body := PutU32LE(ToU32(p.id)) + PutU32LE(ToU32(p.ptype)) + p.payload + [0, 0];
    assert body[0..4] == PutU32LE(ToU32(p.id));
    assert body[4..8] == PutU32LE(ToU32(p.ptype));
    assert body[8..] == p.payload + [0, 0];
    U32RoundTrip(ToU32(p.id));
    U32RoundTrip(ToU32(p.ptype));
    NulCuts(p.payload, [0, 0]);
  }

  /** The packet on the wire: four little-endian words, of which the first counts the bytes after it, then the
      payload and two NULs. */
  lemma PacketLayout(p: Packet)
    requires |p.payload| <= 0x7FFF_FFFF - 14
    ensures var e, n := Encode(p), 12 + |p.payload|;
            && |e| == n + 2
            && Value(e[0..4]) == |e| - 4
            && Value(e[4..8]) == p.id % 0x1_0000_0000
            && Value(e[8..12]) == p.ptype % 0x1_0000_0000
            && e[12..n] == p.payload && e[n..] == [0, 0]
  {
    hide PutU32LE, Value;
    var a, b, c := PutU32LE(10 + |p.payload|), PutU32LE(ToU32(p.id)), PutU32LE(ToU32(p.ptype));
    LittleEndian(10 + |p.payload|, a);
    LittleEndian(ToU32(p.id), b);
    LittleEndian(ToU32(p.ptype), c);
    TwosComplement(p.id, 0);
    TwosComplement(p.ptype, 0);
    var e := Encode(p);
    assert e == a + b + c + p.payload + [0, 0];
    assert e[0..4] == a && e[4..8] == b && e[8..12] == c;
  }

  lemma EncodedFrame(p: Packet, tail: bytes)
    requires |p.payload| <= 0x7FFF_FFFF - 14
    ensures var s, n := Encode(p) + tail, 10 + |p.payload|;
            && |s| >= 4 + n && GetU32LE(s[..4]) == n && s[4 + n..] == tail
            && ParseBody(s[4..4 + n]) == p.(payload := UpToNul(p.payload))
  {
    var s, n := Encode(p) + tail, 10 + |p.payload|;
    assert s[..4] == PutU32LE(n);
    U32RoundTrip(n);
    assert s[4..4 + n] == PutU32LE(ToU32(p.id)) + PutU32LE(ToU32(p.ptype)) + p.payload + [0, 0];
    BodyParses(p);
  }

  /** What the client reads back from a written packet and any bytes after it: the packet itself with
      the rest untouched, exactly when the payload is free of NULs and at most 4086 bytes long. */
  lemma ReadsBackIff(p: Packet, tail: bytes)
    requires |p.payload| <= 0x7FFF_FFFF - 14
    ensures Decode(Encode(p) + tail) == Ok(Reading(p, tail)) <==> 0 !in p.payload && |p.payload| <= 4086
    ensures |p.payload| > 4086 ==> Decode(Encode(p) + tail) == Err(Implausible)
    ensures |p.payload| <= 4086 ==>
              Decode(Encode(p) + tail) == Ok(Reading(p.(payload := UpToNul(p.payload)), tail))
  {
    EncodedFrame(p, tail);
  }

  lemma ServerReadsBack(p: Packet, tail: bytes)
    requires |p.payload| <= 0x7FFF_FFFF - 14
    ensures DecodeServer(Encode(p) + tail) == Ok(Reading(p.(payload := UpToNul(p.payload)), tail))
  {
    EncodedFrame(p, tail);
  }

  /** The two readers agree on every byte sequence except where the client refuses the length. */
  lemma ReadersAgreeIff(s: bytes)
    ensures Decode(s) == DecodeServer(s) <==> |s| < 4 || 10 <= GetU32LE(s[..4]) <= 4096
  {
  }

  method PutU32(buf: array<byte>, at: nat, u: uint32)
    requires at + 4 <= buf.Length
    modifies buf
    ensures buf[..] == old(buf[..])[..at] + PutU32LE(u) + old(buf[..])[at + 4..]
  {
    buf[at] := u % 0x100;
    buf[at + 1] := u / 0x100 % 0x100;
    buf[at + 2] := u / 0x1_0000 % 0x100;
    buf[at + 3] := u / 0x100_0000;
  }

  /** copy(buf[at:], src) */
  method CopyInto(buf: array<byte>, at: nat, src: bytes)
    requires at + |src| <= buf.Length
    modifies buf
    ensures buf[..] == old(buf[..])[..at] + src + old(buf[..])[at + |src|..]
  {
    for i := 0 to |src|
      invariant forall j :: 0 <= j < buf.Length ==> buf[j] == if at <= j < at + i then src[j - at] else old(buf[j])
    {
      buf[at + i] := src[i];
    }
  }

  lemma Fields(z: bytes, a: bytes, b: bytes, c: bytes)
    requires |a| == |b| == |c| == 4 && |z| >= 12
    ensures var s1 := z[..0] + a + z[4..];
            var s2 := s1[..4] + b + s1[8..];
            s2[..8] + c + s2[12..] == a + b + c + z[12..]
  {
    var s1 := z[..0] + a + z[4..];
    assert s1[..4] == a && s1[8..] == z[8..];
    var s2 := a + b + z[8..];
    assert s2[..8] == a + b && s2[12..] == z[12..];
  }

  /** The three words in front of the payload. */
  method PutHeader(buf: array<byte>, length: uint32, id: uint32, ptype: uint32)
    requires buf.Length >= 12
    modifies buf
    ensures buf[..] == PutU32LE(length) + PutU32LE(id) + PutU32LE(ptype) + old(buf[..])[12..]
  {
    hide PutU32LE;
    Fields(buf[..], PutU32LE(length), PutU32LE(id), PutU32LE(ptype));
    PutU32(buf, 0, length);
    PutU32(buf, 4, id);
    PutU32(buf, 8, ptype);
  }

  lemma Payload(header: bytes, d: bytes, z: bytes)
    requires |d| <= |z|
    ensures (header + z)[..|header|] == header && (header + z)[|header| + |d|..] == z[|d|..]
  {
  }

  method WritePacket(w: Stream, p: Packet)
    requires |p.payload| <= 0x7FFF_FFFF - 14
    modifies w
    ensures w.data == old(w.data) + Encode(p)
  {
    hide PutU32LE, ToU32;
    var length := 10 + |p.payload|;
    var buf := new byte[4 + length](_ => 0);
    ghost var room := buf[..][12..];
    assert room[|p.payload|..] == [0, 0];
    PutHeader(buf, length, ToU32(p.id), ToU32(p.ptype));
    Payload(PutU32LE(length) + PutU32LE(ToU32(p.id)) + PutU32LE(ToU32(p.ptype)), p.payload, room);
    CopyInto(buf, 12, p.payload);
    w.Write(buf[..]);
  }

  method CutAtNul(rest: bytes) returns (payload: bytes)
    ensures payload == UpToNul(rest)
  {
    var i := 0;
    while i < |rest|
      invariant 0 <= i <= |rest| && 0 !in rest[..i]
    {
      if rest[i] == 0 {
        assert rest == rest[..i] + rest[i..];
        NulCuts(rest[..i], rest[i..]);
        return rest[..i];
      }
      i := i + 1;
    }
    assert rest[..i] == rest;
    return rest;
  }

  /** Reads one packet; `bounded` is the client's length check. */
  method ReadPacket(r: Stream, bounded: bool) returns (res: Result<Packet, ReadError>)
    modifies r
    ensures match if bounded then Decode(old(r.data)) else DecodeServer(old(r.data))
            case Ok(reading) => res == Ok(reading.packet) && r.data == reading.rest
            case Err(e) => res == Err(e)
    ensures res == Err(ShortRead) ==> r.data == []
  {
    var ok, lenBuf := r.ReadFull(4);
    if !ok {
      return Err(ShortRead);
    }
    var length := GetU32LE(lenBuf);
    if bounded && (length < 10 || length > 4096) {
      return Err(Implausible);
    }
    var body;
    DropTake(old(r.data), 4, length);
    ok, body := r.ReadFull(length);
    if !ok {
      return Err(ShortRead);
    }
    if |body| < 8 {
      return Err(IndexPanic);
    }
    var payload := CutAtNul(body[8..]);
    return Ok(Packet(ToI32(GetU32LE(body[0..4])), ToI32(GetU32LE(body[4..8])), payload));
  }

  // ---------- The server ----------

  function HandleCmd(cmd: bytes): bytes {
    if cmd == Ascii("stop") then Ascii("Stopping the server")
    else if cmd == Ascii("list") then Ascii("There are 0 of a max of 20 players online: ")
    else if HasPrefix(cmd, Ascii("say ")) then []
    else if HasPrefix(cmd, Ascii("kick ")) then Ascii("No player was found")
    else if cmd == Ascii("whitelist reload") then Ascii("Reloaded the whitelist")
    else Ascii("Echoed: ") + cmd
  }

  lemma AnswersFit(cmd: bytes)
    requires 0 !in cmd
    ensures 0 !in HandleCmd(cmd) && |HandleCmd(cmd)| <= 43 + |cmd|
  {
    AsciiHasNoNul("Stopping the server");
    AsciiHasNoNul("There are 0 of a max of 20 players online: ");
    AsciiHasNoNul("No player was found");
    AsciiHasNoNul("Reloaded the whitelist");
    AsciiHasNoNul("Echoed: ");
    hide Ascii;
  }

  lemma Spell(s: string, t: string)
    ensures |Ascii(s)| == |s| && |Ascii(t)| == |t|
  {
  }

  /** The answers by their texts: a prefixed command is told by its prefix whatever follows. */
  lemma AnswersAre(rest: bytes)
    ensures HandleCmd(Ascii("stop")) == Ascii("Stopping the server")
    ensures HandleCmd(Ascii("list")) == Ascii("There are 0 of a max of 20 players online: ")
    ensures HandleCmd(Ascii("say ") + rest) == []
    ensures HandleCmd(Ascii("kick ") + rest) == Ascii("No player was found")
    ensures HandleCmd(Ascii("whitelist reload")) == Ascii("Reloaded the whitelist")
    ensures rest in {Ascii("stop"), Ascii("list"), Ascii("whitelist reload")}
            || Ascii("say ") <= rest || Ascii("kick ") <= rest || HandleCmd(rest) == Ascii("Echoed: ") + rest
  {
    Spell("stop", "list");
    var say, kick, reload := Ascii("say "), Ascii("kick "), Ascii("whitelist reload");
    assert |say| == 4 && |kick| == 5 && |reload| == 16;
    assert (say + rest)[..4] == say && (kick + rest)[..5] == kick;
    assert say[0] == 's' as int && say[1] == 'a' as int && kick[0] == 'k' as int && reload[0] == 'w' as int;
    assert Ascii("list")[0] == 'l' as int && Ascii("stop")[0] == 's' as int && Ascii("stop")[1] == 't' as int;
  }

  datatype Server = Server(password: bytes, authenticated: bool, stopped: bool, open: bool)

  datatype Handled = Handled(server: Server, reply: bytes)

  /** What the server does with one packet. Types other than login and exec are ignored; an answer too
      long for a length field faults. */
  function Handle(sv: Server, p: Packet): Handled {
    if p.ptype == TYPE_LOGIN then
      if p.payload == sv.password then Handled(sv.(authenticated := true), Encode(Packet(p.id, TYPE_EXEC, [])))
      else Handled(sv.(open := false), Encode(Packet(-1, TYPE_EXEC, [])))
    else if p.ptype == TYPE_EXEC then
      if !sv.authenticated || |HandleCmd(p.payload)| > 0x7FFF_FFFF - 14 then Handled(sv.(open := false), [])
      else Handled(sv.(stopped := sv.stopped || p.payload == Ascii("stop")),
                   Encode(Packet(p.id, TYPE_RESPONSE, HandleCmd(p.payload))))
    else Handled(sv, [])
  }

  /** What the server does with packets that are no command it runs: others are ignored, a wrong password and a
      command before the login end the session. */
  lemma OtherPackets(sv: Server, p: Packet)
    ensures p.ptype != 2 && p.ptype != 3 ==> Handle(sv, p) == Handled(sv, [])
    ensures p.ptype == 2 && !sv.authenticated ==> Handle(sv, p) == Handled(sv.(open := false), [])
    ensures p.ptype == 3 && p.payload != sv.password ==>
              Handle(sv, p) == Handled(sv.(open := false), Encode(Packet(-1, 2, [])))
    ensures p.ptype == 3 && p.payload == sv.password ==>
              Handle(sv, p) == Handled(sv.(authenticated := true), Encode(Packet(p.id, 2, [])))
  {
  }

  datatype Turn = Turn(server: Server, unread: bytes, output: bytes)

  /** The server's turn: it answers every packet that has fully arrived, until it hangs up. */
  function Serve(sv: Server, input: bytes): Turn
    decreases |input|
  {
    if !sv.open then Turn(sv, input, [])
    else
      match DecodeServer(input)
      case Err(ShortRead) => Turn(sv, input, [])
      case Err(_) => Turn(sv.(open := false), input, [])
      case Ok(Reading(p, rest)) =>
        var h := Handle(sv, p);
        var later := Serve(h.server, rest);
        later.(output := h.reply + later.output)
  }

  /** Whether a whole packet has arrived, so that reading it does not block. */
  predicate Complete(s: bytes) {
    |s| >= 4 && |s| >= 4 + GetU32LE(s[..4])
  }

  lemma ServeUnfolds(sv: Server, input: bytes)
    ensures !sv.open || !Complete(input) ==> Serve(sv, input) == Turn(sv, input, [])
    ensures sv.open && Complete(input) && DecodeServer(input).Err? ==>
              Serve(sv, input) == Turn(sv.(open := false), input, [])
    ensures sv.open && Complete(input) && DecodeServer(input).Ok? ==>
              && |DecodeServer(input).value.rest| < |input|
              && var h := Handle(sv, DecodeServer(input).value.packet);
                 var later := Serve(h.server, DecodeServer(input).value.rest);
                 Serve(sv, input) == later.(output := h.reply + later.output)
  {
  }

  /** Bytes that come later do not change how a complete packet is read. */
  lemma DecodeExtends(a: bytes, b: bytes)
    requires Complete(a)
    ensures Complete(a + b)
    ensures DecodeServer(a).Err? ==> DecodeServer(a + b) == DecodeServer(a)
    ensures DecodeServer(a).Ok? ==>
              DecodeServer(a + b) == Ok(Reading(DecodeServer(a).value.packet, DecodeServer(a).value.rest + b))
  {
    hide GetU32LE, ParseBody;
    assert (a + b)[..4] == a[..4];
    var n := GetU32LE(a[..4]);
    assert (a + b)[4..4 + n] == a[4..4 + n];
    assert (a + b)[4 + n..] == a[4 + n..] + b;
  }

  /** How the network cuts the stream into reads does not matter: serving what has arrived and then the
      rest is serving it all at once. */
  lemma {:induction false} CutsDoNotMatter(sv: Server, a: bytes, b: bytes)
    ensures var first := Serve(sv, a);
            var second := Serve(first.server, first.unread + b);
            Serve(sv, a + b) == second.(output := first.output + second.output)
    decreases |a|
  {
    hide Handle, DecodeServer, Serve, Encode, HandleCmd, Complete;
    ServeUnfolds(sv, a);
    ServeUnfolds(sv, a + b);
    var first := Serve(sv, a);
    if sv.open && Complete(a) {
      DecodeExtends(a, b);
      if DecodeServer(a).Ok? {
        var r := DecodeServer(a).value;
        var h := Handle(sv, r.packet);
        CutsDoNotMatter(h.server, r.rest, b);
        var later := Serve(h.server, r.rest);
        var second := Serve(later.server, later.unread + b);
        assert (h.reply + later.output) + second.output == h.reply + (later.output + second.output);
      } else {
        ServeUnfolds(first.server, first.unread + b);
      }
    } else {
      assert [] + Serve(sv, a + b).output == Serve(sv, a + b).output;
    }
  }

  /** The first login or command that arrives; the server ignores every other packet. */
  function FirstRequest(input: bytes): Option<Packet>
    decreases |input|
  {
    match DecodeServer(input)
    case Err(_) => None
    case Ok(Reading(p, rest)) => if p.ptype == TYPE_LOGIN || p.ptype == TYPE_EXEC then Some(p) else FirstRequest(rest)
  }

  lemma Blocked(input: bytes)
    ensures !Complete(input) ==> DecodeServer(input).Err?
  {
  }

  lemma {:induction false} LoginLasts(sv: Server, input: bytes)
    requires sv.authenticated
    ensures Serve(sv, input).server.authenticated
    decreases |input|
  {
    hide DecodeServer, Serve, Encode, HandleCmd, Complete;
    ServeUnfolds(sv, input);
    if sv.open && Complete(input) && DecodeServer(input).Ok? {
      LoginLasts(Handle(sv, DecodeServer(input).value.packet).server, DecodeServer(input).value.rest);
    }
  }

  /** Over any bytes whatever, a session is authenticated exactly when its first login or command is a
      login with the server's password; without that no command takes effect and none is answered. */
  lemma {:induction false} PasswordComesFirstIff(sv: Server, input: bytes)
    requires sv.open && !sv.authenticated
    ensures Serve(sv, input).server.authenticated <==>
            FirstRequest(input).Some? && FirstRequest(input).value.ptype == 3
            && FirstRequest(input).value.payload == sv.password
    ensures !Serve(sv, input).server.authenticated ==>
              Serve(sv, input).server.stopped == sv.stopped
              && (Serve(sv, input).output == [] || Serve(sv, input).output == Encode(Packet(-1, 2, [])))
    decreases |input|
  {
    hide DecodeServer, Serve, Encode, HandleCmd, Complete;
    ServeUnfolds(sv, input);
    Blocked(input);
    if DecodeServer(input).Ok? {
      var r := DecodeServer(input).value;
      var h := Handle(sv, r.packet);
      ServeUnfolds(h.server, r.rest);
      if r.packet.ptype != TYPE_LOGIN && r.packet.ptype != TYPE_EXEC {
        PasswordComesFirstIff(sv, r.rest);
        assert [] + Serve(sv, r.rest).output == Serve(sv, r.rest).output;
      } else if h.server.authenticated {
        LoginLasts(h.server, r.rest);
      }
    }
  }

  // ---------- The client ----------

  /** Request ids count from 1 and wrap from 2^31-1 back to 1. */
  function NextId(id: int32): int32 {
    var bumped := ToI32((ToU32(id) + 1) % 0x1_0000_0000);
    if bumped <= 0 then 1 else bumped
  }

  datatype CmdError = Closed | TooLong | ReadFailed(e: ReadError) | IdMismatch | AuthFailed

  datatype Connection = Connection(lastId: int32, closed: bool, server: Server)

  datatype Reply = Reply(conn: Connection, result: Result<bytes, CmdError>)

  /** Writes a request, lets the server take its turn, reads the answer. */
  function Exchange(c: Connection, ptype: int32, payload: bytes): Reply
    requires |payload| <= 0x7FFF_FFFF - 14
  {
    var id := NextId(c.lastId);
    var turn := Serve(c.server, Encode(Packet(id, ptype, payload)));
    var c' := c.(lastId := id, server := turn.server);
    match Decode(turn.output)
    case Err(e) => Reply(c', Err(ReadFailed(e)))
    case Ok(r) =>
      Reply(c', if ptype == TYPE_LOGIN && r.packet.id == -1 then Err(AuthFailed)
                else if r.packet.id != id then Err(IdMismatch) else Ok(r.packet.payload))
  }

  function Authenticate(c: Connection, password: bytes): Reply
    requires |password| <= 0x7FFF_FFFF - 14
  {
    Exchange(c, TYPE_LOGIN, password)
  }

  function Command(c: Connection, command: bytes): Reply {
    if c.closed then Reply(c, Err(Closed))
    else if |command| > MAX_PAYLOAD then Reply(c, Err(TooLong))
    else Exchange(c, TYPE_EXEC, command)
  }

  /** A connection over which `Dial` has succeeded and whose server is up. */
  predicate Ready(c: Connection) {
    !c.closed && 0 <= c.lastId && c.server.open && c.server.authenticated
  }

  /** Ids are positive, change every time, and restart at 1 only after 2^31-1. */
  lemma IdsStayPositive(id: int32)
    requires 0 <= id
    ensures 1 <= NextId(id) && NextId(id) != id
    ensures NextId(id) == if id == 0x7FFF_FFFF then 1 else id + 1
  {
  }

  lemma ServeOne(sv: Server, p: Packet)
    requires sv.open && |p.payload| <= 0x7FFF_FFFF - 14
    ensures var h := Handle(sv, p.(payload := UpToNul(p.payload)));
            Serve(sv, Encode(p)) == Turn(h.server, [], h.reply)
  {
    assert Encode(p) + [] == Encode(p);
    ServerReadsBack(p, []);
    var h := Handle(sv, p.(payload := UpToNul(p.payload)));
    assert h.reply + [] == h.reply;
  }

  /** Authentication succeeds exactly when the password, cut at its first NUL, is the server's. */
  lemma AuthenticatesIff(c: Connection, password: bytes)
    requires !c.closed && 0 <= c.lastId && c.server.open && |password| <= 0x7FFF_FFFF - 14
    ensures Ready(Authenticate(c, password).conn) && Authenticate(c, password).result.Ok? <==>
            UpToNul(password) == c.server.password
    ensures UpToNul(password) != c.server.password ==>
              Authenticate(c, password).result == Err(AuthFailed) && !Authenticate(c, password).conn.server.open
  {
    hide Encode, Decode, Serve, HandleCmd;
    var id := NextId(c.lastId);
    var yes, no := Packet(id, TYPE_EXEC, []), Packet(-1, TYPE_EXEC, []);
    ServeOne(c.server, Packet(id, TYPE_LOGIN, password));
    ReadsBackIff(yes, []);
    ReadsBackIff(no, []);
    assert Encode(yes) + [] == Encode(yes) && Encode(no) + [] == Encode(no);
  }

  /** The two packets of one command on the wire. */
  lemma CommandOnTheWire(c: Connection, command: bytes)
    requires Ready(c) && |command| <= 1413
    ensures var id, heard := NextId(c.lastId), UpToNul(command);
            var answer := Packet(id, 0, HandleCmd(heard));
            && |answer.payload| <= 4086
            && Serve(c.server, Encode(Packet(id, 2, command)))
               == Turn(c.server.(stopped := c.server.stopped || heard == Ascii("stop")), [], Encode(answer))
            && Decode(Encode(answer)) == Ok(Reading(answer, []))
  {
    hide Encode, Decode, HandleCmd, Ascii;
    var id, heard := NextId(c.lastId), UpToNul(command);
    AnswersFit(heard);
    var answer := Packet(id, TYPE_RESPONSE, HandleCmd(heard));
    ServeOne(c.server, Packet(id, TYPE_EXEC, command));
    ReadsBackIff(answer, []);
    assert Encode(answer) + [] == Encode(answer);
  }

  /** One call: the answer comes back, and the server has not closed the connection by then. */
  lemma CmdAnswers(c: Connection, command: bytes)
    requires Ready(c)
    ensures Ready(Command(c, command).conn)
    ensures Command(c, command).result ==
            if |command| > MAX_PAYLOAD then Err(TooLong) else Ok(HandleCmd(UpToNul(command)))
    ensures |command| <= MAX_PAYLOAD ==> Command(c, command).conn.lastId == NextId(c.lastId)
    ensures Command(c, command).conn.server.stopped <==>
            c.server.stopped || (|command| <= MAX_PAYLOAD && UpToNul(command) == Ascii("stop"))
  {
    hide Encode, Decode, HandleCmd, Serve, Ascii;
    if |command| <= MAX_PAYLOAD {
      CommandOnTheWire(c, command);
    }
  }

  /** From a server that has gone down there is no answer to a request. */
  lemma DownServerIsSilent(c: Connection, command: bytes)
    requires !c.closed && !c.server.open
    ensures Command(c, command).result == if |command| > MAX_PAYLOAD then Err(TooLong) else Err(ReadFailed(ShortRead))
    ensures Command(c, command).conn.server == c.server && !Command(c, command).conn.closed
  {
    hide Encode;
  }

  // ---------- Whole sessions ----------

  /** Once told to stop, the server process goes down, at a time of its own: `goes` says whether it has by
      the next call. */
  function MayGoDown(c: Connection, goes: bool): Connection {
    if goes && c.server.stopped then c.(server := c.server.(open := false)) else c
  }

  function Session(c: Connection, commands: seq<bytes>, goes: seq<bool>): (r: seq<Result<bytes, CmdError>>)
    requires |goes| == |commands|
    ensures |r| == |commands|
    decreases |commands|
  {
    if commands == [] then []
    else
      var first := Command(MayGoDown(c, goes[0]), commands[0]);
      [first.result] + Session(first.conn, commands[1..], goes[1..])
  }

  /** The answer to a command as the server reads it. */
  function Answer(command: bytes): Result<bytes, CmdError> {
    if |command| > MAX_PAYLOAD then Err(TooLong) else Ok(HandleCmd(UpToNul(command)))
  }

  predicate IsStop(command: bytes) {
    |command| <= MAX_PAYLOAD && UpToNul(command) == Ascii("stop")
  }

  lemma {:induction false} AnsweredUntilStop(c: Connection, commands: seq<bytes>, goes: seq<bool>, k: nat)
    requires Ready(c) && !c.server.stopped && |goes| == |commands| && k < |commands|
    requires forall j :: 0 <= j < k ==> !IsStop(commands[j])
    ensures Session(c, commands, goes)[k] == Answer(commands[k])
    decreases |commands|
  {
    hide HandleCmd, UpToNul, Command, Ascii;
    CmdAnswers(c, commands[0]);
    if k > 0 {
      assert !IsStop(commands[0]);
      AnsweredUntilStop(Command(c, commands[0]).conn, commands[1..], goes[1..], k - 1);
    }
  }

  lemma {:induction false} OverlongIsRefused(c: Connection, commands: seq<bytes>, goes: seq<bool>, k: nat)
    requires !c.closed && |goes| == |commands| && k < |commands| && |commands[k]| > MAX_PAYLOAD
    ensures Session(c, commands, goes)[k] == Err(TooLong)
    decreases |commands|
  {
    hide HandleCmd, UpToNul, Serve, Encode, Decode, Ascii;
    if k > 0 {
      OverlongIsRefused(Command(MayGoDown(c, goes[0]), commands[0]).conn, commands[1..], goes[1..], k - 1);
    }
  }

  lemma {:induction false} DownStaysDown(c: Connection, commands: seq<bytes>, goes: seq<bool>, k: nat)
    requires !c.closed && !c.server.open && |goes| == |commands| && k < |commands|
    ensures Session(c, commands, goes)[k].Err?
    decreases |commands|
  {
    hide HandleCmd, UpToNul, Command, Ascii;
    var here := MayGoDown(c, goes[0]);
    DownServerIsSilent(here, commands[0]);
    if k > 0 {
      DownStaysDown(Command(here, commands[0]).conn, commands[1..], goes[1..], k - 1);
    }
  }

  /** A server that goes down as soon as it may leaves everything after a stop unanswered. */
  lemma {:induction false} UnansweredAfterStop(c: Connection, commands: seq<bytes>, goes: seq<bool>, k: nat)
    requires Ready(c) && |goes| == |commands| && k < |commands| && forall j :: 0 <= j < |goes| ==> goes[j]
    requires c.server.stopped || exists j :: 0 <= j < k && IsStop(commands[j])
    ensures Session(c, commands, goes)[k].Err?
    decreases |commands|
  {
    hide HandleCmd, UpToNul, Command, Ascii;
    if c.server.stopped {
      DownStaysDown(MayGoDown(c, true), commands, goes, k);
      assert MayGoDown(MayGoDown(c, true), goes[0]) == MayGoDown(c, goes[0]);
    } else {
      CmdAnswers(c, commands[0]);
      var j :| 0 <= j < k && IsStop(commands[j]);
      if j > 0 {
        assert IsStop(commands[1..][j - 1]);
      }
      UnansweredAfterStop(Command(c, commands[0]).conn, commands[1..], goes[1..], k - 1);
    }
  }

  /** A whole session over one authenticated connection, from any request id, so across the wrap too. The
      k-th call is sure to return the answer to the k-th command, whenever the server goes down, exactly
      when no earlier command has told it to stop; an overlong command is refused in any case. */
  lemma SessionAnswersInOrderIff(c: Connection, commands: seq<bytes>, k: nat)
    requires Ready(c) && k < |commands|
    ensures (forall goes :: |goes| == |commands| ==> Session(c, commands, goes)[k] == Answer(commands[k])) <==>
            |commands[k]| > 1413 || (!c.server.stopped && forall j :: 0 <= j < k ==> !IsStop(commands[j]))
  {
    hide HandleCmd, UpToNul, Command, Session, IsStop, Ascii;
    if |commands[k]| > MAX_PAYLOAD {
      forall goes: seq<bool> | |goes| == |commands|
        ensures Session(c, commands, goes)[k] == Answer(commands[k])
      {
        OverlongIsRefused(c, commands, goes, k);
      }
    } else if !c.server.stopped && forall j :: 0 <= j < k ==> !IsStop(commands[j]) {
      forall goes: seq<bool> | |goes| == |commands|
        ensures Session(c, commands, goes)[k] == Answer(commands[k])
      {
        AnsweredUntilStop(c, commands, goes, k);
      }
    } else {
      var atOnce := seq(|commands|, _ => true);
      UnansweredAfterStop(c, commands, atOnce, k);
      assert Session(c, commands, atOnce)[k] != Answer(commands[k]);
    }
  }

  // ---------- The code ----------

  class FakeServer {
    const password: bytes
    var authenticated: bool
    var stopped: bool
    var open: bool

    constructor (password: bytes)
      ensures View() == Server(password, false, false, true)
    {
      this.password := password;
      authenticated, stopped, open := false, false, true;
    }

    function View(): Server
      reads this
    {
      Server(password, authenticated, stopped, open)
    }

    /** The process ends, which it does some time after a stop command and not before one. */
    method GoDown()
      requires stopped
      modifies this
      ensures View() == old(View()).(open := false)
    {
      open := false;
    }

    method HandlePacket(p: Packet, output: Stream)
      modifies this, output
      ensures View() == Handle(old(View()), p).server
      ensures output.data == old(output.data) + Handle(old(View()), p).reply
    {
      if p.ptype == TYPE_LOGIN {
        if p.payload == password {
          authenticated := true;
          WritePacket(output, Packet(p.id, TYPE_EXEC, []));
        } else {
          WritePacket(output, Packet(-1, TYPE_EXEC, []));
          open := false;
        }
      } else if p.ptype == TYPE_EXEC {
        var answer := HandleCmd(p.payload);
        if !authenticated || |answer| > 0x7FFF_FFFF - 14 {
          open := false;
          return;
        }
        if p.payload == Ascii("stop") {
          stopped := true;
        }
        WritePacket(output, Packet(p.id, TYPE_RESPONSE, answer));
      }
    }

    /** The connection loop, run until it would block on an incomplete packet or has hung up. */
    method ServeRcon(input: Stream, output: Stream)
      requires input != output
      modifies this, input, output
      ensures var turn := Serve(old(View()), old(input.data));
              View() == turn.server && output.data == old(output.data) + turn.output
      ensures View().open ==> input.data == Serve(old(View()), old(input.data)).unread
    {
      hide Handle, DecodeServer, Serve, Encode, HandleCmd, Complete;
      ghost var goal, start := Serve(View(), input.data), output.data;
      ghost var sent: bytes := [];
      while open
        invariant output.data == start + sent
        invariant var later := Serve(View(), input.data); goal == later.(output := sent + later.output)
        decreases |input.data|, open
      {
        ServeUnfolds(View(), input.data);
        if !Complete(input.data) {
          assert sent + [] == sent;
          break;
        }
        ghost var h := if DecodeServer(input.data).Ok? then Handle(View(), DecodeServer(input.data).value.packet)
                       else Handled(View(), []);
        var r := ReadPacket(input, false);
        if r.Err? {
          open := false;
          assert sent + [] == sent;
          break;
        }
        HandlePacket(r.value, output);
        ghost var later := Serve(View(), input.data);
        assert sent + (h.reply + later.output) == (sent + h.reply) + later.output;
        sent := sent + h.reply;
      }
      ServeUnfolds(View(), input.data);
      assert sent + [] == sent;
    }
  }

  class Client {
    var id: int32
    var closed: bool
    const toServer: Stream
    const fromServer: Stream
    const server: FakeServer

    /** No bytes are left over from an earlier call, but for those a server that is down has not read. */
    ghost predicate Valid()
      reads this, toServer, fromServer, server
    {
      toServer != fromServer && (server.open ==> toServer.data == []) && fromServer.data == []
    }

    ghost function View(): Connection
      reads this, server
    {
      Connection(id, closed, server.View())
    }

    constructor (server: FakeServer)
      ensures this.server == server && Valid() && View() == Connection(0, false, server.View())
      ensures fresh(toServer) && fresh(fromServer)
    {
      id, closed := 0, false;
      this.server := server;
      toServer := new Stream();
      fromServer := new Stream();
    }

    method TakeId() returns (r: int32)
      modifies this`id
      ensures r == id == NextId(old(id))
    {
      id := ToI32((ToU32(id) + 1) % 0x1_0000_0000);
      if id <= 0 {
        id := 1;
      }
      r := id;
    }

    /** One command; the server takes its turn between the write and the read. */
    method Cmd(command: bytes) returns (r: Result<bytes, CmdError>)
      requires Valid()
      modifies this`id, server, toServer, fromServer
      ensures View() == Command(old(View()), command).conn
      ensures r == Command(old(View()), command).result
      ensures old(Ready(View())) ==> Valid() && Ready(View()) && r == Answer(command)
      ensures !old(closed) && !old(server.open) ==>
                Valid() && r == if |command| > MAX_PAYLOAD then Err(TooLong) else Err(ReadFailed(ShortRead))
    {
      hide Encode, Decode, HandleCmd, Serve, Ascii, DecodeServer, Complete;
      if Ready(View()) {
        CmdAnswers(View(), command);
      }
      if closed {
        return Err(Closed);
      }
      if |command| > MAX_PAYLOAD {
        return Err(TooLong);
      }
      if Ready(View()) {
        CommandOnTheWire(View(), command);
      }
      if !server.open {
        DownServerIsSilent(View(), command);
        ServeUnfolds(server.View(), Encode(Packet(NextId(id), TYPE_EXEC, command)));
        ServeUnfolds(server.View(), toServer.data + Encode(Packet(NextId(id), TYPE_EXEC, command)));
      }
      var mine := TakeId();
      ghost var request := Packet(mine, TYPE_EXEC, command);
      ghost var turn := Serve(server.View(), Encode(request));
      assert [] + Encode(request) == Encode(request) && [] + turn.output == turn.output;
      WritePacket(toServer, Packet(mine, TYPE_EXEC, command));
      server.ServeRcon(toServer, fromServer);
      var res := ReadPacket(fromServer, true);
      if res.Err? {
        return Err(ReadFailed(res.error));
      }
      if res.value.id != mine {
        return Err(IdMismatch);
      }
      return Ok(res.value.payload);
    }
  }
}
