/** Bytes, fixed-width integers, and the byte streams the protocol code reads and writes. */
module Wire {
  type byte = x: int | 0 <= x < 0x100
  type bytes = seq<byte>
  type int32 = x: int | -0x8000_0000 <= x < 0x8000_0000
  type uint32 = x: int | 0 <= x < 0x1_0000_0000

  /** Go's conversions between int32 and uint32: the same 32 bits. */
  function ToU32(x: int32): uint32 { if x < 0 then x + 0x1_0000_0000 else x }

  function ToI32(u: uint32): int32 { if u < 0x8000_0000 then u else u - 0x1_0000_0000 }

  function PutU32LE(u: uint32): (b: bytes)
    ensures |b| == 4
  {
    [u % 0x100, u / 0x100 % 0x100, u / 0x1_0000 % 0x100, u / 0x100_0000]
  }

  function GetU32LE(b: bytes): uint32
    requires |b| == 4
  {
    var b0: int, b1: int, b2: int, b3: int := b[0], b[1], b[2], b[3];
    b0 + 0x100 * b1 + 0x1_0000 * b2 + 0x100_0000 * b3
  }

  lemma U32RoundTrip(u: uint32)
    ensures GetU32LE(PutU32LE(u)) == u
  {
    var q1, q2, q3 := u / 0x100, u / 0x1_0000, u / 0x100_0000;
    assert q2 == q1 / 0x100 && q3 == q2 / 0x100;
    assert u == 0x100 * q1 + u % 0x100 && q1 == 0x100 * q2 + q1 % 0x100 && q2 == 0x100 * q3 + q2 % 0x100;
  }

  /** The number that bytes stand for, the least significant first. */
  function Value(b: bytes): nat {
    if b == [] then 0 else b[0] + 0x100 * Value(b[1..])
  }

  lemma FourBytes(b: bytes)
    requires |b| == 4
    ensures var b0: int, b1: int, b2: int, b3: int := b[0], b[1], b[2], b[3];
            Value(b) == b0 + 0x100 * b1 + 0x1_0000 * b2 + 0x100_0000 * b3
  {
    assert b[1..][1..] == b[2..] && b[2..][1..] == b[3..] && b[3..][1..] == [];
    assert Value(b[3..]) == b[3];
    assert Value(b[2..]) == b[2] + 0x100 * Value(b[3..]);
    assert Value(b[1..]) == b[1] + 0x100 * Value(b[2..]);
  }

  lemma LittleEndian(u: uint32, b: bytes)
    requires |b| == 4
    ensures Value(PutU32LE(u)) == u
    ensures GetU32LE(b) == Value(b)
  {
    U32RoundTrip(u);
    FourBytes(PutU32LE(u));
    FourBytes(b);
  }

  /** The conversions keep the number modulo 2 to the 32. */
  lemma TwosComplement(x: int32, u: uint32)
    ensures ToU32(x) == x % 0x1_0000_0000 && ToI32(u) % 0x1_0000_0000 == u
    ensures ToI32(ToU32(x)) == x && ToU32(ToI32(u)) == u
  {
  }

  function Ascii(s: string): bytes {
    seq(|s|, i requires 0 <= i < |s| => s[i] as int % 0x100)
  }

  lemma AsciiHasNoNul(s: string)
    requires forall i :: 0 <= i < |s| ==> 0 < s[i] as int < 0x100
    ensures 0 !in Ascii(s) && |Ascii(s)| == |s| && forall i :: 0 <= i < |s| ==> Ascii(s)[i] == s[i] as int
  {
  }

  lemma DropTake(b: bytes, from: nat, n: nat)
    requires from <= |b|
    ensures from + n <= |b| ==> b[from..][..n] == b[from..from + n] && b[from..][n..] == b[from + n..]
  {
  }

  predicate HasPrefix(b: bytes, prefix: bytes) {
    prefix <= b
  }

  /** One direction of a connection. */
  class Stream {
    var data: bytes

    constructor ()
      ensures data == []
    {
      data := [];
    }

    method Write(b: bytes)
      modifies this
      ensures data == old(data) + b
    {
      data := data + b;
    }

    /** io.ReadFull: all `n` bytes, or what there is and an error. */
    method ReadFull(n: nat) returns (ok: bool, b: bytes)
      modifies this
      ensures ok <==> n <= |old(data)|
      ensures ok ==> b == old(data)[..n] && data == old(data)[n..]
      ensures !ok ==> data == []
    {
      ok := n <= |data|;
      if ok {
        b, data := data[..n], data[n..];
      } else {
        b, data := data, [];
      }
    }
  }
}
