/** Minecraft's VarInt: unsigned LEB128 of the 32-bit pattern of an int32 (section 7.6 of DWARF 5). */
module VarInt {
  import opened Prelude
  import opened Wire

  function EncodeU(u: uint32): (b: bytes)
    ensures |b| >= 1
  {
    if u < 0x80 then [u] else [u % 0x80 + 0x80] + EncodeU(u / 0x80)
  }

  function Encode(v: int32): bytes {
    EncodeU(ToU32(v))
  }

  datatype DecodeError = Eof | TooLong

  datatype Decoded = Decoded(value: int32, used: nat)

  /** 2 to the 7i: what the i-th group of seven bits counts for. */
  function Weight(i: nat): int
    requires i <= 4
  {
    [1, 0x80, 0x4000, 0x20_0000, 0x1000_0000][i]
  }

  /** The low seven bits of `b` put in as group `i`; of the fifth group only four bits fit 32. */
  function AddGroup(num: uint32, b: byte, i: nat): (r: uint32)
    requires i <= 4 && num < Weight(i)
    ensures i < 4 ==> r < Weight(i + 1)
  {
    if i == 0 then b % 0x80
    else if i == 1 then num + b % 0x80 * 0x80
    else if i == 2 then num + b % 0x80 * 0x4000
    else if i == 3 then num + b % 0x80 * 0x20_0000
    else num + b % 0x10 * 0x1000_0000
  }

  /** Decoding when `i` groups have been read into `num`. */
  function DecodeFrom(s: bytes, i: nat, num: uint32): Result<Decoded, DecodeError>
    requires i <= 5 && (i <= 4 ==> num < Weight(i))
    decreases 5 - i
  {
    if i == 5 then Err(TooLong)
    else if i >= |s| then Err(Eof)
    else
      var num' := AddGroup(num, s[i], i);
      if s[i] < 0x80 then Ok(Decoded(ToI32(num'), i + 1)) else DecodeFrom(s, i + 1, num')
  }

  function Decode(s: bytes): Result<Decoded, DecodeError> {
    DecodeFrom(s, 0, 0)
  }

  /** The source's shifts and masks, on 32-bit words, are the arithmetic used here. */
  lemma BitsAreArithmetic(u: bv32, acc: bv32)
    ensures (u & !0x7F) == 0 <==> u < 0x80
    ensures ((u & 0x7F) | 0x80) == u % 0x80 + 0x80 && (u >> 7) == u / 0x80 && (u & 0x7F) == u % 0x80
    ensures acc < 0x80 ==> (acc | ((u & 0x7F) << 7)) == acc + (u & 0x7F) * 0x80
    ensures acc < 0x4000 ==> (acc | ((u & 0x7F) << 14)) == acc + (u & 0x7F) * 0x4000
    ensures acc < 0x20_0000 ==> (acc | ((u & 0x7F) << 21)) == acc + (u & 0x7F) * 0x20_0000
    ensures acc < 0x1000_0000 ==> (acc | ((u & 0x7F) << 28)) == acc + (u & 0xF) * 0x1000_0000
    ensures (u & 0xF) == u % 0x10
  {
  }

  // ---------- Round trip ----------

  /** Adding the lowest base-128 digit of what remains leaves the same total. */
  lemma GroupIsDigit(num: uint32, r: uint32, i: nat)
    requires i <= 4 && num < Weight(i) && num + Weight(i) * r < 0x1_0000_0000
    ensures r < 0x80 ==> AddGroup(num, r, i) == num + Weight(i) * r
    ensures r >= 0x80 ==> i < 4 && AddGroup(num, r % 0x80 + 0x80, i) + Weight(i + 1) * (r / 0x80) == num + Weight(i) * r
  {
  }

  lemma {:induction false} DecodesRest(pre: bytes, r: uint32, tail: bytes, num: uint32)
    requires |pre| <= 4 && num < Weight(|pre|) && num + Weight(|pre|) * r < 0x1_0000_0000
    ensures DecodeFrom(pre + EncodeU(r) + tail, |pre|, num)
         == Ok(Decoded(ToI32(num + Weight(|pre|) * r), |pre| + |EncodeU(r)|))
    ensures |pre| + |EncodeU(r)| <= 5
    decreases r
  {
    hide Weight, AddGroup;
    var i := |pre|;
    var s := pre + EncodeU(r) + tail;
    assert s[i] == EncodeU(r)[0];
    GroupIsDigit(num, r, i);
    if r >= 0x80 {
      var low := r % 0x80 + 0x80;
      DecodesRest(pre + [low], r / 0x80, tail, AddGroup(num, low, i));
      assert s == pre + [low] + EncodeU(r / 0x80) + tail;
    }
  }

  /** Any int32, followed by anything, decodes to itself and consumes exactly its 1 to 5 bytes. */
  lemma RoundTrip(v: int32, tail: bytes)
    ensures Decode(Encode(v) + tail) == Ok(Decoded(v, |Encode(v)|))
    ensures 1 <= |Encode(v)| <= 5
  {
    DecodesRest([], ToU32(v), tail, 0);
    assert [] + EncodeU(ToU32(v)) + tail == Encode(v) + tail;
  }

  // ---------- Shortest ----------

  lemma TopGroup(num: uint32, b: byte, i: nat)
    requires i <= 4 && num < Weight(i)
    ensures ToU32(ToI32(AddGroup(num, b, i))) == AddGroup(num, b, i)
    ensures i < 4 ==> AddGroup(num, b, i) < Weight(i + 1)
  {
  }

  lemma {:induction false} DecodedSize(s: bytes, i: nat, num: uint32)
    requires i <= 5 && (i <= 4 ==> num < Weight(i))
    ensures DecodeFrom(s, i, num).Ok? ==>
              var d := DecodeFrom(s, i, num).value;
              i < d.used <= 5 && (d.used <= 4 ==> ToU32(d.value) < Weight(d.used))
    decreases 5 - i
  {
    if i < 5 && i < |s| {
      hide Weight;
      TopGroup(num, s[i], i);
      if s[i] >= 0x80 {
        DecodedSize(s, i + 1, AddGroup(num, s[i], i));
      }
    }
  }

  lemma {:induction false} EncodedSize(u: uint32, n: nat)
    requires 1 <= n <= 5 && (n <= 4 ==> u < Weight(n))
    ensures |EncodeU(u)| <= n
    decreases n
  {
    if u >= 0x80 {
      EncodedSize(u / 0x80, n - 1);
    }
  }

  // ---------- LEB128 ----------

  /** The number that groups of seven bits stand for, the least significant first. */
  function Leb(b: bytes): nat {
    if b == [] then 0 else b[0] % 0x80 + 0x80 * Leb(b[1..])
  }

  /** All bytes but the last have the high bit set. */
  predicate IsLeb(b: bytes) {
    b != [] && b[|b| - 1] < 0x80 && forall i :: 0 <= i < |b| - 1 ==> b[i] >= 0x80
  }

  lemma LebCons(x: byte, b: bytes)
    requires IsLeb(b) && x >= 0x80
    ensures IsLeb([x] + b) && Leb([x] + b) == x % 0x80 + 0x80 * Leb(b)
  {
    assert ([x] + b)[1..] == b;
    assert forall i :: 1 <= i < |[x] + b| ==> ([x] + b)[i] == b[i - 1];
  }

  lemma {:induction false} EncodedIsLeb(u: uint32)
    ensures IsLeb(EncodeU(u)) && Leb(EncodeU(u)) == u
  {
    var b := EncodeU(u);
    if u < 0x80 {
      assert b[1..] == [];
    } else {
      hide IsLeb, Leb;
      EncodedIsLeb(u / 0x80);
      LebCons(u % 0x80 + 0x80, EncodeU(u / 0x80));
    }
  }

  /** The encoding is the LEB128 form of the 32-bit pattern. */
  lemma EncodingIsLeb(v: int32)
    ensures IsLeb(Encode(v)) && Leb(Encode(v)) == v % 0x1_0000_0000
  {
    TwosComplement(v, 0);
    EncodedIsLeb(ToU32(v));
  }

  lemma {:induction false} LebSnoc(b: bytes, x: byte)
    requires |b| <= 4
    ensures Leb(b + [x]) == Leb(b) + x % 0x80 * Weight(|b|)
  {
    if b == [] {
      assert [] + [x] == [x] && [x][1..] == [];
    } else {
      assert (b + [x])[1..] == b[1..] + [x];
      LebSnoc(b[1..], x);
    }
  }

  lemma GroupSum(num: uint32, b: byte, i: nat)
    requires i <= 4 && num < Weight(i)
    ensures AddGroup(num, b, i) == (num + b % 0x80 * Weight(i)) % 0x1_0000_0000
  {
  }

  /** What decoding finds after `i` groups that all ask for more. */
  lemma {:induction false} DecodesFromLeb(s: bytes, i: nat, num: uint32)
    requires i <= 5 && i <= |s| && (i <= 4 ==> num < Weight(i) && num == Leb(s[..i]))
    requires forall j :: 0 <= j < i ==> s[j] >= 0x80
    ensures match DecodeFrom(s, i, num)
            case Ok(d) => i < d.used <= 5 && d.used <= |s| && IsLeb(s[..d.used])
                          && d.value % 0x1_0000_0000 == Leb(s[..d.used]) % 0x1_0000_0000
            case Err(e) => (forall n :: 1 <= n <= 5 && n <= |s| ==> !IsLeb(s[..n]))
                           && (e == TooLong <==> |s| >= 5)
    decreases 5 - i
  {
    if i < 5 && i < |s| {
      assert s[..i + 1] == s[..i] + [s[i]];
      LebSnoc(s[..i], s[i]);
      var num' := AddGroup(num, s[i], i);
      GroupSum(num, s[i], i);
      TwosComplement(0, num');
      if s[i] >= 0x80 {
        DecodesFromLeb(s, i + 1, num');
      }
    } else {
      forall n | 1 <= n <= 5 && n <= |s|
        ensures !IsLeb(s[..n])
      {
        assert s[..n][n - 1] == s[n - 1] >= 0x80;
      }
    }
  }

  /** Decoding is reading the LEB128 number at the front, of at most five bytes, modulo 2 to the 32; it fails
      exactly when there is none, for five bytes without an end as too long and otherwise for want of bytes. */
  lemma DecodingIsLeb(s: bytes)
    ensures match Decode(s)
            case Ok(d) => 1 <= d.used <= 5 && d.used <= |s| && IsLeb(s[..d.used])
                          && d.value % 0x1_0000_0000 == Leb(s[..d.used]) % 0x1_0000_0000
            case Err(e) => (forall n :: 1 <= n <= 5 && n <= |s| ==> !IsLeb(s[..n]))
                           && (e == TooLong <==> |s| >= 5)
  {
    assert s[..0] == [];
    DecodesFromLeb(s, 0, 0);
  }

  // ---------- The code ----------

  lemma {:induction false} UsedFits(s: bytes, i: nat, num: uint32)
    requires i <= 5 && (i <= 4 ==> num < Weight(i))
    ensures DecodeFrom(s, i, num).Ok? ==> DecodeFrom(s, i, num).value.used <= |s|
    decreases 5 - i
  {
    if i < 5 && i < |s| && s[i] >= 0x80 {
      UsedFits(s, i + 1, AddGroup(num, s[i], i));
    }
  }

  /** The encoding is the shortest possible: nothing that decodes to `v` consumes fewer bytes. */
  lemma EncodingIsShortest(s: bytes)
    ensures Decode(s).Ok? ==> |Encode(Decode(s).value.value)| <= Decode(s).value.used <= |s|
  {
    DecodedSize(s, 0, 0);
    if Decode(s).Ok? {
      var d := Decode(s).value;
      EncodedSize(ToU32(d.value), d.used);
      UsedFits(s, 0, 0);
    }
  }

  // ---------- The code ----------

  method WriteVarInt(v: int32) returns (out: bytes)
    ensures out == Encode(v)
  {
    out := [];
    var uv := ToU32(v);
    while true
      invariant out + EncodeU(uv) == Encode(v)
      decreases uv
    {
      if uv < 0x80 {
        return out + [uv];
      }
      out := out + [uv % 0x80 + 0x80];
      uv := uv / 0x80;
    }
  }

  /** How many bytes a decoding attempt takes off the front, failed ones included. */
  function Taken(s: bytes): (n: nat)
    ensures n <= |s|
  {
    UsedFits(s, 0, 0);
    match Decode(s)
    case Ok(d) => d.used
    case Err(_) => if |s| < 5 then |s| else 5
  }

  method ReadVarInt(r: Stream) returns (res: Result<int32, DecodeError>)
    modifies r
    ensures match Decode(old(r.data))
            case Ok(d) => res == Ok(d.value)
            case Err(e) => res == Err(e)
    ensures r.data == old(r.data)[Taken(old(r.data))..]
  {
    ghost var s := r.data;
    var num: uint32 := 0;
    for i := 0 to 5
      invariant i <= |s| && r.data == s[i..]
      invariant i <= 4 ==> num < Weight(i)
      invariant Decode(s) == DecodeFrom(s, i, num)
    {
      var ok, buf := r.ReadFull(1);
      if !ok {
        return Err(Eof);
      }
      var b := buf[0];
      num := AddGroup(num, b, i);
      if b < 0x80 {
        return Ok(ToI32(num));
      }
    }
    return Err(TooLong);
  }

  class ByteReader {
    const buf: bytes
    var pos: nat

    constructor (buf: bytes)
      ensures this.buf == buf && pos == 0
    {
      this.buf := buf;
      pos := 0;
    }

    /** The same decoding as `ReadVarInt`, on a buffer: same value or failure, same bytes taken. */
    method NextVarInt() returns (res: Result<int32, DecodeError>)
      requires pos <= |buf|
      modifies this
      ensures match Decode(buf[old(pos)..])
              case Ok(d) => res == Ok(d.value)
              case Err(e) => res == Err(e)
      ensures pos == old(pos) + Taken(buf[old(pos)..]) && pos <= |buf|
    {
      ghost var s, start := buf[pos..], pos;
      var num: uint32 := 0;
      for i := 0 to 5
        invariant pos == start + i <= |buf|
        invariant i <= 4 ==> num < Weight(i)
        invariant Decode(s) == DecodeFrom(s, i, num)
      {
        if pos >= |buf| {
          return Err(Eof);
        }
        var c := buf[pos];
        pos := pos + 1;
        num := AddGroup(num, c, i);
        if c < 0x80 {
          return Ok(ToI32(num));
        }
      }
      return Err(TooLong);
    }
  }
}
