/** The primitive reads of .NET `BinaryReader`, and the matching writes.

    A read takes the unread part of the stream and returns the value together with what is left
    after it; the stream position is the buffer length minus the length of what is left. Reading
    past the end is `Truncated`, the model of the `EndOfStreamException` the reader throws. */
module Wire {
  import opened Base

  /** The ways a decode can fail. */
  datatype DecodeError =
    | Truncated                               // EndOfStreamException: the buffer ended mid-read
    | BadVarInt                               // FormatException: 7-bit length prefix too long
    | NegativeLength                          // IOException: string length prefix is negative
    | Unrecognized(code: Byte, remaining: int) // UnrecognizedPacketException
    | VersionMismatch                         // VersionNotFoundException

  datatype Result<+T> = Ok(value: T) | Err(error: DecodeError) {
    predicate IsFailure() { Err? }

    function PropagateFailure<U>(): Result<U>
      requires Err?
    {
      Err(error)
    }

    function Extract(): T
      requires Ok?
    {
      value
    }
  }

  /** A value read from the stream and the part of the stream after it. */
  datatype Read<+T> = Read(value: T, rest: Bytes)

  function Pow256(n: nat): (r: nat)
    ensures r >= 1
  {
    if n == 0 then 1 else 256 * Pow256(n - 1)
  }

  function Pow128(k: nat): (r: nat)
    ensures r >= 1
  {
    if k == 0 then 1 else 128 * Pow128(k - 1)
  }

  /** The unsigned value of a little-endian byte string. */
  function LittleEndian(bs: Bytes): nat {
    if bs == [] then 0 else bs[0] + 256 * LittleEndian(bs[1..])
  }

  /** The `n` low-order bytes of `v`, least significant first. */
  function LittleEndianBytes(v: nat, n: nat): (bs: Bytes)
    ensures |bs| == n
  {
    if n == 0 then [] else [v % 256] + LittleEndianBytes(v / 256, n - 1)
  }

  /** The value of four little-endian bytes, spelled out. */
  lemma LittleEndian4(bs: Bytes)
    requires |bs| == 4
    ensures LittleEndian(bs) == bs[0] as int + 0x100 * bs[1] as int + 0x1_0000 * bs[2] as int + 0x100_0000 * bs[3] as int
  {
    var t1 := bs[1..];
    var t2 := t1[1..];
    var t3 := t2[1..];
    assert t3[1..] == [];
    assert LittleEndian(t3) == bs[3];
    assert LittleEndian(t2) == bs[2] as int + 256 * bs[3] as int;
    assert LittleEndian(t1) == bs[1] as int + 256 * (bs[2] as int + 256 * bs[3] as int);
  }

  lemma {:induction false} LittleEndianBound(bs: Bytes)
    ensures LittleEndian(bs) < Pow256(|bs|)
  {
    if bs != [] {
      LittleEndianBound(bs[1..]);
    }
  }

  /** Writing `n` little-endian bytes and reading them back gives the value, when it fits. */
  lemma {:induction false} LittleEndianRoundTrip(v: nat, n: nat)
    requires v < Pow256(n)
    ensures LittleEndian(LittleEndianBytes(v, n)) == v
  {
    if n > 0 {
      var bs := LittleEndianBytes(v, n);
      assert bs[1..] == LittleEndianBytes(v / 256, n - 1);
      LittleEndianRoundTrip(v / 256, n - 1);
    }
  }

  /** Reinterprets a 32-bit pattern as a two's-complement `Int32`. */
  function ToInt32(u: nat): (v: int)
    requires u < TwoTo32
    ensures IsInt32(v)
  {
    if u < TwoTo31 then u else u - TwoTo32
  }

  /** Reinterprets an `Int32` as its 32-bit pattern. */
  function FromInt32(v: int): (u: nat)
    requires IsInt32(v)
    ensures u < TwoTo32
    ensures ToInt32(u) == v
  {
    if v < 0 then v + TwoTo32 else v
  }

  /** `ReadByte`: one byte, or `Truncated` at the end of the stream. */
  function ReadByte(s: Bytes): (r: Result<Read<Byte>>)
    ensures r.Ok? <==> |s| >= 1
    ensures r.Ok? ==> r.value.rest == s[1..]
  {
    if |s| >= 1 then Ok(Read(s[0], s[1..])) else Err(Truncated)
  }

  /** `n` bytes read as a little-endian unsigned integer. */
  function ReadFixed(s: Bytes, n: nat): (r: Result<Read<nat>>)
    ensures r.Ok? <==> n <= |s|
    ensures r.Ok? ==> r.value.rest == s[n..] && r.value.value < Pow256(n)
    ensures r.Err? ==> r.error == Truncated
  {
    if n <= |s| then
      LittleEndianBound(s[..n]);
      Ok(Read(LittleEndian(s[..n]), s[n..]))
    else
      Err(Truncated)
  }

  /** `ReadUInt32`. */
  function ReadU32(s: Bytes): (r: Result<Read<nat>>)
    ensures r.Ok? <==> 4 <= |s|
    ensures r.Ok? ==> r.value.rest == s[4..] && r.value.value < TwoTo32
  {
    ReadFixed(s, 4)
  }

  /** `ReadUInt16`. */
  function ReadU16(s: Bytes): (r: Result<Read<nat>>)
    ensures r.Ok? <==> 2 <= |s|
    ensures r.Ok? ==> r.value.rest == s[2..] && r.value.value < TwoTo16
  {
    ReadFixed(s, 2)
  }

  /** `ReadInt32`: four bytes as a two's-complement little-endian integer. */
  function ReadI32(s: Bytes): (r: Result<Read<int>>)
    ensures r.Ok? <==> 4 <= |s|
    ensures r.Ok? ==> r.value.rest == s[4..] && IsInt32(r.value.value)
  {
    var u :- ReadFixed(s, 4);
    Ok(Read(ToInt32(u.value), u.rest))
  }

  /** `ReadBoolean`: one byte, true when it is not zero. */
  function ReadBool(s: Bytes): (r: Result<Read<bool>>)
    ensures r.Ok? <==> |s| >= 1
    ensures r.Ok? ==> r.value.rest == s[1..] && (r.value.value <==> s[0] != 0)
  {
    var b :- ReadByte(s);
    Ok(Read(b.value != 0, b.rest))
  }

  /** The loop of `Read7BitEncodedInt` from its `k`-th byte on, with `acc` the bits gathered so
      far. Each of the first four bytes gives 7 bits and ends the number when its high bit is
      clear; a fifth byte may only carry the 4 remaining bits of a 32-bit value. The bits of the
      bytes are disjoint, so the source's bitwise or is an addition here. */
  function ReadVarUInt(s: Bytes, k: nat, acc: nat): (r: Result<Read<nat>>)
    requires k <= 4 && acc < Pow128(k)
    ensures r.Ok? ==> |r.value.rest| < |s| && r.value.value < TwoTo32
    decreases 4 - k
  {
    if s == [] then Err(Truncated)
    else
      var b := s[0];
      if k == 4 then
        if b > 0x0F then Err(BadVarInt)
        else Ok(Read(acc + b * Pow128(4), s[1..]))
      else if b < 128 then
        DigitBelow(acc, b, k);
        PowBelow(k + 1);
        Ok(Read(acc + b * Pow128(k), s[1..]))
      else
        DigitBelow(acc, b - 128, k);
        ReadVarUInt(s[1..], k + 1, acc + (b - 128) * Pow128(k))
  }

  /** Adding a 7-bit digit in place `k` to a number below 128^k stays below 128^(k+1). */
  lemma DigitBelow(acc: nat, d: nat, k: nat)
    requires acc < Pow128(k) && d < 128
    ensures acc + d * Pow128(k) < Pow128(k + 1)
  {
    var p := Pow128(k);
    PlaceBelow(acc, d, p);
    MulMono(d + 1, 128, p);
  }

  /** A number below `p` plus `d` times `p` is below `d + 1` times `p`. */
  lemma {:induction false} PlaceBelow(acc: nat, d: nat, p: nat)
    requires acc < p
    ensures acc + d * p < (d + 1) * p
    decreases d
  {
    if d > 0 {
      PlaceBelow(acc, d - 1, p);
      assert d * p == (d - 1) * p + p;
      assert (d + 1) * p == d * p + p;
    }
  }

  /** 128^k stays below 2^32 for the at most four full bytes of a 7-bit prefix. */
  lemma PowBelow(k: nat)
    requires k <= 4
    ensures Pow128(k) <= Pow128(4) == 0x1000_0000
  {
    assert Pow128(1) == 128;
    assert Pow128(2) == 0x4000;
    assert Pow128(3) == 0x20_0000;
  }

  /** What the 7-bit length reader leaves is a suffix of the stream. */
  lemma {:induction false} ReadVarUIntSuffix(s: Bytes, k: nat, acc: nat)
    requires k <= 4 && acc < Pow128(k)
    ensures var r := ReadVarUInt(s, k, acc);
            r.Ok? ==> r.value.rest == s[|s| - |r.value.rest|..]
    decreases 4 - k
  {
    if s != [] && k < 4 && s[0] >= 128 {
      DigitBelow(acc, s[0] - 128, k);
      ReadVarUIntSuffix(s[1..], k + 1, acc + (s[0] - 128) * Pow128(k));
    }
  }

  /** `Read7BitEncodedInt`. */
  function Read7BitInt(s: Bytes): (r: Result<Read<int>>)
    ensures r.Ok? ==> |r.value.rest| < |s| && IsInt32(r.value.value)
    ensures r.Ok? ==> r.value.rest == s[|s| - |r.value.rest|..]
  {
    ReadVarUIntSuffix(s, 0, 0);
    var u :- ReadVarUInt(s, 0, 0);
    Ok(Read(ToInt32(u.value), u.rest))
  }

  /** `ReadString`: a 7-bit encoded length, then that many bytes. The string is the bytes just
      before what is left of the stream. */
  function ReadString(s: Bytes): (r: Result<Read<Bytes>>)
    ensures r.Ok? ==> |r.value.value| + |r.value.rest| < |s|
    ensures r.Ok? ==> s[|s| - |r.value.value| - |r.value.rest|..] == r.value.value + r.value.rest
    ensures r.Ok? ==> r.value.rest == s[|s| - |r.value.rest|..]
  {
    var n :- Read7BitInt(s);
    if n.value < 0 then Err(NegativeLength)
    else if n.value > |n.rest| then Err(Truncated)
    else
      assert n.rest[..n.value] + n.rest[n.value..] == n.rest;
      SuffixOfSuffix(s, n.rest, n.rest[n.value..]);
      Ok(Read(n.rest[..n.value], n.rest[n.value..]))
  }

  /** `Write7BitEncodedInt` for a non-negative length. */
  function WriteVarUInt(n: nat): (bs: Bytes)
    ensures |bs| >= 1
    decreases n
  {
    if n < 128 then [n] else [n % 128 + 128] + WriteVarUInt(n / 128)
  }

  function WriteU32(v: nat): Bytes
    requires v < TwoTo32
  {
    LittleEndianBytes(v, 4)
  }

  function WriteU16(v: nat): Bytes
    requires v < TwoTo16
  {
    LittleEndianBytes(v, 2)
  }

  function WriteI32(v: int): Bytes
    requires IsInt32(v)
  {
    LittleEndianBytes(FromInt32(v), 4)
  }

  function WriteBool(b: bool): Bytes {
    if b then [1] else [0]
  }

  /** `Write(string)`: the length prefix, then the bytes. */
  function WriteString(s: Bytes): Bytes {
    WriteVarUInt(|s|) + s
  }

  /** A string the reader can take back: its length fits a positive `Int32`. */
  predicate EncodableString(s: Bytes) {
    |s| < TwoTo31
  }

  lemma ReadFixedWrite(v: nat, n: nat, rest: Bytes)
    requires v < Pow256(n)
    ensures ReadFixed(LittleEndianBytes(v, n) + rest, n) == Ok(Read(v, rest))
  {
    var s := LittleEndianBytes(v, n) + rest;
    assert s[..n] == LittleEndianBytes(v, n);
    assert s[n..] == rest;
    LittleEndianRoundTrip(v, n);
  }

  lemma ReadU32Write(v: nat, rest: Bytes)
    requires v < TwoTo32
    ensures ReadU32(WriteU32(v) + rest) == Ok(Read(v, rest))
  {
    ReadFixedWrite(v, 4, rest);
  }

  lemma ReadU16Write(v: nat, rest: Bytes)
    requires v < TwoTo16
    ensures ReadU16(WriteU16(v) + rest) == Ok(Read(v, rest))
  {
    ReadFixedWrite(v, 2, rest);
  }

  lemma ReadI32Write(v: int, rest: Bytes)
    requires IsInt32(v)
    ensures ReadI32(WriteI32(v) + rest) == Ok(Read(v, rest))
  {
    ReadFixedWrite(FromInt32(v), 4, rest);
  }

  lemma ReadBoolWrite(b: bool, rest: Bytes)
    ensures ReadBool(WriteBool(b) + rest) == Ok(Read(b, rest))
  {
    assert (WriteBool(b) + rest)[1..] == rest;
  }

  lemma MulMono(a: nat, b: nat, c: nat)
    requires a <= b
    ensures a * c <= b * c
  {
  }

  lemma MulAssoc(a: nat, b: nat, c: nat)
    ensures a * (b * c) == (a * b) * c
  {
  }

  lemma MulDistrib(a: nat, b: nat, c: nat)
    ensures (a + b) * c == a * c + b * c
  {
  }

  /** The arithmetic of one continuation byte: its low 7 bits join the gathered value and the
      rest of the number moves one 7-bit digit up. */
  lemma VarUIntDigit(k: nat, acc: nat, m: nat)
    requires k < 4 && acc < Pow128(k) && m * Pow128(k) < TwoTo31
    ensures acc + (m % 128) * Pow128(k) < Pow128(k + 1)
    ensures (m / 128) * Pow128(k + 1) <= m * Pow128(k)
    ensures acc + (m % 128) * Pow128(k) + (m / 128) * Pow128(k + 1) == acc + m * Pow128(k)
  {
    var P := Pow128(k);
    var q, r := m / 128, m % 128;
    assert m == q * 128 + r;
    assert Pow128(k + 1) == 128 * P;
    MulMono(r, 127, P);
    MulAssoc(q, 128, P);
    MulMono(q * 128, m, P);
    MulDistrib(r, q * 128, P);
  }

  /** After four full bytes only a single byte of at most 4 bits fits below 2^31. */
  lemma VarUIntLastDigit(m: nat)
    requires m * Pow128(4) < TwoTo31
    ensures m <= 0x0F
  {
    PowBelow(4);
  }

  /** The 7-bit reader, entered at byte `k` with `acc` gathered, takes back a written prefix of
      `m` whenever the whole number stays below 2^31. */
  lemma {:induction false} ReadVarUIntWrite(k: nat, acc: nat, m: nat, rest: Bytes)
    requires k <= 4 && acc < Pow128(k) && m * Pow128(k) < TwoTo31
    ensures ReadVarUInt(WriteVarUInt(m) + rest, k, acc) == Ok(Read(acc + m * Pow128(k), rest))
    decreases m
  {
    var s := WriteVarUInt(m) + rest;
    if m < 128 {
      assert s[0] == m && s[1..] == rest;
      if k == 4 {
        VarUIntLastDigit(m);
      }
    } else {
      var tail := WriteVarUInt(m / 128);
      ConsAppend([m % 128 + 128] + tail, rest);
      if k == 4 {
        VarUIntLastDigit(m);
        assert false;
      }
      VarUIntDigit(k, acc, m);
      ReadVarUIntWrite(k + 1, acc + (m % 128) * Pow128(k), m / 128, rest);
    }
  }

  /** Reading a written string gives the string back and leaves the rest of the stream. */
  lemma ReadStringWrite(s: Bytes, rest: Bytes)
    requires EncodableString(s)
    ensures ReadString(WriteString(s) + rest) == Ok(Read(s, rest))
  {
    assert WriteString(s) + rest == WriteVarUInt(|s|) + (s + rest);
    ReadVarUIntWrite(0, 0, |s|, s + rest);
    assert (s + rest)[..|s|] == s && (s + rest)[|s|..] == rest;
  }
}
