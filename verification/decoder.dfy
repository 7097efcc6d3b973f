/** `PacketHandler`: splits a receive buffer into length-prefixed frames and decodes each frame's
    body into a `Packet`; and the matching encoder, against which the decoder is proved.

    A frame is a little-endian `UInt32` size (the number of bytes after the size field), a one-byte
    type code and the body. The decoder keeps apart, as the source does, the stream (where reading
    goes on after the previous frame's body) and `skip` (`skipSize`), the sum of the declared frame
    sizes so far, which only decides whether another frame is read. `length` is `data.Length`. */
module Decoder {
  import opened Base
  import opened Wire
  import opened Packets

  /** The first four bytes of "GET " read as a little-endian `UInt32`. */
  const HttpMagic: nat := 542393671

  /** The `PacketType` codes of the three requests and `Constants.ProtocolVersion`. Their values
      are not part of this model: every property holds for any choice of distinct codes. */
  datatype Protocol = Protocol(requestId: Byte, setAlias: Byte, joinZone: Byte, version: int)

  predicate ValidProtocol(w: Protocol) {
    && w.requestId != w.setAlias
    && w.requestId != w.joinZone
    && w.setAlias != w.joinZone
    && IsInt32(w.version)
  }

  /** `HandleRequestId`: the protocol version, then the name, which the packet stores trimmed. */
  function ParseRequestId(w: Protocol, s: Bytes): (r: Result<Read<Packet>>)
    ensures r.Ok? ==> |r.value.rest| < |s| && r.value.value.RequestId?
    ensures r.Ok? ==> IsTrimmed(r.value.value.name)
    ensures r.Ok? ==> r.value.rest == s[|s| - |r.value.rest|..]
  {
    var version :- ReadI32(s);
    if version.value != w.version then Err(VersionMismatch)
    else
      var name :- ReadString(version.rest);
      Ok(Read(NewRequestId(name.value), name.rest))
  }

  /** `HandleRequestSetAlias`: one string, stored as read. The alias is the bytes just before
      what is left of the stream, after a length prefix of at least one byte. */
  function ParseSetAlias(s: Bytes): (r: Result<Read<Packet>>)
    ensures r.Ok? ==> r.value.value.SetAlias?
    ensures r.Ok? ==> |r.value.value.alias| + |r.value.rest| < |s|
    ensures r.Ok? ==> s[|s| - |r.value.value.alias| - |r.value.rest|..] == r.value.value.alias + r.value.rest
  {
    var alias :- ReadString(s);
    Ok(Read(SetAlias(alias.value), alias.rest))
  }

  /** `HandleRequestJoinChannel`: zone id, password, name, persistence flag, player limit. The
      body takes the 4 + 1 + 2 bytes of the fixed fields, a length prefix of at least one byte for
      each string, and the bytes of both strings. */
  function ParseJoinZone(s: Bytes): (r: Result<Read<Packet>>)
    ensures r.Ok? ==> r.value.value.JoinZone?
    ensures r.Ok? ==> IsInt32(r.value.value.request.id) && r.value.value.request.maxPlayers < TwoTo16
    ensures r.Ok? ==> |r.value.value.request.password| + |r.value.value.request.name| + 9 <= |s| - |r.value.rest|
  {
    var id :- ReadI32(s);
    var password :- ReadString(id.rest);
    var name :- ReadString(password.rest);
    var persistent :- ReadBool(name.rest);
    var maxPlayers :- ReadU16(persistent.rest);
    Ok(Read(JoinZone(JoinRequest(id.value, password.value, name.value, persistent.value, maxPlayers.value)),
            maxPlayers.rest))
  }

  /** The `switch` on the type code. An unknown code fails with the code and the number of bytes
      from `skipSize` to the end of the buffer. */
  function ParseBody(w: Protocol, code: Byte, s: Bytes, remaining: int): (r: Result<Read<Packet>>)
    ensures r.Ok? ==> |r.value.rest| < |s| && !r.value.value.HttpRequest?
    ensures r.Ok? ==> NameTrimmed(r.value.value)
    ensures code != w.requestId && code != w.setAlias && code != w.joinZone
            ==> r == Err(Unrecognized(code, remaining))
  {
    if code == w.requestId then ParseRequestId(w, s)
    else if code == w.setAlias then ParseSetAlias(s)
    else if code == w.joinZone then ParseJoinZone(s)
    else Err(Unrecognized(code, remaining))
  }

  /** One step of `Handle`: an HTTP probe, or a packet with the stream left after its body, the
      next `skipSize`, and whether the buffer reaches past the declared end of the frame. */
  datatype Frame = Probe | Frame(packet: Packet, rest: Bytes, skip: nat, more: bool)

  function ReadFrame(w: Protocol, length: int, s: Bytes, skip: nat): (r: Result<Frame>)
    requires skip < TwoTo32
    ensures r.Ok? && r.value.Frame? ==> |r.value.rest| + 5 < |s| + 1
    ensures r.Ok? && r.value.Frame? ==> r.value.skip < TwoTo32 && !r.value.packet.HttpRequest?
    ensures r.Ok? && r.value.Frame? ==> NameTrimmed(r.value.packet)
  {
    var size :- ReadU32(s);
    if size.value == HttpMagic then Ok(Probe)
    else
      var expected := AddU32(size.value, 4);
      var code :- ReadByte(size.rest);
      var body :- ParseBody(w, code.value, code.rest, length - skip);
      Ok(Frame(body.value, body.rest, AddU32(expected, skip), length - skip > expected))
  }

  /** `PacketHandler.Handle(data, skipSize)` with `s` the unread part of `data`. An exception
      anywhere, also in a later frame, discards the packets decoded so far. An HTTP probe can only
      be the last packet. */
  function Handle(w: Protocol, length: int, s: Bytes, skip: nat): (r: Result<seq<Packet>>)
    requires skip < TwoTo32
    ensures r.Ok? ==> |r.value| >= 1
    ensures r.Ok? ==> forall i :: 0 <= i < |r.value| - 1 ==> !r.value[i].HttpRequest?
    ensures r.Ok? ==> forall i :: 0 <= i < |r.value| ==> NameTrimmed(r.value[i])
    decreases |s|
  {
    var f :- ReadFrame(w, length, s, skip);
    match f
    case Probe => Ok([HttpRequest])
    case Frame(packet, rest, skip', more) =>
      if more then
        var tail :- Handle(w, length, rest, skip');
        Ok([packet] + tail)
      else
        Ok([packet])
  }

  /** `Handle` on the unread part `s` of a buffer of `length` bytes, with `skipSize` at the start
      of `s`: the case in which the declared sizes so far agree with the stream. */
  function HandleAligned(w: Protocol, length: nat, s: Bytes): Result<seq<Packet>>
    requires length < TwoTo32 && |s| <= length
  {
    Handle(w, length, s, SkipAt(length, s))
  }

  /** The `skipSize` that agrees with the stream when `s` is the unread part of a buffer of
      `length` bytes. */
  function SkipAt(length: nat, s: Bytes): (skip: nat)
    requires |s| <= length
    ensures skip + |s| == length
  {
    length - |s|
  }

  /** `Handle(data)` on a fresh stream. */
  function Decode(w: Protocol, buf: Bytes): Result<seq<Packet>> {
    Handle(w, |buf|, buf, 0)
  }

  // ---------------------------------------------------------------------------------------
  // Encoder

  /** A packet the encoder can write and the decoder take back unchanged. */
  predicate Encodable(p: Packet) {
    match p
    case HttpRequest => false
    case RequestId(name) => EncodableString(name) && IsTrimmed(name)
    case SetAlias(alias) => EncodableString(alias)
    case JoinZone(q) =>
      IsInt32(q.id) && EncodableString(q.password) && EncodableString(q.name) && q.maxPlayers < TwoTo16
  }

  function Code(w: Protocol, p: Packet): Byte
    requires !p.HttpRequest?
  {
    match p
    case RequestId(_) => w.requestId
    case SetAlias(_) => w.setAlias
    case JoinZone(_) => w.joinZone
  }

  /** The body of a frame after its type code. */
  function Fields(w: Protocol, p: Packet): Bytes
    requires ValidProtocol(w) && Encodable(p)
  {
    match p
    case RequestId(name) => WriteI32(w.version) + WriteString(name)
    case SetAlias(alias) => WriteString(alias)
    case JoinZone(q) =>
      WriteI32(q.id) + WriteString(q.password) + WriteString(q.name)
      + WriteBool(q.persistent) + WriteU16(q.maxPlayers)
  }

  /** A packet whose frame size fits a `UInt32` and does not read as "GET ". */
  predicate WellFormed(w: Protocol, p: Packet) {
    && ValidProtocol(w)
    && Encodable(p)
    && 1 + |Fields(w, p)| != HttpMagic
    && 1 + |Fields(w, p)| + 4 < TwoTo32
  }

  function EncodeFrame(w: Protocol, p: Packet): (bs: Bytes)
    requires WellFormed(w, p)
    ensures |bs| == 5 + |Fields(w, p)|
  {
    WriteU32(1 + |Fields(w, p)|) + [Code(w, p)] + Fields(w, p)
  }

  predicate AllWellFormed(w: Protocol, ps: seq<Packet>) {
    forall i {:trigger WellFormed(w, ps[i])} :: 0 <= i < |ps| ==> WellFormed(w, ps[i])
  }

  function Encode(w: Protocol, ps: seq<Packet>): Bytes
    requires AllWellFormed(w, ps)
  {
    if ps == [] then [] else EncodeFrame(w, ps[0]) + Encode(w, ps[1..])
  }

  // ---------------------------------------------------------------------------------------
  // Round trip

  /** A written `RequestId` body reads back as the packet; the name is stored as written
      because it is already trimmed. */
  lemma ParseRequestIdRoundTrip(w: Protocol, name: Bytes, rest: Bytes)
    requires ValidProtocol(w) && Encodable(RequestId(name))
    ensures ParseRequestId(w, Fields(w, RequestId(name)) + rest) == Ok(Read(RequestId(name), rest))
  {
    assert Fields(w, RequestId(name)) + rest == WriteI32(w.version) + (WriteString(name) + rest);
    ReadI32Write(w.version, WriteString(name) + rest);
    ReadStringWrite(name, rest);
    TrimOfTrimmed(name);
  }

  /** A name sent with white space around it is stored trimmed: the packet holds `Trim` of the
      string on the wire, and reading goes on after the string. */
  lemma ParseRequestIdTrims(w: Protocol, name: Bytes, rest: Bytes)
    requires ValidProtocol(w) && EncodableString(name)
    ensures ParseRequestId(w, WriteI32(w.version) + WriteString(name) + rest)
            == Ok(Read(RequestId(Trim(name)), rest))
  {
    assert WriteI32(w.version) + WriteString(name) + rest == WriteI32(w.version) + (WriteString(name) + rest);
    ReadI32Write(w.version, WriteString(name) + rest);
    ReadStringWrite(name, rest);
  }

  /** A written `SetAlias` body is exactly one string and reads back as the packet. */
  lemma ParseSetAliasRoundTrip(alias: Bytes, rest: Bytes)
    requires EncodableString(alias)
    ensures ParseSetAlias(WriteString(alias) + rest) == Ok(Read(SetAlias(alias), rest))
  {
    ReadStringWrite(alias, rest);
  }

  /** A written `JoinZone` body reads back field by field in wire order. */
  lemma ParseJoinZoneRoundTrip(w: Protocol, q: JoinRequest, rest: Bytes)
    requires ValidProtocol(w) && Encodable(JoinZone(q))
    ensures ParseJoinZone(Fields(w, JoinZone(q)) + rest) == Ok(Read(JoinZone(q), rest))
  {
    var a, b, c, d, e := WriteI32(q.id), WriteString(q.password), WriteString(q.name),
                         WriteBool(q.persistent), WriteU16(q.maxPlayers);
    assert Fields(w, JoinZone(q)) + rest == a + (b + (c + (d + (e + rest))));
    ReadI32Write(q.id, b + (c + (d + (e + rest))));
    ReadStringWrite(q.password, c + (d + (e + rest)));
    ReadStringWrite(q.name, d + (e + rest));
    ReadBoolWrite(q.persistent, e + rest);
    ReadU16Write(q.maxPlayers, rest);
  }

  lemma ParseBodyRoundTrip(w: Protocol, p: Packet, remaining: int, rest: Bytes)
    requires ValidProtocol(w) && Encodable(p)
    ensures ParseBody(w, Code(w, p), Fields(w, p) + rest, remaining) == Ok(Read(p, rest))
  {
    match p
    case RequestId(name) => ParseRequestIdRoundTrip(w, name, rest);
    case SetAlias(alias) => ParseSetAliasRoundTrip(alias, rest);
    case JoinZone(q) => ParseJoinZoneRoundTrip(w, q, rest);
  }

  /** The `UInt32` sums of a frame that starts where `skipSize` says and whose body takes its
      declared size do not wrap: the new `skipSize` is the end of the frame. */
  lemma FrameArith(size: nat, skip: nat, length: int, restLen: nat)
    requires size + 4 + restLen + skip == length < TwoTo32
    ensures AddU32(AddU32(size, 4), skip) == length - restLen
    ensures (length - skip > AddU32(size, 4)) == (restLen > 0)
  {
    AddU32NoWrap(size, 4);
    AddU32NoWrap(size + 4, skip);
  }

  /** The frame read from the unread part `s` of a buffer of `length` bytes, with `skipSize` at the
      start of `s`, is the frame of `p` followed by `rest`, and `Handle` goes on iff `more`. */
  predicate ReadsAs(w: Protocol, length: nat, s: Bytes, p: Packet, rest: Bytes, more: bool)
    requires length < TwoTo32 && |s| <= length && |rest| <= length
  {
    ReadFrame(w, length, s, SkipAt(length, s)) == Ok(Frame(p, rest, SkipAt(length, rest), more))
  }

  /** A frame that starts where `skipSize` says and whose body takes exactly its declared size
      leaves `skipSize` at the end of the frame; the decoder goes on iff bytes follow. */
  lemma ReadFrameAligned(w: Protocol, length: nat, s: Bytes, size: nat, code: Byte, body: Bytes,
                         p: Packet, rest: Bytes)
    requires length < TwoTo32 && |s| <= length
    requires ReadU32(s) == Ok(Read(size, [code] + body)) && size != HttpMagic
    requires ParseBody(w, code, body, length - SkipAt(length, s)) == Ok(Read(p, rest))
    requires |s| == size + 4 + |rest|
    ensures ReadsAs(w, length, s, p, rest, rest != [])
  {
    FrameArith(size, SkipAt(length, s), length, |rest|);
    ReadFrameEnds(w, length, s, size, code, body, p, rest, rest != []);
  }

  /** `ReadsAs` from the reads of a frame and the values of its `UInt32` sums. */
  lemma ReadFrameEnds(w: Protocol, length: nat, s: Bytes, size: nat, code: Byte, body: Bytes,
                      p: Packet, rest: Bytes, more: bool)
    requires length < TwoTo32 && |s| <= length && |rest| <= length
    requires ReadU32(s) == Ok(Read(size, [code] + body)) && size != HttpMagic
    requires ParseBody(w, code, body, length - SkipAt(length, s)) == Ok(Read(p, rest))
    requires AddU32(AddU32(size, 4), SkipAt(length, s)) == SkipAt(length, rest)
    requires (length - SkipAt(length, s) > AddU32(size, 4)) == more
    ensures ReadsAs(w, length, s, p, rest, more)
  {
    assert ([code] + body)[0] == code && ([code] + body)[1..] == body;
  }

  /** The reads `ReadFrame` makes on a written frame: the size field, then the body. */
  lemma EncodeFrameReads(w: Protocol, p: Packet, rest: Bytes, remaining: int)
    requires WellFormed(w, p)
    ensures ReadU32(EncodeFrame(w, p) + rest)
            == Ok(Read(1 + |Fields(w, p)|, [Code(w, p)] + (Fields(w, p) + rest)))
    ensures ParseBody(w, Code(w, p), Fields(w, p) + rest, remaining) == Ok(Read(p, rest))
  {
    var size, code, fields := 1 + |Fields(w, p)|, Code(w, p), Fields(w, p);
    AppendAssoc4(WriteU32(size), [code], fields, rest);
    assert EncodeFrame(w, p) + rest == WriteU32(size) + ([code] + (fields + rest));
    ReadU32Write(size, [code] + (fields + rest));
    ParseBodyRoundTrip(w, p, remaining, rest);
  }

  /** A written frame, met where the declared sizes so far say a frame starts, reads back as its
      packet; the stream and `skipSize` then agree again on the end of the frame, and the decoder
      goes on exactly when bytes follow. */
  lemma ReadFrameRoundTrip(w: Protocol, p: Packet, length: nat, rest: Bytes)
    requires WellFormed(w, p)
    requires length < TwoTo32 && |EncodeFrame(w, p) + rest| <= length
    ensures ReadsAs(w, length, EncodeFrame(w, p) + rest, p, rest, rest != [])
  {
    var s := EncodeFrame(w, p) + rest;
    EncodeFrameReads(w, p, rest, length - SkipAt(length, s));
    ReadFrameAligned(w, length, s, 1 + |Fields(w, p)|, Code(w, p), Fields(w, p) + rest, p, rest);
  }

  /** Well-formedness carries over to a suffix. */
  lemma WellFormedSuffix(w: Protocol, ps: seq<Packet>, i: nat)
    requires AllWellFormed(w, ps) && i <= |ps|
    ensures AllWellFormed(w, ps[i..])
  {
    forall j | 0 <= j < |ps[i..]| ensures WellFormed(w, ps[i..][j]) {
      assert ps[i..][j] == ps[i + j];
    }
  }

  /** Well-formedness carries over to a concatenation. */
  lemma WellFormedAppend(w: Protocol, ps: seq<Packet>, qs: seq<Packet>)
    requires AllWellFormed(w, ps) && AllWellFormed(w, qs)
    ensures AllWellFormed(w, ps + qs)
  {
    forall i | 0 <= i < |ps + qs| ensures WellFormed(w, (ps + qs)[i]) {
      if i < |ps| {
        assert (ps + qs)[i] == ps[i];
      } else {
        assert (ps + qs)[i] == qs[i - |ps|];
      }
    }
  }

  /** The encoding of a batch followed by another is the two encodings one after the other. */
  lemma {:induction false} EncodeAppend(w: Protocol, ps: seq<Packet>, qs: seq<Packet>)
    requires AllWellFormed(w, ps) && AllWellFormed(w, qs)
    ensures AllWellFormed(w, ps + qs)
    ensures Encode(w, ps + qs) == Encode(w, ps) + Encode(w, qs)
    decreases |ps|
  {
    WellFormedAppend(w, ps, qs);
    if ps == [] {
      assert ps + qs == qs;
    } else {
      WellFormedSuffix(w, ps, 1);
      EncodeAppend(w, ps[1..], qs);
      EncodeAppendStep(w, ps, qs);
    }
  }

  /** The inductive step of `EncodeAppend`: the first frame comes first on both sides. */
  lemma EncodeAppendStep(w: Protocol, ps: seq<Packet>, qs: seq<Packet>)
    requires ps != [] && AllWellFormed(w, ps) && AllWellFormed(w, qs)
    requires AllWellFormed(w, ps[1..]) && AllWellFormed(w, ps[1..] + qs) && AllWellFormed(w, ps + qs)
    requires Encode(w, ps[1..] + qs) == Encode(w, ps[1..]) + Encode(w, qs)
    ensures Encode(w, ps + qs) == Encode(w, ps) + Encode(w, qs)
  {
    ConsAppend(ps, qs);
    AppendStep(Encode(w, ps + qs), EncodeFrame(w, ps[0]), Encode(w, ps[1..]), Encode(w, ps[1..] + qs),
               Encode(w, ps), Encode(w, qs));
  }

  /** One round of `Handle` on an aligned frame that does not end the buffer: the frame's packet,
      then what `Handle` decodes from the end of the frame on. */
  lemma HandleNext(w: Protocol, length: nat, s: Bytes, p: Packet, rest: Bytes, qs: seq<Packet>)
    requires length < TwoTo32 && |s| <= length && |rest| <= length
    requires ReadsAs(w, length, s, p, rest, true)
    requires HandleAligned(w, length, rest) == Ok(qs)
    ensures HandleAligned(w, length, s) == Ok([p] + qs)
  {
  }

  /** An aligned frame that ends the buffer is the last packet `Handle` gives. */
  lemma HandleLast(w: Protocol, length: nat, s: Bytes, p: Packet, rest: Bytes)
    requires length < TwoTo32 && |s| <= length && |rest| <= length
    requires ReadsAs(w, length, s, p, rest, false)
    ensures HandleAligned(w, length, s) == Ok([p])
  {
  }

  /** The encoding of the suffix from `i` on starts with the frame of `ps[i]`. */
  lemma EncodeStep(w: Protocol, ps: seq<Packet>, i: nat)
    requires AllWellFormed(w, ps) && i < |ps|
    ensures AllWellFormed(w, ps[i..]) && AllWellFormed(w, ps[i + 1..])
    ensures Encode(w, ps[i..]) == EncodeFrame(w, ps[i]) + Encode(w, ps[i + 1..])
  {
    WellFormedSuffix(w, ps, i);
    WellFormedSuffix(w, ps, i + 1);
    assert ps[i..][0] == ps[i] && ps[i..][1..] == ps[i + 1..];
  }

  /** The encoding of a suffix is no longer than the whole encoding. */
  lemma {:induction false} EncodeSuffix(w: Protocol, ps: seq<Packet>, i: nat)
    requires AllWellFormed(w, ps) && i <= |ps|
    ensures AllWellFormed(w, ps[i..])
    ensures |Encode(w, ps[i..])| <= |Encode(w, ps)|
    decreases i
  {
    if i == 0 {
      assert ps[0..] == ps;
    } else {
      EncodeSuffix(w, ps, i - 1);
      EncodeStep(w, ps, i - 1);
    }
  }

  /** The `i`-th frame of an encoding reads back as `ps[i]`, followed by the encoding of the rest. */
  lemma FrameAt(w: Protocol, ps: seq<Packet>, length: nat, i: nat)
    requires AllWellFormed(w, ps)
    requires length < TwoTo32 && |Encode(w, ps)| <= length && i < |ps|
    ensures |Encode(w, ps[i..])| <= length && |Encode(w, ps[i + 1..])| <= length
    ensures ReadsAs(w, length, Encode(w, ps[i..]), ps[i], Encode(w, ps[i + 1..]), i + 1 < |ps|)
  {
    var rest := Encode(w, ps[i + 1..]);
    EncodeSuffix(w, ps, i);
    EncodeSuffix(w, ps, i + 1);
    EncodeStep(w, ps, i);
    if i + 1 < |ps| {
      EncodeStep(w, ps, i + 1);
    } else {
      assert ps[i + 1..] == [];
    }
    assert (rest != []) == (i + 1 < |ps|);
    ReadFrameRoundTrip(w, ps[i], length, rest);
  }

  /** `Handle` run over the frames of `ps` from the `k`-th on, met where the declared sizes say a
      frame starts, gives the packets from the `k`-th on. */
  lemma {:induction false} HandleFrames(w: Protocol, ps: seq<Packet>, length: nat, k: nat)
    requires AllWellFormed(w, ps)
    requires length < TwoTo32 && |Encode(w, ps)| <= length && k < |ps|
    ensures AllWellFormed(w, ps[k..]) && |Encode(w, ps[k..])| <= length
    ensures HandleAligned(w, length, Encode(w, ps[k..])) == Ok(ps[k..])
    decreases |ps| - k
  {
    FrameAt(w, ps, length, k);
    if k + 1 < |ps| {
      HandleFrames(w, ps, length, k + 1);
      HandleNext(w, length, Encode(w, ps[k..]), ps[k], Encode(w, ps[k + 1..]), ps[k + 1..]);
      SliceCons(ps, k);
    } else {
      HandleLast(w, length, Encode(w, ps[k..]), ps[k], Encode(w, ps[k + 1..]));
      assert ps[k..] == [ps[k]];
    }
  }

  /** Frames written back to back, met where the declared sizes say a frame starts, decode to
      their packets in arrival order. */
  lemma HandleRoundTrip(w: Protocol, ps: seq<Packet>, length: nat)
    requires |ps| >= 1
    requires AllWellFormed(w, ps)
    requires length < TwoTo32 && |Encode(w, ps)| <= length
    ensures HandleAligned(w, length, Encode(w, ps)) == Ok(ps)
  {
    HandleFrames(w, ps, length, 0);
    assert ps[0..] == ps;
  }

  /** Decoding the encoding of a non-empty sequence of well-formed packets gives it back. */
  lemma RoundTrip(w: Protocol, ps: seq<Packet>)
    requires |ps| >= 1
    requires AllWellFormed(w, ps)
    requires |Encode(w, ps)| < TwoTo32
    ensures Decode(w, Encode(w, ps)) == Ok(ps)
  {
    HandleRoundTrip(w, ps, |Encode(w, ps)|);
  }

  /** A written frame followed by one to three bytes, too few for the next size field: the
      decoder reads the frame, goes on, and fails on the rest, and the frame is lost with it. */
  lemma PartialSizeAfterFrame(w: Protocol, p: Packet, tail: Bytes)
    requires WellFormed(w, p)
    requires 1 <= |tail| < 4 && |EncodeFrame(w, p) + tail| < TwoTo32
    ensures Decode(w, EncodeFrame(w, p) + tail) == Err(Truncated)
  {
    var s := EncodeFrame(w, p) + tail;
    var skip := SkipAt(|s|, tail);
    ReadFrameRoundTrip(w, p, |s|, tail);
    assert ReadFrame(w, |s|, s, 0) == Ok(Frame(p, tail, skip, true));
    assert ReadU32(tail) == Err(Truncated);
    assert Handle(w, |s|, tail, skip) == Err(Truncated);
  }

  /** Two batches of frames in one buffer decode to the first batch followed by the second. */
  lemma Concatenation(w: Protocol, ps: seq<Packet>, qs: seq<Packet>)
    requires |ps| >= 1
    requires AllWellFormed(w, ps)
    requires AllWellFormed(w, qs)
    requires |Encode(w, ps) + Encode(w, qs)| < TwoTo32
    ensures Decode(w, Encode(w, ps) + Encode(w, qs)) == Ok(ps + qs)
  {
    EncodeAppend(w, ps, qs);
    RoundTrip(w, ps + qs);
  }

  // ---------------------------------------------------------------------------------------
  // Single-frame properties

  /** A frame that starts with the bytes of "GET " is one HTTP probe, whatever follows. */
  lemma HttpProbe(w: Protocol, length: int, s: Bytes, skip: nat)
    requires skip < TwoTo32
    requires |s| >= 4 && s[..4] == ['G' as Byte, 'E' as Byte, 'T' as Byte, ' ' as Byte]
    ensures Handle(w, length, s, skip) == Ok([HttpRequest])
  {
    LittleEndian4(s[..4]);
  }

  /** A frame whose type code is none of the three requests fails with that code and the length
      of the buffer past `skipSize`, and no packet survives. */
  lemma UnknownCode(w: Protocol, length: int, s: Bytes, skip: nat)
    requires skip < TwoTo32
    requires |s| >= 5 && LittleEndian(s[..4]) != HttpMagic
    requires s[4] != w.requestId && s[4] != w.setAlias && s[4] != w.joinZone
    ensures Handle(w, length, s, skip) == Err(Unrecognized(s[4], length - skip))
  {
    assert s[4..][0] == s[4];
  }

  /** A `RequestId` frame whose leading `Int32` is not the protocol version fails with a version
      mismatch, whatever follows it. */
  lemma WrongVersion(w: Protocol, length: int, s: Bytes, skip: nat)
    requires skip < TwoTo32
    requires |s| >= 9 && LittleEndian(s[..4]) != HttpMagic && s[4] == w.requestId
    requires ReadI32(s[5..]).value.value != w.version
    ensures Handle(w, length, s, skip) == Err(VersionMismatch)
  {
    assert s[4..][0] == s[4] && s[4..][1..] == s[5..];
  }

  /** The next frame is read where the body parse stopped, but whether there is one is decided by
      the declared size. Two `SetAlias` frames with an empty alias, each of size 2, decode to both
      packets. */
  lemma SizesAgree()
    ensures Decode(Protocol(1, 2, 3, 0), [2, 0, 0, 0, 2, 0] + [2, 0, 0, 0, 2, 0]) == Ok([SetAlias([]), SetAlias([])])
  {
    var w := Protocol(1, 2, 3, 0);
    var frame: Bytes := [2, 0, 0, 0, 2, 0];
    SmallSizeFrame(w, 2, [], 12, 6);
    assert frame + [] == frame;
    assert AddU32(AddU32(2, 4), 6) == 12;
    assert Handle(w, 12, frame, 6) == Ok([SetAlias([])]);
    SmallSizeFrame(w, 2, frame, 12, 0);
    assert AddU32(AddU32(2, 4), 0) == 6;
    assert [SetAlias([])] + [SetAlias([])] == [SetAlias([]), SetAlias([])];
    assert Handle(w, 12, frame + frame, 0) == Ok([SetAlias([]), SetAlias([])]);
  }

  /** Declaring 1 for the first frame makes the second frame's declared end fall short of the
      buffer, and the read of a third frame past the end fails. */
  lemma SizeUnderstated()
    ensures Decode(Protocol(1, 2, 3, 0), [1, 0, 0, 0, 2, 0] + [2, 0, 0, 0, 2, 0]) == Err(Truncated)
  {
    var w := Protocol(1, 2, 3, 0);
    var frame: Bytes := [2, 0, 0, 0, 2, 0];
    assert Handle(w, 12, [], 11) == Err(Truncated);
    SmallSizeFrame(w, 2, [], 12, 5);
    assert frame + [] == frame;
    assert AddU32(AddU32(2, 4), 5) == 11;
    assert Handle(w, 12, frame, 5) == Err(Truncated);
    SmallSizeFrame(w, 1, frame, 12, 0);
    assert AddU32(AddU32(1, 4), 0) == 5;
    assert Handle(w, 12, [1, 0, 0, 0, 2, 0] + frame, 0) == Err(Truncated);
  }

  /** Declaring 10 for the first frame makes it look as if it covered the buffer, and the second
      packet is dropped. */
  lemma SizeOverstated()
    ensures Decode(Protocol(1, 2, 3, 0), [10, 0, 0, 0, 2, 0] + [2, 0, 0, 0, 2, 0]) == Ok([SetAlias([])])
  {
    SmallSizeFrame(Protocol(1, 2, 3, 0), 10, [2, 0, 0, 0, 2, 0], 12, 0);
  }

  /** The frame of `p` with a size field that says `size`, whatever the length of the body. */
  function FrameWithSize(w: Protocol, p: Packet, size: nat): (bs: Bytes)
    requires ValidProtocol(w) && Encodable(p) && size < TwoTo32
    ensures |bs| == 5 + |Fields(w, p)|
  {
    WriteU32(size) + [Code(w, p)] + Fields(w, p)
  }

  /** Whatever its size field says, a frame reads back as its packet and reading goes on after
      the body; only the next `skipSize` and the test for another frame use the declared size. */
  lemma FrameWithSizeReads(w: Protocol, p: Packet, size: nat, rest: Bytes, length: int, skip: nat)
    requires ValidProtocol(w) && Encodable(p) && size + 4 < TwoTo32 && size != HttpMagic && skip < TwoTo32
    ensures ReadFrame(w, length, FrameWithSize(w, p, size) + rest, skip)
            == Ok(Frame(p, rest, AddU32(size + 4, skip), length - skip > size + 4))
  {
    var s := FrameWithSize(w, p, size) + rest;
    FrameWithSizeFields(w, p, size, rest, length - skip);
    ReadFrameOf(w, length, s, skip, size, Code(w, p), Fields(w, p) + rest, p, rest);
    AddU32NoWrap(size, 4);
  }

  /** The reads `ReadFrame` makes on a frame whose size field says `size`. */
  lemma FrameWithSizeFields(w: Protocol, p: Packet, size: nat, rest: Bytes, remaining: int)
    requires ValidProtocol(w) && Encodable(p) && size < TwoTo32
    ensures ReadU32(FrameWithSize(w, p, size) + rest)
            == Ok(Read(size, [Code(w, p)] + (Fields(w, p) + rest)))
    ensures ParseBody(w, Code(w, p), Fields(w, p) + rest, remaining) == Ok(Read(p, rest))
  {
    AppendAssoc4(WriteU32(size), [Code(w, p)], Fields(w, p), rest);
    ReadU32Write(size, [Code(w, p)] + (Fields(w, p) + rest));
    ParseBodyRoundTrip(w, p, remaining, rest);
  }

  /** `ReadFrame` from the reads of the size field and of the body. */
  lemma ReadFrameOf(w: Protocol, length: int, s: Bytes, skip: nat, size: nat, code: Byte, body: Bytes,
                    p: Packet, rest: Bytes)
    requires skip < TwoTo32
    requires ReadU32(s) == Ok(Read(size, [code] + body)) && size != HttpMagic
    requires ParseBody(w, code, body, length - skip) == Ok(Read(p, rest))
    ensures ReadFrame(w, length, s, skip)
            == Ok(Frame(p, rest, AddU32(AddU32(size, 4), skip), length - skip > AddU32(size, 4)))
  {
    assert ([code] + body)[0] == code && ([code] + body)[1..] == body;
  }

  /** A frame whose declared end reaches the end of the buffer is the last one decoded: whatever
      follows its body, whole frames included, is dropped. */
  lemma SizeReachesEnd(w: Protocol, p: Packet, size: nat, rest: Bytes, length: int, skip: nat)
    requires ValidProtocol(w) && Encodable(p) && size + 4 < TwoTo32 && size != HttpMagic && skip < TwoTo32
    requires length - skip <= size + 4
    ensures Handle(w, length, FrameWithSize(w, p, size) + rest, skip) == Ok([p])
  {
    FrameWithSizeReads(w, p, size, rest, length, skip);
  }

  /** A last frame whose declared end falls short of the end of the buffer makes the decoder read
      another frame where there are no bytes left, and the whole decode fails. */
  lemma SizeFallsShort(w: Protocol, p: Packet, size: nat, length: int, skip: nat)
    requires ValidProtocol(w) && Encodable(p) && size + 4 < TwoTo32 && size != HttpMagic && skip < TwoTo32
    requires length - skip > size + 4
    ensures Handle(w, length, FrameWithSize(w, p, size), skip) == Err(Truncated)
  {
    var frame := FrameWithSize(w, p, size);
    FrameWithSizeReads(w, p, size, [], length, skip);
    assert frame + [] == frame;
    assert Handle(w, length, [], AddU32(size + 4, skip)) == Err(Truncated);
  }

  /** A frame of size `size` whose body is a `SetAlias` of the empty alias. */
  lemma SmallSizeFrame(w: Protocol, size: Byte, rest: Bytes, length: int, skip: nat)
    requires ValidProtocol(w) && w.setAlias == 2 && skip < TwoTo32
    ensures ReadFrame(w, length, [size, 0, 0, 0, 2, 0] + rest, skip)
            == Ok(Frame(SetAlias([]), rest, AddU32(AddU32(size, 4), skip), length - skip > AddU32(size, 4)))
  {
    var s := [size, 0, 0, 0, 2, 0] + rest;
    assert s[..4] == [size, 0, 0, 0] && s[4..] == [2, 0] + rest;
    LittleEndian4(s[..4]);
    assert ReadU32(s) == Ok(Read(size as nat, [2, 0] + rest));
    assert ([2, 0] + rest)[1..] == [0] + rest;
    assert ([0] + rest)[1..] == rest;
    assert ReadVarUInt([0] + rest, 0, 0) == Ok(Read(0, rest));
    assert ParseSetAlias([0] + rest) == Ok(Read(SetAlias([]), rest));
  }
}
