/** The request messages a client sends, and the name normalisation of `RequestIdPacket`. */
module Packets {
  import opened Base

  /** The fields of `RequestJoinZonePacket`, in wire order. */
  datatype JoinRequest = JoinRequest(
    id: int,            // Int32 zone id; -2 asks the server to search
    password: Bytes,
    name: Bytes,
    persistent: bool,
    maxPlayers: nat     // UInt16
  )

  /** The decoded messages. `HttpRequest` is the tag-only class built for a plain HTTP probe. */
  datatype Packet =
    | HttpRequest
    | RequestId(name: Bytes)
    | SetAlias(alias: Bytes)
    | JoinZone(request: JoinRequest)

  /** The `PacketType` tags of the packets above. */
  datatype PacketType = HttpRequestType | RequestID | RequestSetAlias | RequestJoinZone

  function TypeOf(p: Packet): PacketType {
    match p
    case HttpRequest => HttpRequestType
    case RequestId(_) => RequestID
    case SetAlias(_) => RequestSetAlias
    case JoinZone(_) => RequestJoinZone
  }

  /** `Char.IsWhiteSpace` on the ASCII range: tab, line feed, vertical tab, form feed, carriage
      return and space. */
  predicate IsWhiteSpace(b: Byte) {
    b == 0x20 || 0x09 <= b <= 0x0D
  }

  predicate AllWhiteSpace(s: Bytes) {
    forall k :: 0 <= k < |s| ==> IsWhiteSpace(s[k])
  }

  lemma AllWhiteSpaceAppend(a: Bytes, b: Bytes)
    requires AllWhiteSpace(a) && AllWhiteSpace(b)
    ensures AllWhiteSpace(a + b)
  {
    forall k | 0 <= k < |a + b| ensures IsWhiteSpace((a + b)[k]) {
      if k < |a| {
        assert (a + b)[k] == a[k];
      } else {
        assert (a + b)[k] == b[k - |a|];
      }
    }
  }

  /** No white space at either end. */
  predicate IsTrimmed(s: Bytes) {
    s == [] || (!IsWhiteSpace(s[0]) && !IsWhiteSpace(s[|s| - 1]))
  }

  /** A packet that carries a player name carries it trimmed. */
  predicate NameTrimmed(p: Packet) {
    p.RequestId? ==> IsTrimmed(p.name)
  }

  /** Drops the leading white space: what is left is a suffix that starts with a non-space. */
  function TrimStart(s: Bytes): (r: Bytes)
    ensures |r| <= |s| && r == s[|s| - |r|..]
    ensures AllWhiteSpace(s[..|s| - |r|])
    ensures r == [] || !IsWhiteSpace(r[0])
  {
    if s != [] && IsWhiteSpace(s[0]) then
      var r := TrimStart(s[1..]);
      SliceTail(s, |s| - 1 - |r|);
      AllWhiteSpaceAppend([s[0]], s[1..][..|s| - 1 - |r|]);
      r
    else s
  }

  /** Drops the trailing white space: what is left is a prefix that ends with a non-space. */
  function TrimEnd(s: Bytes): (r: Bytes)
    ensures |r| <= |s| && r == s[..|r|]
    ensures AllWhiteSpace(s[|r|..])
    ensures r == [] || !IsWhiteSpace(r[|r| - 1])
  {
    if s != [] && IsWhiteSpace(s[|s| - 1]) then
      var r := TrimEnd(s[..|s| - 1]);
      SliceInit(s, |r|);
      AllWhiteSpaceAppend(s[..|s| - 1][|r|..], [s[|s| - 1]]);
      r
    else s
  }

  /** `String.Trim`: the contiguous part of `s` left after removing white space at both ends. */
  function Trim(s: Bytes): (r: Bytes)
    ensures IsTrimmed(r)
    ensures exists i, j :: 0 <= i <= j <= |s| && r == s[i..j]
                        && AllWhiteSpace(s[..i]) && AllWhiteSpace(s[j..])
  {
    var t := TrimStart(s);
    var r := TrimEnd(t);
    var i := |s| - |t|;
    SliceOfSuffix(s, i, |r|);
    assert r == [] || r[0] == t[0];
    assert r == s[i..i + |r|] && AllWhiteSpace(s[..i]) && AllWhiteSpace(s[i + |r|..]);
    r
  }

  /** The `RequestIdPacket` constructor: the stored name is the trimmed argument. */
  function NewRequestId(name: Bytes): (p: Packet)
    ensures p.RequestId? && TypeOf(p) == RequestID
    ensures IsTrimmed(p.name) && |p.name| <= |name|
    ensures exists i, j :: 0 <= i <= j <= |name| && p.name == name[i..j] && AllWhiteSpace(name[..i]) && AllWhiteSpace(name[j..])
  {
    RequestId(Trim(name))
  }

  /** A name that is already trimmed is stored as it is. */
  lemma TrimOfTrimmed(s: Bytes)
    requires IsTrimmed(s)
    ensures Trim(s) == s
  {
    assert TrimStart(s) == s;
    assert TrimEnd(s) == s;
  }

  /** Trimming twice is trimming once. */
  lemma TrimIdempotent(s: Bytes)
    ensures Trim(Trim(s)) == Trim(s)
  {
    TrimOfTrimmed(Trim(s));
  }

  /** A name of white space only is stored empty, and only such a name is. */
  lemma TrimEmpty(s: Bytes)
    ensures Trim(s) == [] <==> AllWhiteSpace(s)
  {
    var r := Trim(s);
    var i, j :| 0 <= i <= j <= |s| && r == s[i..j]
                && AllWhiteSpace(s[..i]) && AllWhiteSpace(s[j..]);
    if r == [] {
      forall k | 0 <= k < |s| ensures IsWhiteSpace(s[k]) {
        if k < i {
          assert s[..i][k] == s[k];
        } else {
          assert s[j..][k - j] == s[k];
        }
      }
    }
  }
}
