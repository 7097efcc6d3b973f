# leeward game server: frame decoder and session state machine

This project models the core of the leeward game server. There are three pieces.

- **The frame decoder.** `PacketHandler.Handle` turns one read from a TCP connection into a list of request messages.
  - Each frame is a little-endian `UInt32` size, a one-byte type code and a body read with .NET `BinaryReader` primitives.
  - A first word that spells `"GET "` marks a plain HTTP request.
- **The server state machine.** `GameServer` consumes those messages.
  - The handshake of a new connection is `NewConnectionHandler`.
  - The messages of an identified player go to `PlayerMessageHandler`.
  - A zone join is `HandleJoinZoneRequest`, with its search, create-on-demand, refusals and configuration push.
  - `AddPlayer` and `RemovePlayer` maintain the player list.
- **The name normalisation.** Both `RequestIdPacket` classes store `name.Trim()`.

Each handler is a pure function. It takes the server state and the outcome of the decoder on the read, and returns a `Step`:
- the new state;
- the messages sent and connections closed, in order;
- the exception that escaped the handler, if any.

The connection's subscribed event handler is a `Phase`: `PendingHandshake`, `Authenticated(player)`, `Detached` or `Closed`.

Modules, one per file:

- `Base` (base.dfy): bytes, `UInt32` wrap-around, generic sequence lemmas.
- `Wire` (wire.dfy): the `BinaryReader` primitives the decoder uses, and their writers.
- `Packets` (packets.dfy): the request messages and `String.Trim`.
- `Decoder` (decoder.dfy): `PacketHandler`, an encoder, and the round trip.
- `Zones` (zones.dfy): the zone registry, the `-2` search and the lookup by id.
- `Http` (http.dfy): the two canned HTTP answers.
- `Server` (server.dfy): the `GameServer` handlers.
- `Lifecycle` (lifecycle.dfy): the server invariant kept by every handler, and end-to-end scenarios from bytes to effects.

Conventions of the model:

- The numeric codes of `PacketType` and `Constants.ProtocolVersion` are not part of this model. They are fields of a `Protocol` value. Every theorem holds for any protocol whose three codes are distinct.
- `BinaryReader.ReadString` uses the .NET Core `Read7BitEncodedInt`. A negative length gives an `IOException`. A read past the end gives an `EndOfStreamException`. Here these are the `NegativeLength` and `Truncated` errors.
- `expectedSize` and `expectedSize + skipSize` are `UInt32` sums and wrap at 2^32. `data.Length - skipSize` is a `long`.

## Model

| member | source | states |
|---|---|---|
| `Decoder.HttpProbe` | server/Protocol/PacketHandler.cs:23-29 | A buffer whose first four bytes are `"GET "` (little-endian 542393671) decodes to exactly one `HttpRequest`, whatever follows |
| `Decoder.UnknownCode` | server/Protocol/PacketHandler.cs:33-51 | An unknown type code fails with `Unrecognized(code, length - skipSize)`, and no packet survives |
| `Decoder.WrongVersion` | server/Protocol/PacketHandler.cs:69-72 | A `RequestId` body whose leading `Int32` is not the protocol version fails with a version mismatch |
| `Decoder.ParseRequestIdRoundTrip` | server/Protocol/PacketHandler.cs:69-77 | A body with the right version followed by a trimmed name reads back as `RequestId(name)` and leaves the rest of the stream |
| `Decoder.ParseRequestId` | server/Protocol/PacketHandler.cs:69-77 | A decoded `RequestId` always carries a trimmed name, consumes at least one byte, and leaves a suffix of the stream |
| `Decoder.ParseRequestIdTrims` | server/Protocol/PacketHandler.cs:69-77 | A body with the right version followed by any string, white space around it or not, reads back as `RequestId(Trim(name))` and leaves the rest of the stream |
| `Decoder.ParseSetAlias` | server/Protocol/PacketHandler.cs:79-84 | A decoded alias is the bytes just before what is left of the stream, after a length prefix of at least one byte |
| `Decoder.ParseJoinZone` | server/Protocol/PacketHandler.cs:86-95 | A decoded join request has an `Int32` id and a `UInt16` limit; the body takes at least 9 bytes plus the bytes of both strings |
| `Decoder.ParseSetAliasRoundTrip` | server/Protocol/PacketHandler.cs:79-84 | A `SetAlias` body is exactly one length-prefixed string |
| `Decoder.ParseJoinZoneRoundTrip` | server/Protocol/PacketHandler.cs:86-95 | A `JoinZone` body is read as `Int32` id, string password, string name, `Boolean` persistent, `UInt16` player limit, in that order |
| `Decoder.ParseBody` | server/Protocol/PacketHandler.cs:35-52 | A code that is none of the three yields `Unrecognized` with the remaining length; a parsed body is never an HTTP request and carries a trimmed name |
| `Decoder.Handle` | server/Protocol/PacketHandler.cs:15-67 | A successful decode yields at least one packet, only the last can be an HTTP request, and every `RequestId` in it carries a trimmed name |
| `Decoder.ReadFrame` | server/Protocol/PacketHandler.cs:23-57 | A frame is an HTTP probe or a packet other than an HTTP request, with a trimmed name; it takes at least its 5 header bytes, and the next `skipSize` stays below 2^32 |
| `Decoder.ReadFrameRoundTrip` | server/Protocol/PacketHandler.cs:23-57 | An encoded frame occupies its 4 size bytes plus the declared size; the next `skipSize` is the frame's end, and another frame is read exactly when bytes follow |
| `Decoder.HandleRoundTrip` | server/Protocol/PacketHandler.cs:54-57 | Encoded frames at the unread end of a longer buffer, with `skipSize` at their start, decode to their packets in order |
| `Decoder.RoundTrip` | server/Protocol/PacketHandler.cs:15-95 | Decoding the encoding of a non-empty sequence of well-formed packets returns that sequence |
| `Decoder.Concatenation` | server/Protocol/PacketHandler.cs:54-57 | Two encoded packet sequences sent back to back decode to the packets of the first, then of the second |
| `Decoder.FrameWithSizeReads` | server/Protocol/PacketHandler.cs:23-57 | Whatever its size field says, a frame reads back as its packet and reading goes on after the body; the declared size only sets the next `skipSize` and decides whether another frame is read |
| `Decoder.SizeReachesEnd` | server/Protocol/PacketHandler.cs:32-57 | A frame whose declared end reaches the end of the buffer is the last one decoded: whatever follows its body, whole frames included, is dropped |
| `Decoder.SizeFallsShort` | server/Protocol/PacketHandler.cs:32-57 | A last frame whose declared end falls short of the end of the buffer makes the decoder read another frame past the end, and the decode fails with `Truncated` |
| `Decoder.SizesAgree` | server/Protocol/PacketHandler.cs:32-57 | Example: two 6-byte `SetAlias` frames, each declaring its true size 2, decode to both packets |
| `Decoder.SizeUnderstated` | server/Protocol/PacketHandler.cs:32-57 | Example: the same two frames with the first declaring 1 fail with `Truncated`, because the second frame's declared end falls one byte short of the buffer |
| `Decoder.SizeOverstated` | server/Protocol/PacketHandler.cs:32-57 | Example: the same two frames with the first declaring 10 decode to the first packet only, because its declared end reaches the end of the buffer |
| `Wire.ReadU32Write` | server/Protocol/PacketHandler.cs:23 | A written `UInt32` reads back little-endian |
| `Wire.ReadI32Write` | server/Protocol/PacketHandler.cs:71 | A written `Int32` reads back, two's complement |
| `Wire.ReadStringWrite` | server/Protocol/PacketHandler.cs:82 | A string written with a 7-bit length prefix reads back and leaves the rest of the stream |
| `Wire.ReadVarUIntWrite` | server/Protocol/PacketHandler.cs:82 | The 7-bit length reader takes back every written length below 2^31 |
| `Wire.ReadBoolWrite` | server/Protocol/PacketHandler.cs:92 | A written `Boolean` reads back |
| `Wire.ReadU16Write` | server/Protocol/PacketHandler.cs:93 | A written `UInt16` reads back |
| `Packets.Trim` | server/Protocol/Packets/RequestIdPacket.cs:11 | The stored name has no white space at either end, and is a contiguous part of the input with only white space around it |
| `Packets.NewRequestId` | server/Protocol/RequestIDPacket.cs:9-11 | The packet's type tag is `RequestID`; its name is trimmed, and it is the argument with a run of white space removed from each end |
| `Packets.TrimOfTrimmed` | server/Protocol/RequestIDPacket.cs:11 | A name without surrounding white space is stored unchanged |
| `Packets.TrimIdempotent` | server/Protocol/Packets/RequestIdPacket.cs:11 | Trimming twice is trimming once |
| `Packets.TrimEmpty` | server/Protocol/Packets/RequestIdPacket.cs:11 | The stored name is empty exactly when the input is all white space |
| `Http.HttpReplyStatus` | server/Core/GameServer.cs:114-122 | The answer to an HTTP request starts with a 301 status line when the HTTP port is positive, and with a 503 otherwise |
| `Http.RedirectLocation` | server/Core/GameServer.cs:116-119 | The second line of the 301 is the `Location` header with the local address |
| `Http.HttpReply` | server/Core/GameServer.cs:114-122 | The answer starts with the 301 status line and ends with `Connection: close` and a blank line when the HTTP port is positive; otherwise it starts with the 503 status line and ends with the "not a web server" notice |
| `Http.Location` | server/Core/GameServer.cs:116-118 | Read back, the URL is `http://` and the address; more follows exactly when the port is not 80, and then it is `:` and decimal digits, without a leading zero, whose value is the port |
| `Http.Decimal` | server/Core/GameServer.cs:118 | The port text is its decimal digits without a leading zero |
| `Http.DecimalUnique` | server/Core/GameServer.cs:118 | Any digit string without a leading zero that stands for the port is the port text |
| `Server.Accept` | server/Core/GameServer.cs:87-96 | The new connection, numbered by the counter, waits for its handshake, and the counter moves past it; no other connection, player or zone changes (that the number was not in use before is `Lifecycle.AcceptValid`) |
| `Server.AddPlayer` | server/Core/GameServer.cs:37-58 | The player is appended after the existing ones, its connection is subscribed to it, its id is sent before the connected event, and no other connection or zone changes |
| `Server.RemovePlayer` | server/Core/GameServer.cs:64-79 | At most one player leaves; one leaves exactly when a player with that id is listed; zones stay and nothing escapes |
| `Server.NewConnection` | server/Core/GameServer.cs:103-153 | The handshake keeps every existing player in place and adds at most one; zones and the other connections are untouched |
| `Server.PlayerMessage` | server/Core/GameServer.cs:161-195 | A read removes at most one player and adds none; when it does not decode, the players and zones stay as they were |
| `Server.Dispatch` | server/Core/GameServer.cs:168-193 | With the search read as `FirstOrDefault` (see "## Findings"), handling the packets of a read removes at most one player and adds none; a read of aliases only sends nothing, throws nothing, and leaves the player with the last alias |
| `Server.Receive` | server/Core/GameServer.cs:87-195 | With the search read as `FirstOrDefault` (see "## Findings"): a read on a closed, detached or unknown connection changes nothing; only a read on a connection still in its handshake adds a player; a read removes at most one; the `ArgumentNullException` of an empty handshake read never arises, since `Handle` returns at least one packet |
| `Server.HandshakeHttp` | server/Core/GameServer.cs:113-124 | An HTTP request on a new connection sends the canned answer, closes the connection and adds no player |
| `Server.HandshakeIdentify` | server/Core/GameServer.cs:125-131 | A `RequestId` first appends exactly one player with the packet's name, sends its id before the connected event, and subscribes the connection to it; the other players are unchanged |
| `Server.HandshakeRefused` | server/Core/GameServer.cs:140-149 | An unrecognized packet or a version mismatch closes the connection and adds no player |
| `Server.HandshakeLeaves` | server/Core/GameServer.cs:103-153 | The connection leaves the handshake exactly when no exception escapes. One escapes for the uncaught decode errors, and for a read of no packet at all, where the warning of the `default` branch throws `ArgumentNullException`. An escaping exception changes nothing; only `RequestId` adds a player |
| `Server.RemovePlayerSpec` | server/Core/GameServer.cs:64-79 | A tracked player, and only it, leaves the list and its connection is closed; an untracked one is a no-op |
| `Server.RemovePlayerIdempotent` | server/Core/GameServer.cs:64-79 | Removing a player twice is removing it once |
| `Server.PlayerDecodeFails` | server/Core/GameServer.cs:161-188 | When the read does not decode, no packet is handled; an unrecognized packet closes the connection but keeps the player; other decode errors escape |
| `Server.SetAliasOnly` | server/Core/GameServer.cs:175-177 | `SetAlias` changes the player's alias and nothing else, and the loop goes on |
| `Server.UnexpectedPacket` | server/Core/GameServer.cs:178-181 | Any other message throws `NotImplementedException`, which ends the loop and escapes |
| `Server.OutdatedRemoves` | server/Core/GameServer.cs:205-208 | A join request of an outdated client removes the player from the list and closes its connection; the loop ends |
| `Server.JoinZone` | server/Core/GameServer.cs:203-261 | With the search read as `FirstOrDefault`, a join is rejected exactly when the client is outdated, never throws, and a completed join keeps the players and connections |
| `Server.JoinZoneAsWritten` | server/Core/GameServer.cs:203-261 | As written, a join is rejected exactly when the client is outdated, and throws exactly when it asks for a search that no zone matches |
| `Server.JoinZoneSpec` | server/Core/GameServer.cs:203-228 | Outdated requests are rejected; a search with no match and no name is answered "No suitable zones found" with the state unchanged; a search with no match and a name goes on with `-1`, so a zone is created from the request and the player enters it; otherwise the target is the given id or the first matching zone |
| `Server.JoinTarget` | server/Core/GameServer.cs:230-260 | A join by id always completes; only the player's zone can change, and only to a zone of the registry; the registry is unchanged or gains the one zone built from the request |
| `Server.Commit` | server/Core/GameServer.cs:256-259 | The player's zone becomes the given one and nothing else changes; the call of `Player.JoinZone` is the last effect, after the optional server options |
| `Server.JoinTargetSpec` | server/Core/GameServer.cs:230-260 | Rejoining the current zone does nothing; an unknown id appends exactly one open zone built from the request and joins it; a closed zone or a wrong password is refused with the state unchanged; a join sends the server options first exactly when there is a game configuration |
| `Zones.FirstMatch` | server/Core/GameServer.cs:216-219 | The search returns the first zone in registry order that matches, and nothing exactly when none matches |
| `Zones.SearchTargetSpec` | server/Core/GameServer.cs:216-220 | The search yields the id of the first matching zone, or -1 exactly when no zone matches |
| `Zones.SearchPasswordTest` | server/Core/GameServer.cs:219 | As written, every open zone with a password matches a search whatever its password; a zone without one matches only an empty password |
| `Zones.SearchSingleOpenZone` | server/Core/GameServer.cs:213-220 | A search with empty name and password finds a lone open zone without a password |
| `Zones.FindZone` | server/Core/GameServer.cs:234 | The lookup by id finds the first zone with that id, and nothing exactly when there is none |
| `Zones.AddZoneValid` | server/Core/GameServer.cs:236-240 | Appending a zone with a fresh id keeps the zone ids distinct and every existing zone |
| `Lifecycle.NewConnectionValid` | server/Core/GameServer.cs:103-153 | The handshake keeps the server invariant, whatever the read decoded to |
| `Lifecycle.RemovePlayerValid` | server/Core/GameServer.cs:64-79 | Removing a player keeps the server invariant |
| `Lifecycle.JoinTargetValid` | server/Core/GameServer.cs:230-260 | A join by id always completes and keeps the server invariant: the player's zone is in the registry |
| `Lifecycle.DispatchValid` | server/Core/GameServer.cs:168-193 | Handling the messages of a read keeps the server invariant, wherever the loop stops |
| `Lifecycle.ReceiveValid` | server/Core/GameServer.cs:87-195 | Every read on every connection keeps the server invariant |
| `Lifecycle.ReceiveRoutes` | server/Core/GameServer.cs:52 | A read on a connection subscribed to a player goes to that player's handler |
| `Lifecycle.BrowserGetsRedirect` | server/Core/GameServer.cs:103-124 | Bytes starting with `"GET "` on a new connection get a 301 or 503 answer by the HTTP port, the connection is closed, and no player is added |
| `Lifecycle.ClientIdentifies` | server/Core/GameServer.cs:125-131 | A read that is an encoded `RequestId` of a trimmed name followed by whole well-formed frames adds exactly that player, under that name; those later frames are ignored |
| `Lifecycle.ClientPartialRest` | server/Core/GameServer.cs:103-153 | A read that is an encoded `RequestId` followed by one to three more bytes fails as a whole: `Truncated` escapes, no player is added and the connection still waits for its handshake |
| `Decoder.PartialSizeAfterFrame` | server/Protocol/PacketHandler.cs:32-57 | A written frame followed by too few bytes for the next size field decodes to `Truncated`; the frame read before is lost |
| `Lifecycle.IdentifiedNameTrimmed` | server/Core/GameServer.cs:125-130 | Any player the handshake adds holds a trimmed name and the connection it came from |
| `Lifecycle.SearchWithoutMatch` | server/Core/GameServer.cs:216-227 | With no match for an unnamed search, the code as written fails with `First`'s exception, while the corrected join replies "No suitable zones found" |
| `Lifecycle.FirstSearchOnEmptyServer` | server/Core/GameServer.cs:213-227 | On a server without zones, the first unnamed search throws as written |
| `Lifecycle.AsWrittenAgrees` | server/Core/GameServer.cs:210-260 | The join as written and the corrected one agree whenever the search is not asked for or finds a zone |
| `Lifecycle.SearchThenWrongPassword` | server/Core/GameServer.cs:216-253 | An unnamed search picks an open zone with a password whatever the request's password, and the join is then refused with "Wrong password" |
| `Lifecycle.SearchJoinsLoneZone` | server/Core/GameServer.cs:213-259 | An unnamed search without a password puts a player in no zone into the one open zone without a password |

## Left out

- Sockets, `TcpServer` and `InputConnection` are left out. Sends and disconnects are `Effect` values. Accepting a connection is `Server.Accept`.
- The `lock` on the player list is left out. Removal is sequential.
- The logging and the hex/ASCII dumps of `PacketHandler` are left out. They do not change the outcome.
- The `catch (ArgumentException)` of `Handle` is not modelled. `BinaryReader` throws it only for a stream that cannot be read, and the server never passes one.
- The UTF-8 decoding of `ReadString` is left out. Strings are byte sequences, and white space for `Trim` is ASCII white space. So the model does not cover non-ASCII white space, or a name whose UTF-8 form does not decode.
- The `HttpRequest` packet's own class is left out. The model keeps no data for it: its constructor ignores the stream.
- `ServerConfiguration` and `GameConfiguration` contents are left out. The model knows only whether a game configuration exists.
- The `Zone`, `Player` and `RequestJoinZonePacket` classes are not part of this model. The model fills in their behaviour as follows:
  - zone ids come from a counter;
  - player ids come from a counter (`State.nextPlayer`);
  - the `RequestJoinZonePacket` constructor stores the fields it reads unchanged;
  - a zone is created open;
  - `HasPassword` is a non-empty password;
  - `Player.JoinZone` sets the player's zone and leaves membership sets out;
  - `Player.SetAlias` sets the alias;
  - a new player's alias is empty;
  - `IsLastVersion` is a function of the request given to the model.
- Zone member sets and the player limit are not modelled. The code shown neither reads nor enforces them.
- A frame longer than the bytes received is not waited for. The reader throws `EndOfStreamException`, and `Handle` does not catch it. In the model the error is `Truncated`, and it escapes the handler.
- Line 219 of `GameServer.cs` tests `zone.HasPassword || …`. So a search matches any open zone that has a password, whatever password the request carries. The model follows the code (`Zones.Matches`, `Zones.SearchPasswordTest`); the join that follows is then refused with "Wrong password" (`Lifecycle.SearchThenWrongPassword`).
- `RequestSetAliasPacket` is not part of this model. The model assumes its constructor stores the alias it reads unchanged.
- `_httpServerPort` (line 21 of `GameServer.cs`) starts at -1 and `_gameConfiguration` (line 26) starts as null, and the file never assigns either. As written, only the 503 answer is ever sent and no server options are ever pushed. The model makes both free (`Env.httpPort`, `Env.hasGameConfig`), so it covers these values and the others too.
- `InputConnection` is not part of this model. After an exception escapes a handler, the model keeps sending later reads on that connection to the same handler, which assumes the connection survives the exception.
- A `Server.Receive` for a connection subscribed to a player that is no longer listed changes nothing. The invariant rules this case out (`Lifecycle.ReceiveRoutes`).

## Findings

| source | as written | input that shows it | evidently intended | confidence | as-written member | corrected member |
|---|---|---|---|---|---|---|
| server/Core/GameServer.cs:216-227 | The search uses `Enumerable.First`, which throws `InvalidOperationException` when no zone matches. The `?.Id ?? -1` fallback and the "No suitable zones found" reply are then dead code, and the exception escapes `PlayerMessageHandler` | A join request with id -2 and an empty name on a server with no zones | `FirstOrDefault`: the search yields -1, and the player is told "No suitable zones found" | not executed | `Lifecycle.FirstSearchOnEmptyServer` (on `Server.JoinZoneAsWritten`) | `Server.JoinZone` (used by `Server.Dispatch`; see `Lifecycle.SearchWithoutMatch`) |
