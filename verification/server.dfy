/** `GameServer`: the players and zones it keeps, the handler a new connection's first read goes to
    (`NewConnectionHandler`), the handler of an identified player's reads (`PlayerMessageHandler`),
    the zone join (`HandleJoinZoneRequest`) and `AddPlayer`/`RemovePlayer`.

    Each handler is a function from the server state and the outcome of `PacketHandler.Handle` on
    the read to a `Step`: the new state, what was sent or closed, in order, and the exception that
    escaped the handler, if any. The event handler a connection is subscribed to is its `Phase`. */
module Server {
  import opened Base
  import opened Wire
  import opened Packets
  import opened Decoder
  import opened Zones
  import opened Http

  /** A player: its id, its connection, the trimmed name it identified with, its alias and the id
      of the zone it is in. */
  datatype Player = Player(id: nat, conn: nat, name: Bytes, alias: Bytes, zone: Option<nat>)

  /** Which handler a connection's reads go to: `NewConnectionHandler`, the handler of a player,
      none (the connection stays open but nobody listens), or none because it is closed. */
  datatype Phase = PendingHandshake | Authenticated(player: nat) | Detached | Closed

  /** What the handlers read but do not change: the protocol, the local address and the HTTP
      server's port of the redirect, whether there is a game configuration to push, and
      `RequestJoinZonePacket.IsLastVersion`. */
  datatype Env = Env(protocol: Protocol, address: string, httpPort: int, hasGameConfig: bool,
                     isLastVersion: JoinRequest -> bool)

  datatype State = State(
    players: seq<Player>,
    zones: seq<Zone>,
    phases: map<nat, Phase>,
    nextConn: nat,
    nextPlayer: nat,
    nextZone: nat
  )

  /** What a handler sends or closes. `EnterZone` is the call of `Player.JoinZone`. */
  datatype Effect =
    | SendText(conn: nat, text: string)
    | Disconnect(conn: nat)
    | SendResponseId(player: nat)
    | SendPlayerConnected(player: nat)
    | SendJoinRefused(player: nat, reason: string)
    | SendServerOption(player: nat)
    | EnterZone(player: nat, zone: nat)

  /** An exception no handler catches: a decode error other than the caught ones, the
      `NotImplementedException` of an unexpected message, the `InvalidOperationException` of
      `First` when no zone matches, and the `ArgumentNullException` of `Enum.GetName` when a
      handshake read holds no packet at all. */
  datatype Fault = Uncaught(error: DecodeError) | NotImplemented | NoMatchingZone | NullPacketType

  datatype Step = Step(state: State, effects: seq<Effect>, fault: Option<Fault>)

  const Outdated: string := "Your client is outdated"
  const NoSuitableZones: string := "No suitable zones found"
  const ZoneClosed: string := "The requested zone is closed"
  const WrongPassword: string := "Wrong password"

  // ---------------------------------------------------------------------------------------
  // Invariant

  predicate UniquePlayers(players: seq<Player>) {
    && (forall i, j :: 0 <= i < j < |players| ==> players[i].id != players[j].id)
    && (forall i, j :: 0 <= i < j < |players| ==> players[i].conn != players[j].conn)
  }

  /** Ids and connections are handed out by counters; every player's connection is subscribed to
      that player or closed, and every connection subscribed to a player belongs to it; a player's
      zone is in the registry. */
  predicate Valid(st: State) {
    && ValidZones(st.zones, st.nextZone)
    && UniquePlayers(st.players)
    && (forall i :: 0 <= i < |st.players| ==> st.players[i].id < st.nextPlayer)
    && (forall i :: 0 <= i < |st.players| ==> PlayerLinked(st, st.players[i]))
    && (forall c :: c in st.phases ==> c < st.nextConn)
    && (forall c :: c in st.phases && st.phases[c].Authenticated? ==> OwnedBy(st.players, c, st.phases[c].player))
  }

  predicate PlayerLinked(st: State, p: Player) {
    && p.conn in st.phases
    && (st.phases[p.conn] == Authenticated(p.id) || st.phases[p.conn] == Closed)
    && (p.zone.Some? ==> HasZone(st.zones, p.zone.value))
  }

  predicate OwnedBy(players: seq<Player>, conn: nat, id: nat) {
    exists i :: 0 <= i < |players| && players[i].id == id && players[i].conn == conn
  }

  /** The server before any connection. */
  function Init(): (st: State)
    ensures Valid(st)
  {
    State([], [], map[], 0, 0, 0)
  }

  // ---------------------------------------------------------------------------------------
  // Players

  /** The position of the player with the given id in the player list. */
  function FindPlayer(players: seq<Player>, id: nat): (r: Option<nat>)
    ensures r.Some? ==> r.value < |players| && players[r.value].id == id
    ensures r.None? <==> forall j :: 0 <= j < |players| ==> players[j].id != id
  {
    if players == [] then None
    else if players[0].id == id then Some(0)
    else
      match FindPlayer(players[1..], id)
      case None =>
        assert forall j :: 1 <= j < |players| ==> players[j] == players[1..][j - 1];
        None
      case Some(k) => Some(k + 1)
  }

  function RemoveAt<T>(s: seq<T>, i: nat): (r: seq<T>)
    requires i < |s|
    ensures |r| == |s| - 1
    ensures forall j :: 0 <= j < i ==> r[j] == s[j]
    ensures forall j :: i <= j < |r| ==> r[j] == s[j + 1]
  {
    s[..i] + s[i + 1..]
  }

  /** `OnConnection`: a new connection, subscribed to `NewConnectionHandler`. */
  function Accept(st: State): (r: State)
    ensures st.nextConn in r.phases && r.phases[st.nextConn] == PendingHandshake && r.nextConn > st.nextConn
    ensures forall c :: c in st.phases && c != st.nextConn ==> c in r.phases && r.phases[c] == st.phases[c]
    ensures r.players == st.players && r.zones == st.zones
  {
    st.(phases := st.phases[st.nextConn := PendingHandshake], nextConn := st.nextConn + 1)
  }

  /** `AddPlayer`: appends the player, sends it its id, subscribes its connection to the player's
      handler, and sends the connected event. */
  function AddPlayer(st: State, p: Player): (r: Step)
    ensures |r.state.players| == |st.players| + 1 && r.state.players[|st.players|] == p
    ensures r.state.players[..|st.players|] == st.players
    ensures p.conn in r.state.phases && r.state.phases[p.conn] == Authenticated(p.id)
    ensures forall c :: c in st.phases && c != p.conn ==> c in r.state.phases && r.state.phases[c] == st.phases[c]
    ensures r.effects == [SendResponseId(p.id), SendPlayerConnected(p.id)]
    ensures r.state.zones == st.zones && r.fault.None?
  {
    Step(st.(players := st.players + [p], phases := st.phases[p.conn := Authenticated(p.id)]),
         [SendResponseId(p.id), SendPlayerConnected(p.id)], None)
  }

  /** `RemovePlayer`: a tracked player leaves the list and its connection is closed; an untracked
      one changes nothing. */
  function RemovePlayer(st: State, id: nat): (r: Step)
    ensures |st.players| - 1 <= |r.state.players| <= |st.players|
    ensures |r.state.players| < |st.players| <==> exists j :: 0 <= j < |st.players| && st.players[j].id == id
    ensures r.state.zones == st.zones && r.fault.None?
  {
    match FindPlayer(st.players, id)
    case None => Step(st, [], None)
    case Some(i) =>
      var conn := st.players[i].conn;
      Step(st.(players := RemoveAt(st.players, i), phases := st.phases[conn := Closed]), [Disconnect(conn)], None)
  }

  // ---------------------------------------------------------------------------------------
  // Handshake

  /** `NewConnectionHandler` on the outcome of `PacketHandler.Handle`. Only the first packet
      counts. Whatever ends the `try` normally, the connection stops listening for a handshake;
      an uncaught exception skips that. With no packet at all, the warning of the `default`
      branch calls `Enum.GetName` on a null type and throws. */
  function NewConnection(env: Env, st: State, conn: nat, decoded: Result<seq<Packet>>): (r: Step)
    ensures |st.players| <= |r.state.players| <= |st.players| + 1
    ensures r.state.players[..|st.players|] == st.players
    ensures r.state.zones == st.zones
    ensures forall c :: c in st.phases && c != conn ==> c in r.state.phases && r.state.phases[c] == st.phases[c]
  {
    match decoded
    case Err(e) =>
      if e.Unrecognized? || e.VersionMismatch? then
        Step(st.(phases := st.phases[conn := Closed]), [Disconnect(conn)], None)
      else Step(st, [], Some(Uncaught(e)))
    case Ok(ps) =>
      if ps != [] && ps[0].HttpRequest? then
        Step(st.(phases := st.phases[conn := Closed]),
             [SendText(conn, HttpReply(env.address, env.httpPort)), Disconnect(conn)], None)
      else if ps != [] && ps[0].RequestId? then
        var p := Player(st.nextPlayer, conn, ps[0].name, [], None);
        AddPlayer(st.(nextPlayer := st.nextPlayer + 1), p)
      else if ps == [] then Step(st, [], Some(NullPacketType))
      else Step(st.(phases := st.phases[conn := Detached]), [], None)
  }

  // ---------------------------------------------------------------------------------------
  // Zone join

  /** How a join request ends: the new state and what was sent, or a `PlayerRejectedException`,
      or an uncaught exception (only in the search as written). */
  datatype Outcome = Done(state: State, effects: seq<Effect>) | Rejected(reason: string) | Failed(fault: Fault)

  /** Lines 256-259: the game configuration, if any, then the player enters the zone. */
  function Commit(env: Env, st: State, i: nat, zone: nat): (r: Outcome)
    requires i < |st.players|
    ensures r.Done? && |r.state.players| == |st.players| && r.state.phases == st.phases
    ensures r.state.zones == st.zones && r.state.players[i] == st.players[i].(zone := Some(zone))
    ensures forall j :: 0 <= j < |st.players| && j != i ==> r.state.players[j] == st.players[j]
    ensures |r.effects| >= 1 && r.effects[|r.effects| - 1] == EnterZone(st.players[i].id, zone)
  {
    var id := st.players[i].id;
    Done(st.(players := st.players[i := st.players[i].(zone := Some(zone))]),
         (if env.hasGameConfig then [SendServerOption(id)] else []) + [EnterZone(id, zone)])
  }

  /** Lines 230-260: join the zone with id `target` unless the player is in it already; create it
      when the registry has no such zone. */
  function JoinTarget(env: Env, st: State, i: nat, q: JoinRequest, target: int): (r: Outcome)
    requires i < |st.players|
    ensures r.Done? && |r.state.players| == |st.players| && r.state.phases == st.phases
    ensures forall j :: 0 <= j < |st.players| && j != i ==> r.state.players[j] == st.players[j]
    ensures r.state.players[i].(zone := st.players[i].zone) == st.players[i]
    ensures r.state.players[i].zone != st.players[i].zone ==>
              r.state.players[i].zone.Some? && HasZone(r.state.zones, r.state.players[i].zone.value)
    ensures r.state.zones == st.zones || r.state.zones == st.zones + [NewZone(st.nextZone, q)]
  {
    var p := st.players[i];
    if p.zone.Some? && p.zone.value == target then Done(st, [])
    else
      match FindZone(st.zones, target)
      case None =>
        var z := NewZone(st.nextZone, q);
        assert (st.zones + [z])[|st.zones|] == z;
        Commit(env, st.(zones := st.zones + [z], nextZone := st.nextZone + 1), i, z.id)
      case Some(k) =>
        if !st.zones[k].open then Done(st, [SendJoinRefused(p.id, ZoneClosed)])
        else if st.zones[k].password != q.password then Done(st, [SendJoinRefused(p.id, WrongPassword)])
        else Commit(env, st, i, st.zones[k].id)
  }

  /** `HandleJoinZoneRequest` for the `i`-th player, with the search read as `FirstOrDefault`. */
  function JoinZone(env: Env, st: State, i: nat, q: JoinRequest): (r: Outcome)
    requires i < |st.players|
    ensures r.Rejected? <==> !env.isLastVersion(q)
    ensures !r.Failed?
    ensures r.Done? ==> |r.state.players| == |st.players| && r.state.phases == st.phases
  {
    if !env.isLastVersion(q) then Rejected(Outdated)
    else if q.id == SearchId then
      var target := SearchTarget(st.zones, q);
      if target == NoZone && q.name == [] then Done(st, [SendJoinRefused(st.players[i].id, NoSuitableZones)])
      else JoinTarget(env, st, i, q, target)
    else JoinTarget(env, st, i, q, q.id)
  }

  /** `HandleJoinZoneRequest` as written: `First` throws when no zone matches. */
  function JoinZoneAsWritten(env: Env, st: State, i: nat, q: JoinRequest): (r: Outcome)
    requires i < |st.players|
    ensures r.Rejected? <==> !env.isLastVersion(q)
    ensures r.Failed? <==>
              env.isLastVersion(q) && q.id == SearchId && forall j :: 0 <= j < |st.zones| ==> !Matches(st.zones[j], q)
    ensures r.Done? ==> |r.state.players| == |st.players| && r.state.phases == st.phases
  {
    if !env.isLastVersion(q) then Rejected(Outdated)
    else if q.id == SearchId then
      match SearchTargetAsWritten(st.zones, q)
      case None => Failed(NoMatchingZone)
      case Some(target) =>
        if target == NoZone && q.name == [] then Done(st, [SendJoinRefused(st.players[i].id, NoSuitableZones)])
        else JoinTarget(env, st, i, q, target)
    else JoinTarget(env, st, i, q, q.id)
  }

  // ---------------------------------------------------------------------------------------
  // Player messages

  /** The `foreach` of `PlayerMessageHandler` over the decoded packets of the `i`-th player. A
      rejection removes the player and ends the loop; an unexpected packet throws
      `NotImplementedException`, which ends it too and escapes the handler. */
  function Dispatch(env: Env, st: State, i: nat, ps: seq<Packet>): (r: Step)
    requires i < |st.players|
    ensures |st.players| - 1 <= |r.state.players| <= |st.players|
    ensures r.fault != Some(NullPacketType)
    ensures (forall k :: 0 <= k < |ps| ==> ps[k].SetAlias?) ==>
              && r.effects == [] && r.fault.None? && r.state.zones == st.zones
              && |r.state.players| == |st.players|
              && r.state.players[i].alias == (if ps == [] then st.players[i].alias else ps[|ps| - 1].alias)
    decreases |ps|
  {
    if ps == [] then Step(st, [], None)
    else
      match ps[0]
      case JoinZone(q) =>
        (match JoinZone(env, st, i, q)
         case Rejected(_) => RemovePlayer(st, st.players[i].id)
         case Failed(f) => Step(st, [], Some(f))
         case Done(st', effects) =>
           var rest := Dispatch(env, st', i, ps[1..]);
           Step(rest.state, effects + rest.effects, rest.fault))
      case SetAlias(alias) =>
        Dispatch(env, st.(players := st.players[i := st.players[i].(alias := alias)]), i, ps[1..])
      case _ => Step(st, [], Some(NotImplemented))
  }

  /** `PlayerMessageHandler` on the outcome of `PacketHandler.Handle`: an unrecognized packet
      closes the player's connection and leaves it in the list; the other decode errors escape. */
  function PlayerMessage(env: Env, st: State, i: nat, decoded: Result<seq<Packet>>): (r: Step)
    requires i < |st.players|
    ensures |st.players| - 1 <= |r.state.players| <= |st.players|
    ensures decoded.Err? ==> r.state.players == st.players && r.state.zones == st.zones
    ensures r.fault != Some(NullPacketType)
  {
    match decoded
    case Err(e) =>
      if e.Unrecognized? then
        var conn := st.players[i].conn;
        Step(st.(phases := st.phases[conn := Closed]), [Disconnect(conn)], None)
      else Step(st, [], Some(Uncaught(e)))
    case Ok(ps) => Dispatch(env, st, i, ps)
  }

  /** A read on a connection, handled by whichever handler the connection is subscribed to. */
  function Receive(env: Env, st: State, conn: nat, data: Bytes): (r: Step)
    ensures conn !in st.phases || st.phases[conn] == Detached || st.phases[conn] == Closed ==> r == Step(st, [], None)
    ensures |r.state.players| > |st.players| ==> conn in st.phases && st.phases[conn] == PendingHandshake
    ensures |r.state.players| >= |st.players| - 1
    ensures r.fault != Some(NullPacketType)
  {
    if conn !in st.phases then Step(st, [], None)
    else
      match st.phases[conn]
      case PendingHandshake => NewConnection(env, st, conn, Decode(env.protocol, data))
      case Authenticated(id) =>
        (match FindPlayer(st.players, id)
         case Some(i) => PlayerMessage(env, st, i, Decode(env.protocol, data))
         case None => Step(st, [], None))
      case _ => Step(st, [], None)
  }

  // ---------------------------------------------------------------------------------------
  // Players: properties

  /** A tracked player leaves the list, and only it; its connection is closed. An untracked
      player changes nothing. */
  lemma RemovePlayerSpec(st: State, id: nat)
    requires UniquePlayers(st.players)
    ensures var r := RemovePlayer(st, id);
            && r.fault.None? && r.state.zones == st.zones
            && (forall j :: 0 <= j < |r.state.players| ==> r.state.players[j].id != id)
            && (forall j :: 0 <= j < |st.players| && st.players[j].id != id ==> st.players[j] in r.state.players)
            && (forall p :: p in r.state.players ==> p in st.players)
    ensures FindPlayer(st.players, id).None? ==> RemovePlayer(st, id) == Step(st, [], None)
    ensures FindPlayer(st.players, id).Some? ==>
              var p := st.players[FindPlayer(st.players, id).value];
              && |RemovePlayer(st, id).state.players| == |st.players| - 1
              && RemovePlayer(st, id).effects == [Disconnect(p.conn)]
              && RemovePlayer(st, id).state.phases == st.phases[p.conn := Closed]
  {
    var r := RemovePlayer(st, id);
    match FindPlayer(st.players, id)
    case None =>
    case Some(i) =>
      var ps := r.state.players;
      forall j | 0 <= j < |st.players| && st.players[j].id != id ensures st.players[j] in ps {
        if j < i {
          assert ps[j] == st.players[j];
        } else {
          assert ps[j - 1] == st.players[j];
        }
      }
      forall p | p in ps ensures p in st.players {
        var j :| 0 <= j < |ps| && ps[j] == p;
        if j < i {
          assert st.players[j] == p;
        } else {
          assert st.players[j + 1] == p;
        }
      }
  }

  /** Removing a player twice is removing it once. */
  lemma RemovePlayerIdempotent(st: State, id: nat)
    requires UniquePlayers(st.players)
    ensures var once := RemovePlayer(st, id).state;
            RemovePlayer(once, id) == Step(once, [], None)
  {
    RemovePlayerSpec(st, id);
  }

  // ---------------------------------------------------------------------------------------
  // Handshake: properties

  /** An HTTP request first on a new connection gets the canned answer and the connection is
      closed; no player is added. */
  lemma HandshakeHttp(env: Env, st: State, conn: nat, ps: seq<Packet>)
    requires ps != [] && ps[0] == HttpRequest
    ensures var r := NewConnection(env, st, conn, Ok(ps));
            && r.effects == [SendText(conn, HttpReply(env.address, env.httpPort)), Disconnect(conn)]
            && r.state.players == st.players && r.state.zones == st.zones
            && r.state.phases == st.phases[conn := Closed] && r.fault.None?
  {
  }

  /** A `RequestId` first on a new connection appends exactly one player, with the packet's name
      and a fresh id, sends it its id and then the connected event, and subscribes the connection
      to it; later packets of the read are ignored. */
  lemma HandshakeIdentify(env: Env, st: State, conn: nat, name: Bytes, ps: seq<Packet>)
    ensures var r := NewConnection(env, st, conn, Ok([RequestId(name)] + ps));
            && r.state.players == st.players + [Player(st.nextPlayer, conn, name, [], None)]
            && r.effects == [SendResponseId(st.nextPlayer), SendPlayerConnected(st.nextPlayer)]
            && r.state.phases == st.phases[conn := Authenticated(st.nextPlayer)]
            && r.state.zones == st.zones && r.state.nextPlayer == st.nextPlayer + 1 && r.fault.None?
  {
  }

  /** An unrecognized packet or a version mismatch closes the new connection and adds no player. */
  lemma HandshakeRefused(env: Env, st: State, conn: nat, e: DecodeError)
    requires e.Unrecognized? || e.VersionMismatch?
    ensures var r := NewConnection(env, st, conn, Err(e));
            && r.effects == [Disconnect(conn)] && r.state.players == st.players
            && r.state.phases == st.phases[conn := Closed] && r.fault.None?
  {
  }

  /** The connection leaves the handshake exactly when no exception escapes. One escapes exactly
      for a truncated frame, a bad length prefix or a negative string length, and for a read
      that decodes to no packet at all; then nothing changes. Only a `RequestId` adds a player. */
  lemma HandshakeLeaves(env: Env, st: State, conn: nat, decoded: Result<seq<Packet>>)
    requires conn in st.phases && st.phases[conn] == PendingHandshake
    ensures var r := NewConnection(env, st, conn, decoded);
            && conn in r.state.phases
            && (r.fault.None? <==> r.state.phases[conn] != PendingHandshake)
            && (r.fault.Some? <==>
                  decoded == Ok([]) || (decoded.Err? && !decoded.error.Unrecognized? && !decoded.error.VersionMismatch?))
            && (r.fault.Some? ==> r.state == st && r.effects == [])
            && (decoded.Err? && r.fault.Some? ==> r.fault == Some(Uncaught(decoded.error)))
            && (decoded == Ok([]) ==> r.fault == Some(NullPacketType))
            && (r.state.players != st.players ==> decoded.Ok? && decoded.value != [] && decoded.value[0].RequestId?)
  {
  }

  // ---------------------------------------------------------------------------------------
  // Zone join: properties

  /** The join of a zone by id, by case: already there, a new zone, a closed zone, a wrong
      password, or entering the zone, after the game configuration when there is one. */
  lemma JoinTargetSpec(env: Env, st: State, i: nat, q: JoinRequest, target: int)
    requires i < |st.players|
    ensures var r := JoinTarget(env, st, i, q, target);
            var p := st.players[i];
            && r.Done?
            && (p.zone == Some(target) ==> r == Done(st, []))
            && (p.zone != Some(target) && FindZone(st.zones, target).Some? ==>
                  var z := st.zones[FindZone(st.zones, target).value];
                  && (!z.open ==> r == Done(st, [SendJoinRefused(p.id, ZoneClosed)]))
                  && (z.open && z.password != q.password ==> r == Done(st, [SendJoinRefused(p.id, WrongPassword)]))
                  && (z.open && z.password == q.password ==> Entered(env, st, r.state, r.effects, i, z.id)))
            && (p.zone != Some(target) && FindZone(st.zones, target).None? ==>
                  && r.state.zones == st.zones + [NewZone(st.nextZone, q)]
                  && r.state.nextZone == st.nextZone + 1
                  && Entered(env, st, r.state, r.effects, i, st.nextZone))
  {
  }

  /** The `i`-th player entered `zone`: only its zone changed, and the game configuration, if
      there is one, went out before it entered. */
  predicate Entered(env: Env, st: State, st': State, effects: seq<Effect>, i: nat, zone: nat)
    requires i < |st.players|
  {
    && |st'.players| == |st.players|
    && st'.players[i] == st.players[i].(zone := Some(zone))
    && (forall j :: 0 <= j < |st.players| && j != i ==> st'.players[j] == st.players[j])
    && st'.phases == st.phases
    && effects == (if env.hasGameConfig then [SendServerOption(st.players[i].id)] else [])
                  + [EnterZone(st.players[i].id, zone)]
  }

  /** An outdated client is rejected; a search that finds nothing for an unnamed request is
      answered "No suitable zones found" and changes nothing; one that finds nothing for a named
      request goes on with the id `-1`, which no zone has, so a new zone is created from the request
      and the player enters it; otherwise the player joins the zone the id names, or the first
      open zone that matches. */
  lemma JoinZoneSpec(env: Env, st: State, i: nat, q: JoinRequest)
    requires i < |st.players|
    ensures !env.isLastVersion(q) ==> JoinZone(env, st, i, q) == Rejected(Outdated)
    ensures env.isLastVersion(q) && q.id != SearchId ==> JoinZone(env, st, i, q) == JoinTarget(env, st, i, q, q.id)
    ensures env.isLastVersion(q) && q.id == SearchId && q.name == []
            && (forall j :: 0 <= j < |st.zones| ==> !Matches(st.zones[j], q))
            ==> JoinZone(env, st, i, q) == Done(st, [SendJoinRefused(st.players[i].id, NoSuitableZones)])
    ensures env.isLastVersion(q) && q.id == SearchId && q.name != []
            && (forall j :: 0 <= j < |st.zones| ==> !Matches(st.zones[j], q))
            ==> var r := JoinZone(env, st, i, q);
                && r == JoinTarget(env, st, i, q, NoZone)
                && r.Done?
                && r.state.zones == st.zones + [NewZone(st.nextZone, q)]
                && r.state.nextZone == st.nextZone + 1
                && Entered(env, st, r.state, r.effects, i, st.nextZone)
    ensures env.isLastVersion(q) && q.id == SearchId && FirstMatch(st.zones, q).Some?
            ==> JoinZone(env, st, i, q) == JoinTarget(env, st, i, q, st.zones[FirstMatch(st.zones, q).value].id)
  {
    SearchTargetSpec(st.zones, q);
    JoinTargetSpec(env, st, i, q, NoZone);
  }

  // ---------------------------------------------------------------------------------------
  // Player messages: properties

  /** A decode failure handles none of the read's packets: the players and zones stay as they
      were. An unrecognized packet closes the player's connection but keeps the player. */
  lemma PlayerDecodeFails(env: Env, st: State, i: nat, e: DecodeError)
    requires i < |st.players|
    ensures var r := PlayerMessage(env, st, i, Err(e));
            && r.state.players == st.players && r.state.zones == st.zones
            && (e.Unrecognized? ==>
                  r.effects == [Disconnect(st.players[i].conn)]
                  && r.state.phases == st.phases[st.players[i].conn := Closed] && r.fault.None?)
            && (!e.Unrecognized? ==> r == Step(st, [], Some(Uncaught(e))))
  {
  }

  /** `SetAlias` sets the player's alias and nothing else; the packets after it are handled on. */
  lemma SetAliasOnly(env: Env, st: State, i: nat, alias: Bytes, ps: seq<Packet>)
    requires i < |st.players|
    ensures var st' := st.(players := st.players[i := st.players[i].(alias := alias)]);
            && Dispatch(env, st, i, [SetAlias(alias)] + ps) == Dispatch(env, st', i, ps)
            && st'.players[i].alias == alias
            && st'.players[i] == st.players[i].(alias := alias)
            && (forall j :: 0 <= j < |st.players| && j != i ==> st'.players[j] == st.players[j])
  {
    assert ([SetAlias(alias)] + ps)[1..] == ps;
  }

  /** A join request of an outdated client removes the player and closes its connection; the
      packets after it are not handled. */
  lemma OutdatedRemoves(env: Env, st: State, i: nat, q: JoinRequest, ps: seq<Packet>)
    requires i < |st.players| && UniquePlayers(st.players) && !env.isLastVersion(q)
    ensures var r := Dispatch(env, st, i, [Packets.JoinZone(q)] + ps);
            && r.state.players == RemoveAt(st.players, i)
            && r.effects == [Disconnect(st.players[i].conn)]
            && r.state.phases == st.phases[st.players[i].conn := Closed]
            && r.fault.None?
  {
    assert ([Packets.JoinZone(q)] + ps)[0] == Packets.JoinZone(q);
    assert FindPlayer(st.players, st.players[i].id) == Some(i);
  }

  /** A packet with no session handler (an HTTP request or a second `RequestId`) throws: the
      packets after it are not handled and nothing changes. */
  lemma UnexpectedPacket(env: Env, st: State, i: nat, p: Packet, ps: seq<Packet>)
    requires i < |st.players| && (p.HttpRequest? || p.RequestId?)
    ensures Dispatch(env, st, i, [p] + ps) == Step(st, [], Some(NotImplemented))
  {
    assert ([p] + ps)[0] == p;
  }
}
