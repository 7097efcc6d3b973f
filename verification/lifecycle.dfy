/** Whole-server properties of `GameServer`: every handler keeps the server's invariant, a read is
    routed to the handler its connection is subscribed to, and what a client's encoded messages
    lead to. */
module Lifecycle {
  import opened Base
  import opened Wire
  import opened Packets
  import opened Decoder
  import opened Zones
  import opened Http
  import opened Server

  // ---------------------------------------------------------------------------------------
  // The invariant is kept

  /** A new connection gets a fresh number and keeps the invariant. */
  lemma AcceptValid(st: State)
    requires Valid(st)
    ensures Valid(Accept(st))
    ensures st.nextConn !in st.phases && Accept(st).phases[st.nextConn] == PendingHandshake
  {
    var st' := Accept(st);
    forall i | 0 <= i < |st'.players| ensures PlayerLinked(st', st'.players[i]) {
      assert PlayerLinked(st, st.players[i]);
    }
  }

  /** No player owns a connection that is still waiting for its handshake. */
  lemma PendingUnowned(st: State, conn: nat)
    requires Valid(st) && conn in st.phases && st.phases[conn] == PendingHandshake
    ensures forall j :: 0 <= j < |st.players| ==> st.players[j].conn != conn
  {
    forall j | 0 <= j < |st.players| ensures st.players[j].conn != conn {
      assert PlayerLinked(st, st.players[j]);
    }
  }

  /** Closing or detaching a connection no player owns keeps the invariant. */
  lemma SetUnownedValid(st: State, conn: nat, ph: Phase)
    requires Valid(st) && conn in st.phases && !ph.Authenticated?
    requires forall j :: 0 <= j < |st.players| ==> st.players[j].conn != conn
    ensures Valid(st.(phases := st.phases[conn := ph]))
  {
    var st' := st.(phases := st.phases[conn := ph]);
    forall j | 0 <= j < |st.players| ensures PlayerLinked(st', st.players[j]) {
      assert PlayerLinked(st, st.players[j]);
    }
  }

  /** The handshake keeps the invariant, whatever the read decoded to. */
  lemma NewConnectionValid(env: Env, st: State, conn: nat, decoded: Result<seq<Packet>>)
    requires Valid(st) && conn in st.phases && st.phases[conn] == PendingHandshake
    ensures Valid(NewConnection(env, st, conn, decoded).state)
  {
    PendingUnowned(st, conn);
    match decoded
    case Err(e) =>
      if e.Unrecognized? || e.VersionMismatch? {
        SetUnownedValid(st, conn, Closed);
      }
    case Ok(ps) =>
      if ps != [] && ps[0].HttpRequest? {
        SetUnownedValid(st, conn, Closed);
      } else if ps != [] && ps[0].RequestId? {
        IdentifyValid(st, conn, ps[0].name);
      } else {
        SetUnownedValid(st, conn, Detached);
      }
  }

  /** Adding the identified player keeps the invariant. */
  lemma IdentifyValid(st: State, conn: nat, name: Bytes)
    requires Valid(st) && conn in st.phases && st.phases[conn] == PendingHandshake
    requires forall j :: 0 <= j < |st.players| ==> st.players[j].conn != conn
    ensures Valid(AddPlayer(st.(nextPlayer := st.nextPlayer + 1), Player(st.nextPlayer, conn, name, [], None)).state)
  {
    var p := Player(st.nextPlayer, conn, name, [], None);
    var st' := AddPlayer(st.(nextPlayer := st.nextPlayer + 1), p).state;
    var n := |st.players|;
    assert st'.players == st.players + [p];
    forall j | 0 <= j < |st'.players| ensures PlayerLinked(st', st'.players[j]) {
      if j < n {
        assert st'.players[j] == st.players[j];
        assert PlayerLinked(st, st.players[j]);
      }
    }
    forall c | c in st'.phases && st'.phases[c].Authenticated?
      ensures OwnedBy(st'.players, c, st'.phases[c].player)
    {
      if c == conn {
        assert st'.players[n] == p;
      } else {
        var k :| 0 <= k < n && st.players[k].id == st.phases[c].player && st.players[k].conn == c;
        assert st'.players[k] == st.players[k];
      }
    }
  }

  /** Removing a player keeps the invariant. */
  lemma RemovePlayerValid(st: State, id: nat)
    requires Valid(st)
    ensures Valid(RemovePlayer(st, id).state)
  {
    match FindPlayer(st.players, id)
    case None =>
    case Some(i) =>
      RemoveAtValid(st, i);
      assert RemovePlayer(st, id).state == WithoutPlayer(st, i);
  }

  /** The state after the `i`-th player leaves and its connection is closed. */
  function WithoutPlayer(st: State, i: nat): State
    requires i < |st.players|
  {
    st.(players := RemoveAt(st.players, i), phases := st.phases[st.players[i].conn := Closed])
  }

  /** Dropping the `i`-th player and closing its connection keeps the invariant. */
  lemma RemoveAtValid(st: State, i: nat)
    requires Valid(st) && i < |st.players|
    ensures Valid(WithoutPlayer(st, i))
  {
    RemoveAtUnique(st.players, i);
    RemoveAtLinked(st, i);
    RemoveAtOwned(st, i);
  }

  lemma RemoveAtLinked(st: State, i: nat)
    requires Valid(st) && i < |st.players|
    ensures var st' := WithoutPlayer(st, i);
            forall j :: 0 <= j < |st'.players| ==> PlayerLinked(st', st'.players[j]) && st'.players[j].id < st.nextPlayer
  {
    var st' := WithoutPlayer(st, i);
    var ps := st'.players;
    forall j | 0 <= j < |ps| ensures PlayerLinked(st', ps[j]) && ps[j].id < st.nextPlayer {
      var k := if j < i then j else j + 1;
      assert ps[j] == st.players[k];
      assert PlayerLinked(st, st.players[k]);
    }
  }

  lemma RemoveAtOwned(st: State, i: nat)
    requires Valid(st) && i < |st.players|
    ensures var st' := WithoutPlayer(st, i);
            forall c :: c in st'.phases && st'.phases[c].Authenticated? ==> OwnedBy(st'.players, c, st'.phases[c].player)
  {
    var st' := WithoutPlayer(st, i);
    var ps := st'.players;
    forall c | c in st'.phases && st'.phases[c].Authenticated?
      ensures OwnedBy(ps, c, st'.phases[c].player)
    {
      var k :| 0 <= k < |st.players| && st.players[k].id == st.phases[c].player && st.players[k].conn == c;
      var j := if k < i then k else k - 1;
      assert ps[j] == st.players[k];
    }
  }

  /** Dropping a player keeps ids and connections distinct. */
  lemma RemoveAtUnique(players: seq<Player>, i: nat)
    requires UniquePlayers(players) && i < |players|
    ensures UniquePlayers(RemoveAt(players, i))
  {
    var ps := RemoveAt(players, i);
    forall a, b | 0 <= a < b < |ps| ensures ps[a].id != ps[b].id && ps[a].conn != ps[b].conn {
      var a' := if a < i then a else a + 1;
      var b' := if b < i then b else b + 1;
      assert ps[a] == players[a'] && ps[b] == players[b'];
    }
  }

  /** Moving the `i`-th player into a zone of the registry keeps the invariant. */
  lemma CommitValid(env: Env, st: State, i: nat, zone: nat)
    requires Valid(st) && i < |st.players| && HasZone(st.zones, zone)
    ensures Valid(Commit(env, st, i, zone).state)
  {
    var st' := Commit(env, st, i, zone).state;
    forall j | 0 <= j < |st'.players| ensures PlayerLinked(st', st'.players[j]) {
      assert PlayerLinked(st, st.players[j]);
    }
    forall c | c in st'.phases && st'.phases[c].Authenticated?
      ensures OwnedBy(st'.players, c, st'.phases[c].player)
    {
      var k :| 0 <= k < |st.players| && st.players[k].id == st.phases[c].player && st.players[k].conn == c;
      assert st'.players[k].id == st.players[k].id && st'.players[k].conn == st.players[k].conn;
    }
  }

  /** Registering the zone a request creates keeps the invariant and puts its id in the registry. */
  lemma CreateZoneValid(st: State, q: JoinRequest)
    requires Valid(st)
    ensures var st' := st.(zones := st.zones + [NewZone(st.nextZone, q)], nextZone := st.nextZone + 1);
            Valid(st') && HasZone(st'.zones, st.nextZone)
  {
    var st' := st.(zones := st.zones + [NewZone(st.nextZone, q)], nextZone := st.nextZone + 1);
    AddZoneValid(st.zones, st.nextZone, q);
    forall j | 0 <= j < |st.players| ensures PlayerLinked(st', st.players[j]) {
      assert PlayerLinked(st, st.players[j]);
    }
    assert st'.zones[|st.zones|].id == st.nextZone;
  }

  /** A join by id keeps the invariant. */
  lemma JoinTargetValid(env: Env, st: State, i: nat, q: JoinRequest, target: int)
    requires Valid(st) && i < |st.players|
    ensures JoinTarget(env, st, i, q, target).Done?
    ensures Valid(JoinTarget(env, st, i, q, target).state)
  {
    var p := st.players[i];
    if p.zone.Some? && p.zone.value == target {
    } else {
      match FindZone(st.zones, target)
      case None =>
        var st1 := st.(zones := st.zones + [NewZone(st.nextZone, q)], nextZone := st.nextZone + 1);
        CreateZoneValid(st, q);
        CommitValid(env, st1, i, st.nextZone);
        assert JoinTarget(env, st, i, q, target) == Commit(env, st1, i, st.nextZone);
      case Some(k) =>
        if st.zones[k].open && st.zones[k].password == q.password {
          CommitValid(env, st, i, st.zones[k].id);
        }
    }
  }

  /** A join request that completes keeps the invariant. */
  lemma JoinZoneValid(env: Env, st: State, i: nat, q: JoinRequest)
    requires Valid(st) && i < |st.players|
    ensures Server.JoinZone(env, st, i, q).Done? ==> Valid(Server.JoinZone(env, st, i, q).state)
  {
    if env.isLastVersion(q) {
      if q.id == SearchId {
        JoinTargetValid(env, st, i, q, SearchTarget(st.zones, q));
      } else {
        JoinTargetValid(env, st, i, q, q.id);
      }
    }
  }

  /** Handling the packets of a read keeps the invariant, wherever the loop stops. */
  lemma {:induction false} DispatchValid(env: Env, st: State, i: nat, ps: seq<Packet>)
    requires Valid(st) && i < |st.players|
    ensures Valid(Dispatch(env, st, i, ps).state)
    decreases |ps|
  {
    if ps != [] {
      match ps[0]
      case JoinZone(q) =>
        JoinZoneValid(env, st, i, q);
        match Server.JoinZone(env, st, i, q) {
          case Rejected(_) => RemovePlayerValid(st, st.players[i].id);
          case Failed(_) =>
          case Done(st', _) => DispatchValid(env, st', i, ps[1..]);
        }
      case SetAlias(alias) =>
        var st' := st.(players := st.players[i := st.players[i].(alias := alias)]);
        forall j | 0 <= j < |st'.players| ensures PlayerLinked(st', st'.players[j]) {
          assert PlayerLinked(st, st.players[j]);
        }
        forall c | c in st'.phases && st'.phases[c].Authenticated?
          ensures OwnedBy(st'.players, c, st'.phases[c].player)
        {
          var k :| 0 <= k < |st.players| && st.players[k].id == st.phases[c].player && st.players[k].conn == c;
          assert st'.players[k].id == st.players[k].id && st'.players[k].conn == st.players[k].conn;
        }
        DispatchValid(env, st', i, ps[1..]);
      case _ =>
    }
  }

  /** A player's read keeps the invariant, whatever it decoded to. */
  lemma PlayerMessageValid(env: Env, st: State, i: nat, decoded: Result<seq<Packet>>)
    requires Valid(st) && i < |st.players|
    ensures Valid(PlayerMessage(env, st, i, decoded).state)
  {
    match decoded
    case Err(e) =>
      if e.Unrecognized? {
        var conn := st.players[i].conn;
        var st' := st.(phases := st.phases[conn := Closed]);
        assert PlayerLinked(st, st.players[i]);
        forall j | 0 <= j < |st.players| ensures PlayerLinked(st', st.players[j]) {
          assert PlayerLinked(st, st.players[j]);
        }
      }
    case Ok(ps) => DispatchValid(env, st, i, ps);
  }

  /** Any read on any connection keeps the invariant. */
  lemma ReceiveValid(env: Env, st: State, conn: nat, data: Bytes)
    requires Valid(st)
    ensures Valid(Receive(env, st, conn, data).state)
  {
    if conn in st.phases {
      match st.phases[conn]
      case PendingHandshake => NewConnectionValid(env, st, conn, Decode(env.protocol, data));
      case Authenticated(id) =>
        match FindPlayer(st.players, id) {
          case Some(i) => PlayerMessageValid(env, st, i, Decode(env.protocol, data));
          case None =>
        }
      case _ =>
    }
  }

  // ---------------------------------------------------------------------------------------
  // Reads, end to end

  /** A read on a connection subscribed to a player goes to that player's handler. */
  lemma ReceiveRoutes(env: Env, st: State, conn: nat, data: Bytes)
    requires Valid(st) && conn in st.phases && st.phases[conn].Authenticated?
    ensures var id := st.phases[conn].player;
            && FindPlayer(st.players, id).Some?
            && var i := FindPlayer(st.players, id).value;
               && st.players[i].conn == conn
               && Receive(env, st, conn, data) == PlayerMessage(env, st, i, Decode(env.protocol, data))
  {
    var id := st.phases[conn].player;
    var k :| 0 <= k < |st.players| && st.players[k].id == id && st.players[k].conn == conn;
    var i := FindPlayer(st.players, id).value;
    assert i == k;
  }

  /** A plain HTTP request on a new connection is answered with the redirect when the HTTP
      server's port is positive, and with "service unavailable" otherwise; the connection is then
      closed and no player is added. */
  lemma BrowserGetsRedirect(env: Env, st: State, conn: nat, data: Bytes)
    requires conn in st.phases && st.phases[conn] == PendingHandshake
    requires |data| >= 4 && data[..4] == ['G' as Byte, 'E' as Byte, 'T' as Byte, ' ' as Byte]
    ensures var r := Receive(env, st, conn, data);
            && |r.effects| == 2 && r.effects[0].SendText? && r.effects[1] == Disconnect(conn)
            && FirstLine(r.effects[0].text) == (if env.httpPort > 0 then MovedStatus else UnavailableStatus)
            && r.state.players == st.players && r.state.phases[conn] == Closed && r.fault.None?
  {
    HttpProbe(env.protocol, |data|, data, 0);
    HttpReplyStatus(env.address, env.httpPort);
  }

  /** A read that is an encoded `RequestId` (whose name is trimmed, as the encoder demands)
      followed by whole well-formed frames adds exactly that player under that name; the later
      frames are ignored. A malformed rest fails the whole read instead: see
      `ClientPartialRest`. */
  lemma ClientIdentifies(env: Env, st: State, conn: nat, name: Bytes, more: seq<Packet>)
    requires conn in st.phases && st.phases[conn] == PendingHandshake
    requires AllWellFormed(env.protocol, [RequestId(name)] + more)
    requires |Encode(env.protocol, [RequestId(name)] + more)| < TwoTo32
    ensures var r := Receive(env, st, conn, Encode(env.protocol, [RequestId(name)] + more));
            && r.state.players == st.players + [Player(st.nextPlayer, conn, name, [], None)]
            && r.state.phases[conn] == Authenticated(st.nextPlayer)
            && r.effects == [SendResponseId(st.nextPlayer), SendPlayerConnected(st.nextPlayer)]
            && r.fault.None?
  {
    RoundTrip(env.protocol, [RequestId(name)] + more);
    HandshakeIdentify(env, st, conn, name, more);
  }

  /** A read that is an encoded `RequestId` followed by a partial size field fails as a whole:
      the exception escapes, no player is added and the connection still waits for its
      handshake. */
  lemma ClientPartialRest(env: Env, st: State, conn: nat, name: Bytes, tail: Bytes)
    requires conn in st.phases && st.phases[conn] == PendingHandshake
    requires WellFormed(env.protocol, RequestId(name))
    requires 1 <= |tail| < 4 && |EncodeFrame(env.protocol, RequestId(name)) + tail| < TwoTo32
    ensures var r := Receive(env, st, conn, EncodeFrame(env.protocol, RequestId(name)) + tail);
            && r == Step(st, [], Some(Uncaught(Truncated)))
            && r.state.phases[conn] == PendingHandshake
  {
    PartialSizeAfterFrame(env.protocol, RequestId(name), tail);
  }

  /** The `Player` of the stored name: the name a client identifies with is stored trimmed, so a
      client whose encoded name is already trimmed is stored under exactly that name. */
  lemma IdentifiedNameTrimmed(env: Env, st: State, conn: nat, data: Bytes)
    requires conn in st.phases && st.phases[conn] == PendingHandshake
    ensures var r := Receive(env, st, conn, data);
            forall j :: |st.players| <= j < |r.state.players| ==>
              IsTrimmed(r.state.players[j].name) && r.state.players[j].conn == conn
  {
    var r := Receive(env, st, conn, data);
    var decoded := Decode(env.protocol, data);
    if decoded.Ok? && decoded.value != [] && decoded.value[0].RequestId? {
      RequestIdsTrimmed(env.protocol, data);
      assert r.state.players == st.players + [Player(st.nextPlayer, conn, decoded.value[0].name, [], None)];
    }
  }

  /** Every name in a decoded `RequestId` is trimmed. */
  lemma RequestIdsTrimmed(w: Protocol, data: Bytes)
    ensures var d := Decode(w, data);
            d.Ok? && d.value != [] && d.value[0].RequestId? ==> IsTrimmed(d.value[0].name)
  {
    var d := Decode(w, data);
    if d.Ok? && d.value != [] && d.value[0].RequestId? {
      assert NameTrimmed(d.value[0]);
    }
  }

  // ---------------------------------------------------------------------------------------
  // The search when no zone matches

  /** A search for any zone that nothing matches: as written, `First` throws and the player gets
      no answer; with the `FirstOrDefault` reading it is told that no zone suits it and nothing
      changes. */
  lemma SearchWithoutMatch(env: Env, st: State, i: nat, q: JoinRequest)
    requires i < |st.players| && env.isLastVersion(q) && q.id == SearchId && q.name == []
    requires forall j :: 0 <= j < |st.zones| ==> !Matches(st.zones[j], q)
    ensures JoinZoneAsWritten(env, st, i, q) == Failed(NoMatchingZone)
    ensures Server.JoinZone(env, st, i, q) == Done(st, [SendJoinRefused(st.players[i].id, NoSuitableZones)])
  {
    SearchAsWrittenFails(st.zones, q);
    JoinZoneSpec(env, st, i, q);
  }

  /** The first search on a server without zones. */
  lemma FirstSearchOnEmptyServer()
    ensures var env := Env(Protocol(1, 2, 3, 0), "localhost", 80, false, (q: JoinRequest) => true);
            var st := State([Player(0, 0, [], [], None)], [], map[0 := Authenticated(0)], 1, 1, 0);
            var q := JoinRequest(SearchId, [], [], false, 0);
            && JoinZoneAsWritten(env, st, 0, q) == Failed(NoMatchingZone)
            && Server.JoinZone(env, st, 0, q) == Done(st, [SendJoinRefused(0, NoSuitableZones)])
  {
    var env := Env(Protocol(1, 2, 3, 0), "localhost", 80, false, (q: JoinRequest) => true);
    var st := State([Player(0, 0, [], [], None)], [], map[0 := Authenticated(0)], 1, 1, 0);
    SearchWithoutMatch(env, st, 0, JoinRequest(SearchId, [], [], false, 0));
  }

  /** As written and corrected, the join agrees whenever the search finds a zone or is not asked
      for. */
  lemma AsWrittenAgrees(env: Env, st: State, i: nat, q: JoinRequest)
    requires i < |st.players|
    requires q.id != SearchId || exists j :: 0 <= j < |st.zones| && Matches(st.zones[j], q)
    ensures JoinZoneAsWritten(env, st, i, q) == Server.JoinZone(env, st, i, q)
  {
    SearchAsWrittenFails(st.zones, q);
  }

  /** A search that names no zone, against a registry whose first zone is open and has a password
      the request does not carry, picks that zone and is then refused with "Wrong password". */
  lemma SearchThenWrongPassword(env: Env, st: State, i: nat, q: JoinRequest)
    requires Valid(st) && i < |st.players| && st.players[i].zone.None?
    requires env.isLastVersion(q) && q.id == SearchId && q.name == []
    requires |st.zones| > 0 && st.zones[0].open && HasPassword(st.zones[0]) && q.password != st.zones[0].password
    ensures Server.JoinZone(env, st, i, q) == Done(st, [SendJoinRefused(st.players[i].id, WrongPassword)])
  {
    SearchPasswordTest(st.zones[0], q);
    FindZoneUnique(st.zones, st.nextZone, st.zones[0].id, 0);
  }

  /** A search that names no zone and carries no password, against a registry of one open zone
      without a password, puts a player that is in no zone into that zone. */
  lemma SearchJoinsLoneZone(env: Env, st: State, i: nat, q: JoinRequest)
    requires Valid(st) && i < |st.players| && st.players[i].zone.None?
    requires env.isLastVersion(q) && q.id == SearchId && q.name == [] && q.password == []
    requires |st.zones| == 1 && st.zones[0].open && st.zones[0].password == []
    ensures Server.JoinZone(env, st, i, q).Done?
    ensures Server.JoinZone(env, st, i, q).state.players[i].zone == Some(st.zones[0].id)
    ensures Server.JoinZone(env, st, i, q).state.zones == st.zones
  {
    assert st.zones == [st.zones[0]];
    SearchSingleOpenZone(st.zones[0], q);
    JoinTargetSpec(env, st, i, q, st.zones[0].id);
  }
}
