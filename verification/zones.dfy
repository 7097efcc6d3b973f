/** The zone registry of `GameServer`: the zones, the search behind the `-2` zone id, and the
    lookup by id of `HandleJoinZoneRequest`. */
module Zones {
  import opened Base
  import opened Packets

  /** A zone. `Zone`'s own source is not part of this model: its id is taken from the registry's
      counter, and `IsOpen` and `HasPassword` are read from the fields below. */
  datatype Zone = Zone(id: nat, name: Bytes, password: Bytes, maxPlayers: nat, persistent: bool, open: bool)

  /** The request id that asks the server to search for a zone. */
  const SearchId: int := -2

  /** The id the search yields when no zone matches. */
  const NoZone: int := -1

  predicate HasPassword(z: Zone) {
    z.password != []
  }

  /** The search predicate: the zone is open, the request names no zone or this one, and the zone
      has a password or the request's password is the zone's. */
  predicate Matches(z: Zone, q: JoinRequest) {
    && z.open
    && (q.name == [] || q.name == z.name)
    && (HasPassword(z) || q.password == z.password)
  }

  /** The position of the first zone, in registry order, that matches the request. */
  function FirstMatch(zones: seq<Zone>, q: JoinRequest): (r: Option<nat>)
    ensures r.Some? ==> r.value < |zones| && Matches(zones[r.value], q)
    ensures r.Some? ==> forall j :: 0 <= j < r.value ==> !Matches(zones[j], q)
    ensures r.None? <==> forall j :: 0 <= j < |zones| ==> !Matches(zones[j], q)
  {
    if zones == [] then None
    else if Matches(zones[0], q) then Some(0)
    else
      match FirstMatch(zones[1..], q)
      case None =>
        assert forall j :: 1 <= j < |zones| ==> zones[j] == zones[1..][j - 1];
        None
      case Some(k) =>
        assert forall j :: 1 <= j <= k + 1 ==> zones[j] == zones[1..][j - 1];
        Some(k + 1)
  }

  /** Lines 216-220 read with `FirstOrDefault`: the id of the first matching zone, or `-1`. */
  function SearchTarget(zones: seq<Zone>, q: JoinRequest): int {
    match FirstMatch(zones, q)
    case Some(k) => zones[k].id
    case None => NoZone
  }

  /** Lines 216-220 as written: `First` throws `InvalidOperationException` (here `None`) when no
      zone matches, so the `?? -1` fallback never applies. */
  function SearchTargetAsWritten(zones: seq<Zone>, q: JoinRequest): Option<int> {
    match FirstMatch(zones, q)
    case Some(k) => Some(zones[k].id)
    case None => None
  }

  /** The search finds the first zone in registry order that matches, or `-1` when none does. */
  lemma SearchTargetSpec(zones: seq<Zone>, q: JoinRequest)
    ensures SearchTarget(zones, q) == NoZone <==> forall j :: 0 <= j < |zones| ==> !Matches(zones[j], q)
    ensures SearchTarget(zones, q) != NoZone ==>
              exists k :: 0 <= k < |zones| && zones[k].id == SearchTarget(zones, q) && Matches(zones[k], q)
                          && forall j :: 0 <= j < k ==> !Matches(zones[j], q)
  {
    match FirstMatch(zones, q)
    case Some(k) =>
      assert zones[k].id == SearchTarget(zones, q);
    case None =>
  }

  /** As written, the search fails exactly when the corrected search yields `-1`, and otherwise
      agrees with it. */
  lemma SearchAsWrittenFails(zones: seq<Zone>, q: JoinRequest)
    ensures SearchTargetAsWritten(zones, q).None? <==> SearchTarget(zones, q) == NoZone
    ensures SearchTargetAsWritten(zones, q).Some? ==> SearchTargetAsWritten(zones, q).value == SearchTarget(zones, q)
  {
  }

  /** A search with no name and no password finds a lone open zone without a password. */
  lemma SearchSingleOpenZone(z: Zone, q: JoinRequest)
    requires z.open && z.password == [] && q.name == [] && q.password == []
    ensures SearchTarget([z], q) == z.id
  {
  }

  /** As written, the password test of the search lets every open zone with a password match,
      whatever password the request carries; only a zone without one must match the password. */
  lemma SearchPasswordTest(z: Zone, q: JoinRequest)
    requires z.open && (q.name == [] || q.name == z.name)
    ensures HasPassword(z) ==> Matches(z, q)
    ensures !HasPassword(z) ==> (Matches(z, q) <==> q.password == [])
  {
  }

  /** The position of the zone with the given id, `FirstOrDefault` at line 234. */
  function FindZone(zones: seq<Zone>, id: int): (r: Option<nat>)
    ensures r.Some? ==> r.value < |zones| && zones[r.value].id == id
    ensures r.Some? ==> forall j :: 0 <= j < r.value ==> zones[j].id != id
    ensures r.None? <==> forall j :: 0 <= j < |zones| ==> zones[j].id != id
  {
    if zones == [] then None
    else if zones[0].id == id then Some(0)
    else
      match FindZone(zones[1..], id)
      case None =>
        assert forall j :: 1 <= j < |zones| ==> zones[j] == zones[1..][j - 1];
        None
      case Some(k) =>
        assert forall j :: 1 <= j <= k + 1 ==> zones[j] == zones[1..][j - 1];
        Some(k + 1)
  }

  /** The zones of a registry have distinct ids, all below the next id to hand out. */
  predicate ValidZones(zones: seq<Zone>, nextZone: nat) {
    && (forall i :: 0 <= i < |zones| ==> zones[i].id < nextZone)
    && (forall i, j :: 0 <= i < j < |zones| ==> zones[i].id != zones[j].id)
  }

  predicate HasZone(zones: seq<Zone>, id: int) {
    exists i :: 0 <= i < |zones| && zones[i].id == id
  }

  /** In a registry with distinct ids, the lookup finds the one zone with that id. */
  lemma FindZoneUnique(zones: seq<Zone>, nextZone: nat, id: int, i: nat)
    requires ValidZones(zones, nextZone) && i < |zones| && zones[i].id == id
    ensures FindZone(zones, id) == Some(i)
  {
  }

  /** The zone line 238 creates from the request; new zones are open. */
  function NewZone(id: nat, q: JoinRequest): (z: Zone)
    ensures z.id == id && z.open
    ensures z.name == q.name && z.password == q.password
    ensures z.maxPlayers == q.maxPlayers && z.persistent == q.persistent
  {
    Zone(id, q.name, q.password, q.maxPlayers, q.persistent, true)
  }

  /** Appending a zone with the next id keeps the ids distinct. */
  lemma AddZoneValid(zones: seq<Zone>, nextZone: nat, q: JoinRequest)
    requires ValidZones(zones, nextZone)
    ensures ValidZones(zones + [NewZone(nextZone, q)], nextZone + 1)
    ensures forall id :: HasZone(zones, id) ==> HasZone(zones + [NewZone(nextZone, q)], id)
  {
    var zs := zones + [NewZone(nextZone, q)];
    forall id | HasZone(zones, id) ensures HasZone(zs, id) {
      var i :| 0 <= i < |zones| && zones[i].id == id;
      assert zs[i] == zones[i];
    }
  }
}
