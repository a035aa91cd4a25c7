/**
 * The location lifecycle. The location microservice and the monolith's
 * location service implement it alike: an admin creates APPROVED locations,
 * a user proposes PENDING ones, both edit them partially, only the admin
 * moves them between states, and the event services reach them through
 * get-or-create, which falls back on AUTO_GENERATED rows.
 */
module LocationService {
  import opened Common
  import opened EwmModel
  import opened TextMatch

  /** NEARBY_RADIUS, in metres, handed to the duplicate search. */
  const NearbyRadius: real := 50.0

  /**
   * The locations row. creatorId is null on rows no user proposed (the
   * monolith keeps a creator reference whose id this is), and name is null
   * only on the rows get-or-create generates.
   */
  datatype Location = Location(
    id: int,
    creatorId: Option<int>,
    name: Option<string>,
    address: Option<string>,
    latitude: real,
    longitude: real,
    state: LocationState)

  /** LocationCreateDto: name, latitude and longitude are required by validation. */
  datatype LocationCreateDto = LocationCreateDto(name: string, address: Option<string>, latitude: real, longitude: real)

  /** The nullable fields of LocationUpdateUserDto, which LocationUpdateAdminDto shares. */
  datatype LocationPatch = LocationPatch(
    name: Option<string>,
    address: Option<string>,
    latitude: Option<real>,
    longitude: Option<real>)

  datatype LocationFailure =
    | LocationNotFound(id: int)                                  // NotFoundException("Location", id)
    | UserNotFound(userId: int)                                  // NotFoundException("User", userId)
    | StateChangeRefused(from: LocationState, to: LocationState) // ConditionNotMetException
    | NotEditable                                                // ConditionNotMetException: not PENDING
    | NotCreator                                                 // NoAccessException
    | PublishedDelete                                            // ConditionNotMetException: APPROVED
    | HasEvents                                                  // ConditionNotMetException: events exist
    | DuplicateLocation(message: string)                         // DuplicateLocationsException
    | InvalidLocation                                            // ConditionNotMetException: no id, no coordinates

  /** The database's findDuplicates(name, lat, lon, NEARBY_RADIUS) answer; its geometry is not modelled. */
  type DuplicateSearch = (Option<string>, real, real) -> Option<Location>

  /** The database's findNearByAutoGenerated(lat, lon) answer. */
  type NearbySearch = (real, real) -> Option<Location>

  // ---------------------------------------------------------------- state changes

  /** changeLocationState: staying put is allowed, entering PENDING or AUTO_GENERATED is not. */
  function ChangeLocationState(location: Location, target: LocationState): (r: Result<Location, LocationFailure>)
    ensures location.state == target ==> r == Success(location)
    ensures r.Failure? <==> location.state != target && (target == LocationState.PENDING || target == AUTO_GENERATED)
    ensures r.Failure? ==> r.error == StateChangeRefused(location.state, target)
    ensures r.Success? ==> r.value == location.(state := target)
  {
    if location.state == target then Success(location)
    else if target == LocationState.PENDING || target == AUTO_GENERATED then
      Failure(StateChangeRefused(location.state, target))
    else Success(location.(state := target))
  }

  /** The state a location ends in after a series of admin requests, each refused one leaving it as it was. */
  function StateAfter(state: LocationState, targets: seq<LocationState>): LocationState
    decreases |targets|
  {
    if targets == [] then state
    else
      var next := if state == targets[0] || targets[0] !in {LocationState.PENDING, AUTO_GENERATED} then targets[0] else state;
      StateAfter(next, targets[1..])
  }

  /**
   * However the admin's requests go, a location that has left PENDING
   * never returns to it, only a generated location is ever AUTO_GENERATED,
   * and the final state is the initial one or one of the requested ones.
   */
  lemma {:induction false} StateChangesNeverReenter(location: Location, targets: seq<LocationState>)
    ensures StateAfter(location.state, targets) == LocationState.PENDING ==> location.state == LocationState.PENDING
    ensures StateAfter(location.state, targets) == AUTO_GENERATED ==> location.state == AUTO_GENERATED
    ensures StateAfter(location.state, targets) == location.state || StateAfter(location.state, targets) in targets
    decreases |targets|
  {
    if targets != [] {
      var step := ChangeLocationState(location, targets[0]);
      var next := if step.Success? then step.value else location;
      assert next.state == if location.state == targets[0] || targets[0] !in {LocationState.PENDING, AUTO_GENERATED} then targets[0] else location.state;
      StateChangesNeverReenter(next, targets[1..]);
      assert targets == [targets[0]] + targets[1..];
    }
  }

  // ---------------------------------------------------------------- partial updates

  /** The Optional.ofNullable(...).ifPresent(setter) lines of both updates. */
  function ApplyPatch(location: Location, p: LocationPatch): Location
  {
    location.(
      name := if p.name.Some? then p.name else location.name,
      address := if p.address.Some? then p.address else location.address,
      latitude := if p.latitude.Some? then p.latitude.value else location.latitude,
      longitude := if p.longitude.Some? then p.longitude.value else location.longitude)
  }

  /** A null field keeps the stored value, a given one replaces it; id, creator and state never change. */
  lemma ApplyPatchEffect(location: Location, p: LocationPatch)
    ensures var l := ApplyPatch(location, p);
      && (p.name.None? ==> l.name == location.name) && (p.name.Some? ==> l.name == p.name)
      && (p.address.None? ==> l.address == location.address) && (p.address.Some? ==> l.address == p.address)
      && (p.latitude.None? ==> l.latitude == location.latitude) && (p.latitude.Some? ==> l.latitude == p.latitude.value)
      && (p.longitude.None? ==> l.longitude == location.longitude) && (p.longitude.Some? ==> l.longitude == p.longitude.value)
      && l.id == location.id && l.creatorId == location.creatorId && l.state == location.state
    ensures ApplyPatch(location, LocationPatch(None, None, None, None)) == location
    ensures ApplyPatch(ApplyPatch(location, p), p) == ApplyPatch(location, p)
  {
  }

  /** needToCheckDuplicates: the patch gives a name, latitude or longitude different from the stored one. */
  predicate NeedsDuplicateCheck(location: Location, p: LocationPatch)
  {
    (p.name.Some? && p.name != location.name)
    || (p.latitude.Some? && p.latitude.value != location.latitude)
    || (p.longitude.Some? && p.longitude.value != location.longitude)
  }

  /** The check runs exactly when the merged name or coordinates differ from the stored ones. */
  lemma DuplicateCheckOnRealChange(location: Location, p: LocationPatch)
    ensures var merged := ApplyPatch(location, p);
      NeedsDuplicateCheck(location, p) <==>
        (merged.name, merged.latitude, merged.longitude) != (location.name, location.latitude, location.longitude)
  {
  }

  /** getDuplicateErrorMessage: chosen by the state of the location found nearby. */
  function DuplicateMessage(existing: Location): (r: string)
    ensures r == "" <==> existing.state == AUTO_GENERATED
  {
    if existing.state.APPROVED? then
      "Please use existing location (id=" + DecimalString(existing.id) + ")"
    else if existing.state.PENDING? then
      "A request to create this location already exists (id=" + DecimalString(existing.id) + "). Please wait for approval."
    else if existing.state.REJECTED? then
      "The request for creating this location was rejected earlier. Please contact admin."
    else ""
  }

  /**
   * For APPROVED and PENDING the message names the existing location: two
   * such messages of the same state are equal only for the same id.
   */
  lemma DuplicateMessageIdentifies(a: Location, b: Location)
    requires a.state == b.state && (a.state.APPROVED? || a.state.PENDING?)
    requires DuplicateMessage(a) == DuplicateMessage(b)
    ensures a.id == b.id
  {
    var sa, sb := DecimalString(a.id), DecimalString(b.id);
    if a.state.APPROVED? {
      var p := "Please use existing location (id=";
      assert DuplicateMessage(a) == p + sa + ")" && DuplicateMessage(b) == p + sb + ")";
      MiddleOfMessage(p, sa, ")", p, sb, ")");
    } else {
      var p := "A request to create this location already exists (id=";
      var t := "). Please wait for approval.";
      assert DuplicateMessage(a) == p + sa + t && DuplicateMessage(b) == p + sb + t;
      MiddleOfMessage(p, sa, t, p, sb, t);
    }
    DecimalStringInjective(a.id, b.id);
  }

  /** Equal three-part messages with equal outer parts have equal middles. */
  lemma MiddleOfMessage(p: string, a: string, t: string, q: string, b: string, u: string)
    requires p + a + t == q + b + u && p == q && t == u
    ensures a == b
  {
    var m := p + a + t;
    assert a == m[|p|..|m| - |t|];
    assert b == (q + b + u)[|q|..|m| - |u|];
  }

  /** checkForDuplicate: the duplicate search's hit becomes the exception. */
  function CheckForDuplicate(name: Option<string>, latitude: real, longitude: real, findDuplicates: DuplicateSearch): (r: Option<LocationFailure>)
    ensures r.None? <==> findDuplicates(name, latitude, longitude).None?
    ensures r.Some? ==> r.value == DuplicateLocation(DuplicateMessage(findDuplicates(name, latitude, longitude).value))
  {
    match findDuplicates(name, latitude, longitude)
    case None => None
    case Some(existing) => Some(DuplicateLocation(DuplicateMessage(existing)))
  }

  /** The admin's update: fields first, then the requested state; any failure rolls all of it back. */
  function AdminUpdateOutcome(locations: map<int, Location>, id: int, p: LocationPatch, state: Option<LocationState>): (r: Result<Location, LocationFailure>)
    ensures id !in locations ==> r == Failure(LocationNotFound(id))
    ensures id in locations && state.Some? && state.value != locations[id].state
            && state.value in {LocationState.PENDING, AUTO_GENERATED} ==>
              r == Failure(StateChangeRefused(locations[id].state, state.value))
    ensures r.Success? ==> id in locations && r.value == ApplyPatch(locations[id], p).(state := if state.Some? then state.value else locations[id].state)
  {
    if id !in locations then Failure(LocationNotFound(id))
    else
      var patched := ApplyPatch(locations[id], p);
      if state.None? then Success(patched) else ChangeLocationState(patched, state.value)
  }

  /**
   * The user's update; the state is checked before the creator, and the
   * duplicate search runs only on a real change, with the merged values.
   */
  function UserUpdateOutcome(locations: map<int, Location>, id: int, userId: int, p: LocationPatch,
                             findDuplicates: DuplicateSearch): (r: Result<Location, LocationFailure>)
    ensures id !in locations ==> r == Failure(LocationNotFound(id))
    ensures id in locations && locations[id].state != LocationState.PENDING ==> r == Failure(NotEditable)
    ensures id in locations && locations[id].state == LocationState.PENDING && locations[id].creatorId != Some(userId) ==>
      r == Failure(NotCreator)
    ensures r.Success? ==> id in locations && r.value == ApplyPatch(locations[id], p)
  {
    if id !in locations then Failure(LocationNotFound(id))
    else
      var location := locations[id];
      if location.state != LocationState.PENDING then Failure(NotEditable)
      else if location.creatorId.None? || location.creatorId.value != userId then Failure(NotCreator)
      else
        var merged := ApplyPatch(location, p);
        var duplicate := if NeedsDuplicateCheck(location, p)
          then CheckForDuplicate(merged.name, merged.latitude, merged.longitude, findDuplicates)
          else None;
        if duplicate.Some? then Failure(duplicate.value) else Success(merged)
  }

  /**
   * A user's update succeeds exactly on the user's own PENDING location when
   * no duplicate stands at the merged place (or nothing moves or is renamed);
   * it keeps the location PENDING and its creator.
   */
  lemma UserUpdateSucceedsIff(locations: map<int, Location>, id: int, userId: int, p: LocationPatch, findDuplicates: DuplicateSearch)
    ensures UserUpdateOutcome(locations, id, userId, p, findDuplicates).Success? <==>
      id in locations && locations[id].state == LocationState.PENDING && locations[id].creatorId == Some(userId)
      && (var merged := ApplyPatch(locations[id], p);
          NeedsDuplicateCheck(locations[id], p) ==> findDuplicates(merged.name, merged.latitude, merged.longitude).None?)
    ensures var r := UserUpdateOutcome(locations, id, userId, p, findDuplicates);
      r.Success? ==> r.value.state == LocationState.PENDING && r.value.creatorId == Some(userId) && r.value.id == locations[id].id
    ensures var r := UserUpdateOutcome(locations, id, userId, p, findDuplicates);
      id in locations && locations[id].state == LocationState.PENDING && locations[id].creatorId == Some(userId)
      && NeedsDuplicateCheck(locations[id], p) ==>
        var merged := ApplyPatch(locations[id], p);
        var hit := findDuplicates(merged.name, merged.latitude, merged.longitude);
        hit.Some? ==> r == Failure(DuplicateLocation(DuplicateMessage(hit.value)))
  {
    if id in locations {
      ApplyPatchEffect(locations[id], p);
    }
  }

  /** An admin's update keeps id and creator, and never moves a location into PENDING or AUTO_GENERATED. */
  lemma AdminUpdateKeepsLifecycle(locations: map<int, Location>, id: int, p: LocationPatch, state: Option<LocationState>)
    requires KeyedById(locations)
    ensures var r := AdminUpdateOutcome(locations, id, p, state);
      r.Success? ==>
        && r.value.id == id && r.value.creatorId == locations[id].creatorId
        && (r.value.state == LocationState.PENDING ==> locations[id].state == LocationState.PENDING)
        && (r.value.state == AUTO_GENERATED ==> locations[id].state == AUTO_GENERATED)
    ensures var r := AdminUpdateOutcome(locations, id, p, state);
      id in locations && state.Some? && state.value in {APPROVED, REJECTED} ==> r.Success? && r.value.state == state.value
  {
  }

  // ---------------------------------------------------------------- creation and deletion

  /** addLocationByAdmin: no duplicate search, no creator, APPROVED. */
  function NewAdminLocation(id: int, dto: LocationCreateDto): (r: Location)
    ensures r.state == APPROVED && r.creatorId.None? && r.id == id
    ensures r.name == Some(dto.name) && r.address == dto.address && r.latitude == dto.latitude && r.longitude == dto.longitude
  {
    Location(id, None, Some(dto.name), dto.address, dto.latitude, dto.longitude, APPROVED)
  }

  /** addLocation: an unknown user first, then a duplicate; the new row is the user's and PENDING by default. */
  function AddLocationOutcome(id: int, userId: int, userExists: bool, dto: LocationCreateDto,
                              findDuplicates: DuplicateSearch): (r: Result<Location, LocationFailure>)
    ensures !userExists ==> r == Failure(UserNotFound(userId))
    ensures r.Failure? && userExists ==>
      var hit := findDuplicates(Some(dto.name), dto.latitude, dto.longitude);
      hit.Some? && r.error == DuplicateLocation(DuplicateMessage(hit.value))
    ensures r.Success? <==> userExists && findDuplicates(Some(dto.name), dto.latitude, dto.longitude).None?
    ensures r.Success? ==> r.value == NewAdminLocation(id, dto).(creatorId := Some(userId), state := LocationState.PENDING)
  {
    if !userExists then Failure(UserNotFound(userId))
    else
      var duplicate := CheckForDuplicate(Some(dto.name), dto.latitude, dto.longitude, findDuplicates);
      if duplicate.Some? then Failure(duplicate.value)
      else Success(Location(id, Some(userId), Some(dto.name), dto.address, dto.latitude, dto.longitude, LocationState.PENDING))
  }

  /** The user's delete: the location must exist, not be APPROVED, be the user's, and have no events, in that order. */
  function UserDeleteOutcome(locations: map<int, Location>, id: int, userId: int, hasEvents: bool): (r: Option<LocationFailure>)
    ensures id !in locations ==> r == Some(LocationNotFound(id))
    ensures id in locations && locations[id].state == APPROVED ==> r == Some(PublishedDelete)
    ensures id in locations && locations[id].state != APPROVED && locations[id].creatorId != Some(userId) ==> r == Some(NotCreator)
    ensures r.None? <==> id in locations && locations[id].state != APPROVED && locations[id].creatorId == Some(userId) && !hasEvents
  {
    if id !in locations then Some(LocationNotFound(id))
    else if locations[id].state == APPROVED then Some(PublishedDelete)
    else if locations[id].creatorId.None? || locations[id].creatorId.value != userId then Some(NotCreator)
    else if hasEvents then Some(HasEvents)
    else None
  }

  /** The admin's delete only refuses a location with events; a missing id is silently ignored. */
  function AdminDeleteOutcome(hasEvents: bool): (r: Option<LocationFailure>)
    ensures r.None? <==> !hasEvents
    ensures r.Some? ==> r.value == HasEvents
  {
    if hasEvents then Some(HasEvents) else None
  }

  /** Every delete a user may do, the admin may do too; the converse fails on someone else's or an APPROVED location. */
  lemma UserDeleteStricterThanAdmin(locations: map<int, Location>, id: int, userId: int, hasEvents: bool)
    ensures UserDeleteOutcome(locations, id, userId, hasEvents).None? ==> AdminDeleteOutcome(hasEvents).None?
    ensures id in locations && (locations[id].state == APPROVED || locations[id].creatorId.None?) ==>
      UserDeleteOutcome(locations, id, userId, hasEvents).Some?
  {
  }

  // ---------------------------------------------------------------- get-or-create

  /** findByIdAndState(id, APPROVED), or NotFound. */
  function FindApproved(locations: map<int, Location>, id: int): (r: Result<Location, LocationFailure>)
    ensures r.Success? <==> id in locations && locations[id].state == APPROVED
    ensures r.Success? ==> r.value == locations[id]
    ensures r.Failure? ==> r.error == LocationNotFound(id)
  {
    if id in locations && locations[id].state == APPROVED then Success(locations[id]) else Failure(LocationNotFound(id))
  }

  /** getOrCreateLocation creates a row: no id, both coordinates, and nothing generated nearby. */
  predicate Creates(dto: LocationDto, nearby: NearbySearch)
  {
    dto.id.None? && dto.latitude.Some? && dto.longitude.Some? && nearby(dto.latitude.value, dto.longitude.value).None?
  }

  /**
   * getOrCreateLocation: an id must name an APPROVED location; otherwise both
   * coordinates are needed, and a nearby AUTO_GENERATED location is reused or
   * a nameless one is generated at exactly those coordinates.
   */
  function GetOrCreateOutcome(locations: map<int, Location>, dto: LocationDto, nearby: NearbySearch, newId: int): (r: Result<Location, LocationFailure>)
    ensures dto.id.Some? ==> r == FindApproved(locations, dto.id.value)
    ensures dto.id.None? && (dto.latitude.None? || dto.longitude.None?) ==> r == Failure(InvalidLocation)
    ensures dto.id.None? && dto.latitude.Some? && dto.longitude.Some? && !Creates(dto, nearby) ==>
      r == Success(nearby(dto.latitude.value, dto.longitude.value).value)
    ensures Creates(dto, nearby) ==>
      r == Success(Location(newId, None, None, None, dto.latitude.value, dto.longitude.value, AUTO_GENERATED))
  {
    if dto.id.Some? then FindApproved(locations, dto.id.value)
    else if dto.latitude.Some? && dto.longitude.Some? then
      match nearby(dto.latitude.value, dto.longitude.value)
      case Some(existing) => Success(existing)
      case None => Success(Location(newId, None, None, None, dto.latitude.value, dto.longitude.value, AUTO_GENERATED))
    else Failure(InvalidLocation)
  }

  /**
   * When the nearby search finds an AUTO_GENERATED row, as its query
   * demands, every location get-or-create hands to an event is APPROVED or
   * AUTO_GENERATED, never PENDING or REJECTED.
   */
  lemma GetOrCreateUsable(locations: map<int, Location>, dto: LocationDto, nearby: NearbySearch, newId: int)
    requires dto.latitude.Some? && dto.longitude.Some? && nearby(dto.latitude.value, dto.longitude.value).Some? ==>
      nearby(dto.latitude.value, dto.longitude.value).value.state.AUTO_GENERATED?
    ensures var r := GetOrCreateOutcome(locations, dto, nearby, newId);
      r.Success? ==> r.value.state.APPROVED? || r.value.state.AUTO_GENERATED?
    ensures var r := GetOrCreateOutcome(locations, dto, nearby, newId);
      r.Success? && dto.id.Some? ==> r.value.state.APPROVED?
  {
  }

  // ---------------------------------------------------------------- the repository

  /** Each row is stored under its own id. */
  ghost predicate KeyedById(locations: map<int, Location>)
  {
    forall k :: k in locations ==> locations[k].id == k
  }

  class LocationStore {
    /** The locations table, keyed by id. */
    var locations: map<int, Location>
    /** The identity column's next value. */
    var nextId: int

    ghost predicate Valid()
      reads this
    {
      KeyedById(locations) && forall k :: k in locations ==> k < nextId
    }

    constructor()
      ensures Valid() && locations == map[] && nextId == 1
    {
      locations := map[];
      nextId := 1;
    }

    /** Stores a new row under the next identity value. */
    method Insert(row: Location)
      requires Valid() && row.id == nextId
      modifies this
      ensures Valid()
      ensures locations == old(locations)[old(nextId) := row] && nextId == old(nextId) + 1
    {
      locations := locations[nextId := row];
      nextId := nextId + 1;
    }

    method AddLocationByAdmin(dto: LocationCreateDto) returns (r: Location)
      requires Valid()
      modifies this
      ensures Valid()
      ensures r == NewAdminLocation(old(nextId), dto)
      ensures locations == old(locations)[r.id := r] && nextId == old(nextId) + 1
    {
      r := NewAdminLocation(nextId, dto);
      Insert(r);
    }

    method AddLocation(userId: int, userExists: bool, dto: LocationCreateDto, findDuplicates: DuplicateSearch)
      returns (r: Result<Location, LocationFailure>)
      requires Valid()
      modifies this
      ensures Valid()
      ensures r == AddLocationOutcome(old(nextId), userId, userExists, dto, findDuplicates)
      ensures locations == (if r.Success? then old(locations)[r.value.id := r.value] else old(locations))
      ensures nextId == if r.Success? then old(nextId) + 1 else old(nextId)
    {
      if !userExists {
        return Failure(UserNotFound(userId));
      }
      var duplicate := CheckForDuplicate(Some(dto.name), dto.latitude, dto.longitude, findDuplicates);
      if duplicate.Some? {
        return Failure(duplicate.value);
      }
      var location := Location(nextId, Some(userId), Some(dto.name), dto.address, dto.latitude, dto.longitude, LocationState.PENDING);
      Insert(location);
      return Success(location);
    }

    /** update(id, LocationUpdateAdminDto). */
    method AdminUpdate(id: int, p: LocationPatch, state: Option<LocationState>) returns (r: Result<Location, LocationFailure>)
      requires Valid()
      modifies this
      ensures Valid()
      ensures r == AdminUpdateOutcome(old(locations), id, p, state)
      ensures locations == (if r.Success? then old(locations)[id := r.value] else old(locations))
      ensures nextId == old(nextId)
    {
      if id !in locations {
        return Failure(LocationNotFound(id));
      }
      var location := ApplyPatch(locations[id], p);
      if state.Some? {
        var changed := ChangeLocationState(location, state.value);
        if changed.Failure? {
          return changed;
        }
        location := changed.value;
      }
      locations := locations[id := location];
      return Success(location);
    }

    /** update(id, userId, LocationUpdateUserDto). */
    method UserUpdate(id: int, userId: int, p: LocationPatch, findDuplicates: DuplicateSearch) returns (r: Result<Location, LocationFailure>)
      requires Valid()
      modifies this
      ensures Valid()
      ensures r == UserUpdateOutcome(old(locations), id, userId, p, findDuplicates)
      ensures locations == (if r.Success? then old(locations)[id := r.value] else old(locations))
      ensures nextId == old(nextId)
    {
      if id !in locations {
        return Failure(LocationNotFound(id));
      }
      var location := locations[id];
      if location.state != LocationState.PENDING {
        return Failure(NotEditable);
      }
      if location.creatorId.None? || location.creatorId.value != userId {
        return Failure(NotCreator);
      }
      var merged := ApplyPatch(location, p);
      if NeedsDuplicateCheck(location, p) {
        var duplicate := CheckForDuplicate(merged.name, merged.latitude, merged.longitude, findDuplicates);
        if duplicate.Some? {
          return Failure(duplicate.value);
        }
      }
      locations := locations[id := merged];
      return Success(merged);
    }

    /** delete(id): hasEvents is the event service's answer for this location. */
    method AdminDelete(id: int, hasEvents: bool) returns (r: Option<LocationFailure>)
      requires Valid()
      modifies this
      ensures Valid()
      ensures r == AdminDeleteOutcome(hasEvents)
      ensures locations == (if r.None? then old(locations) - {id} else old(locations))
      ensures nextId == old(nextId)
    {
      if hasEvents {
        return Some(HasEvents);
      }
      locations := locations - {id};
      return None;
    }

    /** delete(id, userId). */
    method UserDelete(id: int, userId: int, hasEvents: bool) returns (r: Option<LocationFailure>)
      requires Valid()
      modifies this
      ensures Valid()
      ensures r == UserDeleteOutcome(old(locations), id, userId, hasEvents)
      ensures locations == (if r.None? then old(locations) - {id} else old(locations))
      ensures nextId == old(nextId)
    {
      r := UserDeleteOutcome(locations, id, userId, hasEvents);
      if r.None? {
        locations := locations - {id};
      }
    }

    /** getOrCreateLocation(LocationDto). */
    method GetOrCreateLocation(dto: LocationDto, nearby: NearbySearch) returns (r: Result<Location, LocationFailure>)
      requires Valid()
      modifies this
      ensures Valid()
      ensures r == GetOrCreateOutcome(old(locations), dto, nearby, old(nextId))
      ensures locations == (if Creates(dto, nearby) then old(locations)[old(nextId) := r.value] else old(locations))
      ensures nextId == if Creates(dto, nearby) then old(nextId) + 1 else old(nextId)
    {
      if dto.id.Some? {
        return FindApproved(locations, dto.id.value);
      }
      if dto.latitude.Some? && dto.longitude.Some? {
        var existing := nearby(dto.latitude.value, dto.longitude.value);
        if existing.Some? {
          return Success(existing.value);
        }
        var generated := Location(nextId, None, None, None, dto.latitude.value, dto.longitude.value, AUTO_GENERATED);
        Insert(generated);
        return Success(generated);
      }
      return Failure(InvalidLocation);
    }
  }
}
