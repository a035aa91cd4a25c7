/**
 * LocationSpecifications of both location services: nullable filter
 * builders (null = no constraint), the predicate each built specification
 * expresses over a location row, and the conjunction buildSpecification
 * assembles for the admin, private and public searches.
 */
module LocationSpecifications {
  import opened Common
  import opened EwmModel
  import opened TextMatch
  import opened LocationService

  /** A built (non-null) specification. */
  datatype Spec =
    | TextContains(text: string)
    | CreatorIsNull
    | CreatorIs(userId: int)
    | StateIs(state: LocationState)
    | EventsCount(min: Option<int>, max: Option<int>)
    | WithinZone(zone: Zone)

  /** calculate_distance_meters(zoneLat, zoneLon, lat, lon), computed by the database. */
  type Distance = (real, real, real, real) -> real

  /** withTextContains: null or blank text is no constraint. */
  function WithTextContains(text: Option<string>): (r: Option<Spec>)
    ensures r.None? <==> text.None? || IsBlank(text.value)
    ensures r.Some? ==> r.value == TextContains(text.value)
  {
    if text.None? || IsBlank(text.value) then None else Some(TextContains(text.value))
  }

  /** withCreatorId / withCreator: null is no constraint, 0 asks for rows without a creator. */
  function WithCreatorId(userId: Option<int>): (r: Option<Spec>)
    ensures r.None? <==> userId.None?
    ensures userId == Some(0) ==> r == Some(CreatorIsNull)
    ensures userId.Some? && userId.value != 0 ==> r == Some(CreatorIs(userId.value))
  {
    if userId.None? then None
    else if userId.value == 0 then Some(CreatorIsNull)
    else Some(CreatorIs(userId.value))
  }

  /** withState: null is no constraint. */
  function WithState(state: Option<LocationState>): (r: Option<Spec>)
    ensures r.None? <==> state.None?
    ensures r.Some? ==> r.value == StateIs(state.value)
  {
    if state.None? then None else Some(StateIs(state.value))
  }

  /**
   * withEventsCount: always a specification; with both bounds null its
   * predicate is null, which the conjunction skips.
   */
  function WithEventsCount(min: Option<int>, max: Option<int>): (r: Option<Spec>)
    ensures r == Some(EventsCount(min, max))
  {
    Some(EventsCount(min, max))
  }

  /** withCoordinates: null is no constraint. */
  function WithCoordinates(zone: Option<Zone>): (r: Option<Spec>)
    ensures r.None? <==> zone.None?
    ensures r.Some? ==> r.value == WithinZone(zone.value)
  {
    if zone.None? then None else Some(WithinZone(zone.value))
  }

  /** lower(column) like '%lower(text)%' on a nullable column: null never matches. */
  predicate ColumnContains(column: Option<string>, text: string)
  {
    column.Some? && Contains(Lower(column.value), Lower(text))
  }

  /**
   * The predicate a built specification adds to the query; eventsAt is the
   * number of events at a location, distance the database's geometry.
   */
  predicate Holds(spec: Spec, l: Location, eventsAt: int -> nat, distance: Distance)
  {
    match spec
    case TextContains(text) => ColumnContains(l.name, text) || ColumnContains(l.address, text)
    case CreatorIsNull => l.creatorId.None?
    case CreatorIs(userId) => l.creatorId == Some(userId)
    case StateIs(state) => l.state == state
    case EventsCount(min, max) =>
      (min.None? || eventsAt(l.id) >= min.value) && (max.None? || eventsAt(l.id) <= max.value)
    case WithinZone(zone) => distance(zone.latitude, zone.longitude, l.latitude, l.longitude) <= zone.radius
  }

  /** A null builder, or a built specification the row satisfies. */
  predicate Criterion(spec: Option<Spec>, l: Location, eventsAt: int -> nat, distance: Distance)
  {
    spec.None? || Holds(spec.value, l, eventsAt, distance)
  }

  /**
   * Stream.of(...).filter(Objects::nonNull).reduce(Specification::and)
   * .orElse(conjunction()), evaluated on one row: folded from the left.
   */
  function Reduce(specs: seq<Option<Spec>>, l: Location, eventsAt: int -> nat, distance: Distance): bool
    decreases |specs|
  {
    if specs == [] then true
    else
      var prefix := Reduce(specs[..|specs| - 1], l, eventsAt, distance);
      var last := specs[|specs| - 1];
      if last.None? then prefix else prefix && Holds(last.value, l, eventsAt, distance)
  }

  /** The folded specification holds exactly when every non-null one does; no specification at all is true. */
  lemma {:induction false} ReduceIsConjunction(specs: seq<Option<Spec>>, l: Location, eventsAt: int -> nat, distance: Distance)
    ensures Reduce(specs, l, eventsAt, distance) <==> forall i :: 0 <= i < |specs| ==> Criterion(specs[i], l, eventsAt, distance)
    decreases |specs|
  {
    if specs != [] {
      var init := specs[..|specs| - 1];
      ReduceIsConjunction(init, l, eventsAt, distance);
      assert forall i :: 0 <= i < |init| ==> init[i] == specs[i];
    }
  }

  /** The creator filter: 0 selects exactly the rows without a creator, any other id its own rows. */
  lemma CreatorFilter(userId: int, l: Location, eventsAt: int -> nat, distance: Distance)
    ensures userId == 0 ==> (Holds(WithCreatorId(Some(userId)).value, l, eventsAt, distance) <==> l.creatorId.None?)
    ensures userId != 0 ==> (Holds(WithCreatorId(Some(userId)).value, l, eventsAt, distance) <==> l.creatorId == Some(userId))
  {
  }

  /** The event-count bounds are inclusive, and either may be absent. */
  lemma EventsCountBounds(min: Option<int>, max: Option<int>, l: Location, eventsAt: int -> nat, distance: Distance)
    ensures var holds := Holds(WithEventsCount(min, max).value, l, eventsAt, distance);
      && (min.None? && max.None? ==> holds)
      && (min.Some? && max.None? ==> (holds <==> eventsAt(l.id) >= min.value))
      && (min.None? && max.Some? ==> (holds <==> eventsAt(l.id) <= max.value))
      && (min.Some? && max.Some? ==> (holds <==> min.value <= eventsAt(l.id) <= max.value))
  {
  }

  /** Text search ignores the case of the text searched for. */
  lemma TextCaseInsensitive(text: string, l: Location, eventsAt: int -> nat, distance: Distance)
    ensures Holds(TextContains(text), l, eventsAt, distance) <==> Holds(TextContains(Lower(text)), l, eventsAt, distance)
  {
    assert Lower(Lower(text)) == Lower(text);
  }

  // ---------------------------------------------------------------- the searches

  /** LocationAdminFilter; the location microservice's has no event bounds (both null). */
  datatype LocationAdminFilter = LocationAdminFilter(
    text: Option<string>,
    creator: Option<int>,
    state: Option<LocationState>,
    zone: Option<Zone>,
    minEvents: Option<int>,
    maxEvents: Option<int>)

  datatype LocationPrivateFilter = LocationPrivateFilter(text: Option<string>, state: Option<LocationState>, zone: Option<Zone>)

  datatype LocationPublicFilter = LocationPublicFilter(text: Option<string>, zone: Option<Zone>)

  /** The location microservice's admin buildSpecification. */
  function AdminSpecs(f: LocationAdminFilter): seq<Option<Spec>>
  {
    [WithTextContains(f.text), WithCreatorId(f.creator), WithCoordinates(f.zone), WithState(f.state)]
  }

  /** The monolith's admin buildSpecification: the same, and the event-count bounds. */
  function MainAdminSpecs(f: LocationAdminFilter): seq<Option<Spec>>
  {
    AdminSpecs(f) + [WithEventsCount(f.minEvents, f.maxEvents)]
  }

  /** The private buildSpecification: the user's own rows. */
  function PrivateSpecs(userId: int, f: LocationPrivateFilter): seq<Option<Spec>>
  {
    [WithCreatorId(Some(userId)), WithState(f.state), WithTextContains(f.text), WithCoordinates(f.zone)]
  }

  /** The public buildSpecification: APPROVED rows only. */
  function PublicSpecs(f: LocationPublicFilter): seq<Option<Spec>>
  {
    [WithState(Some(APPROVED)), WithTextContains(f.text), WithCoordinates(f.zone)]
  }

  /** The public search selects exactly the APPROVED rows that pass its text and zone filters. */
  lemma PublicSearchSelects(f: LocationPublicFilter, l: Location, eventsAt: int -> nat, distance: Distance)
    ensures Reduce(PublicSpecs(f), l, eventsAt, distance) <==>
      l.state == APPROVED
      && Criterion(WithTextContains(f.text), l, eventsAt, distance)
      && Criterion(WithCoordinates(f.zone), l, eventsAt, distance)
  {
    var specs := PublicSpecs(f);
    ReduceIsConjunction(specs, l, eventsAt, distance);
    if Criterion(specs[0], l, eventsAt, distance) && Criterion(specs[1], l, eventsAt, distance)
       && Criterion(specs[2], l, eventsAt, distance) {
      forall i | 0 <= i < |specs| ensures Criterion(specs[i], l, eventsAt, distance) {
        assert i == 0 || i == 1 || i == 2;
      }
    }
  }

  /** The private search never shows a user another user's rows (user 0 aside, which means "no creator"). */
  lemma PrivateSearchOwnRows(userId: int, f: LocationPrivateFilter, l: Location, eventsAt: int -> nat, distance: Distance)
    requires userId != 0
    ensures Reduce(PrivateSpecs(userId, f), l, eventsAt, distance) ==> l.creatorId == Some(userId)
    ensures Reduce(PrivateSpecs(userId, f), l, eventsAt, distance) && f.state.Some? ==> l.state == f.state.value
  {
    var specs := PrivateSpecs(userId, f);
    ReduceIsConjunction(specs, l, eventsAt, distance);
    if Reduce(specs, l, eventsAt, distance) {
      assert Criterion(specs[0], l, eventsAt, distance) && Criterion(specs[1], l, eventsAt, distance);
    }
  }

  /** The monolith's admin search is the microservice's, narrowed by the inclusive event-count bounds. */
  lemma MainAdminSearchNarrows(f: LocationAdminFilter, l: Location, eventsAt: int -> nat, distance: Distance)
    ensures Reduce(MainAdminSpecs(f), l, eventsAt, distance) <==>
      Reduce(AdminSpecs(f), l, eventsAt, distance)
      && (f.minEvents.None? || eventsAt(l.id) >= f.minEvents.value)
      && (f.maxEvents.None? || eventsAt(l.id) <= f.maxEvents.value)
  {
    assert MainAdminSpecs(f)[..|MainAdminSpecs(f)| - 1] == AdminSpecs(f);
  }

  /** An admin filter with every field null selects every row. */
  lemma EmptyAdminFilterSelectsAll(l: Location, eventsAt: int -> nat, distance: Distance)
    ensures Reduce(MainAdminSpecs(LocationAdminFilter(None, None, None, None, None, None)), l, eventsAt, distance)
  {
    var f := LocationAdminFilter(None, None, None, None, None, None);
    var specs := MainAdminSpecs(f);
    forall i | 0 <= i < |specs| ensures Criterion(specs[i], l, eventsAt, distance) {
      assert i == 0 || i == 1 || i == 2 || i == 3 || i == 4;
    }
    ReduceIsConjunction(specs, l, eventsAt, distance);
  }
}
