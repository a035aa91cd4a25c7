/**
 * The event microservice's EventSpecifications: nullable filter builders
 * (null = no constraint), the predicate each built specification expresses
 * over an event row, the entity attributes it names, and the conjunction
 * the two buildSpecification overloads assemble.
 */
module EventSpecifications {
  import opened Common
  import opened EwmModel
  import opened TextMatch

  /** A built (non-null) specification. */
  datatype Spec =
    | TextContains(text: string)
    | UsersIn(users: seq<int>)
    | CategoriesIn(categories: seq<int>)
    | StatesIn(states: seq<EventState>)
    | PaidIs(paid: bool)
    | StateIs(state: EventState)
    | OnlyAvailable
    | RangeStart(start: DateTime)
    | RangeEnd(end: DateTime)
    | LocationIdIs(locationId: int)
    | WithinZone(zone: Zone)

  /** withTextContains: null or blank text is no constraint. */
  function WithTextContains(text: Option<string>): (r: Option<Spec>)
    ensures r.None? <==> text.None? || IsBlank(text.value)
    ensures r.Some? ==> r.value == TextContains(text.value)
  {
    if text.None? || IsBlank(text.value) then None else Some(TextContains(text.value))
  }

  /** withUsers: a null or empty list is no constraint. */
  function WithUsers(users: Option<seq<int>>): (r: Option<Spec>)
    ensures r.None? <==> users.None? || users.value == []
    ensures r.Some? ==> r.value == UsersIn(users.value)
  {
    if users.None? || users.value == [] then None else Some(UsersIn(users.value))
  }

  /** withCategoriesIn: a null or empty list is no constraint. */
  function WithCategoriesIn(categories: Option<seq<int>>): (r: Option<Spec>)
    ensures r.None? <==> categories.None? || categories.value == []
    ensures r.Some? ==> r.value == CategoriesIn(categories.value)
  {
    if categories.None? || categories.value == [] then None else Some(CategoriesIn(categories.value))
  }

  /** withStatesIn: a null or empty list is no constraint. */
  function WithStatesIn(states: Option<seq<EventState>>): (r: Option<Spec>)
    ensures r.None? <==> states.None? || states.value == []
    ensures r.Some? ==> r.value == StatesIn(states.value)
  {
    if states.None? || states.value == [] then None else Some(StatesIn(states.value))
  }

  /** withPaid: null is no constraint. */
  function WithPaid(paid: Option<bool>): (r: Option<Spec>)
    ensures r.None? <==> paid.None?
    ensures r.Some? ==> r.value == PaidIs(paid.value)
  {
    if paid.None? then None else Some(PaidIs(paid.value))
  }

  /** withState: null is no constraint. */
  function WithState(state: Option<EventState>): (r: Option<Spec>)
    ensures r.None? <==> state.None?
    ensures r.Some? ==> r.value == StateIs(state.value)
  {
    if state.None? then None else Some(StateIs(state.value))
  }

  /** withOnlyAvailable: null and false are both no constraint. */
  function WithOnlyAvailable(onlyAvailable: Option<bool>): (r: Option<Spec>)
    ensures r.None? <==> onlyAvailable != Some(true)
    ensures r.Some? ==> r.value == OnlyAvailable
  {
    if onlyAvailable.None? || !onlyAvailable.value then None else Some(OnlyAvailable)
  }

  /** withRangeStart: null is no constraint. */
  function WithRangeStart(rangeStart: Option<DateTime>): (r: Option<Spec>)
    ensures r.None? <==> rangeStart.None?
    ensures r.Some? ==> r.value == RangeStart(rangeStart.value)
  {
    if rangeStart.None? then None else Some(RangeStart(rangeStart.value))
  }

  /** withRangeEnd: null is no constraint. */
  function WithRangeEnd(rangeEnd: Option<DateTime>): (r: Option<Spec>)
    ensures r.None? <==> rangeEnd.None?
    ensures r.Some? ==> r.value == RangeEnd(rangeEnd.value)
  {
    if rangeEnd.None? then None else Some(RangeEnd(rangeEnd.value))
  }

  /** withLocationId: null is no constraint. */
  function WithLocationId(locationId: Option<int>): (r: Option<Spec>)
    ensures r.None? <==> locationId.None?
    ensures r.Some? ==> r.value == LocationIdIs(locationId.value)
  {
    if locationId.None? then None else Some(LocationIdIs(locationId.value))
  }

  /** withCoordinates: null is no constraint. */
  function WithCoordinates(zone: Option<Zone>): (r: Option<Spec>)
    ensures r.None? <==> zone.None?
    ensures r.Some? ==> r.value == WithinZone(zone.value)
  {
    if zone.None? then None else Some(WithinZone(zone.value))
  }

  /**
   * The predicate a specification expresses for one row. A null description
   * makes its LIKE unknown, which never selects; the zone test compares the
   * database function calculate_distance_meters, given as `distance` over
   * the row's location id, with the radius.
   */
  predicate Holds(spec: Spec, e: Event, distance: (Zone, int) -> real)
  {
    match spec
    case TextContains(text) =>
      Contains(Lower(e.title), Lower(text)) || Contains(Lower(e.annotation), Lower(text))
      || (e.description.Some? && Contains(Lower(e.description.value), Lower(text)))
    case UsersIn(users) => e.initiatorId in users
    case CategoriesIn(categories) => e.categoryId in categories
    case StatesIn(states) => e.state in states
    case PaidIs(paid) => e.paid == paid
    case StateIs(state) => e.state == state
    case OnlyAvailable => e.participantLimit == 0 || e.participantLimit > e.confirmedRequests
    case RangeStart(start) => e.eventDate >= start
    case RangeEnd(end) => e.eventDate <= end
    case LocationIdIs(locationId) => e.locationId == locationId
    case WithinZone(zone) => distance(zone, e.locationId) <= zone.radius
  }

  /** The persistent attributes of the microservice's Event entity. */
  const PersistentAttributes: set<string> :=
    {"id", "title", "annotation", "description", "categoryId", "initiatorId", "eventDate", "createdAt",
     "publishedOn", "locationId", "paid", "participantLimit", "requestModeration", "state"}

  /** The first step of every root.get(...) path the specification names, as written. */
  function AttributesNamed(spec: Spec): set<string>
  {
    match spec
    case TextContains(_) => {"title", "annotation", "description"}
    case UsersIn(_) => {"initiatorId"}
    case CategoriesIn(_) => {"categoryId"}
    case StatesIn(_) => {"state"}
    case PaidIs(_) => {"paid"}
    case StateIs(_) => {"state"}
    case OnlyAvailable => {"participantLimit", "confirmedRequests"}
    case RangeStart(_) => {"eventDate"}
    case RangeEnd(_) => {"eventDate"}
    case LocationIdIs(_) => {"location"}
    case WithinZone(_) => {"location"}
  }

  /** Whether the criteria query over the entity can resolve every path the specification names. */
  predicate Resolves(spec: Spec)
  {
    AttributesNamed(spec) <= PersistentAttributes
  }

  /**
   * As written, withLocationId and withCoordinates name `location`, which
   * the microservice's Event does not have (it stores locationId), and
   * withOnlyAvailable names the transient confirmedRequests; every other
   * builder resolves.
   */
  lemma UnresolvedSpecifications(spec: Spec)
    ensures !Resolves(spec) <==> spec.LocationIdIs? || spec.WithinZone? || spec.OnlyAvailable?
    ensures spec.LocationIdIs? ==> "location" !in PersistentAttributes
  {
    if spec.OnlyAvailable? {
      assert "confirmedRequests" !in PersistentAttributes;
    }
    if spec.LocationIdIs? || spec.WithinZone? {
      assert "location" !in PersistentAttributes;
    }
  }

  /** withLocationId with the path the entity has: root.get("locationId"). */
  function LocationIdAttribute(): (r: set<string>)
    ensures r <= PersistentAttributes
  {
    {"locationId"}
  }

  /**
   * The corrected location filter resolves and selects exactly the rows at
   * the given location; null still means no constraint.
   */
  lemma CorrectedLocationFilter(locationId: Option<int>, e: Event, distance: (Zone, int) -> real)
    ensures WithLocationId(locationId).Some? ==>
      LocationIdAttribute() <= PersistentAttributes
      && (Holds(WithLocationId(locationId).value, e, distance) <==> e.locationId == locationId.value)
    ensures WithLocationId(locationId).None? <==> locationId.None?
  {
  }

  /**
   * Stream.of(...).filter(nonNull).reduce(and).orElse(conjunction): a query
   * error when some built specification names a missing attribute, otherwise
   * whether every built one holds.
   */
  function Query(specs: seq<Option<Spec>>, e: Event, distance: (Zone, int) -> real): (r: Option<bool>)
    ensures r.None? <==> exists i :: 0 <= i < |specs| && specs[i].Some? && !Resolves(specs[i].value)
    ensures r == Some(true) <==>
      forall i :: 0 <= i < |specs| ==> Criterion(specs[i], e, distance)
  {
    if specs == [] then Some(true)
    else
      var rest := Query(specs[1..], e, distance);
      assert forall i :: 1 <= i < |specs| ==> specs[i] == specs[1..][i - 1];
      if specs[0].Some? && !Resolves(specs[0].value) then None
      else if rest.None? then None
      else Some(rest.value && (specs[0].None? || Holds(specs[0].value, e, distance)))
  }

  /** A null builder, or a built specification that resolves and holds. */
  predicate Criterion(spec: Option<Spec>, e: Event, distance: (Zone, int) -> real)
  {
    spec.None? || (Resolves(spec.value) && Holds(spec.value, e, distance))
  }

  /** With every builder null the combined specification is the conjunction: it holds. */
  lemma AllNullMatches(specs: seq<Option<Spec>>, e: Event, distance: (Zone, int) -> real)
    requires forall i :: 0 <= i < |specs| ==> specs[i].None?
    ensures Query(specs, e, distance) == Some(true)
  {
  }

  /** EventAdminFilter's nullable criteria (paging left aside). */
  datatype EventAdminFilter = EventAdminFilter(
    users: Option<seq<int>>,
    categories: Option<seq<int>>,
    states: Option<seq<EventState>>,
    rangeStart: Option<DateTime>,
    rangeEnd: Option<DateTime>,
    locationId: Option<int>,
    zone: Option<Zone>)

  /** EventFilter (public search) criteria. */
  datatype EventFilter = EventFilter(
    text: Option<string>,
    categories: Option<seq<int>>,
    paid: Option<bool>,
    state: Option<EventState>,
    locationId: Option<int>,
    zone: Option<Zone>,
    onlyAvailable: Option<bool>,
    rangeStart: Option<DateTime>,
    rangeEnd: Option<DateTime>)

  /** buildSpecification(EventAdminFilter): the builders in source order. */
  function AdminSpecs(f: EventAdminFilter): seq<Option<Spec>>
  {
    [WithUsers(f.users), WithCategoriesIn(f.categories), WithStatesIn(f.states), WithRangeStart(f.rangeStart),
     WithRangeEnd(f.rangeEnd), WithLocationId(f.locationId), WithCoordinates(f.zone)]
  }

  /** buildSpecification(EventFilter): the builders in source order. */
  function PublicSpecs(f: EventFilter): seq<Option<Spec>>
  {
    [WithTextContains(f.text), WithCategoriesIn(f.categories), WithPaid(f.paid), WithState(f.state),
     WithLocationId(f.locationId), WithCoordinates(f.zone), WithOnlyAvailable(f.onlyAvailable),
     WithRangeStart(f.rangeStart), WithRangeEnd(f.rangeEnd)]
  }

  /**
   * The admin search without location criteria selects a row exactly when
   * each given criterion holds: initiator and category and state in their
   * lists, the date within the inclusive range; with a location criterion
   * the query cannot be built.
   */
  lemma AdminSearchSelects(f: EventAdminFilter, e: Event, distance: (Zone, int) -> real)
    ensures f.locationId.None? && f.zone.None? ==>
      (Query(AdminSpecs(f), e, distance) == Some(true) <==>
        (f.users.None? || f.users.value == [] || e.initiatorId in f.users.value)
        && (f.categories.None? || f.categories.value == [] || e.categoryId in f.categories.value)
        && (f.states.None? || f.states.value == [] || e.state in f.states.value)
        && (f.rangeStart.None? || e.eventDate >= f.rangeStart.value)
        && (f.rangeEnd.None? || e.eventDate <= f.rangeEnd.value))
    ensures f.locationId.Some? || f.zone.Some? ==> Query(AdminSpecs(f), e, distance).None?
  {
    var specs := AdminSpecs(f);
    if f.locationId.Some? {
      UnresolvedSpecifications(specs[5].value);
    } else if f.zone.Some? {
      UnresolvedSpecifications(specs[6].value);
    } else {
      forall i | 0 <= i < |specs| && specs[i].Some? ensures Resolves(specs[i].value) {
        UnresolvedSpecifications(specs[i].value);
      }
      var all := Criterion(specs[0], e, distance) && Criterion(specs[1], e, distance) && Criterion(specs[2], e, distance)
        && Criterion(specs[3], e, distance) && Criterion(specs[4], e, distance);
      if all {
        forall i | 0 <= i < |specs| ensures Criterion(specs[i], e, distance) {
          assert i == 0 || i == 1 || i == 2 || i == 3 || i == 4 || i == 5 || i == 6;
        }
      }
    }
  }

  /**
   * The public search without location or availability criteria: text in
   * title, annotation or description (case-insensitive), category, paid
   * flag, state, and the inclusive date range.
   */
  lemma PublicSearchSelects(f: EventFilter, e: Event, distance: (Zone, int) -> real)
    requires f.locationId.None? && f.zone.None? && f.onlyAvailable != Some(true)
    ensures Query(PublicSpecs(f), e, distance) == Some(true) <==>
      (f.text.None? || IsBlank(f.text.value)
        || Contains(Lower(e.title), Lower(f.text.value)) || Contains(Lower(e.annotation), Lower(f.text.value))
        || (e.description.Some? && Contains(Lower(e.description.value), Lower(f.text.value))))
      && (f.categories.None? || f.categories.value == [] || e.categoryId in f.categories.value)
      && (f.paid.None? || e.paid == f.paid.value)
      && (f.state.None? || e.state == f.state.value)
      && (f.rangeStart.None? || e.eventDate >= f.rangeStart.value)
      && (f.rangeEnd.None? || e.eventDate <= f.rangeEnd.value)
  {
    var specs := PublicSpecs(f);
    forall i | 0 <= i < |specs| && specs[i].Some? ensures Resolves(specs[i].value) {
      UnresolvedSpecifications(specs[i].value);
    }
    PublicCriteria(f, e, distance);
    var all := Criterion(specs[0], e, distance) && Criterion(specs[1], e, distance) && Criterion(specs[2], e, distance)
      && Criterion(specs[3], e, distance) && Criterion(specs[7], e, distance) && Criterion(specs[8], e, distance);
    if all {
      forall i | 0 <= i < |specs| ensures Criterion(specs[i], e, distance) {
        assert i == 0 || i == 1 || i == 2 || i == 3 || i == 4 || i == 5 || i == 6 || i == 7 || i == 8;
      }
    }
  }

  /** Each criterion of the public search, one by one. */
  lemma PublicCriteria(f: EventFilter, e: Event, distance: (Zone, int) -> real)
    requires f.locationId.None? && f.zone.None? && f.onlyAvailable != Some(true)
    ensures var specs := PublicSpecs(f);
      && (Criterion(specs[0], e, distance) <==>
          f.text.None? || IsBlank(f.text.value)
          || Contains(Lower(e.title), Lower(f.text.value)) || Contains(Lower(e.annotation), Lower(f.text.value))
          || (e.description.Some? && Contains(Lower(e.description.value), Lower(f.text.value))))
      && (Criterion(specs[1], e, distance) <==> f.categories.None? || f.categories.value == [] || e.categoryId in f.categories.value)
      && (Criterion(specs[2], e, distance) <==> f.paid.None? || e.paid == f.paid.value)
      && (Criterion(specs[3], e, distance) <==> f.state.None? || e.state == f.state.value)
      && specs[4].None? && specs[5].None? && specs[6].None?
      && (Criterion(specs[7], e, distance) <==> f.rangeStart.None? || e.eventDate >= f.rangeStart.value)
      && (Criterion(specs[8], e, distance) <==> f.rangeEnd.None? || e.eventDate <= f.rangeEnd.value)
  {
  }

  /** The date range is inclusive: an event exactly at both bounds is selected. */
  lemma RangeInclusive(e: Event, distance: (Zone, int) -> real)
    ensures Holds(RangeStart(e.eventDate), e, distance) && Holds(RangeEnd(e.eventDate), e, distance)
    ensures !Holds(RangeStart(e.eventDate + 1), e, distance) && !Holds(RangeEnd(e.eventDate - 1), e, distance)
  {
  }

  /** Case does not matter to the text filter: "ABC" and "abc" select the same rows. */
  lemma TextCaseInsensitive(text: string, e: Event, distance: (Zone, int) -> real)
    ensures Holds(TextContains(text), e, distance) <==> Holds(TextContains(Lower(text)), e, distance)
  {
    assert Lower(Lower(text)) == Lower(text);
  }
}
