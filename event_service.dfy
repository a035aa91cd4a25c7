/**
 * The event microservice's EventServiceImpl: the initiator's and the
 * administrator's partial updates over the events table, recommendation
 * ordering with its enrichment, and location resolution for a new event.
 * Categories, users and locations live in other services and enter as
 * parameters (the answers those clients give).
 */
module EventService {
  import opened Common
  import opened EwmModel
  import opened EventRules

  /** EventUpdateDto: the initiator's partial update; None is a null field. */
  datatype UserEventUpdate = UserEventUpdate(
    fields: FieldPatch,
    categoryId: Option<int>,
    eventDate: Option<DateTime>,
    locationId: Option<int>,
    stateAction: Option<UserStateAction>)

  /** EventUpdateAdminDto: the administrator's partial update. */
  datatype AdminEventUpdate = AdminEventUpdate(
    fields: FieldPatch,
    categoryId: Option<int>,
    eventDate: Option<DateTime>,
    locationId: Option<int>,
    stateAction: Option<AdminStateAction>)

  /** The setters, then the category: the update before its date and state steps. */
  function Patched(e: Event, fields: FieldPatch, locationId: Option<int>, categoryId: Option<int>): Event
  {
    ApplyFields(e, fields).(locationId := OrElse(locationId, e.locationId), categoryId := OrElse(categoryId, e.categoryId))
  }

  /** The event date step: a given date is validated against the current state, then set. */
  function Dated(e: Event, eventDate: Option<DateTime>, now: DateTime): Result<Event, EventFailure>
  {
    if eventDate.None? then Success(e)
    else match ValidateEventDate(eventDate, e.state, now)
      case Some(f) => Failure(f)
      case None => Success(e.(eventDate := eventDate.value))
  }

  /**
   * update(userId, eventId, dto): the category is fetched before anything
   * else, then the event, the initiator and not-published guards, the
   * setters, the date and the review action; the stored event on success.
   */
  function UserUpdateOutcome(events: map<int, Event>, categories: set<int>, userId: int, eventId: int,
                             dto: UserEventUpdate, now: DateTime): (r: Result<Event, EventFailure>)
    ensures dto.categoryId.Some? && dto.categoryId.value !in categories ==> r == Failure(CategoryNotFound)
    ensures r.Success? ==> eventId in events && events[eventId].initiatorId == userId && events[eventId].state != PUBLISHED
    ensures (dto.categoryId.None? || dto.categoryId.value in categories) && eventId in events ==>
      (events[eventId].initiatorId != userId ==> r == Failure(NotInitiator))
      && (events[eventId].initiatorId == userId && events[eventId].state == PUBLISHED ==> r == Failure(PublishedEventUpdate))
    ensures r.Success? ==> r.value.state != PUBLISHED
  {
    if dto.categoryId.Some? && dto.categoryId.value !in categories then Failure(CategoryNotFound)
    else if eventId !in events then Failure(EventNotFound)
    else
      var event := events[eventId];
      if event.initiatorId != userId then Failure(NotInitiator)
      else if event.state == PUBLISHED then Failure(PublishedEventUpdate)
      else match Dated(Patched(event, dto.fields, dto.locationId, dto.categoryId), dto.eventDate, now)
        case Failure(f) => Failure(f)
        case Success(dated) => Success(ApplyUserStateAction(dated, dto.stateAction))
  }

  /**
   * update(eventId, dto) for the administrator: category, event, setters,
   * date (validated against the state before the action), then publish or
   * reject.
   */
  function AdminUpdateOutcome(events: map<int, Event>, categories: set<int>, eventId: int,
                              dto: AdminEventUpdate, now: DateTime): (r: Result<Event, EventFailure>)
    ensures dto.categoryId.Some? && dto.categoryId.value !in categories ==> r == Failure(CategoryNotFound)
    ensures (dto.categoryId.None? || dto.categoryId.value in categories) && eventId !in events ==> r == Failure(EventNotFound)
    ensures r.Success? ==> eventId in events
  {
    if dto.categoryId.Some? && dto.categoryId.value !in categories then Failure(CategoryNotFound)
    else if eventId !in events then Failure(EventNotFound)
    else match Dated(Patched(events[eventId], dto.fields, dto.locationId, dto.categoryId), dto.eventDate, now)
      case Failure(f) => Failure(f)
      case Success(dated) => ApplyAdminStateAction(dated, dto.stateAction, now)
  }

  /** Every key names the event stored under it. */
  ghost predicate KeyedById(events: map<int, Event>)
  {
    forall id :: id in events ==> events[id].id == id
  }

  class EventStore {
    /** The events table, keyed by id. */
    var events: map<int, Event>

    ghost predicate Valid()
      reads this
    {
      KeyedById(events)
    }

    constructor()
      ensures Valid() && events == map[]
    {
      events := map[];
    }

    /** The initiator's update; the transaction rolls back on any failure. */
    method Update(categories: set<int>, userId: int, eventId: int, dto: UserEventUpdate, now: DateTime)
      returns (r: Result<Event, EventFailure>)
      requires Valid()
      modifies this
      ensures Valid()
      ensures r == UserUpdateOutcome(old(events), categories, userId, eventId, dto, now)
      ensures events == if r.Success? then old(events)[eventId := r.value] else old(events)
    {
      if dto.categoryId.Some? && dto.categoryId.value !in categories {
        return Failure(CategoryNotFound);
      }
      if eventId !in events {
        return Failure(EventNotFound);
      }
      var event := events[eventId];
      if event.initiatorId != userId {
        return Failure(NotInitiator);
      }
      if event.state == PUBLISHED {
        return Failure(PublishedEventUpdate);
      }
      event := ApplyFields(event, dto.fields);
      if dto.locationId.Some? {
        event := event.(locationId := dto.locationId.value);
      }
      if dto.categoryId.Some? {
        event := event.(categoryId := dto.categoryId.value);
      }
      if dto.eventDate.Some? {
        var invalid := ValidateEventDate(dto.eventDate, event.state, now);
        if invalid.Some? {
          return Failure(invalid.value);
        }
        event := event.(eventDate := dto.eventDate.value);
      }
      if dto.stateAction == Some(SEND_TO_REVIEW) {
        event := event.(state := EventState.PENDING);
      } else if dto.stateAction == Some(CANCEL_REVIEW) {
        event := event.(state := CANCELED);
      }
      events := events[eventId := event];
      return Success(event);
    }

    /** The administrator's update; the transaction rolls back on any failure. */
    method AdminUpdate(categories: set<int>, eventId: int, dto: AdminEventUpdate, now: DateTime)
      returns (r: Result<Event, EventFailure>)
      requires Valid()
      modifies this
      ensures Valid()
      ensures r == AdminUpdateOutcome(old(events), categories, eventId, dto, now)
      ensures events == if r.Success? then old(events)[eventId := r.value] else old(events)
    {
      if dto.categoryId.Some? && dto.categoryId.value !in categories {
        return Failure(CategoryNotFound);
      }
      if eventId !in events {
        return Failure(EventNotFound);
      }
      var event := Patched(events[eventId], dto.fields, dto.locationId, dto.categoryId);
      if dto.eventDate.Some? {
        var invalid := ValidateEventDate(dto.eventDate, event.state, now);
        if invalid.Some? {
          return Failure(invalid.value);
        }
        event := event.(eventDate := dto.eventDate.value);
      }
      if dto.stateAction == Some(PUBLISH_EVENT) {
        r := PublishEvent(event, now);
      } else if dto.stateAction == Some(REJECT_EVENT) {
        r := RejectEvent(event);
      } else {
        r := Success(event);
      }
      if r.Success? {
        events := events[eventId := r.value];
      }
    }
  }

  /**
   * What a successful initiator update writes: null DTO fields keep the
   * stored values, given ones replace them, the date is the new one when
   * given, the state follows the review action, and identity, counters and
   * publishedOn are untouched.
   */
  lemma UserUpdateEffect(events: map<int, Event>, categories: set<int>, userId: int, eventId: int,
                         dto: UserEventUpdate, now: DateTime)
    ensures var r := UserUpdateOutcome(events, categories, userId, eventId, dto, now);
      r.Success? ==>
        var old_ := events[eventId];
        && SameIdentity(r.value, old_)
        && r.value.publishedOn == old_.publishedOn
        && r.value.title == OrElse(dto.fields.title, old_.title)
        && r.value.annotation == OrElse(dto.fields.annotation, old_.annotation)
        && r.value.paid == OrElse(dto.fields.paid, old_.paid)
        && r.value.participantLimit == OrElse(dto.fields.participantLimit, old_.participantLimit)
        && r.value.locationId == OrElse(dto.locationId, old_.locationId)
        && r.value.categoryId == OrElse(dto.categoryId, old_.categoryId)
        && r.value.eventDate == OrElse(dto.eventDate, old_.eventDate)
        && (dto.eventDate.Some? ==> dto.eventDate.value >= now + 2 * NanosPerHour)
        && (dto.stateAction == Some(SEND_TO_REVIEW) ==> r.value.state == EventState.PENDING)
        && (dto.stateAction == Some(CANCEL_REVIEW) ==> r.value.state == CANCELED)
        && (dto.stateAction.None? ==> r.value.state == old_.state)
  {
  }

  /**
   * The initiator's update succeeds exactly when the category (if any) is
   * known, the event exists, the caller is its initiator, it is not
   * published, and a given date is at least two hours away.
   */
  lemma UserUpdateSucceedsIff(events: map<int, Event>, categories: set<int>, userId: int, eventId: int,
                              dto: UserEventUpdate, now: DateTime)
    ensures UserUpdateOutcome(events, categories, userId, eventId, dto, now).Success? <==>
      (dto.categoryId.None? || dto.categoryId.value in categories)
      && eventId in events && events[eventId].initiatorId == userId && events[eventId].state != PUBLISHED
      && (dto.eventDate.None? || dto.eventDate.value >= now + 2 * NanosPerHour)
  {
  }

  /**
   * The administrator's lifecycle: a published event stays published (a
   * publish or reject action on it fails); publication happens only from
   * PENDING, stamps publishedOn, and a new date given with it must clear the
   * two-hour lead as well as the one-hour one.
   */
  lemma AdminUpdateLifecycle(events: map<int, Event>, categories: set<int>, eventId: int,
                             dto: AdminEventUpdate, now: DateTime)
    ensures var r := AdminUpdateOutcome(events, categories, eventId, dto, now);
      && (r.Success? && events[eventId].state == PUBLISHED ==> r.value.state == PUBLISHED && dto.stateAction.None?)
      && (r.Success? && r.value.state == PUBLISHED && events[eventId].state != PUBLISHED ==>
            events[eventId].state == EventState.PENDING && dto.stateAction == Some(PUBLISH_EVENT)
            && r.value.publishedOn == Some(now) && r.value.eventDate >= now + NanosPerHour
            && (dto.eventDate.Some? ==> dto.eventDate.value >= now + 2 * NanosPerHour))
      && (r.Success? && dto.stateAction == Some(REJECT_EVENT) ==> r.value.state == CANCELED)
      && (r.Success? ==> SameIdentity(r.value, events[eventId]))
  {
    var r := AdminUpdateOutcome(events, categories, eventId, dto, now);
    if r.Success? {
      var patched := Patched(events[eventId], dto.fields, dto.locationId, dto.categoryId);
      var dated := Dated(patched, dto.eventDate, now);
      AdminTransitions(dated.value, dto.stateAction, now);
    }
  }

  // ---------------------------------------------------------------------------
  // getRecommendation
  // ---------------------------------------------------------------------------

  /** RecommendedEventProto as the analyzer's interaction counts carry it. */
  datatype EventScore = EventScore(eventId: int, score: real)

  /** The analyzer's ids that name a stored event, in the analyzer's order. */
  function Present(ids: seq<int>, keys: set<int>): (r: seq<int>)
  {
    if ids == [] then []
    else
      var rest := Present(ids[..|ids| - 1], keys);
      if ids[|ids| - 1] in keys then rest + [ids[|ids| - 1]] else rest
  }

  /**
   * findAllByIdIn: each stored event whose id is requested, once. The
   * database order is unspecified; the model lists them by first request.
   */
  function FindAllByIdIn(table: map<int, Event>, ids: seq<int>): (r: seq<Event>)
    ensures |r| <= |ids|
    ensures forall e :: e in r ==> exists id :: id in ids && id in table && table[id] == e
    ensures forall id :: id in ids && id in table ==> table[id] in r
  {
    if ids == [] then []
    else
      var init := ids[..|ids| - 1];
      var id := ids[|ids| - 1];
      var rest := FindAllByIdIn(table, init);
      assert forall k :: k in init ==> k in ids;
      if id in table && id !in init then rest + [table[id]] else rest
  }

  /** Collectors.toMap(Event::getId, e -> e): None on a repeated id. */
  function ToMapById(events: seq<Event>): (r: Option<map<int, Event>>)
    ensures r.Some? ==> forall k :: k in r.value ==> r.value[k] in events && r.value[k].id == k
    ensures r.Some? ==> forall e :: e in events ==> e.id in r.value && r.value[e.id] == e
  {
    if events == [] then Some(map[])
    else
      var last := events[|events| - 1];
      match ToMapById(events[..|events| - 1])
      case None => None
      case Some(m) =>
        if last.id in m then None
        else
          assert forall e :: e in events ==> e in events[..|events| - 1] || e == last;
          Some(m[last.id := last])
  }

  /** eventIds.stream().map(byId::get).filter(Objects::nonNull). */
  function Ordered(ids: seq<int>, byId: map<int, Event>): seq<Event>
  {
    if ids == [] then []
    else
      var rest := Ordered(ids[..|ids| - 1], byId);
      var id := ids[|ids| - 1];
      if id in byId then rest + [byId[id]] else rest
  }

  /** The ordered list follows the requested ids, missing ones dropped. */
  lemma {:induction false} OrderedFollowsIds(ids: seq<int>, byId: map<int, Event>)
    requires forall k :: k in byId ==> byId[k].id == k
    ensures EventIds(Ordered(ids, byId)) == Present(ids, byId.Keys)
    ensures forall e :: e in Ordered(ids, byId) ==> e.id in byId && byId[e.id] == e
  {
    if ids != [] {
      OrderedFollowsIds(ids[..|ids| - 1], byId);
    }
  }

  /** Collectors.toMap(eventId, score, (a, b) -> b): a later score for the same id wins. */
  function ScoresToMap(scores: seq<EventScore>): (r: map<int, real>)
    ensures forall k :: k in r <==> exists s :: s in scores && s.eventId == k
  {
    if scores == [] then map[]
    else
      var last := scores[|scores| - 1];
      assert forall s :: s in scores <==> s in scores[..|scores| - 1] || s == last;
      ScoresToMap(scores[..|scores| - 1])[last.eventId := last.score]
  }

  /** The kept score is the one at the last position carrying that id. */
  lemma {:induction false} ScoresToMapLastWins(scores: seq<EventScore>, j: nat)
    requires j < |scores|
    requires forall i :: j < i < |scores| ==> scores[i].eventId != scores[j].eventId
    ensures ScoresToMap(scores)[scores[j].eventId] == scores[j].score
  {
    if j < |scores| - 1 {
      ScoresToMapLastWins(scores[..|scores| - 1], j);
    }
  }

  /** scoreByEventId.getOrDefault(id, 0.0). */
  function RatingOf(scores: seq<EventScore>, id: int): real
  {
    var m := ScoresToMap(scores);
    if id in m then m[id] else 0.0
  }

  /** enrichWithRating: every event takes its score, or 0.0 when the analyzer has none. */
  function EnrichWithRating(events: seq<Event>, scores: seq<EventScore>): (r: seq<Event>)
    ensures |r| == |events|
    ensures forall i :: 0 <= i < |events| ==> r[i] == events[i].(rating := r[i].rating)
    ensures forall i :: 0 <= i < |events| && (forall s :: s in scores ==> s.eventId != events[i].id) ==> r[i].rating == 0.0
  {
    seq(|events|, i requires 0 <= i < |events| => events[i].(rating := RatingOf(scores, events[i].id)))
  }

  /** An event the analyzer scored takes the last score given for its id. */
  lemma EnrichWithRatingLastWins(events: seq<Event>, scores: seq<EventScore>, i: nat, j: nat)
    requires i < |events| && j < |scores| && scores[j].eventId == events[i].id
    requires forall k :: j < k < |scores| ==> scores[k].eventId != scores[j].eventId
    ensures EnrichWithRating(events, scores)[i].rating == scores[j].score
  {
    ScoresToMapLastWins(scores, j);
  }

  /** The forEach of enrichWithRating. */
  method EnrichRating(events: seq<Event>, scores: seq<EventScore>) returns (r: seq<Event>)
    ensures r == EnrichWithRating(events, scores)
  {
    var scoreByEventId := ScoresToMap(scores);
    r := events;
    for i := 0 to |events|
      invariant |r| == |events|
      invariant forall j :: 0 <= j < i ==> r[j] == events[j].(rating := RatingOf(scores, events[j].id))
      invariant forall j :: i <= j < |events| ==> r[j] == events[j]
    {
      var rating := if r[i].id in scoreByEventId then scoreByEventId[r[i].id] else 0.0;
      r := r[i := r[i].(rating := rating)];
    }
  }

  /**
   * getRecommendation after the analyzer answered with `ids`: nothing for
   * no ids; otherwise the stored events, enriched with confirmed counts and
   * ratings, in the analyzer's order.
   */
  function GetRecommendation(table: map<int, Event>, ids: seq<int>, counts: seq<RequestsCount>,
                             scores: seq<EventScore>): (r: Result<seq<Event>, EventFailure>)
    ensures ids == [] ==> r == Success([])
  {
    if ids == [] then Success([])
    else
      match EnrichWithConfirmedRequestsCount(FindAllByIdIn(table, ids), counts)
      case Failure(f) => Failure(f)
      case Success(counted) =>
        match ToMapById(EnrichWithRating(counted, scores))
        case None => Failure(DuplicateKey)
        case Some(byId) => Success(Ordered(ids, byId))
  }

  /** Enrichment keeps each event's id and stored fields. */
  lemma EnrichedKeepsStored(found: seq<Event>, counted: seq<Event>, rated: seq<Event>, scores: seq<EventScore>)
    requires |counted| == |found|
    requires forall i :: 0 <= i < |found| ==> counted[i] == found[i].(confirmedRequests := counted[i].confirmedRequests)
    requires rated == EnrichWithRating(counted, scores)
    ensures forall e :: e in rated ==> exists i :: 0 <= i < |found| && e == found[i].(confirmedRequests := e.confirmedRequests, rating := RatingOf(scores, e.id))
    ensures forall i :: 0 <= i < |found| ==> rated[i].id == found[i].id
  {
    forall e | e in rated
      ensures exists i :: 0 <= i < |found| && e == found[i].(confirmedRequests := e.confirmedRequests, rating := RatingOf(scores, e.id))
    {
      var i :| 0 <= i < |rated| && rated[i] == e;
      assert e == found[i].(confirmedRequests := e.confirmedRequests, rating := RatingOf(scores, e.id));
    }
  }

  /** No two events of the list share an id. */
  predicate DistinctIds(events: seq<Event>)
  {
    forall i, j :: 0 <= i < j < |events| ==> events[i].id != events[j].id
  }

  /** The ids of the found events are distinct when the table is keyed by id. */
  lemma {:induction false} FoundDistinct(table: map<int, Event>, ids: seq<int>)
    requires KeyedById(table)
    ensures DistinctIds(FindAllByIdIn(table, ids))
  {
    if ids != [] {
      var init := ids[..|ids| - 1];
      FoundDistinct(table, init);
      var rest := FindAllByIdIn(table, init);
      var id := ids[|ids| - 1];
      if id in table && id !in init {
        var found := rest + [table[id]];
        assert FindAllByIdIn(table, ids) == found;
        forall i, j | 0 <= i < j < |found| ensures found[i].id != found[j].id {
          if j == |rest| {
            assert found[i] == rest[i] && rest[i] in rest;
            var k :| k in init && k in table && table[k] == rest[i];
            assert found[i].id == k && found[j].id == id;
            assert k != id;
          } else {
            assert found[i] == rest[i] && found[j] == rest[j];
            assert rest[i].id != rest[j].id;
          }
        }
      }
    }
  }

  /** A list with distinct ids always converts to a map. */
  lemma {:induction false} DistinctToMap(events: seq<Event>)
    requires DistinctIds(events)
    ensures ToMapById(events).Some?
  {
    if events != [] {
      DistinctToMap(events[..|events| - 1]);
    }
  }

  /**
   * The map getRecommendation builds over a table keyed by id: it exists,
   * holds exactly the requested stored ids, and each entry is the stored
   * event with a confirmed count and its rating.
   */
  lemma RecommendationMap(table: map<int, Event>, ids: seq<int>, counted: seq<Event>, scores: seq<EventScore>)
    requires KeyedById(table)
    requires |counted| == |FindAllByIdIn(table, ids)|
    requires forall i :: 0 <= i < |counted| ==>
      counted[i] == FindAllByIdIn(table, ids)[i].(confirmedRequests := counted[i].confirmedRequests)
    ensures var m := ToMapById(EnrichWithRating(counted, scores));
      && m.Some?
      && (forall k :: k in m.value ==>
            (m.value[k].id == k && k in table
             && m.value[k] == table[k].(confirmedRequests := m.value[k].confirmedRequests, rating := RatingOf(scores, k))))
      && (forall i :: 0 <= i < |ids| ==> (ids[i] in m.value <==> ids[i] in table))
      && forall k :: k in m.value ==>
           exists i :: 0 <= i < |counted| && counted[i].id == k && m.value[k].confirmedRequests == counted[i].confirmedRequests
  {
    var found := FindAllByIdIn(table, ids);
    var rated := EnrichWithRating(counted, scores);
    EnrichedKeepsStored(found, counted, rated, scores);
    FoundDistinct(table, ids);
    forall i, j | 0 <= i < j < |rated| ensures rated[i].id != rated[j].id {
      assert rated[i].id == found[i].id && rated[j].id == found[j].id;
    }
    DistinctToMap(rated);
    var byId := ToMapById(rated).value;
    forall k | k in byId
      ensures byId[k].id == k && k in table
        && byId[k] == table[k].(confirmedRequests := byId[k].confirmedRequests, rating := RatingOf(scores, k))
    {
      var e := byId[k];
      var i :| 0 <= i < |found| && e == found[i].(confirmedRequests := e.confirmedRequests, rating := RatingOf(scores, e.id));
      assert found[i] in found;
    }
    forall n | 0 <= n < |ids| && ids[n] in table ensures ids[n] in byId {
      var k := ids[n];
      assert k in ids;
      var i :| 0 <= i < |found| && found[i] == table[k];
      assert rated[i] in rated;
    }
    forall k | k in byId
      ensures exists i :: 0 <= i < |counted| && counted[i].id == k && byId[k].confirmedRequests == counted[i].confirmedRequests
    {
      var i :| 0 <= i < |rated| && rated[i] == byId[k];
      assert counted[i].id == k && byId[k].confirmedRequests == counted[i].confirmedRequests;
    }
  }

  /**
   * Over a table keyed by id, getRecommendation fails only on repeated
   * event ids in the confirmed counts; otherwise it lists the analyzer's ids
   * that are stored, in the analyzer's order (unknown ids dropped), each
   * with its stored fields, its rating from the analyzer (0.0 without one)
   * and the confirmed count the request service reports for its id (0 when
   * it reports none for it, the stored count when it reports nothing at all).
   */
  lemma GetRecommendationOrder(table: map<int, Event>, ids: seq<int>, counts: seq<RequestsCount>,
                               scores: seq<EventScore>)
    requires KeyedById(table)
    ensures var r := GetRecommendation(table, ids, counts, scores);
      && (r.Failure? ==> r.error == DuplicateKey && CountsToMap(counts).None?)
      && (r.Success? ==> EventIds(r.value) == Present(ids, table.Keys))
      && (r.Success? ==> forall e :: e in r.value ==>
            e.id in table && e == table[e.id].(confirmedRequests := e.confirmedRequests, rating := RatingOf(scores, e.id)))
      && (r.Success? ==> forall e, c :: e in r.value && c in counts && c.eventId == e.id ==> e.confirmedRequests == c.count)
      && (r.Success? && counts != [] ==>
            forall e :: e in r.value && (forall c :: c in counts ==> c.eventId != e.id) ==> e.confirmedRequests == 0)
      && (r.Success? && counts == [] ==>
            forall e :: e in r.value ==> e.id in table && e.confirmedRequests == table[e.id].confirmedRequests)
  {
    if ids != [] {
      var found := FindAllByIdIn(table, ids);
      var cr := EnrichWithConfirmedRequestsCount(found, counts);
      if cr.Success? {
        RecommendationMap(table, ids, cr.value, scores);
        var byId := ToMapById(EnrichWithRating(cr.value, scores)).value;
        assert GetRecommendation(table, ids, counts, scores) == Success(Ordered(ids, byId));
        OrderedFollowsIds(ids, byId);
        PresentAgrees(ids, byId.Keys, table.Keys);
        forall e | e in Ordered(ids, byId)
          ensures forall c :: c in counts && c.eventId == e.id ==> e.confirmedRequests == c.count
          ensures counts != [] && (forall c :: c in counts ==> c.eventId != e.id) ==> e.confirmedRequests == 0
          ensures counts == [] ==> e.id in table && e.confirmedRequests == table[e.id].confirmedRequests
        {
          var i :| 0 <= i < |cr.value| && cr.value[i].id == e.id && byId[e.id].confirmedRequests == cr.value[i].confirmedRequests;
          assert found[i].id == e.id;
          if counts == [] {
            assert found[i] in found;
          }
        }
      }
    }
  }

  /** Present only looks at the requested ids' membership. */
  lemma {:induction false} PresentAgrees(ids: seq<int>, a: set<int>, c: set<int>)
    requires forall i :: 0 <= i < |ids| ==> (ids[i] in a <==> ids[i] in c)
    ensures Present(ids, a) == Present(ids, c)
  {
    if ids != [] {
      PresentAgrees(ids[..|ids| - 1], a, c);
    }
  }

  // ---------------------------------------------------------------------------
  // resolveLocationId / isLocationUsableForEvent
  // ---------------------------------------------------------------------------

  /** The part of LocationFullDtoOut the event service reads. */
  datatype LocationFull = LocationFull(id: int, state: LocationState)

  /** isLocationUsableForEvent: approved or auto-generated locations only. */
  predicate IsLocationUsableForEvent(full: LocationFull)
  {
    full.state == APPROVED || full.state == AUTO_GENERATED
  }

  /**
   * resolveLocationId. `byId` is what getLocationById answers (absent: null);
   * `autoGenerated` is getOrCreateAutoGenerated's answer for the coordinates.
   */
  function ResolveLocationId(dto: Option<LocationDto>, byId: map<int, LocationFull>,
                             autoGenerated: Option<LocationFull>): (r: Result<int, EventFailure>)
    ensures dto.None? ==> r == Failure(LocationRequired)
    ensures dto.Some? && dto.value.id.Some? ==>
      (r.Success? <==> dto.value.id.value in byId && IsLocationUsableForEvent(byId[dto.value.id.value]))
      && (dto.value.id.value !in byId ==> r == Failure(LocationNotFound))
      && (r.Success? ==> r.value == byId[dto.value.id.value].id)
    ensures dto.Some? && dto.value.id.None? ==>
      (r.Success? <==> autoGenerated.Some?) && (r.Success? ==> r.value == autoGenerated.value.id)
  {
    if dto.None? then Failure(LocationRequired)
    else if dto.value.id.Some? then
      if dto.value.id.value !in byId then Failure(LocationNotFound)
      else
        var full := byId[dto.value.id.value];
        if !IsLocationUsableForEvent(full) then Failure(LocationUnusable) else Success(full.id)
    else if autoGenerated.None? then Failure(LocationUnresolved)
    else Success(autoGenerated.value.id)
  }

  /** A resolved location given by id is never PENDING or REJECTED. */
  lemma ResolvedLocationUsable(dto: LocationDto, byId: map<int, LocationFull>, autoGenerated: Option<LocationFull>)
    requires dto.id.Some?
    ensures ResolveLocationId(Some(dto), byId, autoGenerated).Success? ==>
      byId[dto.id.value].state != LocationState.PENDING && byId[dto.id.value].state != LocationState.REJECTED
  {
  }
}
