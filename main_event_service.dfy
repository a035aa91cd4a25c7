/**
 * The monolith's EventServiceImpl: the same lifecycle over event entities
 * that reference their category, initiator and location, with a location
 * resolved through the location service, a category replaced only on a
 * real change, and view counts taken from the statistics service.
 */
module MainEventService {
  import opened Common
  import opened EwmModel
  import opened EventRules
  import opened TextMatch
  import opened StatsDto

  /** EventUpdateDto of the monolith. */
  datatype UserEventUpdate = UserEventUpdate(
    fields: FieldPatch,
    categoryId: Option<int>,
    eventDate: Option<DateTime>,
    location: Option<LocationDto>,
    stateAction: Option<UserStateAction>)

  /** EventUpdateAdminDto of the monolith: no category is read from it. */
  datatype AdminEventUpdate = AdminEventUpdate(
    fields: FieldPatch,
    eventDate: Option<DateTime>,
    location: Option<LocationDto>,
    stateAction: Option<AdminStateAction>)

  /**
   * The setters with the location step: a DTO location is handed to
   * locationService.getOrCreateLocation, whose answer (a location id or the
   * exception it threw) is `located`.
   */
  function Located(e: Event, fields: FieldPatch, location: Option<LocationDto>,
                   located: Result<int, EventFailure>): Result<Event, EventFailure>
  {
    var patched := ApplyFields(e, fields);
    if location.None? then Success(patched)
    else match located
      case Failure(f) => Failure(f)
      case Success(locationId) => Success(patched.(locationId := locationId))
  }

  /** The category step: looked up and replaced only when a different id is given. */
  function Categorized(e: Event, categoryId: Option<int>, categories: set<int>): (r: Result<Event, EventFailure>)
    ensures categoryId.None? || categoryId.value == e.categoryId ==> r == Success(e)
    ensures categoryId.Some? && categoryId.value != e.categoryId ==>
      (r.Success? <==> categoryId.value in categories)
      && (r.Success? ==> r.value == e.(categoryId := categoryId.value))
      && (r.Failure? ==> r.error == CategoryNotFound)
  {
    if categoryId.Some? && categoryId.value != e.categoryId then
      if categoryId.value !in categories then Failure(CategoryNotFound)
      else Success(e.(categoryId := categoryId.value))
    else Success(e)
  }

  /** The date step, validated against the state the event has at that point. */
  function Dated(e: Event, eventDate: Option<DateTime>, now: DateTime): Result<Event, EventFailure>
  {
    if eventDate.None? then Success(e)
    else match ValidateEventDate(eventDate, e.state, now)
      case Some(f) => Failure(f)
      case None => Success(e.(eventDate := eventDate.value))
  }

  /** update(userId, eventId, dto): event, guards, setters, category, date, review action. */
  function UserUpdateOutcome(events: map<int, Event>, categories: set<int>, userId: int, eventId: int,
                             dto: UserEventUpdate, located: Result<int, EventFailure>, now: DateTime): (r: Result<Event, EventFailure>)
    ensures eventId !in events ==> r == Failure(EventNotFound)
    ensures eventId in events && events[eventId].initiatorId != userId ==> r == Failure(NotInitiator)
    ensures eventId in events && events[eventId].initiatorId == userId && events[eventId].state == PUBLISHED ==>
      r == Failure(PublishedEventUpdate)
    ensures r.Success? ==> r.value.state != PUBLISHED
  {
    if eventId !in events then Failure(EventNotFound)
    else
      var event := events[eventId];
      if event.initiatorId != userId then Failure(NotInitiator)
      else if event.state == PUBLISHED then Failure(PublishedEventUpdate)
      else match Located(event, dto.fields, dto.location, located)
        case Failure(f) => Failure(f)
        case Success(withLocation) =>
          match Categorized(withLocation, dto.categoryId, categories)
          case Failure(f) => Failure(f)
          case Success(withCategory) =>
            match Dated(withCategory, dto.eventDate, now)
            case Failure(f) => Failure(f)
            case Success(dated) => Success(ApplyUserStateAction(dated, dto.stateAction))
  }

  /** update(eventId, dto) for the administrator: event, setters, date, publish or reject. */
  function AdminUpdateOutcome(events: map<int, Event>, eventId: int, dto: AdminEventUpdate,
                              located: Result<int, EventFailure>, now: DateTime): (r: Result<Event, EventFailure>)
    ensures eventId !in events ==> r == Failure(EventNotFound)
    ensures r.Success? ==> eventId in events && r.value.categoryId == events[eventId].categoryId
  {
    if eventId !in events then Failure(EventNotFound)
    else match Located(events[eventId], dto.fields, dto.location, located)
      case Failure(f) => Failure(f)
      case Success(withLocation) =>
        match Dated(withLocation, dto.eventDate, now)
        case Failure(f) => Failure(f)
        case Success(dated) => ApplyAdminStateAction(dated, dto.stateAction, now)
  }

  class EventStore {
    /** The events table, keyed by id. */
    var events: map<int, Event>

    ghost predicate Valid()
      reads this
    {
      forall id :: id in events ==> events[id].id == id
    }

    constructor()
      ensures Valid() && events == map[]
    {
      events := map[];
    }

    /** The initiator's update; a failure rolls the transaction back. */
    method Update(categories: set<int>, userId: int, eventId: int, dto: UserEventUpdate,
                  located: Result<int, EventFailure>, now: DateTime) returns (r: Result<Event, EventFailure>)
      requires Valid()
      modifies this
      ensures Valid()
      ensures r == UserUpdateOutcome(old(events), categories, userId, eventId, dto, located, now)
      ensures events == if r.Success? then old(events)[eventId := r.value] else old(events)
    {
      if eventId !in events {
        return Failure(EventNotFound);
      }
      var event := events[eventId];
      if event.initiatorId != userId {
        return Failure(NotInitiator);
      }
      if event.state == PUBLISHED {
        return Failure(PublishedEventUpdate);
      }
      event := ApplyFields(event, dto.fields);
      if dto.location.Some? {
        if located.Failure? {
          return Failure(located.error);
        }
        event := event.(locationId := located.value);
      }
      if dto.categoryId.Some? && dto.categoryId.value != event.categoryId {
        if dto.categoryId.value !in categories {
          return Failure(CategoryNotFound);
        }
        event := event.(categoryId := dto.categoryId.value);
      }
      if dto.eventDate.Some? {
        var invalid := ValidateEventDate(dto.eventDate, event.state, now);
        if invalid.Some? {
          return Failure(invalid.value);
        }
        event := event.(eventDate := dto.eventDate.value);
      }
      event := ApplyUserStateAction(event, dto.stateAction);
      events := events[eventId := event];
      return Success(event);
    }

    /** The administrator's update; the managed entity is written back at commit. */
    method AdminUpdate(eventId: int, dto: AdminEventUpdate, located: Result<int, EventFailure>, now: DateTime)
      returns (r: Result<Event, EventFailure>)
      requires Valid()
      modifies this
      ensures Valid()
      ensures r == AdminUpdateOutcome(old(events), eventId, dto, located, now)
      ensures events == if r.Success? then old(events)[eventId := r.value] else old(events)
    {
      if eventId !in events {
        return Failure(EventNotFound);
      }
      var withLocation := Located(events[eventId], dto.fields, dto.location, located);
      if withLocation.Failure? {
        return Failure(withLocation.error);
      }
      var event := withLocation.value;
      if dto.eventDate.Some? {
        var invalid := ValidateEventDate(dto.eventDate, event.state, now);
        if invalid.Some? {
          return Failure(invalid.value);
        }
        event := event.(eventDate := dto.eventDate.value);
      }
      r := ApplyAdminStateAction(event, dto.stateAction, now);
      if r.Success? {
        events := events[eventId := r.value];
      }
    }
  }

  /**
   * The category of a successful initiator update: unchanged without an id
   * or with the current one, otherwise the given (known) id; a different
   * unknown id, once the earlier steps pass, is CategoryNotFound.
   */
  lemma UserUpdateCategory(events: map<int, Event>, categories: set<int>, userId: int, eventId: int,
                           dto: UserEventUpdate, located: Result<int, EventFailure>, now: DateTime)
    ensures var r := UserUpdateOutcome(events, categories, userId, eventId, dto, located, now);
      && (r.Success? && (dto.categoryId.None? || dto.categoryId.value == events[eventId].categoryId) ==>
            r.value.categoryId == events[eventId].categoryId)
      && (r.Success? && dto.categoryId.Some? ==>
            (r.value.categoryId == dto.categoryId.value
             && (dto.categoryId.value != events[eventId].categoryId ==> dto.categoryId.value in categories)))
      && ((eventId in events && events[eventId].initiatorId == userId && events[eventId].state != PUBLISHED
           && (dto.location.None? || located.Success?)
           && dto.categoryId.Some? && dto.categoryId.value != events[eventId].categoryId
           && dto.categoryId.value !in categories) ==> r == Failure(CategoryNotFound))
  {
  }

  /**
   * What a successful initiator update writes: null fields keep their
   * values, the location is the location service's answer when one was
   * given, the date is the new one (at least two hours away), the state
   * follows the review action, and identity, counters and publishedOn stay.
   */
  lemma UserUpdateEffect(events: map<int, Event>, categories: set<int>, userId: int, eventId: int,
                         dto: UserEventUpdate, located: Result<int, EventFailure>, now: DateTime)
    ensures var r := UserUpdateOutcome(events, categories, userId, eventId, dto, located, now);
      r.Success? ==>
        var old_ := events[eventId];
        && r.value.id == old_.id && r.value.initiatorId == old_.initiatorId && r.value.publishedOn == old_.publishedOn
        && r.value.confirmedRequests == old_.confirmedRequests && r.value.views == old_.views
        && r.value.title == OrElse(dto.fields.title, old_.title)
        && r.value.annotation == OrElse(dto.fields.annotation, old_.annotation)
        && r.value.paid == OrElse(dto.fields.paid, old_.paid)
        && r.value.participantLimit == OrElse(dto.fields.participantLimit, old_.participantLimit)
        && (dto.location.None? ==> r.value.locationId == old_.locationId)
        && (dto.location.Some? ==> located.Success? && r.value.locationId == located.value)
        && r.value.eventDate == OrElse(dto.eventDate, old_.eventDate)
        && (dto.eventDate.Some? ==> dto.eventDate.value >= now + 2 * NanosPerHour)
        && (dto.stateAction == Some(SEND_TO_REVIEW) ==> r.value.state == EventState.PENDING)
        && (dto.stateAction == Some(CANCEL_REVIEW) ==> r.value.state == CANCELED)
        && (dto.stateAction.None? ==> r.value.state == old_.state)
  {
    var r := UserUpdateOutcome(events, categories, userId, eventId, dto, located, now);
    if r.Success? {
      var e0 := events[eventId];
      var l := Located(e0, dto.fields, dto.location, located);
      var c := Categorized(l.value, dto.categoryId, categories);
      var d := Dated(c.value, dto.eventDate, now);
      assert r.value == ApplyUserStateAction(d.value, dto.stateAction);
      ApplyFieldsEffect(e0, dto.fields);
      assert d.value == c.value.(eventDate := d.value.eventDate);
      assert c.value == l.value.(categoryId := c.value.categoryId);
      assert l.value == ApplyFields(e0, dto.fields).(locationId := l.value.locationId);
    }
  }

  /**
   * The administrator's lifecycle: published stays published, publication
   * only from PENDING with publishedOn stamped and an hour of lead time,
   * reject yields CANCELED, and the id, initiator and counters are kept.
   */
  lemma AdminUpdateLifecycle(events: map<int, Event>, eventId: int, dto: AdminEventUpdate,
                             located: Result<int, EventFailure>, now: DateTime)
    ensures var r := AdminUpdateOutcome(events, eventId, dto, located, now);
      && (r.Success? && events[eventId].state == PUBLISHED ==> r.value.state == PUBLISHED && dto.stateAction.None?)
      && (r.Success? && r.value.state == PUBLISHED && events[eventId].state != PUBLISHED ==>
            events[eventId].state == EventState.PENDING && dto.stateAction == Some(PUBLISH_EVENT)
            && r.value.publishedOn == Some(now) && r.value.eventDate >= now + NanosPerHour)
      && (r.Success? && dto.stateAction == Some(REJECT_EVENT) ==> r.value.state == CANCELED)
      && (r.Success? ==> SameIdentity(r.value, events[eventId]))
  {
    var r := AdminUpdateOutcome(events, eventId, dto, located, now);
    if r.Success? {
      var withLocation := Located(events[eventId], dto.fields, dto.location, located);
      var dated := Dated(withLocation.value, dto.eventDate, now);
      AdminTransitions(dated.value, dto.stateAction, now);
    }
  }

  // ---------------------------------------------------------------------------
  // getStatistics / enrichWithViewsCount
  // ---------------------------------------------------------------------------

  /** STATS_EVENTS_URL + id. */
  function EventUri(prefix: string, id: int): string
  {
    prefix + DecimalString(id)
  }

  /** Distinct event ids are counted under distinct uris. */
  lemma EventUriInjective(prefix: string, a: int, b: int)
    requires EventUri(prefix, a) == EventUri(prefix, b)
    ensures a == b
  {
    assert DecimalString(a) == EventUri(prefix, a)[|prefix|..] == EventUri(prefix, b)[|prefix|..] == DecimalString(b);
    DecimalStringInjective(a, b);
  }

  /** Collectors.toMap(StatsDtoOut::getUri, StatsDtoOut::getHits): None on a repeated uri. */
  function HitsByUri(stats: seq<StatsDtoOut>): (r: Option<map<string, int>>)
    ensures r.Some? ==> forall i :: 0 <= i < |stats| ==> stats[i].uri in r.value && r.value[stats[i].uri] == stats[i].hits
    ensures r.Some? ==> forall u :: u in r.value ==> exists i :: 0 <= i < |stats| && stats[i].uri == u
  {
    if stats == [] then Some(map[])
    else
      var last := stats[|stats| - 1];
      match HitsByUri(stats[..|stats| - 1])
      case None => None
      case Some(m) => if last.uri in m then None else Some(m[last.uri := last.hits])
  }

  /** ids.stream().collect(toMap(num -> num, ...)): None on a repeated id. */
  function HitsById(ids: seq<int>, hits: map<string, int>, prefix: string): (r: Option<map<int, int>>)
    ensures r.Some? ==> forall k :: k in r.value <==> k in ids
    ensures r.Some? ==> forall k :: k in r.value ==>
      r.value[k] == if EventUri(prefix, k) in hits then hits[EventUri(prefix, k)] else 0
  {
    if ids == [] then Some(map[])
    else
      var init := ids[..|ids| - 1];
      var id := ids[|ids| - 1];
      var u := EventUri(prefix, id);
      match HitsById(init, hits, prefix)
      case None => None
      case Some(m) =>
        if id in m then None
        else
          assert forall k :: k in ids <==> k in init || k == id;
          Some(m[id := if u in hits then hits[u] else 0])
  }

  /** No id occurs twice. */
  predicate DistinctInts(ids: seq<int>)
  {
    forall i, j :: 0 <= i < j < |ids| ==> ids[i] != ids[j]
  }

  /** The id map exists exactly when no id repeats (toMap throws on a repeat). */
  lemma {:induction false} HitsByIdDefined(ids: seq<int>, hits: map<string, int>, prefix: string)
    ensures HitsById(ids, hits, prefix).Some? <==> DistinctInts(ids)
  {
    if ids != [] {
      var init := ids[..|ids| - 1];
      var id := ids[|ids| - 1];
      HitsByIdDefined(init, hits, prefix);
      var m := HitsById(init, hits, prefix);
      if m.Some? {
        assert DistinctInts(init);
        if id in m.value {
          var i :| 0 <= i < |init| && init[i] == id by {
            assert id in init;
          }
          assert ids[i] == ids[|ids| - 1];
        } else {
          forall i, j | 0 <= i < j < |ids| ensures ids[i] != ids[j] {
            if j == |ids| - 1 {
              assert init[i] in init;
            } else {
              assert ids[i] == init[i] && ids[j] == init[j];
            }
          }
        }
      } else {
        assert !DistinctInts(init);
        var i, j :| 0 <= i < j < |init| && init[i] == init[j];
        assert ids[i] == ids[j];
      }
    }
  }

  /**
   * getStatistics. `stats` is the statistics client's answer for the ids'
   * uris over the ±10-year window with unique hits; None when the client
   * threw, which leaves the statistics empty.
   */
  function GetStatistics(ids: seq<int>, stats: Option<seq<StatsDtoOut>>, prefix: string): (r: Result<map<int, int>, EventFailure>)
    ensures ids == [] ==> r == Success(map[])
    ensures stats.None? || stats == Some([]) ==> r == Success(map[])
  {
    if ids == [] then Success(map[])
    else if stats.None? || stats.value == [] then Success(map[])
    else match HitsByUri(stats.value)
      case None => Failure(DuplicateKey)
      case Some(hits) =>
        match HitsById(ids, hits, prefix)
        case None => Failure(DuplicateKey)
        case Some(m) => Success(m)
  }

  /**
   * With some statistics and no repeated ids or uris, every requested id
   * maps to the hits recorded for its uri, or 0 when none were.
   */
  lemma GetStatisticsValues(ids: seq<int>, stats: seq<StatsDtoOut>, prefix: string)
    requires ids != [] && stats != []
    requires DistinctInts(ids)
    requires HitsByUri(stats).Some?
    ensures var r := GetStatistics(ids, Some(stats), prefix);
      && r.Success?
      && (forall k :: k in r.value <==> k in ids)
      && (forall k, i :: k in r.value && 0 <= i < |stats| && stats[i].uri == EventUri(prefix, k) ==> r.value[k] == stats[i].hits)
      && (forall k :: k in r.value && (forall i :: 0 <= i < |stats| ==> stats[i].uri != EventUri(prefix, k)) ==> r.value[k] == 0)
  {
    var hits := HitsByUri(stats).value;
    HitsByIdDefined(ids, hits, prefix);
    var m := HitsById(ids, hits, prefix).value;
    assert GetStatistics(ids, Some(stats), prefix) == Success(m);
    forall k, i | k in m && 0 <= i < |stats| && stats[i].uri == EventUri(prefix, k) ensures m[k] == stats[i].hits {
      assert EventUri(prefix, k) in hits && hits[stats[i].uri] == stats[i].hits;
    }
    forall k | k in m && (forall i :: 0 <= i < |stats| ==> stats[i].uri != EventUri(prefix, k)) ensures m[k] == 0 {
      assert EventUri(prefix, k) !in hits;
    }
  }

  /**
   * enrichWithViewsCount: no events or an empty statistics map leave the
   * views untouched; otherwise each event takes its hits, or 0.
   */
  function EnrichWithViewsCount(events: seq<Event>, stats: Option<seq<StatsDtoOut>>, prefix: string): (r: Result<seq<Event>, EventFailure>)
    ensures events == [] ==> r == Success(events)
    ensures r.Success? ==>
      (|r.value| == |events| && forall i :: 0 <= i < |events| ==> r.value[i] == events[i].(views := r.value[i].views))
    ensures stats.None? || stats == Some([]) ==> r == Success(events)
  {
    if events == [] then Success(events)
    else match GetStatistics(EventIds(events), stats, prefix)
      case Failure(f) => Failure(f)
      case Success(hitsMap) =>
        if hitsMap == map[] then Success(events) else Success(WithViews(events, hitsMap))
  }

  /** Every event with hitsMap.getOrDefault(id, 0) as its views. */
  function WithViews(events: seq<Event>, hitsMap: map<int, int>): seq<Event>
  {
    seq(|events|, i requires 0 <= i < |events| => events[i].(views := CountOrZero(hitsMap, events[i].id)))
  }

  /** The forEach of enrichWithViewsCount. */
  method EnrichViews(events: seq<Event>, stats: Option<seq<StatsDtoOut>>, prefix: string) returns (r: Result<seq<Event>, EventFailure>)
    ensures r == EnrichWithViewsCount(events, stats, prefix)
  {
    if events == [] {
      return Success(events);
    }
    var hitsMap := GetStatistics(EventIds(events), stats, prefix);
    if hitsMap.Failure? {
      return Failure(hitsMap.error);
    }
    if hitsMap.value == map[] {
      return Success(events);
    }
    var enriched := events;
    for i := 0 to |events|
      invariant |enriched| == |events|
      invariant forall j :: 0 <= j < i ==> enriched[j] == events[j].(views := CountOrZero(hitsMap.value, events[j].id))
      invariant forall j :: i <= j < |events| ==> enriched[j] == events[j]
    {
      enriched := enriched[i := enriched[i].(views := CountOrZero(hitsMap.value, enriched[i].id))];
    }
    assert enriched == WithViews(events, hitsMap.value);
    return Success(enriched);
  }

  /**
   * Over events with distinct ids and statistics with distinct uris, the
   * views become each event's hits (0 without statistics for its uri).
   */
  lemma EnrichWithViewsCountValues(events: seq<Event>, stats: seq<StatsDtoOut>, prefix: string)
    requires events != [] && stats != []
    requires forall i, j :: 0 <= i < j < |events| ==> events[i].id != events[j].id
    requires HitsByUri(stats).Some?
    ensures var r := EnrichWithViewsCount(events, Some(stats), prefix);
      && r.Success?
      && (forall n, i :: 0 <= n < |events| && 0 <= i < |stats| && stats[i].uri == EventUri(prefix, events[n].id) ==>
            r.value[n].views == stats[i].hits)
      && (forall n :: 0 <= n < |events| && (forall i :: 0 <= i < |stats| ==> stats[i].uri != EventUri(prefix, events[n].id)) ==>
            r.value[n].views == 0)
  {
    var ids := EventIds(events);
    assert DistinctInts(ids) by {
      forall i, j | 0 <= i < j < |ids| ensures ids[i] != ids[j] {
        assert ids[i] == events[i].id && ids[j] == events[j].id;
      }
    }
    GetStatisticsValues(ids, stats, prefix);
    var hitsMap := GetStatistics(ids, Some(stats), prefix).value;
    assert events[0].id in hitsMap by {
      assert ids[0] in ids;
    }
    forall n | 0 <= n < |events| ensures events[n].id in hitsMap {
      assert ids[n] in ids;
    }
  }
}
