/**
 * The event lifecycle rules both EventServiceImpl copies share: the
 * event-date lead time, publishing, rejecting, the null-skipping field
 * patch, the review actions and the confirmed-requests enrichment.
 */
module EventRules {
  import opened Common
  import opened EwmModel

  /** Lead times, in hours, before the event date. */
  const MinTimeToUnpublishedEvent: int := 2
  const MinTimeToPublishedEvent: int := 1

  /** Why an event operation fails; the comment names the exception. */
  datatype EventFailure =
    | EventNotFound | CategoryNotFound | UserNotFound | LocationNotFound   // NotFoundException
    | NotInitiator                                                         // NoAccessException
    | PublishedEventUpdate | EventDateTooSoon(hours: int)                  // ConditionNotMetException
    | PublishNotPending | PublishedEventReject                             // ConditionNotMetException
    | LocationRequired | LocationUnusable | LocationUnresolved             // ConditionNotMetException
    | EventDateNull                                                        // IllegalArgumentException
    | DuplicateKey                                                         // IllegalStateException (Collectors.toMap)

  /** The lead time that applies to an event in the given state. */
  function LeadHours(state: EventState): int
  {
    if state == PUBLISHED then MinTimeToPublishedEvent else MinTimeToUnpublishedEvent
  }

  /**
   * validateEventDate: a missing date is an illegal argument; a date strictly
   * before now plus the lead time (1 h once published, 2 h otherwise) is
   * refused; a date exactly on the boundary passes.
   */
  function ValidateEventDate(eventDate: Option<DateTime>, state: EventState, now: DateTime): (r: Option<EventFailure>)
    ensures eventDate.None? ==> r == Some(EventDateNull)
    ensures eventDate.Some? ==>
      (r.None? <==> eventDate.value >= now + (if state == PUBLISHED then 1 else 2) * NanosPerHour)
    ensures eventDate.Some? && r.Some? ==> r == Some(EventDateTooSoon(LeadHours(state)))
  {
    if eventDate.None? then Some(EventDateNull)
    else
      var hours := LeadHours(state);
      if eventDate.value < now + hours * NanosPerHour then Some(EventDateTooSoon(hours)) else None
  }

  /** The boundary is inclusive and one nanosecond earlier is refused; later dates stay valid. */
  lemma ValidateEventDateBoundary(state: EventState, now: DateTime, date: DateTime, later: DateTime)
    requires date <= later
    ensures ValidateEventDate(Some(now + LeadHours(state) * NanosPerHour), state, now).None?
    ensures ValidateEventDate(Some(now + LeadHours(state) * NanosPerHour - 1), state, now).Some?
    ensures ValidateEventDate(Some(date), state, now).None? ==> ValidateEventDate(Some(later), state, now).None?
  {
  }

  /** A date acceptable before publication is acceptable after it (2 h covers 1 h), not conversely. */
  lemma UnpublishedLeadCoversPublished(state: EventState, now: DateTime, date: DateTime)
    requires state != PUBLISHED
    ensures ValidateEventDate(Some(date), state, now).None? ==> ValidateEventDate(Some(date), PUBLISHED, now).None?
    ensures ValidateEventDate(Some(now + NanosPerHour), PUBLISHED, now).None?
    ensures ValidateEventDate(Some(now + NanosPerHour), state, now).Some?
  {
  }

  /**
   * publishEvent: only a PENDING event whose date is at least an hour away
   * is published; it becomes PUBLISHED with publishedOn set to now and
   * nothing else changes.
   */
  function PublishEvent(e: Event, now: DateTime): (r: Result<Event, EventFailure>)
    ensures r.Success? <==> e.state == EventState.PENDING && e.eventDate >= now + NanosPerHour
    ensures r.Success? ==> r.value == e.(state := PUBLISHED, publishedOn := Some(now))
    ensures e.state != EventState.PENDING ==> r == Failure(PublishNotPending)
  {
    if e.state != EventState.PENDING then Failure(PublishNotPending)
    else match ValidateEventDate(Some(e.eventDate), PUBLISHED, now)
      case Some(f) => Failure(f)
      case None => Success(e.(state := PUBLISHED, publishedOn := Some(now)))
  }

  /** rejectEvent: any state but PUBLISHED becomes CANCELED; a published event cannot be rejected. */
  function RejectEvent(e: Event): (r: Result<Event, EventFailure>)
    ensures r.Success? <==> e.state != PUBLISHED
    ensures r.Success? ==> r.value == e.(state := CANCELED)
    ensures r.Failure? ==> r.error == PublishedEventReject
  {
    if e.state == PUBLISHED then Failure(PublishedEventReject) else Success(e.(state := CANCELED))
  }

  /** The plain fields of an update DTO; None is a null in the request. */
  datatype FieldPatch = FieldPatch(
    title: Option<string>,
    annotation: Option<string>,
    description: Option<string>,
    paid: Option<bool>,
    participantLimit: Option<int>,
    requestModeration: Option<bool>)

  /** The value a nullable DTO field leaves in place. */
  function OrElse<T>(o: Option<T>, current: T): T
  {
    if o.Some? then o.value else current
  }

  /** The Optional.ofNullable(...).ifPresent(setter) lines. */
  function ApplyFields(e: Event, p: FieldPatch): Event
  {
    e.(title := OrElse(p.title, e.title),
       annotation := OrElse(p.annotation, e.annotation),
       description := if p.description.Some? then p.description else e.description,
       paid := OrElse(p.paid, e.paid),
       participantLimit := OrElse(p.participantLimit, e.participantLimit),
       requestModeration := if p.requestModeration.Some? then p.requestModeration else e.requestModeration)
  }

  /**
   * A null field leaves the event's value, a present one replaces it, and no
   * field outside the patch moves; an all-null patch changes nothing and
   * applying a patch twice is applying it once.
   */
  lemma ApplyFieldsEffect(e: Event, p: FieldPatch)
    ensures var r := ApplyFields(e, p);
      && (p.title.None? ==> r.title == e.title) && (p.title.Some? ==> r.title == p.title.value)
      && (p.annotation.None? ==> r.annotation == e.annotation) && (p.annotation.Some? ==> r.annotation == p.annotation.value)
      && (p.description.None? ==> r.description == e.description) && (p.description.Some? ==> r.description == p.description)
      && (p.paid.None? ==> r.paid == e.paid) && (p.paid.Some? ==> r.paid == p.paid.value)
      && (p.participantLimit.None? ==> r.participantLimit == e.participantLimit)
      && (p.participantLimit.Some? ==> r.participantLimit == p.participantLimit.value)
      && (p.requestModeration.None? ==> r.requestModeration == e.requestModeration)
      && (p.requestModeration.Some? ==> r.requestModeration == p.requestModeration)
      && r.(title := e.title, annotation := e.annotation, description := e.description, paid := e.paid,
            participantLimit := e.participantLimit, requestModeration := e.requestModeration) == e
      && (p == FieldPatch(None, None, None, None, None, None) ==> r == e)
      && ApplyFields(r, p) == r
  {
  }

  /** The initiator's review actions. */
  datatype UserStateAction = SEND_TO_REVIEW | CANCEL_REVIEW

  /** The administrator's moderation actions. */
  datatype AdminStateAction = PUBLISH_EVENT | REJECT_EVENT

  /** The initiator's switch: back to review, or withdrawn. */
  function ApplyUserStateAction(e: Event, action: Option<UserStateAction>): (r: Event)
    ensures action == Some(SEND_TO_REVIEW) ==> r == e.(state := EventState.PENDING)
    ensures action == Some(CANCEL_REVIEW) ==> r == e.(state := CANCELED)
    ensures action.None? ==> r == e
  {
    match action
    case None => e
    case Some(SEND_TO_REVIEW) => e.(state := EventState.PENDING)
    case Some(CANCEL_REVIEW) => e.(state := CANCELED)
  }

  /** The administrator's switch: publish or reject, each with its own guard. */
  function ApplyAdminStateAction(e: Event, action: Option<AdminStateAction>, now: DateTime): (r: Result<Event, EventFailure>)
    ensures action.None? ==> r == Success(e)
    ensures action == Some(PUBLISH_EVENT) ==> r == PublishEvent(e, now)
    ensures action == Some(REJECT_EVENT) ==> r == RejectEvent(e)
  {
    match action
    case None => Success(e)
    case Some(PUBLISH_EVENT) => PublishEvent(e, now)
    case Some(REJECT_EVENT) => RejectEvent(e)
  }

  /**
   * The lifecycle the administrator's switch allows: a PUBLISHED event stays
   * PUBLISHED, PUBLISHED is entered only from PENDING with an hour of lead
   * time, and every other change is to CANCELED.
   */
  lemma AdminTransitions(e: Event, action: Option<AdminStateAction>, now: DateTime)
    ensures var r := ApplyAdminStateAction(e, action, now);
      && (r.Success? && e.state == PUBLISHED ==> r.value.state == PUBLISHED)
      && (r.Success? && r.value.state == PUBLISHED && e.state != PUBLISHED ==>
            e.state == EventState.PENDING && e.eventDate >= now + NanosPerHour && r.value.publishedOn == Some(now))
      && (r.Success? && r.value.state != e.state ==> r.value.state == PUBLISHED || r.value.state == CANCELED)
  {
  }

  // ---------------------------------------------------------------------------
  // Confirmed-request counts (enrichWithConfirmedRequestsCount, both copies)
  // ---------------------------------------------------------------------------

  /** RequestsCountDto / RequestsCount: confirmed requests of one event. */
  datatype RequestsCount = RequestsCount(eventId: int, count: int)

  /** Collectors.toMap(eventId, count): a map, or the IllegalStateException of a repeated key. */
  function CountsToMap(counts: seq<RequestsCount>): (r: Option<map<int, int>>)
    ensures r.Some? ==> forall k :: k in r.value <==> exists c :: c in counts && c.eventId == k
    ensures r.Some? ==> forall i :: 0 <= i < |counts| ==> r.value[counts[i].eventId] == counts[i].count
    ensures r.None? <==> exists i, j :: 0 <= i < j < |counts| && counts[i].eventId == counts[j].eventId
  {
    if counts == [] then Some(map[])
    else
      var init := counts[..|counts| - 1];
      var last := counts[|counts| - 1];
      assert counts == init + [last];
      match CountsToMap(init)
      case None =>
        None
      case Some(m) =>
        if last.eventId in m then
          var c :| c in init && c.eventId == last.eventId;
          var i :| 0 <= i < |init| && init[i] == c;
          assert counts[i].eventId == counts[|counts| - 1].eventId;
          None
        else
          assert forall i :: 0 <= i < |init| ==> init[i].eventId != last.eventId by {
            forall i | 0 <= i < |init| ensures init[i].eventId != last.eventId {
              assert init[i] in init;
            }
          }
          Some(m[last.eventId := last.count])
  }

  /** counts.getOrDefault(id, 0). */
  function CountOrZero(m: map<int, int>, id: int): int
  {
    if id in m then m[id] else 0
  }

  /**
   * enrichWithConfirmedRequestsCount: with no events or no counts at all the
   * events are left as they are; a repeated event id in the counts is the
   * toMap failure; otherwise each event takes the count reported for its
   * id, or 0 when the counts do not mention it.
   */
  function EnrichWithConfirmedRequestsCount(events: seq<Event>, counts: seq<RequestsCount>): (r: Result<seq<Event>, EventFailure>)
    ensures events == [] || counts == [] ==> r == Success(events)
    ensures r.Success? ==> |r.value| == |events|
    ensures r.Success? ==> forall i :: 0 <= i < |events| ==>
      r.value[i] == events[i].(confirmedRequests := r.value[i].confirmedRequests)
    ensures r.Success? && events != [] && counts != [] ==> forall i :: 0 <= i < |events| ==>
      (r.value[i].confirmedRequests == 0 <==>
         forall c :: c in counts ==> c.eventId != events[i].id || c.count == 0)
    ensures r.Success? && events != [] && counts != [] ==>
      forall i, c :: 0 <= i < |events| && c in counts && c.eventId == events[i].id ==>
        r.value[i].confirmedRequests == c.count
    ensures r.Success? && events != [] && counts != [] ==>
      forall i :: 0 <= i < |events| && (forall c :: c in counts ==> c.eventId != events[i].id) ==>
        r.value[i].confirmedRequests == 0
    ensures r.Failure? <==> events != [] && exists i, j :: 0 <= i < j < |counts| && counts[i].eventId == counts[j].eventId
    ensures r.Failure? ==> r.error == DuplicateKey
  {
    if events == [] || counts == [] then Success(events)
    else match CountsToMap(counts)
      case None => Failure(DuplicateKey)
      case Some(m) =>
        var r := WithCounts(events, m);
        assert forall i, c :: 0 <= i < |events| && c in counts && c.eventId == events[i].id
                 ==> r[i].confirmedRequests == c.count by {
          forall i, c | 0 <= i < |events| && c in counts && c.eventId == events[i].id
            ensures r[i].confirmedRequests == c.count {
            var k :| 0 <= k < |counts| && counts[k] == c;
          }
        }
        Success(r)
  }

  /** Every event with its count from the map, or 0. */
  function WithCounts(events: seq<Event>, m: map<int, int>): seq<Event>
  {
    seq(|events|, i requires 0 <= i < |events| => events[i].(confirmedRequests := CountOrZero(m, events[i].id)))
  }

  /** The forEach of enrichWithConfirmedRequestsCount, one event at a time. */
  method EnrichConfirmedRequests(events: seq<Event>, counts: seq<RequestsCount>) returns (r: Result<seq<Event>, EventFailure>)
    ensures r == EnrichWithConfirmedRequestsCount(events, counts)
  {
    if events == [] || counts == [] {
      return Success(events);
    }
    var m := CountsToMap(counts);
    if m.None? {
      return Failure(DuplicateKey);
    }
    var enriched := events;
    for i := 0 to |events|
      invariant |enriched| == |events|
      invariant forall j :: 0 <= j < i ==> enriched[j] == events[j].(confirmedRequests := CountOrZero(m.value, events[j].id))
      invariant forall j :: i <= j < |events| ==> enriched[j] == events[j]
    {
      enriched := enriched[i := enriched[i].(confirmedRequests := CountOrZero(m.value, enriched[i].id))];
    }
    assert enriched == WithCounts(events, m.value);
    return Success(enriched);
  }

  /** The fields an update never writes. */
  predicate SameIdentity(a: Event, b: Event)
  {
    a.id == b.id && a.initiatorId == b.initiatorId && a.confirmedRequests == b.confirmedRequests
    && a.rating == b.rating && a.views == b.views
  }

  /** The ids of a list of events, in order. */
  function EventIds(events: seq<Event>): (r: seq<int>)
    ensures |r| == |events| && forall i :: 0 <= i < |events| ==> r[i] == events[i].id
  {
    seq(|events|, i requires 0 <= i < |events| => events[i].id)
  }
}
