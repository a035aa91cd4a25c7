/**
 * ParticipationRequestServiceImpl: the participation-request state machine.
 * A user asks to take part in an event; the request starts CONFIRMED or
 * PENDING, the event's initiator confirms or rejects pending requests in
 * batches (confirming only up to the participant limit unless the event
 * confirms automatically), and the requester may cancel.
 *
 * The microservice (request-service) and the monolith (ewm-service) hold the
 * same rules; they differ only in where users and events come from (HTTP
 * clients there, repositories here), which the model takes as the parameters
 * `users` and `events`.
 */
module ParticipationRequests {
  import opened Common
  import opened EwmModel

  datatype RequestStatus = PENDING | CONFIRMED | REJECTED | CANCELED

  datatype ParticipationRequest = ParticipationRequest(
    id: int, requesterId: int, eventId: int, created: DateTime, status: RequestStatus)

  /** Why an operation fails, one constructor per throw site; the comment names the exception. */
  datatype Failure =
    | UserNotFound            // NotFoundException
    | EventNotFound           // NotFoundException
    | RequestNotFound         // NotFoundException
    | AlreadyRequested        // ConditionNotMetException
    | InitiatorRequest        // ConditionNotMetException
    | EventNotPublished       // ConditionNotMetException, on creation
    | ParticipantLimitReached // ConditionNotMetException, on creation
    | EventMustBePublished    // ConditionNotMetException, on a status update
    | RequestNotPending       // ConditionNotMetException
    | LimitWillBeReached      // ConditionNotMetException, on confirmation
    | NotInitiator            // ForbiddenException
    | NotRequester            // ForbiddenException
    | IncorrectStatus         // IllegalArgumentException

  /** EventRequestStatusUpdateResult: the requests confirmed and rejected by one update. */
  datatype StatusUpdateResult = StatusUpdateResult(
    confirmedRequests: seq<ParticipationRequest>, rejectedRequests: seq<ParticipationRequest>)

  // ---------------------------------------------------------------------------
  // The requests table and its queries
  // ---------------------------------------------------------------------------

  /** Generated ids are unique. */
  predicate UniqueIds(rows: seq<ParticipationRequest>)
  {
    forall i, j :: 0 <= i < j < |rows| ==> rows[i].id != rows[j].id
  }

  /** At most one request per (requester, event), whatever its status. */
  predicate OnePerRequesterAndEvent(rows: seq<ParticipationRequest>)
  {
    forall i, j :: 0 <= i < j < |rows| ==>
      rows[i].requesterId != rows[j].requesterId || rows[i].eventId != rows[j].eventId
  }

  /** existsByRequesterIdAndEventId: a request of any status. */
  predicate ExistsByRequesterIdAndEventId(rows: seq<ParticipationRequest>, userId: int, eventId: int)
  {
    exists q :: q in rows && q.requesterId == userId && q.eventId == eventId
  }

  /** countByEventIdAndStatus. */
  function CountByEventIdAndStatus(rows: seq<ParticipationRequest>, eventId: int, status: RequestStatus): (n: nat)
    ensures n <= |rows|
    ensures n == 0 <==> forall q :: q in rows ==> q.eventId != eventId || q.status != status
  {
    if rows == [] then 0
    else
      var init := rows[..|rows| - 1];
      var last := rows[|rows| - 1];
      assert rows == init + [last];
      CountByEventIdAndStatus(init, eventId, status) + (if last.eventId == eventId && last.status == status then 1 else 0)
  }

  /** findById: the row with the id. */
  function FindById(rows: seq<ParticipationRequest>, id: int): (r: Option<ParticipationRequest>)
    ensures r.Some? ==> r.value in rows && r.value.id == id
    ensures r.None? <==> forall q :: q in rows ==> q.id != id
  {
    if rows == [] then None
    else if rows[0].id == id then Some(rows[0])
    else FindById(rows[1..], id)
  }

  /** findAllById: the rows whose id is listed, in table order; unknown ids are skipped. */
  function FindAllById(rows: seq<ParticipationRequest>, ids: seq<int>): (r: seq<ParticipationRequest>)
    ensures |r| <= |rows|
    ensures forall q :: q in r <==> q in rows && q.id in ids
  {
    if rows == [] then []
    else
      var init := rows[..|rows| - 1];
      var last := rows[|rows| - 1];
      assert rows == init + [last];
      FindAllById(init, ids) + (if last.id in ids then [last] else [])
  }

  /** saveAll of loaded rows: each row whose id is in the batch takes the batch's version. */
  function SaveAll(rows: seq<ParticipationRequest>, batch: seq<ParticipationRequest>): seq<ParticipationRequest>
  {
    seq(|rows|, i requires 0 <= i < |rows| =>
      match FindById(batch, rows[i].id)
      case Some(b) => b
      case None => rows[i])
  }

  /** The ids of a list of requests, in order. */
  function Ids(s: seq<ParticipationRequest>): seq<int>
  {
    seq(|s|, i requires 0 <= i < |s| => s[i].id)
  }

  /** Every request of s with its status set to st. */
  function WithStatus(s: seq<ParticipationRequest>, st: RequestStatus): seq<ParticipationRequest>
  {
    seq(|s|, i requires 0 <= i < |s| => s[i].(status := st))
  }

  // ---------------------------------------------------------------------------
  // The rules
  // ---------------------------------------------------------------------------

  /**
   * determineRequestStatus: a new request is CONFIRMED when moderation is not
   * switched on (Boolean.TRUE.equals, so a missing flag counts as off) or the
   * event has no participant limit, and PENDING otherwise.
   */
  function DetermineRequestStatus(event: Event): (s: RequestStatus)
    ensures s == CONFIRMED <==> event.requestModeration != Some(true) || event.participantLimit == 0
    ensures s == RequestStatus.PENDING <==> event.requestModeration == Some(true) && event.participantLimit != 0
  {
    if event.requestModeration != Some(true) || event.participantLimit == 0 then CONFIRMED else RequestStatus.PENDING
  }

  /** shouldAutoConfirm: no limit, or moderation explicitly switched off (Boolean.FALSE.equals). */
  predicate ShouldAutoConfirm(event: Event)
  {
    event.participantLimit == 0 || event.requestModeration == Some(false)
  }

  /**
   * The two flags are read differently: a missing moderation flag confirms a
   * new request at once, but the same event's batch confirmations are not
   * automatic. These are the only events on which the two rules disagree.
   */
  lemma AutoConfirmVersusInitialStatus(event: Event)
    ensures ShouldAutoConfirm(event) ==> DetermineRequestStatus(event) == CONFIRMED
    ensures (DetermineRequestStatus(event) == CONFIRMED && !ShouldAutoConfirm(event))
            <==> (event.requestModeration.None? && event.participantLimit != 0)
  {
    match event.requestModeration
    case None =>
    case Some(_) =>
  }

  /** checkParticipantLimit: a positive limit already used up. */
  predicate LimitReachedOnCreate(event: Event, confirmed: int)
  {
    event.participantLimit > 0 && confirmed >= event.participantLimit
  }

  /** checkIfLimitAvailableOrThrow: a limit under explicit moderation already used up. */
  predicate LimitReachedOnConfirm(event: Event, confirmed: int)
  {
    event.participantLimit != 0 && event.requestModeration == Some(true) && confirmed >= event.participantLimit
  }

  /** createRequest's outcome on the table as it was. */
  function CreateOutcome(rows: seq<ParticipationRequest>, nextId: int, users: set<int>, events: map<int, Event>,
                         userId: int, eventId: int, now: DateTime): (r: Result<ParticipationRequest, Failure>)
    ensures r == Failure(UserNotFound) <==> userId !in users
    ensures r == Failure(EventNotFound) <==> userId in users && eventId !in events
    ensures r == Failure(AlreadyRequested) <==>
      userId in users && eventId in events && ExistsByRequesterIdAndEventId(rows, userId, eventId)
    ensures r.Success? <==>
      (userId in users && eventId in events && !ExistsByRequesterIdAndEventId(rows, userId, eventId)
       && events[eventId].initiatorId != userId && events[eventId].state == PUBLISHED
       && !LimitReachedOnCreate(events[eventId], CountByEventIdAndStatus(rows, eventId, CONFIRMED)))
    ensures r.Success? ==>
      r.value == ParticipationRequest(nextId, userId, eventId, TruncatedToMillis(now),
                                      DetermineRequestStatus(events[eventId]))
  {
    if userId !in users then Failure(UserNotFound)
    else if eventId !in events then Failure(EventNotFound)
    else
      var event := events[eventId];
      if ExistsByRequesterIdAndEventId(rows, userId, eventId) then Failure(AlreadyRequested)
      else if event.initiatorId == userId then Failure(InitiatorRequest)
      else if event.state != PUBLISHED then Failure(EventNotPublished)
      else if LimitReachedOnCreate(event, CountByEventIdAndStatus(rows, eventId, CONFIRMED)) then Failure(ParticipantLimitReached)
      else Success(ParticipationRequest(nextId, userId, eventId, TruncatedToMillis(now), DetermineRequestStatus(event)))
  }

  /** getEventWithCheck: the event must exist, belong to the caller and be published. */
  function GetEventWithCheck(events: map<int, Event>, userId: int, eventId: int): (r: Result<Event, Failure>)
    ensures r.Success? <==>
      eventId in events && events[eventId].initiatorId == userId && events[eventId].state == PUBLISHED
    ensures r.Success? ==> r.value == events[eventId]
    ensures r == Failure(NotInitiator) <==> eventId in events && events[eventId].initiatorId != userId
  {
    if eventId !in events then Failure(EventNotFound)
    else if events[eventId].initiatorId != userId then Failure(NotInitiator)
    else if events[eventId].state != PUBLISHED then Failure(EventMustBePublished)
    else Success(events[eventId])
  }

  /** getPendingRequestsOrThrow's test: some loaded request is not PENDING. */
  predicate HasNonPending(batch: seq<ParticipationRequest>)
  {
    exists q :: q in batch && q.status != RequestStatus.PENDING
  }

  /** int available = limit - (int) confirmedCount, in 32-bit arithmetic. */
  function Available(event: Event, confirmedCount: int): int
  {
    ToInt(event.participantLimit - ToInt(confirmedCount))
  }

  /** How many of n requests the confirmation loop confirms: all under auto-confirm, else min(n, max(0, available)). */
  function ConfirmedPrefix(event: Event, n: nat, available: int): (k: nat)
    ensures k <= n
    ensures ShouldAutoConfirm(event) ==> k == n
    ensures !ShouldAutoConfirm(event) ==> k == Clamp(available, n)
  {
    if ShouldAutoConfirm(event) then n else Clamp(available, n)
  }

  /** confirmRequests' loop: a prefix confirmed, the rest rejected, in input order. */
  function ConfirmDecision(event: Event, batch: seq<ParticipationRequest>, available: int): StatusUpdateResult
  {
    var k := ConfirmedPrefix(event, |batch|, available);
    StatusUpdateResult(WithStatus(batch[..k], CONFIRMED), WithStatus(batch[k..], RequestStatus.REJECTED))
  }

  /** confirmRequests: the limit check, then the loop. */
  function ConfirmOutcome(rows: seq<ParticipationRequest>, event: Event, batch: seq<ParticipationRequest>)
    : Result<StatusUpdateResult, Failure>
  {
    var confirmedCount := CountByEventIdAndStatus(rows, event.id, CONFIRMED);
    if LimitReachedOnConfirm(event, confirmedCount) then Failure(LimitWillBeReached)
    else Success(ConfirmDecision(event, batch, Available(event, confirmedCount)))
  }

  /** updateRequestStatuses' outcome on the table as it was. */
  function UpdateOutcome(rows: seq<ParticipationRequest>, events: map<int, Event>, userId: int, eventId: int,
                         requestIds: seq<int>, status: string): (r: Result<StatusUpdateResult, Failure>)
    ensures eventId !in events ==> r == Failure(EventNotFound)
    ensures eventId in events && events[eventId].initiatorId != userId ==> r == Failure(NotInitiator)
    ensures eventId in events && events[eventId].state != PUBLISHED ==> r.Failure?
    ensures HasNonPending(FindAllById(rows, requestIds)) ==> r.Failure?
    ensures status != "CONFIRMED" && status != "REJECTED" ==> r.Failure?
    ensures r.Success? && status == "REJECTED" ==>
      r.value == StatusUpdateResult([], WithStatus(FindAllById(rows, requestIds), RequestStatus.REJECTED))
    ensures r.Success? && status == "CONFIRMED" ==>
      r == ConfirmOutcome(rows, events[eventId], FindAllById(rows, requestIds))
  {
    match GetEventWithCheck(events, userId, eventId)
    case Failure(f) => Failure(f)
    case Success(event) =>
      var batch := FindAllById(rows, requestIds);
      if HasNonPending(batch) then Failure(RequestNotPending)
      else if status == "CONFIRMED" then ConfirmOutcome(rows, event, batch)
      else if status == "REJECTED" then Success(StatusUpdateResult([], WithStatus(batch, RequestStatus.REJECTED)))
      else Failure(IncorrectStatus)
  }

  /** The table after a successful status update: every batch member saved. */
  function AfterUpdate(rows: seq<ParticipationRequest>, result: StatusUpdateResult): seq<ParticipationRequest>
  {
    SaveAll(rows, result.confirmedRequests + result.rejectedRequests)
  }

  /** cancelRequest's outcome: the requester may cancel a request of any status. */
  function CancelOutcome(rows: seq<ParticipationRequest>, userId: int, requestId: int): (r: Result<ParticipationRequest, Failure>)
    ensures r.Success? <==> FindById(rows, requestId).Some? && FindById(rows, requestId).value.requesterId == userId
    ensures r == Failure(RequestNotFound) <==> FindById(rows, requestId).None?
    ensures r.Success? ==> r.value == FindById(rows, requestId).value.(status := RequestStatus.CANCELED)
  {
    match FindById(rows, requestId)
    case None => Failure(RequestNotFound)
    case Some(request) =>
      if request.requesterId != userId then Failure(NotRequester) else Success(request.(status := RequestStatus.CANCELED))
  }

  // ---------------------------------------------------------------------------
  // The loops
  // ---------------------------------------------------------------------------

  /**
   * The for loop of confirmRequests: auto-confirm confirms every request;
   * otherwise each request is confirmed while the available counter is
   * positive (decrementing it) and rejected once it is not.
   */
  method DecideConfirmations(event: Event, batch: seq<ParticipationRequest>, available0: int)
    returns (confirmed: seq<ParticipationRequest>, rejected: seq<ParticipationRequest>)
    ensures StatusUpdateResult(confirmed, rejected) == ConfirmDecision(event, batch, available0)
  {
    confirmed := [];
    rejected := [];
    var available := available0;
    for i := 0 to |batch|
      invariant ShouldAutoConfirm(event) ==> confirmed == WithStatus(batch[..i], CONFIRMED) && rejected == []
      invariant !ShouldAutoConfirm(event) ==>
        && confirmed == WithStatus(batch[..Clamp(available0, i)], CONFIRMED)
        && rejected == WithStatus(batch[Clamp(available0, i)..i], RequestStatus.REJECTED)
        && available == (if available0 > 0 then available0 - Clamp(available0, i) else available0)
    {
      var request := batch[i];
      if ShouldAutoConfirm(event) {
        confirmed := confirmed + [request.(status := CONFIRMED)];
      } else if available > 0 {
        confirmed := confirmed + [request.(status := CONFIRMED)];
        available := available - 1;
      } else {
        rejected := rejected + [request.(status := RequestStatus.REJECTED)];
      }
    }
  }

  /** The for loop of rejectRequests: every request REJECTED. */
  method RejectAll(batch: seq<ParticipationRequest>) returns (rejected: seq<ParticipationRequest>)
    ensures rejected == WithStatus(batch, RequestStatus.REJECTED)
  {
    rejected := [];
    for i := 0 to |batch|
      invariant rejected == WithStatus(batch[..i], RequestStatus.REJECTED)
    {
      rejected := rejected + [batch[i].(status := RequestStatus.REJECTED)];
    }
  }

  // ---------------------------------------------------------------------------
  // The service over the requests table
  // ---------------------------------------------------------------------------

  class RequestStore {
    /** The requests table, in insertion order. */
    var requests: seq<ParticipationRequest>
    /** The next generated id. */
    var nextId: int

    ghost predicate Valid()
      reads this
    {
      UniqueIds(requests) && forall q :: q in requests ==> q.id < nextId
    }

    constructor()
      ensures requests == [] && Valid()
    {
      requests := [];
      nextId := 1;
    }

    /** createRequest: user and event exist, then the four checks in order, then save. */
    method CreateRequest(users: set<int>, events: map<int, Event>, userId: int, eventId: int, now: DateTime)
      returns (r: Result<ParticipationRequest, Failure>)
      requires Valid()
      modifies this
      ensures Valid()
      ensures r == CreateOutcome(old(requests), old(nextId), users, events, userId, eventId, now)
      ensures requests == (if r.Success? then old(requests) + [r.value] else old(requests))
      ensures nextId == (if r.Success? then old(nextId) + 1 else old(nextId))
    {
      if userId !in users {
        return Failure(UserNotFound);
      }
      if eventId !in events {
        return Failure(EventNotFound);
      }
      var event := events[eventId];
      if ExistsByRequesterIdAndEventId(requests, userId, eventId) {
        return Failure(AlreadyRequested);
      }
      if event.initiatorId == userId {
        return Failure(InitiatorRequest);
      }
      if event.state != PUBLISHED {
        return Failure(EventNotPublished);
      }
      var confirmed := CountByEventIdAndStatus(requests, eventId, CONFIRMED);
      if event.participantLimit > 0 && confirmed >= event.participantLimit {
        return Failure(ParticipantLimitReached);
      }
      var requestStatus := DetermineRequestStatus(event);
      var request := ParticipationRequest(nextId, userId, eventId, TruncatedToMillis(now), requestStatus);
      requests := requests + [request];
      nextId := nextId + 1;
      return Success(request);
    }

    /** updateRequestStatuses: event check, pending check, then confirm or reject by the status string. */
    method UpdateRequestStatuses(events: map<int, Event>, userId: int, eventId: int, requestIds: seq<int>, status: string)
      returns (r: Result<StatusUpdateResult, Failure>)
      requires Valid()
      modifies this
      ensures Valid()
      ensures r == UpdateOutcome(old(requests), events, userId, eventId, requestIds, status)
      ensures requests == (if r.Success? then AfterUpdate(old(requests), r.value) else old(requests))
      ensures nextId == old(nextId)
    {
      var checked := GetEventWithCheck(events, userId, eventId);
      if checked.Failure? {
        return Failure(checked.error);
      }
      var event := checked.value;
      var batch := FindAllById(requests, requestIds);
      if HasNonPending(batch) {
        return Failure(RequestNotPending);
      }
      if status == "CONFIRMED" {
        r := ConfirmRequests(event, batch);
      } else if status == "REJECTED" {
        r := RejectRequests(batch);
      } else {
        return Failure(IncorrectStatus);
      }
    }

    /** confirmRequests: the limit check, the loop, then saveAll. */
    method ConfirmRequests(event: Event, batch: seq<ParticipationRequest>) returns (r: Result<StatusUpdateResult, Failure>)
      requires Valid()
      modifies this
      ensures Valid()
      ensures r == ConfirmOutcome(old(requests), event, batch)
      ensures requests == (if r.Success? then AfterUpdate(old(requests), r.value) else old(requests))
      ensures nextId == old(nextId)
    {
      var confirmedCount := CountByEventIdAndStatus(requests, event.id, CONFIRMED);
      if LimitReachedOnConfirm(event, confirmedCount) {
        return Failure(LimitWillBeReached);
      }
      var limit := event.participantLimit;
      var available := ToInt(limit - ToInt(confirmedCount));
      var confirmed, rejected := DecideConfirmations(event, batch, available);
      SaveAllKeepsIds(requests, confirmed + rejected);
      requests := SaveAll(requests, confirmed + rejected);
      return Success(StatusUpdateResult(confirmed, rejected));
    }

    /** rejectRequests: every request REJECTED, then saveAll. */
    method RejectRequests(batch: seq<ParticipationRequest>) returns (r: Result<StatusUpdateResult, Failure>)
      requires Valid()
      modifies this
      ensures Valid()
      ensures r == Success(StatusUpdateResult([], WithStatus(batch, RequestStatus.REJECTED)))
      ensures requests == AfterUpdate(old(requests), r.value)
      ensures nextId == old(nextId)
    {
      var rejected := RejectAll(batch);
      assert [] + rejected == rejected;
      SaveAllKeepsIds(requests, rejected);
      requests := SaveAll(requests, rejected);
      return Success(StatusUpdateResult([], rejected));
    }

    /** cancelRequest: only the requester, from any status, to CANCELED. */
    method CancelRequest(userId: int, requestId: int) returns (r: Result<ParticipationRequest, Failure>)
      requires Valid()
      modifies this
      ensures Valid()
      ensures r == CancelOutcome(old(requests), userId, requestId)
      ensures requests == (if r.Success? then SaveAll(old(requests), [r.value]) else old(requests))
      ensures nextId == old(nextId)
    {
      var found := FindById(requests, requestId);
      if found.None? {
        return Failure(RequestNotFound);
      }
      var request := found.value;
      if request.requesterId != userId {
        return Failure(NotRequester);
      }
      request := request.(status := RequestStatus.CANCELED);
      SaveAllKeepsIds(requests, [request]);
      requests := SaveAll(requests, [request]);
      return Success(request);
    }
  }

  // ---------------------------------------------------------------------------
  // Properties
  // ---------------------------------------------------------------------------

  /** Saving never changes a row's id: the table keeps its length and its ids in place. */
  lemma SaveAllKeepsIds(rows: seq<ParticipationRequest>, batch: seq<ParticipationRequest>)
    ensures |SaveAll(rows, batch)| == |rows|
    ensures Ids(SaveAll(rows, batch)) == Ids(rows)
    ensures forall q :: q in SaveAll(rows, batch) ==> q in rows || q in batch
  {
    var after := SaveAll(rows, batch);
    forall q | q in after ensures q in rows || q in batch {
      var i :| 0 <= i < |after| && after[i] == q;
    }
  }

  /** Count of a table with one more row. */
  lemma CountAppend(rows: seq<ParticipationRequest>, x: ParticipationRequest, eventId: int, status: RequestStatus)
    ensures CountByEventIdAndStatus(rows + [x], eventId, status)
            == CountByEventIdAndStatus(rows, eventId, status) + (if x.eventId == eventId && x.status == status then 1 else 0)
  {
    assert (rows + [x])[..|rows|] == rows;
  }

  /**
   * A successful creation keeps generated ids unique and keeps one request
   * per (requester, event); a failed one writes nothing.
   */
  lemma CreateKeepsTableShape(rows: seq<ParticipationRequest>, nextId: int, users: set<int>, events: map<int, Event>,
                              userId: int, eventId: int, now: DateTime)
    requires UniqueIds(rows) && OnePerRequesterAndEvent(rows)
    requires forall q :: q in rows ==> q.id < nextId
    ensures var r := CreateOutcome(rows, nextId, users, events, userId, eventId, now);
      r.Success? ==> UniqueIds(rows + [r.value]) && OnePerRequesterAndEvent(rows + [r.value])
  {
    var r := CreateOutcome(rows, nextId, users, events, userId, eventId, now);
    if r.Success? {
      var after := rows + [r.value];
      forall i, j | 0 <= i < j < |after|
        ensures after[i].id != after[j].id
        ensures after[i].requesterId != after[j].requesterId || after[i].eventId != after[j].eventId
      {
        if j == |rows| {
          assert after[i] in rows;
        }
      }
    }
  }

  /**
   * Creation never overbooks: after a successful creation for an event with
   * a positive limit, its CONFIRMED requests number at most the limit.
   */
  lemma CreateRespectsLimit(rows: seq<ParticipationRequest>, nextId: int, users: set<int>, events: map<int, Event>,
                            userId: int, eventId: int, now: DateTime)
    requires eventId in events && events[eventId].participantLimit > 0
    ensures var r := CreateOutcome(rows, nextId, users, events, userId, eventId, now);
      r.Success? ==> CountByEventIdAndStatus(rows + [r.value], eventId, CONFIRMED) <= events[eventId].participantLimit
  {
    var r := CreateOutcome(rows, nextId, users, events, userId, eventId, now);
    if r.Success? {
      CountAppend(rows, r.value, eventId, CONFIRMED);
    }
  }

  /**
   * The confirmation loop partitions the batch: every request lands in
   * exactly one of the two lists, confirmed ones CONFIRMED and rejected
   * ones REJECTED, and the two lists together are the batch in input order.
   * Without auto-confirm the confirmed list is the first
   * min(n, max(0, available)) requests; with it, all of them.
   */
  lemma ConfirmPartition(event: Event, batch: seq<ParticipationRequest>, available: int)
    ensures var d := ConfirmDecision(event, batch, available);
      && Ids(d.confirmedRequests + d.rejectedRequests) == Ids(batch)
      && multiset(Ids(d.confirmedRequests)) + multiset(Ids(d.rejectedRequests)) == multiset(Ids(batch))
      && (forall q :: q in d.confirmedRequests ==> q.status == CONFIRMED)
      && (forall q :: q in d.rejectedRequests ==> q.status == RequestStatus.REJECTED)
      && (ShouldAutoConfirm(event) ==> |d.confirmedRequests| == |batch| && d.rejectedRequests == [])
      && (!ShouldAutoConfirm(event) ==> d.confirmedRequests == WithStatus(batch[..Clamp(available, |batch|)], CONFIRMED))
      && (forall i :: 0 <= i < |batch| ==>
            (d.confirmedRequests + d.rejectedRequests)[i].id == batch[i].id
            && (i < |d.confirmedRequests| <==> (ShouldAutoConfirm(event) || i < available)))
  {
    var d := ConfirmDecision(event, batch, available);
    var all := d.confirmedRequests + d.rejectedRequests;
    assert Ids(all) == Ids(d.confirmedRequests) + Ids(d.rejectedRequests);
    assert Ids(all) == Ids(batch);
  }

  /**
   * Confirmation never pushes an event past its limit: without auto-confirm
   * the batch confirms at most limit - confirmedCount requests (none once the
   * limit is used up), for a non-negative limit and a count that fit in an int.
   */
  lemma ConfirmRespectsLimit(rows: seq<ParticipationRequest>, event: Event, batch: seq<ParticipationRequest>)
    requires 0 <= event.participantLimit < 0x8000_0000
    requires |rows| < 0x8000_0000
    requires !ShouldAutoConfirm(event)
    ensures var count := CountByEventIdAndStatus(rows, event.id, CONFIRMED);
      var r := ConfirmOutcome(rows, event, batch);
      r.Success? ==>
        |r.value.confirmedRequests| <= (if event.participantLimit > count then event.participantLimit - count else 0)
  {
    var count := CountByEventIdAndStatus(rows, event.id, CONFIRMED);
    ToIntInRange(count);
    ToIntInRange(event.participantLimit - count);
  }

  /** Every member of a status-set batch is a row of the source with only its status changed. */
  lemma WithStatusFrom(s: seq<ParticipationRequest>, st: RequestStatus, rows: seq<ParticipationRequest>)
    requires forall q :: q in s ==> q in rows
    ensures forall b :: b in WithStatus(s, st) ==> exists q :: q in rows && b == q.(status := b.status)
  {
    forall b | b in WithStatus(s, st) ensures exists q :: q in rows && b == q.(status := b.status) {
      var i :| 0 <= i < |s| && WithStatus(s, st)[i] == b;
      assert s[i] in rows;
    }
  }

  /**
   * Saving a batch of rows of the table whose statuses were changed changes
   * statuses only: rows keep their place, id, requester, event and creation
   * time, and rows outside the batch are untouched.
   */
  lemma SaveAllChangesStatusesOnly(rows: seq<ParticipationRequest>, batch: seq<ParticipationRequest>)
    requires UniqueIds(rows)
    requires forall b :: b in batch ==> exists q :: q in rows && b == q.(status := b.status)
    ensures var after := SaveAll(rows, batch);
      && |after| == |rows|
      && (forall i :: 0 <= i < |rows| ==> after[i] == rows[i].(status := after[i].status))
      && (forall i :: 0 <= i < |rows| && rows[i].id !in Ids(batch) ==> after[i] == rows[i])
      && (forall i :: 0 <= i < |rows| && rows[i].id in Ids(batch) ==> after[i] in batch)
  {
    var after := SaveAll(rows, batch);
    forall i | 0 <= i < |rows|
      ensures after[i] == rows[i].(status := after[i].status)
      ensures rows[i].id !in Ids(batch) ==> after[i] == rows[i]
      ensures rows[i].id in Ids(batch) ==> after[i] in batch
    {
      var found := FindById(batch, rows[i].id);
      if found.Some? {
        var q :| q in rows && found.value == q.(status := found.value.status);
        var j :| 0 <= j < |rows| && rows[j] == q;
        assert rows[j].id == rows[i].id;
        var k :| 0 <= k < |batch| && batch[k] == found.value;
        assert Ids(batch)[k] == rows[i].id;
      }
    }
  }

  /** The members of a decided batch all come from the loaded rows. */
  lemma DecisionFrom(event: Event, batch: seq<ParticipationRequest>, available: int, rows: seq<ParticipationRequest>)
    requires forall q :: q in batch ==> q in rows
    ensures var d := ConfirmDecision(event, batch, available);
      forall b :: b in d.confirmedRequests + d.rejectedRequests ==> exists q :: q in rows && b == q.(status := b.status)
  {
    var k := ConfirmedPrefix(event, |batch|, available);
    WithStatusFrom(batch[..k], CONFIRMED, rows);
    WithStatusFrom(batch[k..], RequestStatus.REJECTED, rows);
  }

  /** What a successful update saves: loaded rows, listed ids, each now CONFIRMED or REJECTED. */
  predicate SavedStatusChanges(saved: seq<ParticipationRequest>, rows: seq<ParticipationRequest>, requestIds: seq<int>)
  {
    forall b :: b in saved ==>
      && b.id in requestIds
      && (b.status == CONFIRMED || b.status == RequestStatus.REJECTED)
      && exists q :: q in rows && b == q.(status := b.status)
  }

  lemma UpdateSavesStatusChanges(rows: seq<ParticipationRequest>, events: map<int, Event>, userId: int, eventId: int,
                                 requestIds: seq<int>, status: string)
    ensures var r := UpdateOutcome(rows, events, userId, eventId, requestIds, status);
      r.Success? ==>
        && SavedStatusChanges(r.value.confirmedRequests + r.value.rejectedRequests, rows, requestIds)
        && Ids(r.value.confirmedRequests + r.value.rejectedRequests) == Ids(FindAllById(rows, requestIds))
  {
    var r := UpdateOutcome(rows, events, userId, eventId, requestIds, status);
    if r.Success? {
      var batch := FindAllById(rows, requestIds);
      var saved := r.value.confirmedRequests + r.value.rejectedRequests;
      if status == "CONFIRMED" {
        var event := events[eventId];
        var available := Available(event, CountByEventIdAndStatus(rows, event.id, CONFIRMED));
        DecisionFrom(event, batch, available, rows);
        ConfirmPartition(event, batch, available);
        forall b | b in saved ensures b.id in requestIds {
          var k :| 0 <= k < |saved| && saved[k] == b;
          assert Ids(saved)[k] == Ids(batch)[k];
          assert batch[k] in batch;
        }
      } else {
        assert saved == WithStatus(batch, RequestStatus.REJECTED);
        WithStatusFrom(batch, RequestStatus.REJECTED, rows);
        assert Ids(saved) == Ids(batch);
        forall b | b in saved ensures b.id in requestIds {
          var k :| 0 <= k < |saved| && saved[k] == b;
          assert batch[k] in batch;
        }
      }
    }
  }

  /**
   * A successful status update changes statuses only: each loaded request
   * ends CONFIRMED or REJECTED, every other row is unchanged, and ids,
   * requesters, events and creation times stay as they were; so the table
   * keeps one request per (requester, event).
   */
  lemma UpdateChangesStatusesOnly(rows: seq<ParticipationRequest>, events: map<int, Event>, userId: int, eventId: int,
                                  requestIds: seq<int>, status: string)
    requires UniqueIds(rows)
    ensures var r := UpdateOutcome(rows, events, userId, eventId, requestIds, status);
      r.Success? ==>
        var after := AfterUpdate(rows, r.value);
        && |after| == |rows|
        && (forall i :: 0 <= i < |rows| ==> after[i] == rows[i].(status := after[i].status))
        && (forall i :: 0 <= i < |rows| && rows[i].id !in requestIds ==> after[i] == rows[i])
        && (OnePerRequesterAndEvent(rows) ==> OnePerRequesterAndEvent(after))
  {
    var r := UpdateOutcome(rows, events, userId, eventId, requestIds, status);
    if r.Success? {
      var saved := r.value.confirmedRequests + r.value.rejectedRequests;
      UpdateSavesStatusChanges(rows, events, userId, eventId, requestIds, status);
      SaveAllChangesStatusesOnly(rows, saved);
    }
  }

  /**
   * Loaded requests that a successful update touched end CONFIRMED or
   * REJECTED; with unique ids, every loaded request is touched.
   */
  lemma UpdateDecidesEveryLoadedRequest(rows: seq<ParticipationRequest>, events: map<int, Event>, userId: int,
                                        eventId: int, requestIds: seq<int>, status: string)
    requires UniqueIds(rows)
    ensures var r := UpdateOutcome(rows, events, userId, eventId, requestIds, status);
      r.Success? ==>
        var after := AfterUpdate(rows, r.value);
        forall i :: 0 <= i < |rows| && rows[i].id in requestIds ==>
          after[i].status == CONFIRMED || after[i].status == RequestStatus.REJECTED
  {
    var r := UpdateOutcome(rows, events, userId, eventId, requestIds, status);
    if r.Success? {
      UpdateSavesStatusChanges(rows, events, userId, eventId, requestIds, status);
      SavedBatchDecides(rows, requestIds, r.value.confirmedRequests + r.value.rejectedRequests);
    }
  }

  lemma SavedBatchDecides(rows: seq<ParticipationRequest>, requestIds: seq<int>, saved: seq<ParticipationRequest>)
    requires UniqueIds(rows)
    requires SavedStatusChanges(saved, rows, requestIds)
    requires Ids(saved) == Ids(FindAllById(rows, requestIds))
    ensures forall i :: 0 <= i < |rows| && rows[i].id in requestIds ==>
      SaveAll(rows, saved)[i].status == CONFIRMED || SaveAll(rows, saved)[i].status == RequestStatus.REJECTED
  {
    var batch := FindAllById(rows, requestIds);
    forall i | 0 <= i < |rows| && rows[i].id in requestIds ensures rows[i].id in Ids(saved) {
      assert rows[i] in batch;
      var k :| 0 <= k < |batch| && batch[k] == rows[i];
      assert Ids(batch)[k] == rows[i].id;
    }
    SaveAllChangesStatusesOnly(rows, saved);
  }

  /**
   * A successful cancellation sets the one row with the request's id to
   * CANCELED, whatever its status was, and leaves every other row alone.
   */
  lemma CancelEffect(rows: seq<ParticipationRequest>, userId: int, requestId: int)
    requires UniqueIds(rows)
    ensures var r := CancelOutcome(rows, userId, requestId);
      r.Success? ==>
        var after := SaveAll(rows, [r.value]);
        && |after| == |rows|
        && forall i :: 0 <= i < |rows| ==>
             after[i] == (if rows[i].id == requestId then rows[i].(status := RequestStatus.CANCELED) else rows[i])
  {
    var r := CancelOutcome(rows, userId, requestId);
    if r.Success? {
      var found := FindById(rows, requestId).value;
      var after := SaveAll(rows, [r.value]);
      forall i | 0 <= i < |rows|
        ensures after[i] == (if rows[i].id == requestId then rows[i].(status := RequestStatus.CANCELED) else rows[i])
      {
        if rows[i].id == requestId {
          var j :| 0 <= j < |rows| && rows[j] == found;
          assert rows[j].id == rows[i].id;
        }
      }
    }
  }

  /**
   * A cancelled request still blocks a new one: the duplicate check ignores
   * status, so the requester cannot ask again for the same event.
   */
  lemma CanceledStillBlocksNewRequest(rows: seq<ParticipationRequest>, nextId: int, users: set<int>,
                                      events: map<int, Event>, userId: int, requestId: int, now: DateTime)
    requires UniqueIds(rows)
    ensures var r := CancelOutcome(rows, userId, requestId);
      r.Success? ==> CreateOutcome(SaveAll(rows, [r.value]), nextId, users, events, userId, r.value.eventId, now).Failure?
  {
    var r := CancelOutcome(rows, userId, requestId);
    if r.Success? {
      CancelEffect(rows, userId, requestId);
      var after := SaveAll(rows, [r.value]);
      var found := FindById(rows, requestId).value;
      var j :| 0 <= j < |rows| && rows[j] == found;
      assert after[j] in after && after[j].requesterId == userId && after[j].eventId == r.value.eventId;
    }
  }
}
