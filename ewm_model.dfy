/**
 * Values shared by the event, participation and location services of the
 * EWM ("explore with me") side: states, the event record and the time line.
 */
module EwmModel {
  import opened Common

  /** A LocalDateTime, as nanoseconds on one local time line (no zone, no leap seconds). */
  type DateTime = int

  const NanosPerMilli: int := 1_000_000
  const NanosPerHour: int := 3_600_000_000_000

  /** LocalDateTime.truncatedTo(ChronoUnit.MILLIS): the nano-of-second rounded down to a whole millisecond. */
  function TruncatedToMillis(t: DateTime): (r: DateTime)
    ensures r <= t < r + NanosPerMilli
    ensures r % NanosPerMilli == 0
  {
    t - t % NanosPerMilli
  }

  /** A later result or a failure; the services throw where the model returns Failure. */
  datatype Result<T, E> = Success(value: T) | Failure(error: E)

  datatype EventState = PENDING | PUBLISHED | CANCELED

  datatype LocationState = PENDING | APPROVED | REJECTED | AUTO_GENERATED

  /** LocationDto: a location given by id, or by the coordinates to resolve. */
  datatype LocationDto = LocationDto(id: Option<int>, latitude: Option<real>, longitude: Option<real>)

  /** A search circle around a point; the radius is in metres. */
  datatype Zone = Zone(latitude: real, longitude: real, radius: real)

  /**
   * The events row with the two transient counters filled in by enrichment.
   * Both copies of the event service share it: the microservice keeps
   * categoryId, initiatorId and locationId as plain ids, the monolith keeps
   * references whose ids these are; `rating` is the microservice's transient
   * score and `views` the monolith's.
   */
  datatype Event = Event(
    id: int,
    title: string,
    annotation: string,
    description: Option<string>,
    categoryId: int,
    initiatorId: int,
    eventDate: DateTime,
    publishedOn: Option<DateTime>,
    locationId: int,
    paid: bool,
    participantLimit: int,
    requestModeration: Option<bool>,
    state: EventState,
    confirmedRequests: int,
    rating: real,
    views: int)
}
