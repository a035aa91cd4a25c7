/**
 * The Avro records exchanged by the collector, the aggregator and the
 * analyzer: a user action and an event-to-event similarity.
 */
module Messages {
  datatype ActionTypeAvro = VIEW | REGISTER | LIKE

  /** java.time.Instant: seconds since the epoch and a nanosecond part. */
  datatype Instant = Instant(epochSecond: int, nano: int)

  /** An Instant in normal form: 0 <= nano < 10^9. */
  predicate NormalInstant(i: Instant)
  {
    0 <= i.nano < 1_000_000_000
  }

  /** Instant.MIN_SECOND and Instant.MAX_SECOND: the years -1000000000 and 1000000000. */
  const MinSecond: int := -31557014167219200
  const MaxSecond: int := 31556889864403199

  /** An Instant Java can represent: normal form, with its seconds inside the supported range. */
  predicate ValidInstant(i: Instant)
  {
    NormalInstant(i) && MinSecond <= i.epochSecond <= MaxSecond
  }

  datatype UserActionAvro = UserActionAvro(userId: int, eventId: int, actionType: ActionTypeAvro, timestamp: Instant)

  datatype EventSimilarityAvro = EventSimilarityAvro(eventA: int, eventB: int, score: real, timestamp: Instant)
}
