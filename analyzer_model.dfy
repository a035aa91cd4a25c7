/** The rows the analyzer stores and the records its queries return. */
module AnalyzerModel {
  import opened Messages

  /** The entity-side action kinds, stored by name in user_actions. */
  datatype ActionType = VIEW | REGISTER | LIKE

  /** A row of user_actions; the generated id column is not modelled. */
  datatype UserAction = UserAction(userId: int, eventId: int, actionType: ActionType, timestamp: Instant, actionWeight: real)

  /** A row of similarities; the generated id column is not modelled. */
  datatype EventSimilarity = EventSimilarity(eventA: int, eventB: int, score: real, timestamp: Instant)

  /** An event id with a score, as the JPQL constructor expressions build it. */
  datatype Recommendation = Recommendation(eventId: int, score: real)

  /** A row of the native neighbour query. */
  datatype NeighbourResult = NeighbourResult(primaryId: int, neighbourId: int, score: real)

  /** A first page of the given size, optionally sorted by score descending. */
  datatype Pageable = Pageable(size: nat, byScoreDesc: bool)

  /** The gRPC reply entry: an event id with a score. */
  datatype RecommendedEvent = RecommendedEvent(eventId: int, score: real)
}
