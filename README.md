# Explore-with-me: event recommendations and the event platform, in Dafny

This project models the core of an event platform ("explore with me") and
of its recommendation pipeline, and proves properties of the model.

- **Recommendation pipeline.** The collector turns gRPC user actions into
  Avro messages (`ProtobufToAvroMapper`, with the client's `buildTimestamp`
  as its inverse). The aggregator keeps, per event, each user's largest
  action weight and incrementally maintains the self and cross terms of an
  event-to-event similarity (`AggregatorService`): the sum over common users of the smaller of their two weights, divided by the product of the square roots of the two events' weight sums. The analyzer
  stores user actions monotonically (`UserActionService`) and similarity
  rows first-write-wins (`SimilarityService`), and answers recommendation,
  similar-event and interaction-count queries (`RecommendationsService`)
  over its two repositories, whose queries are modelled as functions over
  the tables' rows.
- **Event platform.** Participation requests with automatic or moderated
  confirmation under a participant limit (`ParticipationRequestServiceImpl`,
  microservice and monolith). The event lifecycle with its date lead times,
  publish/reject/review transitions, partial updates and enrichment
  (`EventServiceImpl` of the event microservice and of the monolith), and
  the event search filters (`EventSpecifications`). The location lifecycle
  with state changes, duplicate checks and get-or-create of automatic
  locations (`LocationServiceImpl`, `LocationSpecifications`, both copies).
- **Statistics server.** Hits are appended to a table (`HitService.add`),
  and statistics are the rows of a grouped, windowed `COUNT` /
  `COUNT(DISTINCT ip)` query (`HitRepository`), whose statement text and
  bound parameters are modelled too.

Stateful services are classes whose fields are the tables or maps they
change. The aggregator is a class with the two accumulator maps, and each
observation is proved to keep the accumulators equal to their defining sums
over the stored weights. The repositories are `seq`s of rows or `map`s. The
database's geometry (`calculate_distance_meters`, `findDuplicates`,
`findNearByAutoGenerated`) is passed in as oracle functions. The clock is
passed in as the parameter `now`. Floating-point values are `real`, and
`Math.sqrt` is the aggregator's function field `sqrt`. The model requires only that it is 0 at 0 and positive on positive inputs.

The request and location services exist twice: as microservices under
`core/` and inside the monolith (`ewm-service`, `core/main-service`). The
copies implement the same rules, so one model serves both. The rows below
cite the microservice copy, except where the monolith differs; the
monolith's location search with event-count bounds is one such place.
`getOrCreateAuto` is get-or-create with no id, so the model covers it
through `LocationService.GetOrCreateOutcome`.

## Model

| member | source | states |
|---|---|---|
| Aggregator.Put | stats/aggregator/src/main/java/aggregator/service/AggregatorService.java:90 | recording weight x for (event, user) stores x there and changes no other (event, user) weight and no other event's set of users |
| Aggregator.SetCell | stats/aggregator/src/main/java/aggregator/service/AggregatorService.java:149-164 | writing one cell of the dot-product matrix changes that cell only; a cross cell write leaves every self term as it was |
| Aggregator.CrossSymmetric | stats/aggregator/src/main/java/aggregator/service/AggregatorService.java:116-126 | the cross sum of a pair is the same in either order, so keeping it only under (smaller id, larger id) loses nothing |
| Aggregator.CrossBoundedBySelf | stats/aggregator/src/main/java/aggregator/service/AggregatorService.java:149-164 | with non-negative weights, a pair's cross sum lies between 0 and each of the two self sums |
| Aggregator.CrossSquareBound | stats/aggregator/src/main/java/aggregator/service/AggregatorService.java:178 | cross squared is at most selfA times selfB, so the score with an exact square root is at most 1 |
| Aggregator.SelfSumNonNegative | stats/aggregator/src/main/java/aggregator/service/AggregatorService.java:98-102 | with non-negative weights every self term is non-negative |
| Aggregator.PutNonNegative | stats/aggregator/src/main/java/aggregator/service/AggregatorService.java:90 | recording a non-negative weight keeps every stored weight non-negative |
| Aggregator.EmittableOnSelfTerms | stats/aggregator/src/main/java/aggregator/service/AggregatorService.java:170-188 | with a square root that is 0 at 0 and positive on positive inputs, and non-negative weights, a pair is emittable exactly when both self entries exist and are non-zero |
| Aggregator.SelfSumOther | stats/aggregator/src/main/java/aggregator/service/AggregatorService.java:98-102 | recording a weight for event e leaves the self sum of every other event unchanged |
| Aggregator.SelfSumStep | stats/aggregator/src/main/java/aggregator/service/AggregatorService.java:98-102 | recording weight x for (e, u) moves self[e] by x minus the old weight, or by x on first touch |
| Aggregator.CrossSumUntouched | stats/aggregator/src/main/java/aggregator/service/AggregatorService.java:128-131 | a pair that does not involve e, or whose partner has no weight from the user, keeps its cross sum |
| Aggregator.CrossSumStep | stats/aggregator/src/main/java/aggregator/service/AggregatorService.java:149-164 | for a partner the user already weighted, the canonical cross sum moves by min(new, other) minus min(old, other), with 0 for the old part on first touch |
| Aggregator.EmptyRowHarmless | stats/aggregator/src/main/java/aggregator/service/AggregatorService.java:80 | the empty inner map computeIfAbsent adds keeps both accumulator invariants |
| Aggregator.CalculateNorm | stats/aggregator/src/main/java/aggregator/service/AggregatorService.java:182-188 | the norm exists exactly when the event has a self entry, and is then the square root of that entry |
| Aggregator.CalculatePairSimilarity | stats/aggregator/src/main/java/aggregator/service/AggregatorService.java:170-180 | a similarity comes out exactly when both norms exist and are non-zero; it carries the pair, the given time and dot / (normA * normB) |
| Aggregator.NewEmitted | stats/aggregator/src/main/java/aggregator/service/AggregatorService.java:132-137 | the similarity computed for (e, o) is an entry for partner o, with canonical order and the matrix score, exactly when the pair has both norms |
| Aggregator.VisitShared | stats/aggregator/src/main/java/aggregator/service/AggregatorService.java:128-137 | visiting a partner the user weighted moves its cross cell by the delta and appends its similarity if there is one; the loop invariant is kept |
| Aggregator.VisitOther | stats/aggregator/src/main/java/aggregator/service/AggregatorService.java:114 | visiting the updated event itself, or an event the user never weighted, changes neither the matrix nor the output |
| Aggregator.CrossFinal | stats/aggregator/src/main/java/aggregator/service/AggregatorService.java:109-142 | after the loop over all events, every cross cell equals the cross sum of the weights with the new weight recorded |
| Aggregator.SelfFinal | stats/aggregator/src/main/java/aggregator/service/AggregatorService.java:98-102 | adding the delta to self[e] restores self[e] = sum of the weights of e, with the new weight recorded |
| Aggregator.EmptyRowView | stats/aggregator/src/main/java/aggregator/service/AggregatorService.java:80 | what the update proves about the weights with the empty row added also holds of the weights before computeIfAbsent |
| Aggregator.PairLeIsOrder | stats/aggregator/src/main/java/aggregator/service/AggregatorService.java:67-69 | ordering by eventA, then eventB, is total and transitive |
| Aggregator.AggregatorService.constructor | stats/aggregator/src/main/java/aggregator/service/AggregatorService.java:46-54 | given a square root that is 0 at 0 and positive on positive inputs, both accumulators start empty, which satisfies both invariants |
| Aggregator.AggregatorService.GetWeight | stats/aggregator/src/main/java/aggregator/service/AggregatorService.java:73-75 | the configured weight of the action type, and 0.0 for a type missing from the configuration |
| Aggregator.AggregatorService.CalculateSimilarity | stats/aggregator/src/main/java/aggregator/service/AggregatorService.java:58-71 | keeps both invariants and the square-root assumption. With non-negative configured weights, non-negative stored weights stay non-negative. An accepted action records its weight and emits one entry for every emittable partner the user weighted. A guarded-out action emits nothing and changes nothing. Every entry is canonical, involves the updated event and a partner the user weighted, and carries the matrix score. The list is strictly ascending by (eventA, eventB) |
| Aggregator.AggregatorService.EmittableExactlyOnSelfTerms | stats/aggregator/src/main/java/aggregator/service/AggregatorService.java:170-188 | in a valid engine whose stored weights are non-negative, a pair's similarity is emitted exactly when both of its self terms exist and are non-zero |
| Aggregator.AggregatorService.UpdateEventWeight | stats/aggregator/src/main/java/aggregator/service/AggregatorService.java:79-94 | updates only when no weight is stored or the stored one is strictly smaller. It then records the weight, moves self[e] by the delta and moves each shared cross cell. Otherwise it returns nothing and leaves both maps as they were. Stored weights never decrease, and the emitted partners are distinct |
| Aggregator.AggregatorService.RecalculateSimilarities | stats/aggregator/src/main/java/aggregator/service/AggregatorService.java:96-105 | after the self-term update and the cross loop, both invariants hold of the weights with the new weight recorded, and self[e] has moved by the delta |
| Aggregator.AggregatorService.UpdateCrossDotProducts | stats/aggregator/src/main/java/aggregator/service/AggregatorService.java:109-142 | no self term changes. Each cross cell of e with a partner u weighted moves by its delta and no other cell changes. Each emitted entry is for a distinct such partner, and every emittable partner gets one |
| Aggregator.AggregatorService.UpdateDotProductForPair | stats/aggregator/src/main/java/aggregator/service/AggregatorService.java:146-167 | the pair's cell becomes its old value plus min(new, other) minus the old min (0 on first touch), and the result is that pair's similarity from the updated matrix |
| UserActionService.AvroTypeToEntity | stats/analyzer/src/main/java/analyzer/service/impl/UserActionService.java:51-57 | VIEW, REGISTER and LIKE map to the entity's VIEW, REGISTER and LIKE, each in both directions |
| UserActionService.AvroTypeToEntityInjective | stats/analyzer/src/main/java/analyzer/service/impl/UserActionService.java:51-57 | the type mapping is total and injective |
| UserActionService.GetWeightForAction | stats/analyzer/src/main/java/analyzer/service/impl/UserActionService.java:59-65 | VIEW weighs the configured view weight, REGISTER the register weight, LIKE the like weight |
| UserActionService.Store.HandleUserAction | stats/analyzer/src/main/java/analyzer/service/impl/UserActionService.java:29-49 | the table becomes the upsert of the old table by the message: look up (user, event), insert when absent, overwrite only on a strictly greater weight. It keeps one row per (user, event) |
| UserActionService.UpsertStoredRow | stats/analyzer/src/main/java/analyzer/service/impl/UserActionService.java:31-48 | afterwards the (user, event) row exists. Its weight is max(old, new). Type and timestamp are the message's when there was no row or the new weight was strictly greater, and are left as they were otherwise |
| UserActionService.IndexOfAt | stats/analyzer/src/main/java/analyzer/repository/UserActionRepository.java:55 | the lookup by (user, event) finds the first row with that key |
| UserActionService.UpsertTouchesOnlyKey | stats/analyzer/src/main/java/analyzer/service/impl/UserActionService.java:31 | every row of another (user, event) keeps its position and contents; a row is added only when the key had none, and then at the end |
| UserActionService.UpsertNeverDecreases | stats/analyzer/src/main/java/analyzer/service/impl/UserActionService.java:38-44 | no stored weight decreases |
| UserActionService.UpsertKeepsUniqueKeys | stats/analyzer/src/main/java/analyzer/service/impl/UserActionService.java:31-48 | one row per (user, event) before the call implies one row per (user, event) after it |
| UserActionService.UpsertIdempotent | stats/analyzer/src/main/java/analyzer/service/impl/UserActionService.java:38-44 | handling the same action twice leaves the table as handling it once; an equal weight changes nothing, timestamp included |
| SimilarityService.Store.constructor | stats/analyzer/src/main/java/analyzer/service/impl/SimilarityService.java:25-36 | the table starts empty, with at most one row per unordered pair |
| SimilarityService.Store.HandleSimilarity | stats/analyzer/src/main/java/analyzer/service/impl/SimilarityService.java:25-36 | the table becomes the old table with the message handled: skipped when the pair exists, otherwise the mapped row appended. At most one row per unordered pair is kept |
| SimilarityService.HandledEffect | stats/analyzer/src/main/java/analyzer/service/impl/SimilarityService.java:28-35 | nothing is written when a row holds the pair in either orientation; otherwise exactly one row is appended, with the message's eventA, eventB, score and timestamp |
| SimilarityService.HandledIdempotent | stats/analyzer/src/main/java/analyzer/service/impl/SimilarityService.java:28-32 | after handling, the pair is stored, and redelivering the message is a no-op |
| SimilarityService.FirstWriteWins | stats/analyzer/src/main/java/analyzer/service/impl/SimilarityService.java:28-32 | for a pair already stored, the rows holding it, and their scores, are the same after any message |
| SimilarityService.HandledKeepsOnePerPair | stats/analyzer/src/main/java/analyzer/service/impl/SimilarityService.java:28-35 | a table with at most one row per unordered pair keeps that shape |
| RecommendationsService.ScoreDescIsOrder | stats/analyzer/src/main/java/analyzer/service/impl/RecommendationsService.java:140 | ordering by score, highest first, is total and transitive |
| RecommendationsService.ToProto | stats/analyzer/src/main/java/analyzer/service/impl/RecommendationsService.java:116-121 | one reply entry per recommendation, in order, with its event id and score |
| RecommendationsService.GetSimilarEvents | stats/analyzer/src/main/java/analyzer/service/impl/RecommendationsService.java:94-122 | nothing for a limit of 0 or less. Otherwise at most limit entries touching the event, best score first. None is the event itself or an event the user interacted with. A qualifying row missing from the reply means the reply is full and the row scores no higher than any entry |
| RecommendationsService.InteractionEntries | stats/analyzer/src/main/java/analyzer/service/impl/RecommendationsService.java:135-139 | one entry per requested id, in request order, scored by its aggregated weight or 0 when it has none |
| RecommendationsService.GetInteractionsCount | stats/analyzer/src/main/java/analyzer/service/impl/RecommendationsService.java:125-142 | an empty request gives an empty reply. Otherwise the reply holds exactly the requested ids, each once per request. Each is scored by its sum of weights, sorted highest first |
| RecommendationsService.IdsOfSortBy | stats/analyzer/src/main/java/analyzer/service/impl/RecommendationsService.java:140 | sorting the entries rearranges their ids without adding or dropping any |
| RecommendationsService.CalculateCandidateScore | stats/analyzer/src/main/java/analyzer/service/impl/RecommendationsService.java:167-193 | the loop computes the weighted average of the rated neighbours, 0 with no neighbour list, an empty one or a zero similarity sum |
| RecommendationsService.SumsBetween | stats/analyzer/src/main/java/analyzer/service/impl/RecommendationsService.java:178-186 | with positive similarities and ratings in [lo, hi], the weighted sum lies between lo and hi times the similarity sum |
| RecommendationsService.SimilaritySumPositive | stats/analyzer/src/main/java/analyzer/service/impl/RecommendationsService.java:186-188 | with positive similarities, the similarity sum is never negative, and is positive exactly when some neighbour is rated |
| RecommendationsService.CandidateScoreBetween | stats/analyzer/src/main/java/analyzer/service/impl/RecommendationsService.java:167-193 | the score is 0 when no neighbour is rated. With positive similarities and some neighbour rated, it lies between the least and the greatest rating used |
| RecommendationsService.Scored | stats/analyzer/src/main/java/analyzer/service/impl/RecommendationsService.java:148-159 | the loop keeps exactly the candidates whose score is positive, each with that score |
| RecommendationsService.FinalRecommendations | stats/analyzer/src/main/java/analyzer/service/impl/RecommendationsService.java:161-164 | at most limit entries, sorted highest score first, each a candidate with its own positive score. Fewer than limit means every positively scored candidate is there. A positively scored candidate left out scores no higher than any entry |
| RecommendationsService.BuildFinalRecommendations | stats/analyzer/src/main/java/analyzer/service/impl/RecommendationsService.java:144-165 | the loop followed by the sort and the limit yields exactly the final recommendations |
| RecommendationsService.CandidateIds | stats/analyzer/src/main/java/analyzer/service/impl/RecommendationsService.java:64 | the candidate ids are the recommendations' event ids |
| RecommendationsService.NeighbourIds | stats/analyzer/src/main/java/analyzer/service/impl/RecommendationsService.java:79-82 | exactly the event ids appearing in some neighbour list of the map |
| RecommendationsService.GetRecommendationsForUser | stats/analyzer/src/main/java/analyzer/service/impl/RecommendationsService.java:38-91 | the query pipeline: recent events, then candidates, then neighbours, then the user's ratings, then the final list. The reply is empty for a limit of at most 0 and never longer than the limit; it is sorted best first, with positive scores only. Each entry is a candidate of the candidate page with its weighted-average score. A positively scored candidate left out means the reply is full and it scores no higher than any entry |
| RecommendationsService.CandidatePage | stats/analyzer/src/main/java/analyzer/service/impl/RecommendationsService.java:47-69 | at most limit candidate ids, none an event the user interacted with; none without recent events |
| RecommendationsService.RecommendationsForUserShape | stats/analyzer/src/main/java/analyzer/service/impl/RecommendationsService.java:38-91 | with one row per (user, event) neither the reply nor the ratings lookup fails. The reply is empty for a limit of 0 or less or for a user without actions, and never holds an event the user interacted with |
| UserActionRepository.IndexOf | stats/analyzer/src/main/java/analyzer/repository/UserActionRepository.java:55 | the position of the first row for (user, event), or none when no row has that key |
| UserActionRepository.FindByUserIdAndEventId | stats/analyzer/src/main/java/analyzer/repository/UserActionRepository.java:55 | a row of the table with that key, and none exactly when no row has it |
| UserActionRepository.FoundRowIsOnly | stats/analyzer/src/main/java/analyzer/repository/UserActionRepository.java:55 | with one row per (user, event), the row found is the only row with that key, so the single-result query never meets two |
| UserActionRepository.FindEventIdsByUserId | stats/analyzer/src/main/java/analyzer/repository/UserActionRepository.java:16-17 | exactly the event ids of the user's rows |
| UserActionRepository.UserEventIds | stats/analyzer/src/main/java/analyzer/repository/UserActionRepository.java:20 | the user's event ids in table order, as a list naming exactly the ids of the set query |
| UserActionRepository.NoEventsNoIds | stats/analyzer/src/main/java/analyzer/repository/UserActionRepository.java:20-21 | a user with no rows has no recent ids |
| UserActionRepository.FindRecentEventIdsByUserId | stats/analyzer/src/main/java/analyzer/repository/UserActionRepository.java:20-21 | at most page-size of the user's ids, a prefix of the table-order list, all of it when shorter than the page; no timestamp order |
| UserActionRepository.FindActionWeights | stats/analyzer/src/main/java/analyzer/repository/UserActionRepository.java:35-36 | exactly the (event, weight) pairs of the user's rows whose event was requested |
| UserActionRepository.ToMap | stats/analyzer/src/main/java/analyzer/repository/UserActionRepository.java:31-32 | the map exists exactly when the keys are distinct; it then holds exactly those keys, each with its value |
| UserActionRepository.FindWeightsByUserIdAndEventIds | stats/analyzer/src/main/java/analyzer/repository/UserActionRepository.java:27-33 | an empty id set gives an empty map without querying; otherwise the map of the action-weight rows |
| UserActionRepository.WeightsOfUniqueRows | stats/analyzer/src/main/java/analyzer/repository/UserActionRepository.java:27-36 | with one row per (user, event) the map never fails. Its keys are the requested events the user has a row for, each with that row's weight |
| UserActionRepository.SumOfAbsent | stats/analyzer/src/main/java/analyzer/repository/UserActionRepository.java:47-53 | an event without rows sums to 0 |
| UserActionRepository.GroupKeys | stats/analyzer/src/main/java/analyzer/repository/UserActionRepository.java:50-51 | one key per requested event that has rows, none repeated |
| UserActionRepository.GetSumOfWeights | stats/analyzer/src/main/java/analyzer/repository/UserActionRepository.java:47-53 | one row per requested event that has rows, carrying the sum of its weights |
| UserActionRepository.GetAggregatedWeightsForEvents | stats/analyzer/src/main/java/analyzer/repository/UserActionRepository.java:39-45 | an empty request gives an empty map. Otherwise it maps each requested event with rows to its sum of weights; events without rows are absent |
| EventSimilarityRepository.CountPair | stats/analyzer/src/main/java/analyzer/repository/EventSimilarityRepository.java:115-116 | the count is positive exactly when some row joins the two events, in either orientation |
| EventSimilarityRepository.ExistsByEventAAndEventB | stats/analyzer/src/main/java/analyzer/repository/EventSimilarityRepository.java:115-117 | true exactly when the table holds a row joining the two events in either orientation |
| EventSimilarityRepository.CountPairSymmetric | stats/analyzer/src/main/java/analyzer/repository/EventSimilarityRepository.java:116 | the count does not depend on the order in which the two events are given |
| EventSimilarityRepository.ExistsSymmetric | stats/analyzer/src/main/java/analyzer/repository/EventSimilarityRepository.java:115-117 | the existence check does not depend on the order in which the two events are given |
| EventSimilarityRepository.SimilarTo | stats/analyzer/src/main/java/analyzer/repository/EventSimilarityRepository.java:20-30 | exactly the partners of the rows that touch the event, except partners in the excluded set, each with its row's score |
| EventSimilarityRepository.ScoreDescIsOrder | stats/analyzer/src/main/java/analyzer/repository/EventSimilarityRepository.java:51 | ordering by score, highest first, is total and transitive |
| EventSimilarityRepository.PageOfMatches | stats/analyzer/src/main/java/analyzer/repository/EventSimilarityRepository.java:20-33 | a page holds at most size matches, all of them when short. Sorted, none left out scores higher than one kept; unsorted, it is a prefix of the matches |
| EventSimilarityRepository.FindTopSimilarExcluding | stats/analyzer/src/main/java/analyzer/repository/EventSimilarityRepository.java:20-33 | at most page-size entries, none excluded, drawn from the matches of the query. Sorted by score when the page asks for it, and then no match left out scores higher than one kept. When fewer than a page, every match is there |
| EventSimilarityRepository.TopSimilarFromRows | stats/analyzer/src/main/java/analyzer/repository/EventSimilarityRepository.java:22-29 | each returned partner comes from a row touching the event, and is not the event itself when the event is excluded |
| EventSimilarityRepository.PartnerKeys | stats/analyzer/src/main/java/analyzer/repository/EventSimilarityRepository.java:48-49 | the group keys, none repeated, are exactly the partners of the source set that are not excluded |
| EventSimilarityRepository.MaxScore | stats/analyzer/src/main/java/analyzer/repository/EventSimilarityRepository.java:41 | no score exactly for an empty group. Otherwise the greatest score among the group's rows, reached by one of them |
| EventSimilarityRepository.Groups | stats/analyzer/src/main/java/analyzer/repository/EventSimilarityRepository.java:38-49 | one entry per group, none repeated, each with the maximum score of its group |
| EventSimilarityRepository.FindTopSimilarToSetExcluding | stats/analyzer/src/main/java/analyzer/repository/EventSimilarityRepository.java:38-55 | at most page-size entries, best first, partners distinct, each one group. When fewer than a page, every group is there. No group left out scores higher than one kept |
| EventSimilarityRepository.TopSimilarToSetIsMax | stats/analyzer/src/main/java/analyzer/repository/EventSimilarityRepository.java:40-47 | each returned partner is not excluded, and its score is the maximum over the rows linking it to the set |
| EventSimilarityRepository.Forward | stats/analyzer/src/main/java/analyzer/repository/EventSimilarityRepository.java:83-88 | exactly the rows whose first event is a primary and whose second is a candidate, read in that orientation |
| EventSimilarityRepository.Backward | stats/analyzer/src/main/java/analyzer/repository/EventSimilarityRepository.java:90-95 | exactly the rows whose second event is a primary and whose first is a candidate, read in reverse |
| EventSimilarityRepository.Pairs | stats/analyzer/src/main/java/analyzer/repository/EventSimilarityRepository.java:82-96 | every pair has a primary and a candidate neighbour |
| EventSimilarityRepository.NeighbourDescIsOrder | stats/analyzer/src/main/java/analyzer/repository/EventSimilarityRepository.java:100 | ordering pairs by score, highest first, is total and transitive |
| EventSimilarityRepository.OfPrimaryMembers | stats/analyzer/src/main/java/analyzer/repository/EventSimilarityRepository.java:100 | the partition of one primary holds exactly the pairs with that primary |
| EventSimilarityRepository.KeepRanked | stats/analyzer/src/main/java/analyzer/repository/EventSimilarityRepository.java:97-108 | keeps only elements of the ranked list |
| EventSimilarityRepository.KeepRankedPerPrimary | stats/analyzer/src/main/java/analyzer/repository/EventSimilarityRepository.java:100-108 | for every primary, the kept pairs are the first maxNeighbours pairs of its partition |
| EventSimilarityRepository.OfPrimarySorted | stats/analyzer/src/main/java/analyzer/repository/EventSimilarityRepository.java:100 | a partition of a list ranked by score is still ranked |
| EventSimilarityRepository.OfPrimaryMultiset | stats/analyzer/src/main/java/analyzer/repository/EventSimilarityRepository.java:100 | a partition's elements, counted with multiplicity, are the list's elements with that primary |
| EventSimilarityRepository.FindNeighboursNative | stats/analyzer/src/main/java/analyzer/repository/EventSimilarityRepository.java:80-113 | every kept pair is a pair of the CTE, with a primary and a candidate neighbour |
| Sorting.SortedPrefixDominates | stats/analyzer/src/main/java/analyzer/repository/EventSimilarityRepository.java:100-108 | in a sorted list each element of a prefix comes no later than any element left out |
| EventSimilarityRepository.RankedOfPrimary | stats/analyzer/src/main/java/analyzer/repository/EventSimilarityRepository.java:97-102 | after ranking, each primary's pairs are a ranked rearrangement of its own pairs |
| EventSimilarityRepository.NativeTopPerPrimary | stats/analyzer/src/main/java/analyzer/repository/EventSimilarityRepository.java:80-113 | for every primary the result holds min(maxNeighbours, n) of its n pairs (none when maxNeighbours is not positive), ranked, drawn from its pairs, and none left out scores higher than one kept |
| EventSimilarityRepository.ToRecommendations | stats/analyzer/src/main/java/analyzer/repository/EventSimilarityRepository.java:74 | one recommendation per result, with its neighbour and score, in order |
| EventSimilarityRepository.GroupByPrimary | stats/analyzer/src/main/java/analyzer/repository/EventSimilarityRepository.java:70-77 | one key per primary present in the list, mapping to its results as recommendations, in list order |
| EventSimilarityRepository.GroupByPrimaryFrom | stats/analyzer/src/main/java/analyzer/repository/EventSimilarityRepository.java:70-77 | the grouped map holds only primaries and candidate neighbours of the list |
| EventSimilarityRepository.FindNeighbourEventsFrom | stats/analyzer/src/main/java/analyzer/repository/EventSimilarityRepository.java:62-78 | an empty map when either set is empty. Otherwise only primaries with a non-empty list, whose neighbours are all candidates |
| EventSimilarityRepository.WithPrimaryOfRecommendations | stats/analyzer/src/main/java/analyzer/repository/EventSimilarityRepository.java:74 | recommendations of one primary read back as results give the results again |
| EventSimilarityRepository.NeighbourEventsTop | stats/analyzer/src/main/java/analyzer/repository/EventSimilarityRepository.java:62-113 | with non-empty sets, a primary has an entry exactly when maxNeighbours is positive and it has a pair. The entry holds min(maxNeighbours, n) of its n pairs in both orientations, and none left out scores higher. The entry's order is the model's choice (rank order), since the query has no outer ORDER BY |
| ProtobufToAvroMapper.ToAvroActionType | stats/collector/src/main/java/collector/mapper/ProtobufToAvroMapper.java:17-28 | null is an error, and so is any constant other than the three actions. Each action maps to the Avro kind of the same name, and only that action does |
| ProtobufToAvroMapper.ToAvroActionTypeInjective | stats/collector/src/main/java/collector/mapper/ProtobufToAvroMapper.java:22-25 | two kinds that convert successfully to the same Avro kind are equal, and every Avro kind is reached |
| ProtobufToAvroMapper.ToInstant | stats/collector/src/main/java/collector/mapper/ProtobufToAvroMapper.java:30-35 | null stays null. A timestamp outside the Instant range is an error, and only such a timestamp is. Otherwise the result is a valid Instant in normal form denoting the same number of nanoseconds since the epoch |
| ProtobufToAvroMapper.CarryKeepsTotal | stats/collector/src/main/java/collector/mapper/ProtobufToAvroMapper.java:34 | carrying whole seconds out of the nanos keeps the time denoted, and the carried seconds are in range exactly when that time is |
| ProtobufToAvroMapper.ToInstantNormal | stats/collector/src/main/java/collector/mapper/ProtobufToAvroMapper.java:34 | a timestamp whose nanos are already in [0, 10^9), with seconds in the Instant range, is read as the same seconds and nanos |
| CollectorClient.TimestampRoundTrip | stats/stats-client/src/main/java/ru/practicum/statsclient/CollectorClient.java:30-35 | the collector reads back exactly any Instant Java can represent that the client sent |
| CollectorClient.InstantRoundTrip | stats/stats-client/src/main/java/ru/practicum/statsclient/CollectorClient.java:30-35 | a timestamp is read exactly when it denotes a representable time. Sending a read timestamp back gives nanos in [0, 10^9) and the same point in time, and a timestamp already normal comes back unchanged |
| ParticipationRequests.CountByEventIdAndStatus | core/request-service/src/main/java/ru/practicum/ewm/repository/ParticipationRequestRepository.java:18 | at most the table's size, and 0 exactly when no row has that event and status |
| ParticipationRequests.FindById | core/request-service/src/main/java/ru/practicum/ewm/service/ParticipationRequestServiceImpl.java:149-150 | a row of the table with that id, and none exactly when no row has it |
| ParticipationRequests.FindAllById | core/request-service/src/main/java/ru/practicum/ewm/service/ParticipationRequestServiceImpl.java:237 | exactly the table's rows whose id is listed; unknown ids are skipped |
| ParticipationRequests.DetermineRequestStatus | core/request-service/src/main/java/ru/practicum/ewm/service/ParticipationRequestServiceImpl.java:209-213 | CONFIRMED exactly when moderation is not explicitly on or the limit is 0, PENDING exactly otherwise |
| ParticipationRequests.AutoConfirmVersusInitialStatus | core/request-service/src/main/java/ru/practicum/ewm/service/ParticipationRequestServiceImpl.java:209-213 | every auto-confirmed event also starts requests CONFIRMED. The two rules disagree exactly on events with a missing moderation flag and a non-zero limit |
| ParticipationRequests.CreateOutcome | core/request-service/src/main/java/ru/practicum/ewm/service/ParticipationRequestServiceImpl.java:51-81 | the checks in order: unknown user, unknown event, an existing request, the initiator, an unpublished event, a positive limit used up. On success, a new row with the next id, the time truncated to milliseconds and the initial status |
| ParticipationRequests.GetEventWithCheck | core/request-service/src/main/java/ru/practicum/ewm/service/ParticipationRequestServiceImpl.java:219-231 | succeeds exactly for an existing, published event of the caller, and returns it; Forbidden exactly for an existing event of another user |
| ParticipationRequests.ConfirmedPrefix | core/request-service/src/main/java/ru/practicum/ewm/service/ParticipationRequestServiceImpl.java:255-271 | the loop confirms every request under auto-confirm, and otherwise min(n, max(0, available)) of them |
| ParticipationRequests.UpdateOutcome | core/request-service/src/main/java/ru/practicum/ewm/service/ParticipationRequestServiceImpl.java:103-118 | fails for an unknown event, for another user's event, for an unpublished event, for any loaded request not PENDING and for a status other than CONFIRMED or REJECTED. REJECTED rejects every loaded request with none confirmed; CONFIRMED is the confirmation outcome |
| ParticipationRequests.CancelOutcome | core/request-service/src/main/java/ru/practicum/ewm/service/ParticipationRequestServiceImpl.java:146-158 | succeeds exactly when the request exists and belongs to the caller, setting it to CANCELED whatever its status; not found exactly when no row has the id |
| ParticipationRequests.DecideConfirmations | core/request-service/src/main/java/ru/practicum/ewm/service/ParticipationRequestServiceImpl.java:262-271 | the loop over the batch with its decrementing counter yields exactly the decision: a confirmed prefix, the rest rejected |
| ParticipationRequests.RejectAll | core/request-service/src/main/java/ru/practicum/ewm/service/ParticipationRequestServiceImpl.java:323-325 | the loop sets every request of the batch to REJECTED, in order |
| ParticipationRequests.RequestStore.constructor | core/request-service/src/main/java/ru/practicum/ewm/service/ParticipationRequestServiceImpl.java:40 | an empty requests table |
| ParticipationRequests.RequestStore.CreateRequest | core/request-service/src/main/java/ru/practicum/ewm/service/ParticipationRequestServiceImpl.java:51-81 | the outcome of the checks; on success the new request is appended with the next id, otherwise nothing is written |
| ParticipationRequests.RequestStore.UpdateRequestStatuses | core/request-service/src/main/java/ru/practicum/ewm/service/ParticipationRequestServiceImpl.java:103-118 | the update outcome; on success every decided request is saved, otherwise nothing is written |
| ParticipationRequests.RequestStore.ConfirmRequests | core/request-service/src/main/java/ru/practicum/ewm/service/ParticipationRequestServiceImpl.java:252-279 | the limit check, then the loop, then saveAll; nothing written when the limit check throws |
| ParticipationRequests.RequestStore.RejectRequests | core/request-service/src/main/java/ru/practicum/ewm/service/ParticipationRequestServiceImpl.java:322-333 | every request REJECTED and saved, none confirmed |
| ParticipationRequests.RequestStore.CancelRequest | core/request-service/src/main/java/ru/practicum/ewm/service/ParticipationRequestServiceImpl.java:146-158 | the cancel outcome; on success the request saved as CANCELED, otherwise nothing is written |
| ParticipationRequests.SaveAllKeepsIds | core/request-service/src/main/java/ru/practicum/ewm/service/ParticipationRequestServiceImpl.java:273 | saving keeps the table's length and its ids in place, and every row comes from the table or the batch |
| ParticipationRequests.CountAppend | core/request-service/src/main/java/ru/practicum/ewm/repository/ParticipationRequestRepository.java:18 | one more row raises the count by one exactly when it has that event and status |
| ParticipationRequests.CreateKeepsTableShape | core/request-service/src/main/java/ru/practicum/ewm/service/ParticipationRequestServiceImpl.java:61-79 | a successful creation keeps ids unique and keeps one request per requester and event |
| ParticipationRequests.CreateRespectsLimit | core/request-service/src/main/java/ru/practicum/ewm/service/ParticipationRequestServiceImpl.java:200-206 | after a successful creation for an event with a positive limit, its CONFIRMED requests number at most the limit |
| ParticipationRequests.ConfirmPartition | core/request-service/src/main/java/ru/practicum/ewm/service/ParticipationRequestServiceImpl.java:259-271 | every request lands in exactly one list, in input order. Confirmed ones are CONFIRMED, rejected ones REJECTED. All are confirmed under auto-confirm, otherwise the first min(n, max(0, available)) |
| ParticipationRequests.ConfirmRespectsLimit | core/request-service/src/main/java/ru/practicum/ewm/service/ParticipationRequestServiceImpl.java:253-271 | without auto-confirm, for a limit and a count fitting an int, a successful confirmation confirms at most limit minus the confirmed count |
| ParticipationRequests.WithStatusFrom | core/request-service/src/main/java/ru/practicum/ewm/service/ParticipationRequestServiceImpl.java:302-313 | setting a status changes only the status of a row |
| ParticipationRequests.SaveAllChangesStatusesOnly | core/request-service/src/main/java/ru/practicum/ewm/service/ParticipationRequestServiceImpl.java:273 | saving status-changed rows of the table changes statuses only: rows keep their place and other fields, and rows outside the batch are untouched |
| ParticipationRequests.DecisionFrom | core/request-service/src/main/java/ru/practicum/ewm/service/ParticipationRequestServiceImpl.java:262-271 | the decided requests are loaded rows with only their status changed |
| ParticipationRequests.UpdateSavesStatusChanges | core/request-service/src/main/java/ru/practicum/ewm/service/ParticipationRequestServiceImpl.java:109-117 | a successful update saves exactly the loaded requests, each a listed row now CONFIRMED or REJECTED |
| ParticipationRequests.UpdateChangesStatusesOnly | core/request-service/src/main/java/ru/practicum/ewm/service/ParticipationRequestServiceImpl.java:103-118 | a successful update changes statuses only, leaves unlisted rows alone and keeps one request per requester and event |
| ParticipationRequests.UpdateDecidesEveryLoadedRequest | core/request-service/src/main/java/ru/practicum/ewm/service/ParticipationRequestServiceImpl.java:103-118 | with unique ids, after a successful update every listed request of the table is CONFIRMED or REJECTED |
| ParticipationRequests.SavedBatchDecides | core/request-service/src/main/java/ru/practicum/ewm/service/ParticipationRequestServiceImpl.java:273 | saving the decided batch leaves every listed row CONFIRMED or REJECTED |
| ParticipationRequests.CancelEffect | core/request-service/src/main/java/ru/practicum/ewm/service/ParticipationRequestServiceImpl.java:149-157 | a successful cancellation sets the one row with the id to CANCELED and leaves every other row alone |
| ParticipationRequests.CanceledStillBlocksNewRequest | core/request-service/src/main/java/ru/practicum/ewm/service/ParticipationRequestServiceImpl.java:180-184 | a cancelled request still blocks a new one for the same requester and event |
| EventRules.ValidateEventDate | core/event-service/src/main/java/ru/practicum/ewm/service/EventServiceImpl.java:419-431 | a missing date is an illegal argument. A date earlier than now plus the lead time is refused, the lead being 1 hour once published and 2 hours otherwise. Any other date passes |
| EventRules.ValidateEventDateBoundary | core/event-service/src/main/java/ru/practicum/ewm/service/EventServiceImpl.java:424-426 | a date exactly the lead time away passes, one nanosecond earlier is refused, and any later date than a passing one passes |
| EventRules.UnpublishedLeadCoversPublished | core/event-service/src/main/java/ru/practicum/ewm/service/EventServiceImpl.java:52-53 | a date acceptable before publication is acceptable after it, and a date one hour away separates the two rules |
| EventRules.PublishEvent | core/event-service/src/main/java/ru/practicum/ewm/service/EventServiceImpl.java:450-457 | succeeds exactly for a PENDING event at least an hour away. It becomes PUBLISHED with publishedOn set to now, nothing else changed; a non-PENDING event fails with its own error |
| EventRules.RejectEvent | core/event-service/src/main/java/ru/practicum/ewm/service/EventServiceImpl.java:459-464 | succeeds exactly for an event not PUBLISHED, which becomes CANCELED with nothing else changed |
| EventRules.ApplyFieldsEffect | core/event-service/src/main/java/ru/practicum/ewm/service/EventServiceImpl.java:116-122 | a null field keeps the event's value and a present one replaces it. No other field moves, an all-null patch changes nothing, and applying it twice is applying it once |
| EventRules.ApplyUserStateAction | core/event-service/src/main/java/ru/practicum/ewm/service/EventServiceImpl.java:133-138 | SEND_TO_REVIEW sets PENDING, CANCEL_REVIEW sets CANCELED, no action leaves the event as it is |
| EventRules.ApplyAdminStateAction | core/event-service/src/main/java/ru/practicum/ewm/service/EventServiceImpl.java:184-189 | no action leaves the event; PUBLISH_EVENT publishes it and REJECT_EVENT rejects it, with their guards |
| EventRules.AdminTransitions | core/event-service/src/main/java/ru/practicum/ewm/service/EventServiceImpl.java:184-189 | a PUBLISHED event stays PUBLISHED. PUBLISHED is entered only from PENDING with an hour of lead time and a publication time of now. Any other change of state is to CANCELED |
| EventRules.CountsToMap | core/event-service/src/main/java/ru/practicum/ewm/service/EventServiceImpl.java:355-356 | without a repeated event id, a map holding exactly the counted ids, each with its count. A repeated id is the toMap failure, which happens exactly then |
| EventRules.EnrichWithConfirmedRequestsCount | core/event-service/src/main/java/ru/practicum/ewm/service/EventServiceImpl.java:336-358 | no events or no counts leave the events as they are. A repeated id in the counts is the toMap failure. Otherwise only each event's confirmed count changes: it becomes the count reported for its id, or 0 when no count mentions it |
| EventRules.EnrichConfirmedRequests | core/event-service/src/main/java/ru/practicum/ewm/service/EventServiceImpl.java:358 | the forEach over the events yields exactly the enrichment above |
| EventService.UserUpdateOutcome | core/event-service/src/main/java/ru/practicum/ewm/service/EventServiceImpl.java:101-141 | an unknown category fails first. Another user's event fails as not the initiator, a published one as not updatable, and a success never leaves the event PUBLISHED |
| EventService.AdminUpdateOutcome | core/event-service/src/main/java/ru/practicum/ewm/service/EventServiceImpl.java:159-192 | an unknown category fails first, then an unknown event; a success is for a stored event |
| EventService.EventStore.constructor | core/event-service/src/main/java/ru/practicum/ewm/service/EventServiceImpl.java:55 | an empty events table |
| EventService.EventStore.Update | core/event-service/src/main/java/ru/practicum/ewm/service/EventServiceImpl.java:101-141 | the initiator's update outcome; on success the event is stored under its id, and on any failure the table is unchanged (the transaction rolls back) |
| EventService.EventStore.AdminUpdate | core/event-service/src/main/java/ru/practicum/ewm/service/EventServiceImpl.java:159-192 | the administrator's update outcome; on success the event is stored under its id, and on any failure the table is unchanged |
| EventService.UserUpdateEffect | core/event-service/src/main/java/ru/practicum/ewm/service/EventServiceImpl.java:116-138 | a null field keeps the stored value and a given one replaces it. A given date is at least two hours away. The state follows the review action, and id, initiator, counters and publishedOn are untouched |
| EventService.UserUpdateSucceedsIff | core/event-service/src/main/java/ru/practicum/ewm/service/EventServiceImpl.java:101-141 | succeeds exactly when the category is known or not given, the event exists, the caller is its initiator, it is not published, and any given date is at least two hours away |
| EventService.AdminUpdateLifecycle | core/event-service/src/main/java/ru/practicum/ewm/service/EventServiceImpl.java:179-189 | a published event stays published, with no action. Publication happens only from PENDING, stamps publishedOn with now and needs an hour of lead, and a date given with it needs two. A reject cancels, and identity fields never change |
| EventRules.EventIds | core/event-service/src/main/java/ru/practicum/ewm/service/EventServiceImpl.java:280-282 | the ids of a list of events, one per event, in order |
| EventService.FindAllByIdIn | core/event-service/src/main/java/ru/practicum/ewm/service/EventServiceImpl.java:288 | at most one event per requested id, each a stored event with a requested id, and every stored requested event is there |
| EventService.ToMapById | core/event-service/src/main/java/ru/practicum/ewm/service/EventServiceImpl.java:293 | on success each key maps to the listed event with that id, and every listed event is reachable by its id |
| EventService.OrderedFollowsIds | core/event-service/src/main/java/ru/practicum/ewm/service/EventServiceImpl.java:295-298 | the ordered list follows the requested ids with unknown ones dropped, each entry the mapped event |
| EventService.ScoresToMap | core/event-service/src/main/java/ru/practicum/ewm/service/EventServiceImpl.java:376-382 | the keys are exactly the scored ids |
| EventService.ScoresToMapLastWins | core/event-service/src/main/java/ru/practicum/ewm/service/EventServiceImpl.java:380 | with a repeated id, the score kept is the last one given for it |
| EventService.EnrichWithRating | core/event-service/src/main/java/ru/practicum/ewm/service/EventServiceImpl.java:361-385 | only each event's rating changes, and it is 0.0 for an id the analyzer did not score |
| EventService.EnrichWithRatingLastWins | core/event-service/src/main/java/ru/practicum/ewm/service/EventServiceImpl.java:380-384 | a scored event takes the last score the analyzer gave for its id |
| EventService.EnrichRating | core/event-service/src/main/java/ru/practicum/ewm/service/EventServiceImpl.java:384 | the forEach over the events yields exactly the enrichment above |
| EventService.GetRecommendation | core/event-service/src/main/java/ru/practicum/ewm/service/EventServiceImpl.java:277-311 | an empty answer from the analyzer gives an empty list without touching the table |
| EventService.EnrichedKeepsStored | core/event-service/src/main/java/ru/practicum/ewm/service/EventServiceImpl.java:290-291 | enrichment keeps every event's id and stored fields, changing only the confirmed count and the rating |
| EventService.FoundDistinct | core/event-service/src/main/java/ru/practicum/ewm/service/EventServiceImpl.java:288 | over a table keyed by id, the found events have distinct ids |
| EventService.DistinctToMap | core/event-service/src/main/java/ru/practicum/ewm/service/EventServiceImpl.java:293 | a list with distinct ids always converts to a map |
| EventService.RecommendationMap | core/event-service/src/main/java/ru/practicum/ewm/service/EventServiceImpl.java:288-293 | over a table keyed by id the map exists. It holds a requested id exactly when it is stored, and each entry is the stored event with its count and its rating |
| EventService.GetRecommendationOrder | core/event-service/src/main/java/ru/practicum/ewm/service/EventServiceImpl.java:277-298 | over a table keyed by id, the only failure is a repeated event id in the confirmed counts. Otherwise the list holds the analyzer's stored ids in the analyzer's order, unknown ids dropped, each the stored event with only its count and rating changed. The count is the one reported for its id, 0 when the counts do not mention it, and the stored count when the reply is empty |
| EventService.PresentAgrees | core/event-service/src/main/java/ru/practicum/ewm/service/EventServiceImpl.java:295-298 | dropping unknown ids looks only at whether each requested id is known |
| EventService.ResolveLocationId | core/event-service/src/main/java/ru/practicum/ewm/service/EventServiceImpl.java:529-555 | no location is an error. A given id must name a known location, and one approved or auto-generated, whose id is returned. Without an id, the auto-generated location's id, or an error when there is none |
| EventService.ResolvedLocationUsable | core/event-service/src/main/java/ru/practicum/ewm/service/EventServiceImpl.java:557-559 | a location resolved by id is never PENDING or REJECTED |
| MainEventService.Categorized | core/main-service/src/main/java/ru/practicum/ewm/event/service/EventServiceImpl.java:105-110 | the category is left as it is without an id or with the current one. A different id replaces it when the category exists and is CategoryNotFound otherwise |
| MainEventService.UserUpdateOutcome | core/main-service/src/main/java/ru/practicum/ewm/event/service/EventServiceImpl.java:82-126 | an unknown event fails first, then another user's event and then a published one. A success never leaves the event PUBLISHED |
| MainEventService.AdminUpdateOutcome | core/main-service/src/main/java/ru/practicum/ewm/event/service/EventServiceImpl.java:130-162 | an unknown event fails; a success is for a stored event and keeps its category |
| MainEventService.EventStore.constructor | core/main-service/src/main/java/ru/practicum/ewm/event/service/EventServiceImpl.java:51 | an empty events table |
| MainEventService.EventStore.Update | core/main-service/src/main/java/ru/practicum/ewm/event/service/EventServiceImpl.java:82-126 | the initiator's update outcome; on success the event is stored under its id, and on failure the table is unchanged |
| MainEventService.EventStore.AdminUpdate | core/main-service/src/main/java/ru/practicum/ewm/event/service/EventServiceImpl.java:130-162 | the administrator's update outcome; on success the changed entity is written back, and on failure the table is unchanged |
| MainEventService.UserUpdateCategory | core/main-service/src/main/java/ru/practicum/ewm/event/service/EventServiceImpl.java:105-110 | a successful update keeps the category without an id or with the current one, and otherwise takes the given known id. A different unknown id, once the earlier steps pass, is CategoryNotFound |
| MainEventService.UserUpdateEffect | core/main-service/src/main/java/ru/practicum/ewm/event/service/EventServiceImpl.java:94-122 | a null field keeps its value. A given location becomes the location service's answer, and a new date is at least two hours away. The state follows the review action, and id, initiator, counters and publishedOn stay |
| MainEventService.AdminUpdateLifecycle | core/main-service/src/main/java/ru/practicum/ewm/event/service/EventServiceImpl.java:149-159 | a published event stays published, with no action. Publication happens only from PENDING, with publishedOn stamped and an hour of lead. A reject cancels, and the id, initiator and counters are kept |
| MainEventService.EventUriInjective | core/main-service/src/main/java/ru/practicum/ewm/event/service/EventServiceImpl.java:314 | distinct event ids are asked for under distinct uris |
| MainEventService.HitsByUri | core/main-service/src/main/java/ru/practicum/ewm/event/service/EventServiceImpl.java:323-327 | when uris do not repeat, the map holds exactly the returned uris, each with its hits |
| MainEventService.HitsById | core/main-service/src/main/java/ru/practicum/ewm/event/service/EventServiceImpl.java:329-333 | when ids do not repeat, the map holds exactly the requested ids, each with the hits of its uri or 0 |
| MainEventService.HitsByIdDefined | core/main-service/src/main/java/ru/practicum/ewm/event/service/EventServiceImpl.java:329-333 | the id map exists exactly when no requested id repeats |
| MainEventService.GetStatistics | core/main-service/src/main/java/ru/practicum/ewm/event/service/EventServiceImpl.java:305-334 | no ids, a client failure or an empty answer give an empty map |
| MainEventService.GetStatisticsValues | core/main-service/src/main/java/ru/practicum/ewm/event/service/EventServiceImpl.java:305-334 | with some statistics and no repeated ids or uris, every requested id maps to the hits of its own uri, or 0 when it has none |
| MainEventService.EnrichWithViewsCount | core/main-service/src/main/java/ru/practicum/ewm/event/service/EventServiceImpl.java:289-303 | no events, or an empty statistics map, leave the views untouched; otherwise only the views change |
| MainEventService.EnrichViews | core/main-service/src/main/java/ru/practicum/ewm/event/service/EventServiceImpl.java:300-302 | the forEach over the events yields exactly the enrichment above |
| MainEventService.EnrichWithViewsCountValues | core/main-service/src/main/java/ru/practicum/ewm/event/service/EventServiceImpl.java:289-303 | over events with distinct ids and statistics with distinct uris, each event's views become its own uri's hits, or 0 |
| EventSpecifications.WithTextContains | core/event-service/src/main/java/ru/practicum/ewm/service/EventSpecifications.java:15-25 | null or blank text gives no specification; any other text gives the text filter |
| EventSpecifications.WithUsers | core/event-service/src/main/java/ru/practicum/ewm/service/EventSpecifications.java:27-33 | a null or empty list gives no specification; otherwise membership of the initiator in the list |
| EventSpecifications.WithCategoriesIn | core/event-service/src/main/java/ru/practicum/ewm/service/EventSpecifications.java:35-41 | a null or empty list gives no specification; otherwise membership of the category in the list |
| EventSpecifications.WithStatesIn | core/event-service/src/main/java/ru/practicum/ewm/service/EventSpecifications.java:43-49 | a null or empty list gives no specification; otherwise membership of the state in the list |
| EventSpecifications.WithPaid | core/event-service/src/main/java/ru/practicum/ewm/service/EventSpecifications.java:51-57 | null gives no specification; otherwise the paid flag must equal it |
| EventSpecifications.WithState | core/event-service/src/main/java/ru/practicum/ewm/service/EventSpecifications.java:59-65 | null gives no specification; otherwise the state must equal it |
| EventSpecifications.WithOnlyAvailable | core/event-service/src/main/java/ru/practicum/ewm/service/EventSpecifications.java:67-78 | null and false both give no specification; true gives the availability filter |
| EventSpecifications.WithRangeStart | core/event-service/src/main/java/ru/practicum/ewm/service/EventSpecifications.java:80-83 | null gives no specification; otherwise the lower date bound |
| EventSpecifications.WithRangeEnd | core/event-service/src/main/java/ru/practicum/ewm/service/EventSpecifications.java:85-88 | null gives no specification; otherwise the upper date bound |
| EventSpecifications.WithLocationId | core/event-service/src/main/java/ru/practicum/ewm/service/EventSpecifications.java:90-96 | null gives no specification; otherwise the location filter |
| EventSpecifications.WithCoordinates | core/event-service/src/main/java/ru/practicum/ewm/service/EventSpecifications.java:98-113 | null gives no specification; otherwise the zone filter |
| EventSpecifications.UnresolvedSpecifications | core/event-service/src/main/java/ru/practicum/ewm/model/Event.java:32-92 | a built specification fails to resolve exactly when it is the location, zone or availability filter. The location path names an attribute the entity does not have |
| EventSpecifications.LocationIdAttribute | core/event-service/src/main/java/ru/practicum/ewm/model/Event.java:64-66 | the corrected location path names only a persistent attribute of the entity |
| EventSpecifications.CorrectedLocationFilter | core/event-service/src/main/java/ru/practicum/ewm/service/EventSpecifications.java:90-96 | the corrected location filter resolves and selects exactly the rows at the given location; null still gives no specification |
| EventSpecifications.Query | core/event-service/src/main/java/ru/practicum/ewm/service/EventServiceImpl.java:387-417 | the combined query cannot be built exactly when a built specification names a missing attribute. Otherwise it selects a row exactly when every built specification holds |
| EventSpecifications.AllNullMatches | core/event-service/src/main/java/ru/practicum/ewm/service/EventServiceImpl.java:397-399 | with every builder null, the conjunction selects every row |
| EventSpecifications.AdminSearchSelects | core/event-service/src/main/java/ru/practicum/ewm/service/EventServiceImpl.java:387-400 | without location criteria the admin search selects exactly the rows meeting each given list and inclusive date bound. With a location or zone criterion the query cannot be built |
| EventSpecifications.PublicSearchSelects | core/event-service/src/main/java/ru/practicum/ewm/service/EventServiceImpl.java:402-417 | without location or availability criteria, the public search selects exactly the rows meeting the text (in title, annotation or description, ignoring case), category, paid, state and inclusive date criteria |
| EventSpecifications.RangeInclusive | core/event-service/src/main/java/ru/practicum/ewm/service/EventSpecifications.java:80-88 | the date bounds are inclusive and a nanosecond past either bound is outside |
| EventSpecifications.TextCaseInsensitive | core/event-service/src/main/java/ru/practicum/ewm/service/EventSpecifications.java:19-24 | the text filter ignores the case of the text searched for |
| LocationService.ChangeLocationState | core/location-service/src/main/java/ru/practicum/ewm/service/LocationServiceImpl.java:151-162 | the same state is a no-op. Entering PENDING or AUTO_GENERATED from another state is refused, naming both states. Any other target is assigned, nothing else changed |
| LocationService.StateChangesNeverReenter | core/location-service/src/main/java/ru/practicum/ewm/service/LocationServiceImpl.java:151-162 | over any series of admin state requests, a location that has left PENDING never returns to it. Only a generated location is ever AUTO_GENERATED, and the final state is the first one or a requested one |
| LocationService.ApplyPatchEffect | core/location-service/src/main/java/ru/practicum/ewm/service/LocationServiceImpl.java:124-127 | a null field keeps the stored value and a given one replaces it. Id, creator and state never change, an all-null patch changes nothing, and applying it twice is applying it once |
| LocationService.DuplicateCheckOnRealChange | core/location-service/src/main/java/ru/practicum/ewm/service/LocationServiceImpl.java:112-115 | the duplicate check runs exactly when the merged name or coordinates differ from the stored ones |
| LocationService.DuplicateMessage | core/location-service/src/main/java/ru/practicum/ewm/service/LocationServiceImpl.java:164-178 | the message is empty exactly for an AUTO_GENERATED existing location |
| LocationService.DuplicateMessageIdentifies | core/location-service/src/main/java/ru/practicum/ewm/service/LocationServiceImpl.java:167-172 | two APPROVED, or two PENDING, messages are equal only for the same existing id |
| LocationService.CheckForDuplicate | core/location-service/src/main/java/ru/practicum/ewm/service/LocationServiceImpl.java:133-141 | no error exactly when the duplicate search finds nothing; otherwise the duplicate error with that location's message |
| LocationService.AdminUpdateOutcome | core/location-service/src/main/java/ru/practicum/ewm/service/LocationServiceImpl.java:80-96 | an unknown id is not found. A refused state change fails the whole update. On success the patched location with the requested state |
| LocationService.UserUpdateOutcome | core/location-service/src/main/java/ru/practicum/ewm/service/LocationServiceImpl.java:99-131 | an unknown id is not found. A non-PENDING location is refused before the creator is checked, and another user's is not the creator's. On success the patched location |
| LocationService.UserUpdateSucceedsIff | core/location-service/src/main/java/ru/practicum/ewm/service/LocationServiceImpl.java:99-131 | succeeds exactly on the user's own PENDING location when a real change finds no duplicate at the merged place. It stays PENDING with its creator, and a duplicate found is reported with its message |
| LocationService.AdminUpdateKeepsLifecycle | core/location-service/src/main/java/ru/practicum/ewm/service/LocationServiceImpl.java:80-96 | id and creator stay, and the update never moves a location into PENDING or AUTO_GENERATED. An APPROVED or REJECTED request on a stored location always succeeds with that state |
| LocationService.NewAdminLocation | core/location-service/src/main/java/ru/practicum/ewm/service/LocationServiceImpl.java:50-57 | an admin's location has no creator, is APPROVED and carries the request's fields |
| LocationService.AddLocationOutcome | core/location-service/src/main/java/ru/practicum/ewm/service/LocationServiceImpl.java:60-77 | an unknown user fails first, then a duplicate with its message. Otherwise the user's PENDING location with the request's fields |
| LocationService.UserDeleteOutcome | core/location-service/src/main/java/ru/practicum/ewm/service/LocationServiceImpl.java:234-257 | not found, then APPROVED, then not the creator, then events at the location, in that order. Allowed exactly on the user's own non-APPROVED location without events |
| LocationService.AdminDeleteOutcome | core/location-service/src/main/java/ru/practicum/ewm/service/LocationServiceImpl.java:222-231 | refused exactly when events are at the location |
| LocationService.UserDeleteStricterThanAdmin | core/location-service/src/main/java/ru/practicum/ewm/service/LocationServiceImpl.java:222-257 | every delete a user may do the admin may do; a user can never delete an APPROVED or creator-less location |
| LocationService.FindApproved | core/location-service/src/main/java/ru/practicum/ewm/service/LocationServiceImpl.java:263-264 | the stored location exactly when it is APPROVED, and not found otherwise |
| LocationService.GetOrCreateOutcome | core/location-service/src/main/java/ru/practicum/ewm/service/LocationServiceImpl.java:259-287 | a given id must name an APPROVED location. Otherwise both coordinates are needed, else the request is invalid. A nearby generated location is reused, or a nameless AUTO_GENERATED one is made at exactly those coordinates |
| LocationService.GetOrCreateUsable | core/location-service/src/main/java/ru/practicum/ewm/service/LocationServiceImpl.java:259-287 | when the nearby search answers with an AUTO_GENERATED row, every location handed back is APPROVED or AUTO_GENERATED, and APPROVED when given by id |
| LocationService.LocationStore.constructor | core/location-service/src/main/java/ru/practicum/ewm/service/LocationServiceImpl.java:44 | an empty locations table with the identity counter at 1 |
| LocationService.LocationStore.Insert | core/location-service/src/main/java/ru/practicum/ewm/service/LocationServiceImpl.java:54 | a new row is stored under the next identity value, which then advances |
| LocationService.LocationStore.AddLocationByAdmin | core/location-service/src/main/java/ru/practicum/ewm/service/LocationServiceImpl.java:50-57 | the admin's new location is stored under the next id |
| LocationService.LocationStore.AddLocation | core/location-service/src/main/java/ru/practicum/ewm/service/LocationServiceImpl.java:60-77 | the user's new location is stored on success, and nothing is written on failure |
| LocationService.LocationStore.AdminUpdate | core/location-service/src/main/java/ru/practicum/ewm/service/LocationServiceImpl.java:80-96 | the admin's update outcome, stored on success; on failure the transaction leaves the table as it was |
| LocationService.LocationStore.UserUpdate | core/location-service/src/main/java/ru/practicum/ewm/service/LocationServiceImpl.java:99-131 | the user's update outcome, stored on success; on failure the table is unchanged |
| LocationService.LocationStore.AdminDelete | core/location-service/src/main/java/ru/practicum/ewm/service/LocationServiceImpl.java:222-231 | the row is removed when no events are there, and a missing id is ignored |
| LocationService.LocationStore.UserDelete | core/location-service/src/main/java/ru/practicum/ewm/service/LocationServiceImpl.java:234-257 | the row is removed exactly when the user's delete is allowed |
| LocationService.LocationStore.GetOrCreateLocation | core/location-service/src/main/java/ru/practicum/ewm/service/LocationServiceImpl.java:259-287 | the get-or-create outcome; a row is stored exactly when one is generated |
| LocationSpecifications.WithTextContains | core/location-service/src/main/java/ru/practicum/ewm/service/LocationSpecifications.java:13-22 | null or blank text gives no specification; any other text gives the text filter |
| LocationSpecifications.WithCreatorId | core/location-service/src/main/java/ru/practicum/ewm/service/LocationSpecifications.java:24-38 | null gives no specification, 0 asks for rows without a creator, and any other id for that creator's rows |
| LocationSpecifications.WithState | core/location-service/src/main/java/ru/practicum/ewm/service/LocationSpecifications.java:40-46 | null gives no specification; otherwise the state must equal it |
| LocationSpecifications.WithCoordinates | core/location-service/src/main/java/ru/practicum/ewm/service/LocationSpecifications.java:48-63 | null gives no specification; otherwise the zone filter |
| LocationSpecifications.ReduceIsConjunction | core/location-service/src/main/java/ru/practicum/ewm/service/LocationServiceImpl.java:296-298 | the folded specification holds exactly when every built one does, and with none it holds |
| LocationSpecifications.CreatorFilter | core/main-service/src/main/java/ru/practicum/ewm/location/service/LocationSpecifications.java:28-39 | 0 selects exactly the rows without a creator, and any other id exactly that user's rows |
| LocationSpecifications.EventsCountBounds | core/main-service/src/main/java/ru/practicum/ewm/location/service/LocationSpecifications.java:49-75 | the event-count bounds are inclusive, either may be absent, and with both absent every row passes |
| LocationSpecifications.TextCaseInsensitive | core/location-service/src/main/java/ru/practicum/ewm/service/LocationSpecifications.java:17-21 | the text filter ignores the case of the text searched for |
| LocationSpecifications.PublicSearchSelects | core/location-service/src/main/java/ru/practicum/ewm/service/LocationServiceImpl.java:313-322 | the public search selects exactly the APPROVED rows that pass its text and zone filters |
| LocationSpecifications.PrivateSearchOwnRows | core/location-service/src/main/java/ru/practicum/ewm/service/LocationServiceImpl.java:301-311 | for a user id other than 0, the private search shows only that user's rows, in the requested state when one is given |
| LocationSpecifications.MainAdminSearchNarrows | core/main-service/src/main/java/ru/practicum/ewm/location/service/LocationServiceImpl.java:257-268 | the monolith's admin search is the microservice's, narrowed by the inclusive event-count bounds |
| LocationSpecifications.EmptyAdminFilterSelectsAll | core/main-service/src/main/java/ru/practicum/ewm/location/service/LocationServiceImpl.java:257-268 | an admin filter with every field null selects every row |
| StatsRepository.Placeholders | stats/stats-server/src/main/java/ru/practicum/statsserver/repository/HitRepository.java:57 | n placeholders joined by commas: exactly n question marks, and nothing else in the text that could be read as one |
| StatsRepository.UrisCondition | stats/stats-server/src/main/java/ru/practicum/statsserver/repository/HitRepository.java:54-59 | no condition for an empty uri list, otherwise one placeholder per uri |
| StatsRepository.CountExpressionClean | stats/stats-server/src/main/java/ru/practicum/statsserver/repository/HitRepository.java:63 | neither count expression contains a question mark |
| StatsRepository.QueryShape | stats/stats-server/src/main/java/ru/practicum/statsserver/repository/HitRepository.java:28-35 | the formatted statement has two placeholders for the window plus one per uri, and no stray question mark |
| StatsRepository.Parameters | stats/stats-server/src/main/java/ru/practicum/statsserver/repository/HitRepository.java:67-69 | the bound parameters are start, end, then the uris in order |
| StatsRepository.QueryMatchesParameters | stats/stats-server/src/main/java/ru/practicum/statsserver/repository/HitRepository.java:61-71 | the statement has exactly as many question marks as parameters are bound; with no uris, two |
| StatsRepository.SelectedRows | stats/stats-server/src/main/java/ru/practicum/statsserver/repository/HitRepository.java:31-32 | a row is selected exactly when its timestamp is between start and end inclusive and, when uris are given, its uri is one of them |
| StatsRepository.GroupKeys | stats/stats-server/src/main/java/ru/practicum/statsserver/repository/HitRepository.java:33 | each (service, uri) group of the selected rows once, and only those groups |
| StatsRepository.CountIpAppend | stats/stats-server/src/main/java/ru/practicum/statsserver/repository/HitRepository.java:63 | COUNT(ip) counts a new row for its own group exactly when its ip is not null, and COUNT(DISTINCT ip) adds its ip to that group's set |
| StatsRepository.NullIpsNotCounted | stats/stats-server/src/main/java/ru/practicum/statsserver/repository/HitRepository.java:63 | a group whose rows all have a null ip counts zero hits under either count |
| StatsRepository.UniqueAtMostTotal | stats/stats-server/src/main/java/ru/practicum/statsserver/repository/HitRepository.java:63 | per group, the distinct-ip count never exceeds the total count |
| StatsRepository.StatsLeIsOrder | stats/stats-server/src/main/java/ru/practicum/statsserver/repository/HitRepository.java:34 | the result order (hits descending, then service, then uri) is total and transitive |
| StatsRepository.AggregateFromWindow | stats/stats-server/src/main/java/ru/practicum/statsserver/repository/HitRepository.java:28-35 | every result row is the group of some hit in the window and carries that group's count |
| StatsRepository.AggregateCoversWindow | stats/stats-server/src/main/java/ru/practicum/statsserver/repository/HitRepository.java:28-35 | every hit in the window has its group among the result rows |
| StatsRepository.AggregateDistinct | stats/stats-server/src/main/java/ru/practicum/statsserver/repository/HitRepository.java:33 | no (service, uri) group appears twice in the result |
| StatsRepository.AggregateOrdered | stats/stats-server/src/main/java/ru/practicum/statsserver/repository/HitRepository.java:34 | the result is sorted by hits descending, then service, then uri |
| StatsRepository.WindowBounds | stats/stats-server/src/main/java/ru/practicum/statsserver/repository/HitRepository.java:31 | a reversed window selects nothing; a window of one instant counts the hits at exactly that instant |
| StatsRepository.HitRepository.constructor | stats/stats-server/src/main/java/ru/practicum/statsserver/repository/HitRepository.java:18-21 | the hits table starts empty |
| StatsRepository.HitRepository.Save | stats/stats-server/src/main/java/ru/practicum/statsserver/repository/HitRepository.java:37-44 | the hit is appended to the table |
| StatsRepository.HitRepository.GetStatistics | stats/stats-server/src/main/java/ru/practicum/statsserver/repository/HitRepository.java:46-72 | null uris are an empty list; the statement and its parameters agree in number, and the rows answered are the aggregate of the table |
| StatsService.ToHit | stats/stats-server/src/main/java/ru/practicum/statsserver/mappers/HitMapper.java:9-16 | every field is copied and the recorded hit has an ip |
| StatsService.ToDto | stats/stats-server/src/main/java/ru/practicum/statsserver/mappers/StatsMapper.java:9-15 | service, uri and hits are copied |
| StatsService.Statistics | stats/stats-server/src/main/java/ru/practicum/statsserver/service/HitService.java:25-35 | a failure exactly when start is after end; otherwise one wire record per aggregate row, in order |
| StatsService.RecordedHitCounts | stats/stats-server/src/main/java/ru/practicum/statsserver/service/HitService.java:21-23 | recording a hit inside a query's window adds one to its group's count and its ip to that group's distinct ips; other groups and other queries are unchanged |
| StatsService.HitService.constructor | stats/stats-server/src/main/java/ru/practicum/statsserver/service/HitService.java:19 | the service is bound to its repository |
| StatsService.HitService.Add | stats/stats-server/src/main/java/ru/practicum/statsserver/service/HitService.java:21-23 | the mapped hit is appended to the table |
| StatsService.HitService.GetStatistics | stats/stats-server/src/main/java/ru/practicum/statsserver/service/HitService.java:25-35 | the answer is Statistics of the current table |

## Findings

| source | as written | input that shows it | evidently intended | confidence | as-written member | corrected member |
|---|---|---|---|---|---|---|
| core/event-service/src/main/java/ru/practicum/ewm/service/EventSpecifications.java:90-96 | `withLocationId` compares `root.get("location").get("id")`, but the event microservice's `Event` has no `location` attribute, only the column `locationId` (core/event-service/src/main/java/ru/practicum/ewm/model/Event.java:65-66), so the criteria query cannot be built | any non-null locationId in an event search | the filter compares `locationId` with the given id, and null still means no constraint | not executed | EventSpecifications.UnresolvedSpecifications | EventSpecifications.CorrectedLocationFilter |

## Left out

- Kafka producers, listeners and their configuration, gRPC servers and clients, Feign and HTTP clients, REST controllers and error handlers: these are I/O. The model starts at the service method a message or request reaches, and the data it fetches remotely (users, events, counts, ratings, locations) becomes parameters.
- Concurrency and transactions: each service is taken as one sequential caller. `TransactionTemplate` and `@Transactional` boundaries are not modelled.
- Floating point: weights, accumulators, similarity scores and coordinates are `real`, and the `float` casts and rounding are not modelled. `Math.sqrt` is a function field of which the model requires only that it is 0 at 0 and positive on positive inputs (`Aggregator.SqrtLike`). Its other values are not constrained.
- The clock: `LocalDateTime.now()` and `Instant.now()` are the parameter `now`.
- Database-side geometry and searches: `calculate_distance_meters`, `findDuplicates` and `findNearByAutoGenerated` are oracle functions. Their geometry, the NEARBY_RADIUS argument aside, is not modelled.
- Paging and sorting machinery: `Pageable`, `PageRequest` and the filters' `getPageable()` are reduced to a page size and an optional score order. Spring Data's rendering of a `Specification` to SQL is reduced to the predicate it expresses over one row.
- SQL text: the statistics statement is a sequence of text fragments and placeholders rather than one string. The solver cannot count characters of long literal strings, and the placeholders are what the query's correctness rests on.
- SQL semantics: text comparison in `ORDER BY service, uri` is character-code order, with no collation. `LIKE` patterns are modelled as substring tests, so `%` and `_` inside the searched text are not wildcards. Lower-casing is ASCII only. `isBlank` treats only ASCII whitespace as blank.
- `ProtobufToAvroMapper.toAvro` is generated by MapStruct from the two modelled helpers and is not modelled.
- `FindAllByIdIn`: `EventRepository` in the event microservice does not declare `findAllByIdIn`, although `EventServiceImpl` calls it. It is modelled as the derived query its name denotes: the rows with the given ids, once each. That query has no ORDER BY, so its order is unspecified; the model fixes it to the order of first request.
- STATS_EVENTS_URL comes from a constants file that is not part of this model. It is the parameter `prefix` of the monolith's statistics lookup.
- Narrowing casts to `int` are modelled explicitly (`Common.ToInt`) only where the source narrows a long: the participation `available` counter and the analyzer's `maxResult`. Elsewhere counts are unbounded.
- A null boxed `Boolean unique` reaching `HitService.getStatistics` would throw on unboxing. The model takes a plain `bool`.
- HitDto bean validation (non-blank fields) is taken as given: a recorded hit always has an ip.
- Event creation (`add`) and the assembly of response DTOs (full, short and public views, category and user lookups) are mapping with no rules beyond existence checks.
- The read-only finders are not modelled: `getRequestsForEvent`, `getUserRequests` and `countConfirmedRequestsForEvents` in the request services; `findPublished`, `find`, `findByInitiator` and the by-id getters in the event services; the location finders and `getByIdForAdmin`. They are existence checks and repository reads. The rules they depend on (filters, enrichment, statistics) are modelled.
- Category, user and compilation services: plain CRUD with no rules beyond null and existence checks.
- `updateRequestStatuses` does not check that the listed requests belong to the event in the path, and the model keeps that behaviour; it proves nothing about requests of other events.
- `withCoordinates` and `withOnlyAvailable` in the event microservice also name attributes its `Event` does not persist (`location`, and the transient `confirmedRequests`). `EventSpecifications.UnresolvedSpecifications` records this. Only `withLocationId` gets a corrected reading, because the intended zone query cannot be read off the entity.
- The event microservice's update stores a new `locationId` as given, and the model does the same. That id is not checked against the location service.
- The location that get-or-create generates has a null name, and the model keeps it so. Text search never matches it by name.
- LocationService.DuplicateMessageIdentifies: proved only for two existing locations in the same state. Messages of different states differ by their wording, which is not proved.
- UserActionRepository.FindRecentEventIdsByUserId: the query has no ORDER BY, and the database's order is unspecified. The model fixes one order, the table order, and proves nothing that depends on it beyond the page bound.
- UserActionRepository.FindByUserIdAndEventId: the IncorrectResultSizeDataAccessException for two rows with one key is not modelled. The lookup returns the first such row. The table's store keeps one row per key as its invariant (`UserActionService.Store.Valid`, by `UpsertKeepsUniqueKeys`), so the case cannot arise there (`UserActionRepository.FoundRowIsOnly`).
