/**
 * The analyzer's RecommendationsService over the two tables: similar
 * events, interaction counts, and personal predictions scored as a
 * similarity-weighted average of the user's own weights.
 */
module RecommendationsService {
  import opened Common
  import opened AnalyzerModel
  import Sorting
  import UA = UserActionRepository
  import ES = EventSimilarityRepository

  /** Comparator.comparing(getScore).reversed() as a "comes no later than" relation. */
  predicate ScoreDesc(x: RecommendedEvent, y: RecommendedEvent)
  {
    x.score >= y.score
  }

  lemma ScoreDescIsOrder()
    ensures Sorting.Total(ScoreDesc) && Sorting.Transitive(ScoreDesc)
  {
  }

  /** A Recommendation as a reply entry. */
  function ToProto(recs: seq<Recommendation>): (r: seq<RecommendedEvent>)
    ensures |r| == |recs|
    ensures forall i :: 0 <= i < |recs| ==> r[i] == RecommendedEvent(recs[i].eventId, recs[i].score)
  {
    seq(|recs|, i requires 0 <= i < |recs| => RecommendedEvent(recs[i].eventId, recs[i].score))
  }

  // ---------------------------------------------------------------------
  // getSimilarEvents

  /**
   * getSimilarEvents: nothing for a non-positive limit; otherwise the best
   * limit partners of eventId, excluding eventId itself and every event
   * the user has interacted with, best score first.
   */
  function GetSimilarEvents(actions: seq<UserAction>, similarities: seq<EventSimilarity>, eventId: int, userId: int,
                            maxResult: int): (r: seq<RecommendedEvent>)
    ensures ToInt(maxResult) <= 0 ==> r == []
    ensures |r| <= if ToInt(maxResult) <= 0 then 0 else ToInt(maxResult)
    ensures Sorting.SortedBy(r, ScoreDesc)
    ensures forall x :: x in r ==> x.eventId != eventId && x.eventId !in UA.FindEventIdsByUserId(actions, userId)
    ensures forall x :: x in r ==> exists s :: s in similarities && (s.eventA == eventId || s.eventB == eventId)
                                     && x.eventId == ES.Other(s, eventId) && x.score == s.score
    ensures ToInt(maxResult) > 0 ==>
              forall s :: s in similarities && ES.TouchesExcluding(s, eventId, UA.FindEventIdsByUserId(actions, userId) + {eventId})
                          ==> RecommendedEvent(ES.Other(s, eventId), s.score) in r
                              || (|r| == ToInt(maxResult) && forall x :: x in r ==> x.score >= s.score)
  {
    var limit := ToInt(maxResult);
    if limit <= 0 then []
    else
      var seenEventIds := UA.FindEventIdsByUserId(actions, userId) + {eventId};
      SimilarPageFacts(similarities, eventId, seenEventIds, limit);
      SimilarPageDominates(similarities, eventId, seenEventIds, limit);
      ToProto(ES.FindTopSimilarExcluding(similarities, eventId, seenEventIds, Pageable(limit, true)))
  }

  /** The sorted page as reply entries: at most limit, best first, none seen, each from a row touching eventId. */
  lemma SimilarPageFacts(similarities: seq<EventSimilarity>, eventId: int, seen: set<int>, limit: nat)
    ensures var r := ToProto(ES.FindTopSimilarExcluding(similarities, eventId, seen, Pageable(limit, true)));
      && |r| <= limit
      && Sorting.SortedBy(r, ScoreDesc)
      && forall x :: x in r ==> x.eventId !in seen
                                && exists s :: s in similarities && (s.eventA == eventId || s.eventB == eventId)
                                               && x.eventId == ES.Other(s, eventId) && x.score == s.score
  {
    var page := ES.FindTopSimilarExcluding(similarities, eventId, seen, Pageable(limit, true));
    var r := ToProto(page);
    forall x | x in r
      ensures x.eventId !in seen
      ensures exists s :: s in similarities && (s.eventA == eventId || s.eventB == eventId)
                          && x.eventId == ES.Other(s, eventId) && x.score == s.score
    {
      var i :| 0 <= i < |r| && r[i] == x;
      assert page[i] in page;
      ES.TopSimilarFromRows(similarities, eventId, seen, Pageable(limit, true), page[i]);
    }
    assert Sorting.SortedBy(r, ScoreDesc) by {
      forall i, j | 0 <= i < j < |r| ensures ScoreDesc(r[i], r[j]) {
        assert ES.ScoreDesc(page[i], page[j]);
      }
    }
  }

  /**
   * A qualifying row whose partner is missing from the sorted page means
   * the page is full and the row scores no higher than any entry on it.
   */
  lemma SimilarPageDominates(similarities: seq<EventSimilarity>, eventId: int, seen: set<int>, limit: nat)
    ensures var r := ToProto(ES.FindTopSimilarExcluding(similarities, eventId, seen, Pageable(limit, true)));
      forall s :: s in similarities && ES.TouchesExcluding(s, eventId, seen)
                  ==> RecommendedEvent(ES.Other(s, eventId), s.score) in r
                      || (|r| == limit && forall x :: x in r ==> x.score >= s.score)
  {
    var page := ES.FindTopSimilarExcluding(similarities, eventId, seen, Pageable(limit, true));
    var matches := ES.SimilarTo(similarities, eventId, seen);
    var r := ToProto(page);
    forall s | s in similarities && ES.TouchesExcluding(s, eventId, seen)
      ensures RecommendedEvent(ES.Other(s, eventId), s.score) in r
              || (|r| == limit && forall x :: x in r ==> x.score >= s.score)
    {
      var y := Recommendation(ES.Other(s, eventId), s.score);
      assert y in matches;
      if RecommendedEvent(y.eventId, y.score) !in r {
        assert y !in page;
        assert y in multiset(matches) - multiset(page);
        forall x | x in r ensures x.score >= s.score {
          var i :| 0 <= i < |r| && r[i] == x;
          assert page[i] in page;
        }
      }
    }
  }

  // ---------------------------------------------------------------------
  // getInteractionsCount

  /** The unsorted reply: each requested id with its aggregate, 0 when it has none. */
  function InteractionEntries(eventIds: seq<int>, eventWeights: map<int, real>): (r: seq<RecommendedEvent>)
    ensures |r| == |eventIds|
    ensures forall i :: 0 <= i < |eventIds| ==> r[i].eventId == eventIds[i]
    ensures forall i :: 0 <= i < |eventIds| ==>
              r[i].score == if eventIds[i] in eventWeights then eventWeights[eventIds[i]] else 0.0
  {
    seq(|eventIds|, i requires 0 <= i < |eventIds| =>
      RecommendedEvent(eventIds[i], if eventIds[i] in eventWeights then eventWeights[eventIds[i]] else 0.0))
  }

  /** The ids of the entries, in order. */
  function EventIdsOf(s: seq<RecommendedEvent>): (r: seq<int>)
    ensures |r| == |s|
  {
    if s == [] then [] else [s[0].eventId] + EventIdsOf(s[1..])
  }

  lemma {:induction false} EventIdsOfAt(s: seq<RecommendedEvent>, i: nat)
    requires i < |s|
    ensures EventIdsOf(s)[i] == s[i].eventId
  {
    if i > 0 {
      EventIdsOfAt(s[1..], i - 1);
    }
  }

  /** getInteractionsCount: one entry per requested id, scored by its sum of weights, highest first. */
  function GetInteractionsCount(actions: seq<UserAction>, eventIds: seq<int>): (r: seq<RecommendedEvent>)
    ensures eventIds == [] ==> r == []
    ensures |r| == |eventIds| && multiset(EventIdsOf(r)) == multiset(eventIds)
    ensures forall x :: x in r ==> x.score == UA.SumOfWeights(actions, x.eventId)
    ensures Sorting.SortedBy(r, ScoreDesc)
  {
    if |eventIds| == 0 then []
    else
      var eventWeights := UA.GetAggregatedWeightsForEvents(actions, eventIds);
      var entries := InteractionEntries(eventIds, eventWeights);
      var r := Sorting.SortBy(entries, ScoreDesc);
      ScoreDescIsOrder();
      Sorting.SortBySorted(entries, ScoreDesc);
      assert EventIdsOf(entries) == eventIds by {
        forall i | 0 <= i < |entries| ensures EventIdsOf(entries)[i] == eventIds[i] {
          EventIdsOfAt(entries, i);
        }
      }
      IdsOfSortBy(entries);
      assert forall x :: x in r ==> x.score == UA.SumOfWeights(actions, x.eventId) by {
        forall x | x in r ensures x.score == UA.SumOfWeights(actions, x.eventId) {
          Sorting.SortByMembers(entries, ScoreDesc, x);
          var i :| 0 <= i < |entries| && entries[i] == x;
          if eventIds[i] !in eventWeights {
            UA.SumOfAbsent(actions, eventIds[i]);
          }
        }
      }
      r
  }

  /** Inserting an entry adds its id to the ids. */
  lemma {:induction false} IdsOfInsert(x: RecommendedEvent, s: seq<RecommendedEvent>)
    ensures multiset(EventIdsOf(Sorting.Insert(x, s, ScoreDesc))) == multiset{x.eventId} + multiset(EventIdsOf(s))
  {
    if s != [] && !ScoreDesc(x, s[0]) {
      IdsOfInsert(x, s[1..]);
    }
  }

  /** Sorting the entries rearranges their ids. */
  lemma {:induction false} IdsOfSortBy(s: seq<RecommendedEvent>)
    ensures multiset(EventIdsOf(Sorting.SortBy(s, ScoreDesc))) == multiset(EventIdsOf(s))
  {
    if s != [] {
      IdsOfSortBy(s[1..]);
      IdsOfInsert(s[0], Sorting.SortBy(s[1..], ScoreDesc));
    }
  }

  lemma {:induction false} IdsOfAppend(a: seq<RecommendedEvent>, b: seq<RecommendedEvent>)
    ensures EventIdsOf(a + b) == EventIdsOf(a) + EventIdsOf(b)
  {
    if a != [] {
      assert (a + b)[1..] == a[1..] + b;
      IdsOfAppend(a[1..], b);
    } else {
      assert a + b == b;
    }
  }

  // ---------------------------------------------------------------------
  // calculateCandidateScore

  /** Σ rating · similarity over the neighbours the user has rated. */
  function WeightedSum(neighbours: seq<Recommendation>, ratings: map<int, real>): real
  {
    if |neighbours| == 0 then 0.0
    else
      var n := neighbours[|neighbours| - 1];
      WeightedSum(neighbours[..|neighbours| - 1], ratings) + (if n.eventId in ratings then ratings[n.eventId] * n.score else 0.0)
  }

  /** Σ similarity over the neighbours the user has rated. */
  function SimilaritySum(neighbours: seq<Recommendation>, ratings: map<int, real>): real
  {
    if |neighbours| == 0 then 0.0
    else
      var n := neighbours[|neighbours| - 1];
      SimilaritySum(neighbours[..|neighbours| - 1], ratings) + (if n.eventId in ratings then n.score else 0.0)
  }

  /** The score calculateCandidateScore computes. */
  function CandidateScore(candidateId: int, neighboursMap: map<int, seq<Recommendation>>, ratings: map<int, real>): real
  {
    if candidateId !in neighboursMap || |neighboursMap[candidateId]| == 0 then 0.0
    else
      var simSum := SimilaritySum(neighboursMap[candidateId], ratings);
      if simSum == 0.0 then 0.0 else WeightedSum(neighboursMap[candidateId], ratings) / simSum
  }

  /** calculateCandidateScore: accumulate both sums over the neighbour list, then divide. */
  method CalculateCandidateScore(candidateId: int, neighboursMap: map<int, seq<Recommendation>>, ratings: map<int, real>)
    returns (score: real)
    ensures score == CandidateScore(candidateId, neighboursMap, ratings)
  {
    if candidateId !in neighboursMap || |neighboursMap[candidateId]| == 0 {
      return 0.0;
    }
    var neighbours := neighboursMap[candidateId];
    var weightedSum := 0.0;
    var similaritySum := 0.0;
    for i := 0 to |neighbours|
      invariant weightedSum == WeightedSum(neighbours[..i], ratings)
      invariant similaritySum == SimilaritySum(neighbours[..i], ratings)
    {
      var neighbour := neighbours[i];
      assert neighbours[..i + 1][..i] == neighbours[..i];
      if neighbour.eventId !in ratings {
        continue;
      }
      var rating := ratings[neighbour.eventId];
      var similarity := neighbour.score;
      weightedSum := weightedSum + rating * similarity;
      similaritySum := similaritySum + similarity;
    }
    assert neighbours[..|neighbours|] == neighbours;
    if similaritySum == 0.0 {
      return 0.0;
    }
    return weightedSum / similaritySum;
  }

  /** Some neighbour in the list has a rating. */
  predicate AnyRated(neighbours: seq<Recommendation>, ratings: map<int, real>)
  {
    exists i :: 0 <= i < |neighbours| && neighbours[i].eventId in ratings
  }

  /**
   * When every rated neighbour has a positive similarity and a rating in
   * [lo, hi], the weighted sum lies between lo and hi times the similarity sum.
   */
  lemma {:induction false} SumsBetween(neighbours: seq<Recommendation>, ratings: map<int, real>, lo: real, hi: real)
    requires forall i :: 0 <= i < |neighbours| && neighbours[i].eventId in ratings ==>
               neighbours[i].score > 0.0 && lo <= ratings[neighbours[i].eventId] <= hi
    ensures lo * SimilaritySum(neighbours, ratings) <= WeightedSum(neighbours, ratings) <= hi * SimilaritySum(neighbours, ratings)
  {
    if |neighbours| > 0 {
      var init := neighbours[..|neighbours| - 1];
      var n := neighbours[|neighbours| - 1];
      SumsBetween(init, ratings, lo, hi);
      if n.eventId in ratings {
        StepBetween(SimilaritySum(init, ratings), WeightedSum(init, ratings), n.score, ratings[n.eventId], lo, hi);
      }
    }
  }

  /** Adding one rated term (positive similarity, rating in [lo, hi]) keeps the bounds. */
  lemma StepBetween(simSum: real, weighted: real, similarity: real, rating: real, lo: real, hi: real)
    requires lo * simSum <= weighted <= hi * simSum
    requires similarity > 0.0 && lo <= rating <= hi
    ensures lo * (simSum + similarity) <= weighted + rating * similarity <= hi * (simSum + similarity)
  {
    assert lo * similarity <= rating * similarity;
    assert rating * similarity <= hi * similarity;
    assert lo * (simSum + similarity) == lo * simSum + lo * similarity;
    assert hi * (simSum + similarity) == hi * simSum + hi * similarity;
  }

  /** With positive similarities, the similarity sum is positive exactly when some neighbour is rated, and never negative. */
  lemma {:induction false} SimilaritySumPositive(neighbours: seq<Recommendation>, ratings: map<int, real>)
    requires forall i :: 0 <= i < |neighbours| && neighbours[i].eventId in ratings ==> neighbours[i].score > 0.0
    ensures SimilaritySum(neighbours, ratings) >= 0.0
    ensures SimilaritySum(neighbours, ratings) > 0.0 <==> AnyRated(neighbours, ratings)
  {
    if |neighbours| > 0 {
      var init := neighbours[..|neighbours| - 1];
      var n := neighbours[|neighbours| - 1];
      SimilaritySumPositive(init, ratings);
      assert AnyRated(neighbours, ratings) <==> AnyRated(init, ratings) || n.eventId in ratings by {
        if AnyRated(neighbours, ratings) && n.eventId !in ratings {
          var i :| 0 <= i < |neighbours| && neighbours[i].eventId in ratings;
          assert init[i] == neighbours[i];
        }
        if AnyRated(init, ratings) {
          var i :| 0 <= i < |init| && init[i].eventId in ratings;
          assert neighbours[i] == init[i];
        }
      }
    }
  }

  /**
   * The weighted average is 0 without neighbours or without a rated one;
   * when every rated neighbour has positive similarity and some neighbour
   * is rated, it lies between the least and the greatest rating used.
   */
  lemma CandidateScoreBetween(candidateId: int, neighboursMap: map<int, seq<Recommendation>>, ratings: map<int, real>,
                              lo: real, hi: real)
    requires candidateId in neighboursMap
    requires var ns := neighboursMap[candidateId];
      forall i :: 0 <= i < |ns| && ns[i].eventId in ratings ==> ns[i].score > 0.0 && lo <= ratings[ns[i].eventId] <= hi
    ensures !AnyRated(neighboursMap[candidateId], ratings) ==> CandidateScore(candidateId, neighboursMap, ratings) == 0.0
    ensures AnyRated(neighboursMap[candidateId], ratings) ==> lo <= CandidateScore(candidateId, neighboursMap, ratings) <= hi
  {
    var ns := neighboursMap[candidateId];
    SumsBetween(ns, ratings, lo, hi);
    SimilaritySumPositive(ns, ratings);
    if AnyRated(ns, ratings) {
      DivideBetween(WeightedSum(ns, ratings), SimilaritySum(ns, ratings), lo, hi);
    }
  }

  lemma DivideBetween(w: real, s: real, lo: real, hi: real)
    requires s > 0.0 && lo * s <= w <= hi * s
    ensures lo <= w / s <= hi
  {
    assert w / s * s == w;
  }

  // ---------------------------------------------------------------------
  // buildFinalRecommendations

  /** The loop of buildFinalRecommendations: each candidate with a positive score, in iteration order. */
  function Scored(candidates: seq<int>, neighboursMap: map<int, seq<Recommendation>>, ratings: map<int, real>)
    : (r: seq<RecommendedEvent>)
    ensures forall x :: x in r ==> x.eventId in candidates && x.score > 0.0
                                   && x.score == CandidateScore(x.eventId, neighboursMap, ratings)
    ensures forall c :: c in candidates && CandidateScore(c, neighboursMap, ratings) > 0.0
                        ==> RecommendedEvent(c, CandidateScore(c, neighboursMap, ratings)) in r
  {
    if |candidates| == 0 then []
    else
      var c := candidates[|candidates| - 1];
      var init := candidates[..|candidates| - 1];
      assert candidates == init + [c];
      var score := CandidateScore(c, neighboursMap, ratings);
      Scored(init, neighboursMap, ratings) + (if score > 0.0 then [RecommendedEvent(c, score)] else [])
  }

  /**
   * sorted(...).limit(limit) over reply entries: sorted, drawn from the
   * entries, all of them when fewer than limit are kept, and no entry left
   * out scores higher than one kept.
   */
  lemma TopEntries(entries: seq<RecommendedEvent>, limit: nat)
    ensures var r := Take(Sorting.SortBy(entries, ScoreDesc), limit);
      && Sorting.SortedBy(r, ScoreDesc)
      && (forall x :: x in r ==> x in entries)
      && (|r| < limit ==> forall x :: x in entries ==> x in r)
      && forall x, y :: x in r && y in entries && y !in r ==> x.score >= y.score
  {
    var sorted := Sorting.SortBy(entries, ScoreDesc);
    var r := Take(sorted, limit);
    ScoreDescIsOrder();
    Sorting.SortBySorted(entries, ScoreDesc);
    forall x ensures x in sorted <==> x in entries {
      Sorting.SortByMembers(entries, ScoreDesc, x);
    }
    Sorting.SortedPrefixDominates(sorted, ScoreDesc, |r|);
    forall x, y | x in r && y in entries && y !in r ensures x.score >= y.score {
      assert y in multiset(sorted) - multiset(r);
      assert ScoreDesc(x, y);
    }
  }

  /**
   * The stream after the loop: sorted by score descending (stable), cut to
   * limit; a candidate with a positive score is left out only when the
   * list is full and it scores no higher than every entry kept.
   */
  function FinalRecommendations(candidates: seq<int>, neighboursMap: map<int, seq<Recommendation>>, ratings: map<int, real>,
                                limit: nat): (r: seq<RecommendedEvent>)
    ensures |r| <= limit
    ensures Sorting.SortedBy(r, ScoreDesc)
    ensures forall x :: x in r ==> x.eventId in candidates && x.score > 0.0
                                   && x.score == CandidateScore(x.eventId, neighboursMap, ratings)
    ensures |r| < limit ==> forall c :: c in candidates && CandidateScore(c, neighboursMap, ratings) > 0.0
                                        ==> RecommendedEvent(c, CandidateScore(c, neighboursMap, ratings)) in r
    ensures forall x, c :: x in r && c in candidates && CandidateScore(c, neighboursMap, ratings) > 0.0
                           && RecommendedEvent(c, CandidateScore(c, neighboursMap, ratings)) !in r
                           ==> x.score >= CandidateScore(c, neighboursMap, ratings)
  {
    var result := Scored(candidates, neighboursMap, ratings);
    TopEntries(result, limit);
    Take(Sorting.SortBy(result, ScoreDesc), limit)
  }

  /** buildFinalRecommendations: score every candidate, keep the positive ones, sort, limit. */
  method BuildFinalRecommendations(candidates: seq<int>, neighboursMap: map<int, seq<Recommendation>>,
                                   ratings: map<int, real>, limit: nat) returns (r: seq<RecommendedEvent>)
    ensures r == FinalRecommendations(candidates, neighboursMap, ratings, limit)
  {
    var result := [];
    for i := 0 to |candidates|
      invariant result == Scored(candidates[..i], neighboursMap, ratings)
    {
      var candidateId := candidates[i];
      assert candidates[..i + 1][..i] == candidates[..i];
      var score := CalculateCandidateScore(candidateId, neighboursMap, ratings);
      if score <= 0.0 {
        continue;
      }
      result := result + [RecommendedEvent(candidateId, score)];
    }
    assert candidates[..|candidates|] == candidates;
    r := Take(Sorting.SortBy(result, ScoreDesc), limit);
  }

  // ---------------------------------------------------------------------
  // getRecommendationsForUser

  /** candidateRecs mapped to their ids (the set's iteration order fixed to list order). */
  function CandidateIds(recs: seq<Recommendation>): (r: seq<int>)
    ensures |r| == |recs|
    ensures forall i :: 0 <= i < |recs| ==> r[i] == recs[i].eventId
  {
    seq(|recs|, i requires 0 <= i < |recs| => recs[i].eventId)
  }

  /** The ids of every neighbour in every list of the map. */
  function NeighbourIds(neighboursMap: map<int, seq<Recommendation>>): (r: set<int>)
    ensures forall e :: e in r <==> exists p, x :: p in neighboursMap && x in neighboursMap[p] && x.eventId == e
  {
    set p, x | p in neighboursMap && x in neighboursMap[p] :: x.eventId
  }

  /**
   * The candidates of getRecommendationsForUser: the ids of the
   * findTopSimilarToSetExcluding page over the user's recent events,
   * excluding every event the user touched; none without recent events.
   */
  function CandidatePage(actions: seq<UserAction>, similarities: seq<EventSimilarity>, userId: int, limit: nat): (r: seq<int>)
    ensures |r| <= limit
    ensures forall c :: c in r ==> c !in UA.FindEventIdsByUserId(actions, userId)
  {
    var recentEventIds := UA.FindRecentEventIdsByUserId(actions, userId, Pageable(limit, false));
    if recentEventIds == [] then []
    else
      var allUserEvents := UA.FindEventIdsByUserId(actions, userId);
      var candidateRecs := ES.FindTopSimilarToSetExcluding(similarities, recentEventIds, allUserEvents, Pageable(limit, false));
      var r := CandidateIds(candidateRecs);
      assert forall c :: c in r ==> c !in allUserEvents by {
        forall c | c in r ensures c !in allUserEvents {
          var i :| 0 <= i < |r| && r[i] == c;
          assert candidateRecs[i] in candidateRecs;
          ES.TopSimilarToSetIsMax(similarities, recentEventIds, allUserEvents, Pageable(limit, false), candidateRecs[i]);
        }
      }
      r
  }

  /** findNeighbourEventsFrom over the candidates and the events the user touched. */
  function NeighboursOf(actions: seq<UserAction>, similarities: seq<EventSimilarity>, userId: int, limit: nat)
    : map<int, seq<Recommendation>>
  {
    ES.FindNeighbourEventsFrom(similarities, (set c | c in CandidatePage(actions, similarities, userId, limit)),
                               UA.FindEventIdsByUserId(actions, userId), limit)
  }

  /** The user's weights for every neighbour found (None for the toMap exception). */
  function RatingsOf(actions: seq<UserAction>, similarities: seq<EventSimilarity>, userId: int, limit: nat)
    : Option<map<int, real>>
  {
    UA.FindWeightsByUserIdAndEventIds(actions, userId, NeighbourIds(NeighboursOf(actions, similarities, userId, limit)))
  }

  /**
   * getRecommendationsForUser: the pipeline of queries, then the final
   * list; None stands for the exception Collectors.toMap throws when the
   * user has two rows for one event. Each entry is a candidate with its
   * weighted-average score, and a candidate with a positive score is left
   * out only when the list is full and it scores no higher than every entry.
   */
  function GetRecommendationsForUser(actions: seq<UserAction>, similarities: seq<EventSimilarity>, userId: int, maxResult: int)
    : (r: Option<seq<RecommendedEvent>>)
    ensures ToInt(maxResult) <= 0 ==> r == Some([])
    ensures r.Some? ==> |r.value| <= (if ToInt(maxResult) <= 0 then 0 else ToInt(maxResult))
    ensures r.Some? ==> Sorting.SortedBy(r.value, ScoreDesc) && forall x :: x in r.value ==> x.score > 0.0
    ensures var limit := ToInt(maxResult);
      limit > 0 && r.Some? && RatingsOf(actions, similarities, userId, limit).Some? ==>
        var candidates := CandidatePage(actions, similarities, userId, limit);
        var neighbours := NeighboursOf(actions, similarities, userId, limit);
        var ratings := RatingsOf(actions, similarities, userId, limit).value;
        && (forall x :: x in r.value ==> x.eventId in candidates && x.score == CandidateScore(x.eventId, neighbours, ratings))
        && forall c :: c in candidates && CandidateScore(c, neighbours, ratings) > 0.0
                       ==> RecommendedEvent(c, CandidateScore(c, neighbours, ratings)) in r.value
                           || (|r.value| == limit && forall x :: x in r.value ==> x.score >= CandidateScore(c, neighbours, ratings))
  {
    var limit := ToInt(maxResult);
    if limit <= 0 then Some([])
    else
      var candidateEventIds := CandidatePage(actions, similarities, userId, limit);
      if candidateEventIds == [] then Some([])
      else
        var userRatings := RatingsOf(actions, similarities, userId, limit);
        if userRatings.None? then None
        else Some(FinalRecommendations(candidateEventIds, NeighboursOf(actions, similarities, userId, limit), userRatings.value, limit))
  }

  /**
   * With one row per (user, event) the reply and the user's ratings always
   * exist; the reply is empty for a non-positive limit or a user without
   * actions, and never holds an event the user has already interacted with.
   */
  lemma RecommendationsForUserShape(actions: seq<UserAction>, similarities: seq<EventSimilarity>, userId: int, maxResult: int)
    requires UA.UniqueKeys(actions)
    ensures var r := GetRecommendationsForUser(actions, similarities, userId, maxResult);
      && r.Some?
      && (ToInt(maxResult) > 0 ==> RatingsOf(actions, similarities, userId, ToInt(maxResult)).Some?)
      && (ToInt(maxResult) <= 0 || UA.FindEventIdsByUserId(actions, userId) == {} ==> r.value == [])
      && forall x :: x in r.value ==> x.eventId !in UA.FindEventIdsByUserId(actions, userId)
  {
    var limit := ToInt(maxResult);
    if limit > 0 {
      if UA.FindEventIdsByUserId(actions, userId) == {} {
        UA.NoEventsNoIds(actions, userId);
      }
      UA.WeightsOfUniqueRows(actions, userId, NeighbourIds(NeighboursOf(actions, similarities, userId, limit)));
    }
  }
}
