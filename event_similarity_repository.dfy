/**
 * The queries of EventSimilarityRepository as pure functions over the rows
 * of the similarities table, in table order; where the database leaves an
 * order open (ties in ORDER BY, ROW_NUMBER among equal scores, the result
 * of findNeighboursNative, which has no outer ORDER BY) the model chooses:
 * table order for ties, and rank order for the neighbour rows.
 */
module EventSimilarityRepository {
  import opened Common
  import opened AnalyzerModel
  import Sorting

  // ---------------------------------------------------------------------
  // existsByEventAAndEventB

  predicate JoinsPair(s: EventSimilarity, a: int, b: int)
  {
    (s.eventA == a && s.eventB == b) || (s.eventA == b && s.eventB == a)
  }

  /** COUNT(s) over the rows holding the pair {a, b} in either orientation. */
  function CountPair(rows: seq<EventSimilarity>, a: int, b: int): (n: nat)
    ensures n > 0 <==> exists i :: 0 <= i < |rows| && JoinsPair(rows[i], a, b)
  {
    if |rows| == 0 then 0
    else
      var rest := CountPair(rows[1..], a, b);
      assert forall i :: 1 <= i < |rows| ==> rows[i] == rows[1..][i - 1];
      assert rest > 0 ==> exists i :: 0 <= i < |rows| && JoinsPair(rows[i], a, b) by {
        if rest > 0 {
          var i :| 0 <= i < |rows[1..]| && JoinsPair(rows[1..][i], a, b);
          assert JoinsPair(rows[i + 1], a, b);
        }
      }
      (if JoinsPair(rows[0], a, b) then 1 else 0) + rest
  }

  /** existsByEventAAndEventB: COUNT(s) > 0. */
  function ExistsByEventAAndEventB(rows: seq<EventSimilarity>, eventA: int, eventB: int): (r: bool)
    ensures r <==> exists s :: s in rows && JoinsPair(s, eventA, eventB)
  {
    CountPair(rows, eventA, eventB) > 0
  }

  /** The count does not depend on the orientation of the pair. */
  lemma {:induction false} CountPairSymmetric(rows: seq<EventSimilarity>, a: int, b: int)
    ensures CountPair(rows, a, b) == CountPair(rows, b, a)
  {
    if |rows| > 0 {
      CountPairSymmetric(rows[1..], a, b);
    }
  }

  /** Hence existsByEventAAndEventB(a, b) == existsByEventAAndEventB(b, a). */
  lemma ExistsSymmetric(rows: seq<EventSimilarity>, a: int, b: int)
    ensures ExistsByEventAAndEventB(rows, a, b) == ExistsByEventAAndEventB(rows, b, a)
  {
    CountPairSymmetric(rows, a, b);
  }

  // ---------------------------------------------------------------------
  // findTopSimilarExcluding

  /** CASE WHEN es.eventA = :eventId THEN es.eventB ELSE es.eventA END */
  function Other(s: EventSimilarity, eventId: int): int
  {
    if s.eventA == eventId then s.eventB else s.eventA
  }

  predicate TouchesExcluding(s: EventSimilarity, eventId: int, excludeIds: set<int>)
  {
    (s.eventA == eventId || s.eventB == eventId) && Other(s, eventId) !in excludeIds
  }

  /** The WHERE clause and the constructor expression, in table order. */
  function SimilarTo(rows: seq<EventSimilarity>, eventId: int, excludeIds: set<int>): (r: seq<Recommendation>)
    ensures |r| <= |rows|
    ensures forall x :: x in r <==> exists s :: s in rows && TouchesExcluding(s, eventId, excludeIds)
                                                 && x == Recommendation(Other(s, eventId), s.score)
  {
    if |rows| == 0 then []
    else
      var last := rows[|rows| - 1];
      assert rows == rows[..|rows| - 1] + [last];
      SimilarTo(rows[..|rows| - 1], eventId, excludeIds)
        + (if TouchesExcluding(last, eventId, excludeIds) then [Recommendation(Other(last, eventId), last.score)] else [])
  }

  /** ORDER BY score DESC as a "comes no later than" relation. */
  predicate ScoreDesc(x: Recommendation, y: Recommendation)
  {
    x.score >= y.score
  }

  lemma ScoreDescIsOrder()
    ensures Sorting.Total(ScoreDesc) && Sorting.Transitive(ScoreDesc)
  {
  }

  /** The page findTopSimilarExcluding cuts from its matches, sorted by score first when the page asks for it. */
  function Page(matches: seq<Recommendation>, pageable: Pageable): seq<Recommendation>
  {
    Take(if pageable.byScoreDesc then Sorting.SortBy(matches, ScoreDesc) else matches, pageable.size)
  }

  /** A sorted page holds the best matches: none left out scores higher than one kept. */
  lemma SortedPage(matches: seq<Recommendation>, size: nat)
    ensures var r := Page(matches, Pageable(size, true));
      && Sorting.SortedBy(r, ScoreDesc)
      && multiset(r) <= multiset(matches)
      && forall x, y :: x in r && y in multiset(matches) - multiset(r) ==> x.score >= y.score
  {
    var sorted := Sorting.SortBy(matches, ScoreDesc);
    var r := Take(sorted, size);
    SortedByScore(matches);
    Sorting.SortedPrefixDominates(sorted, ScoreDesc, |r|);
    forall x, y | x in r && y in multiset(matches) - multiset(r) ensures x.score >= y.score {
      assert ScoreDesc(x, y);
    }
  }

  lemma SortedByScore(matches: seq<Recommendation>)
    ensures Sorting.SortedBy(Sorting.SortBy(matches, ScoreDesc), ScoreDesc)
  {
    ScoreDescIsOrder();
    Sorting.SortBySorted(matches, ScoreDesc);
  }

  /**
   * A page holds at most size matches, a short page all of them; sorted,
   * it holds the best of them; unsorted, the first ones.
   */
  lemma PageOfMatches(matches: seq<Recommendation>, pageable: Pageable)
    ensures var r := Page(matches, pageable);
      && |r| <= pageable.size
      && multiset(r) <= multiset(matches)
      && (|r| < pageable.size ==> multiset(r) == multiset(matches))
      && (pageable.byScoreDesc ==> Sorting.SortedBy(r, ScoreDesc))
      && (pageable.byScoreDesc ==> forall x, y :: x in r && y in multiset(matches) - multiset(r) ==> x.score >= y.score)
      && (!pageable.byScoreDesc ==> r <= matches)
  {
    if pageable.byScoreDesc {
      SortedPage(matches, pageable.size);
    } else {
      var r := Page(matches, pageable);
      assert matches == r + matches[|r|..];
    }
  }

  /**
   * findTopSimilarExcluding: the partner of eventId and the score of every
   * row touching eventId whose partner is not excluded, sorted as the page
   * asks, cut to the page size.
   */
  function FindTopSimilarExcluding(rows: seq<EventSimilarity>, eventId: int, excludeIds: set<int>, pageable: Pageable)
    : (r: seq<Recommendation>)
    ensures |r| <= pageable.size
    ensures forall x :: x in r ==> x.eventId !in excludeIds && x in SimilarTo(rows, eventId, excludeIds)
    ensures pageable.byScoreDesc ==> Sorting.SortedBy(r, ScoreDesc)
    ensures |r| < pageable.size ==> multiset(r) == multiset(SimilarTo(rows, eventId, excludeIds))
    ensures multiset(r) <= multiset(SimilarTo(rows, eventId, excludeIds))
    ensures pageable.byScoreDesc ==>
              forall x, y :: x in r && y in multiset(SimilarTo(rows, eventId, excludeIds)) - multiset(r) ==> x.score >= y.score
    ensures !pageable.byScoreDesc ==> r <= SimilarTo(rows, eventId, excludeIds)
  {
    var matches := SimilarTo(rows, eventId, excludeIds);
    PageOfMatches(matches, pageable);
    var r := Page(matches, pageable);
    assert forall x :: x in r ==> x in matches by {
      forall x | x in r ensures x in matches {
        assert x in multiset(matches);
      }
    }
    r
  }

  /** Every partner returned touches eventId through some row and is neither excluded nor eventId when that is excluded. */
  lemma TopSimilarFromRows(rows: seq<EventSimilarity>, eventId: int, excludeIds: set<int>, pageable: Pageable, x: Recommendation)
    requires x in FindTopSimilarExcluding(rows, eventId, excludeIds, pageable)
    ensures exists s :: s in rows && (s.eventA == eventId || s.eventB == eventId)
                        && x.eventId == Other(s, eventId) && x.score == s.score
    ensures eventId in excludeIds ==> x.eventId != eventId
  {
  }

  // ---------------------------------------------------------------------
  // findTopSimilarToSetExcluding

  /** CASE WHEN es.eventA IN :sourceIds THEN es.eventB ELSE es.eventA END */
  function PartnerOf(s: EventSimilarity, sourceIds: seq<int>): int
  {
    if s.eventA in sourceIds then s.eventB else s.eventA
  }

  predicate Qualifies(s: EventSimilarity, sourceIds: seq<int>, excludeIds: set<int>)
  {
    (s.eventA in sourceIds || s.eventB in sourceIds) && PartnerOf(s, sourceIds) !in excludeIds
  }

  predicate InGroup(s: EventSimilarity, sourceIds: seq<int>, excludeIds: set<int>, p: int)
  {
    Qualifies(s, sourceIds, excludeIds) && PartnerOf(s, sourceIds) == p
  }

  /** Some row belongs to the group of partner p. */
  predicate HasGroup(rows: seq<EventSimilarity>, sourceIds: seq<int>, excludeIds: set<int>, p: int)
  {
    exists s :: s in rows && InGroup(s, sourceIds, excludeIds, p)
  }

  /** The GROUP BY keys, distinct, in order of their first row. */
  function PartnerKeys(rows: seq<EventSimilarity>, sourceIds: seq<int>, excludeIds: set<int>): (r: seq<int>)
    ensures forall i, j :: 0 <= i < j < |r| ==> r[i] != r[j]
    ensures forall p :: p in r <==> HasGroup(rows, sourceIds, excludeIds, p)
  {
    if |rows| == 0 then []
    else
      var last := rows[|rows| - 1];
      var front := rows[..|rows| - 1];
      var init := PartnerKeys(front, sourceIds, excludeIds);
      assert rows == front + [last];
      assert forall p :: HasGroup(rows, sourceIds, excludeIds, p)
                         <==> HasGroup(front, sourceIds, excludeIds, p) || InGroup(last, sourceIds, excludeIds, p) by {
        forall p ensures HasGroup(rows, sourceIds, excludeIds, p)
                         ==> HasGroup(front, sourceIds, excludeIds, p) || InGroup(last, sourceIds, excludeIds, p) {
          if HasGroup(rows, sourceIds, excludeIds, p) {
            var s :| s in rows && InGroup(s, sourceIds, excludeIds, p);
            if s != last {
              assert s in front;
            }
          }
        }
      }
      if Qualifies(last, sourceIds, excludeIds) && PartnerOf(last, sourceIds) !in init
      then init + [PartnerOf(last, sourceIds)] else init
  }

  /** MAX(es.score) over the rows of group p; None for an empty group. */
  function MaxScore(rows: seq<EventSimilarity>, sourceIds: seq<int>, excludeIds: set<int>, p: int): (r: Option<real>)
    ensures r.None? <==> !HasGroup(rows, sourceIds, excludeIds, p)
    ensures r.Some? ==> forall s :: s in rows && InGroup(s, sourceIds, excludeIds, p) ==> s.score <= r.value
    ensures r.Some? ==> exists s :: s in rows && InGroup(s, sourceIds, excludeIds, p) && s.score == r.value
  {
    if |rows| == 0 then None
    else
      var last := rows[|rows| - 1];
      var init := MaxScore(rows[..|rows| - 1], sourceIds, excludeIds, p);
      assert rows == rows[..|rows| - 1] + [last];
      if !InGroup(last, sourceIds, excludeIds, p) then init
      else if init.None? || init.value < last.score then Some(last.score)
      else init
  }

  /** One (partner, max score) per group, in the order of PartnerKeys. */
  function Groups(rows: seq<EventSimilarity>, sourceIds: seq<int>, excludeIds: set<int>): (r: seq<Recommendation>)
    ensures forall i, j :: 0 <= i < j < |r| ==> r[i].eventId != r[j].eventId
    ensures forall x :: x in r <==> (HasGroup(rows, sourceIds, excludeIds, x.eventId)
                                     && x.score == MaxScore(rows, sourceIds, excludeIds, x.eventId).value)
  {
    var keys := PartnerKeys(rows, sourceIds, excludeIds);
    assert forall i :: 0 <= i < |keys| ==> MaxScore(rows, sourceIds, excludeIds, keys[i]).Some? by {
      forall i | 0 <= i < |keys| ensures MaxScore(rows, sourceIds, excludeIds, keys[i]).Some? {
        assert keys[i] in keys;
      }
    }
    var r := seq(|keys|, i requires 0 <= i < |keys| => Recommendation(keys[i], MaxScore(rows, sourceIds, excludeIds, keys[i]).value));
    assert forall i :: 0 <= i < |r| ==> r[i].eventId == keys[i];
    assert forall x :: x in r <==> x.eventId in keys && x.score == MaxScore(rows, sourceIds, excludeIds, x.eventId).value by {
      forall x: Recommendation | x.eventId in keys && x.score == MaxScore(rows, sourceIds, excludeIds, x.eventId).value ensures x in r {
        var i :| 0 <= i < |keys| && keys[i] == x.eventId;
        assert r[i] == x;
      }
    }
    r
  }

  /**
   * ORDER BY score DESC with a page over entries with distinct event ids:
   * sorted, distinct, drawn from the entries, all of them on a short page,
   * and none left out scores higher than one kept.
   */
  lemma DistinctPage(groups: seq<Recommendation>, size: nat)
    requires forall i, j :: 0 <= i < j < |groups| ==> groups[i].eventId != groups[j].eventId
    ensures var r := Take(Sorting.SortBy(groups, ScoreDesc), size);
      && Sorting.SortedBy(r, ScoreDesc)
      && (forall i, j :: 0 <= i < j < |r| ==> r[i].eventId != r[j].eventId)
      && (forall x :: x in r ==> x in groups)
      && (|r| < size ==> forall x :: x in groups ==> x in r)
      && forall x, y :: x in r && y in groups && y !in r ==> x.score >= y.score
  {
    var sorted := Sorting.SortBy(groups, ScoreDesc);
    var r := Take(sorted, size);
    SortedByScore(groups);
    Sorting.PermutationKeepsDistinctKeys(groups, sorted, (x: Recommendation) => x.eventId);
    forall x ensures x in sorted <==> x in groups {
      Sorting.SortByMembers(groups, ScoreDesc, x);
    }
    Sorting.SortedPrefixDominates(sorted, ScoreDesc, |r|);
    forall x, y | x in r && y in groups && y !in r ensures x.score >= y.score {
      assert y in multiset(sorted) - multiset(r);
      assert ScoreDesc(x, y);
    }
  }

  /**
   * findTopSimilarToSetExcluding: each partner of the source set that is not
   * excluded, with the best score linking it to the set, best first, cut
   * to the page size; no partner left out scores higher than one kept.
   */
  function FindTopSimilarToSetExcluding(rows: seq<EventSimilarity>, sourceIds: seq<int>, excludeIds: set<int>,
                                        pageable: Pageable): (r: seq<Recommendation>)
    ensures |r| <= pageable.size
    ensures Sorting.SortedBy(r, ScoreDesc)
    ensures forall i, j :: 0 <= i < j < |r| ==> r[i].eventId != r[j].eventId
    ensures forall x :: x in r ==> x in Groups(rows, sourceIds, excludeIds)
    ensures |r| < pageable.size ==> forall x :: x in Groups(rows, sourceIds, excludeIds) ==> x in r
    ensures forall x, y :: x in r && y in Groups(rows, sourceIds, excludeIds) && y !in r ==> x.score >= y.score
  {
    var groups := Groups(rows, sourceIds, excludeIds);
    DistinctPage(groups, pageable.size);
    Take(Sorting.SortBy(groups, ScoreDesc), pageable.size)
  }

  /** Each returned partner is a partner of the set, not excluded, scored by the maximum over its rows. */
  lemma TopSimilarToSetIsMax(rows: seq<EventSimilarity>, sourceIds: seq<int>, excludeIds: set<int>, pageable: Pageable,
                             x: Recommendation)
    requires x in FindTopSimilarToSetExcluding(rows, sourceIds, excludeIds, pageable)
    ensures x.eventId !in excludeIds
    ensures forall s :: s in rows && InGroup(s, sourceIds, excludeIds, x.eventId) ==> s.score <= x.score
    ensures exists s :: s in rows && InGroup(s, sourceIds, excludeIds, x.eventId) && s.score == x.score
  {
  }

  // ---------------------------------------------------------------------
  // findNeighboursNative

  /** The first arm of UNION ALL: rows read as (event_a, event_b). */
  function Forward(rows: seq<EventSimilarity>, primaryIds: set<int>, candidateIds: set<int>): (r: seq<NeighbourResult>)
    ensures forall x :: x in r <==> exists s :: s in rows && s.eventA in primaryIds && s.eventB in candidateIds
                                                 && x == NeighbourResult(s.eventA, s.eventB, s.score)
  {
    if |rows| == 0 then []
    else
      var last := rows[|rows| - 1];
      assert rows == rows[..|rows| - 1] + [last];
      Forward(rows[..|rows| - 1], primaryIds, candidateIds)
        + (if last.eventA in primaryIds && last.eventB in candidateIds then [NeighbourResult(last.eventA, last.eventB, last.score)] else [])
  }

  /** The second arm: rows read as (event_b, event_a). */
  function Backward(rows: seq<EventSimilarity>, primaryIds: set<int>, candidateIds: set<int>): (r: seq<NeighbourResult>)
    ensures forall x :: x in r <==> exists s :: s in rows && s.eventB in primaryIds && s.eventA in candidateIds
                                                 && x == NeighbourResult(s.eventB, s.eventA, s.score)
  {
    if |rows| == 0 then []
    else
      var last := rows[|rows| - 1];
      assert rows == rows[..|rows| - 1] + [last];
      Backward(rows[..|rows| - 1], primaryIds, candidateIds)
        + (if last.eventB in primaryIds && last.eventA in candidateIds then [NeighbourResult(last.eventB, last.eventA, last.score)] else [])
  }

  /** The pairs CTE: both arms, duplicates kept. */
  function Pairs(rows: seq<EventSimilarity>, primaryIds: set<int>, candidateIds: set<int>): (r: seq<NeighbourResult>)
    ensures forall x :: x in r ==> x.primaryId in primaryIds && x.neighbourId in candidateIds
  {
    Forward(rows, primaryIds, candidateIds) + Backward(rows, primaryIds, candidateIds)
  }

  predicate NeighbourDesc(x: NeighbourResult, y: NeighbourResult)
  {
    x.score >= y.score
  }

  lemma NeighbourDescIsOrder()
    ensures Sorting.Total(NeighbourDesc) && Sorting.Transitive(NeighbourDesc)
  {
  }

  /** The pairs of one primary, in order. */
  function OfPrimary(s: seq<NeighbourResult>, p: int): (r: seq<NeighbourResult>)
    ensures |r| <= |s|
  {
    if |s| == 0 then []
    else
      var last := s[|s| - 1];
      assert s == s[..|s| - 1] + [last];
      OfPrimary(s[..|s| - 1], p) + (if last.primaryId == p then [last] else [])
  }

  /** The pairs of one primary are exactly the list's elements with that primary. */
  lemma {:induction false} OfPrimaryMembers(s: seq<NeighbourResult>, p: int)
    ensures forall x :: x in OfPrimary(s, p) <==> x in s && x.primaryId == p
  {
    if |s| > 0 {
      var init := s[..|s| - 1];
      assert s == init + [s[|s| - 1]];
      OfPrimaryMembers(init, p);
    }
  }

  /**
   * WHERE rn <= :maxNeighbours over ROW_NUMBER() OVER (PARTITION BY
   * primary_id ...): an element is kept when fewer than maxNeighbours
   * elements of its primary come before it.
   */
  function KeepRanked(s: seq<NeighbourResult>, maxNeighbours: int): (r: seq<NeighbourResult>)
    ensures forall x :: x in r ==> x in s
  {
    if |s| == 0 then []
    else
      var last := s[|s| - 1];
      var init := s[..|s| - 1];
      assert s == init + [last];
      KeepRanked(init, maxNeighbours)
        + (if |OfPrimary(init, last.primaryId)| < maxNeighbours then [last] else [])
  }

  /** The kept elements of every primary are the first maxNeighbours of its elements. */
  lemma {:induction false} KeepRankedPerPrimary(s: seq<NeighbourResult>, maxNeighbours: int, p: int)
    ensures OfPrimary(KeepRanked(s, maxNeighbours), p) == OfPrimary(s, p)[..Clamp(maxNeighbours, |OfPrimary(s, p)|)]
  {
    if |s| > 0 {
      var last := s[|s| - 1];
      var init := s[..|s| - 1];
      assert s == init + [last];
      KeepRankedPerPrimary(init, maxNeighbours, p);
      var kept := KeepRanked(init, maxNeighbours);
      var tail := if |OfPrimary(init, last.primaryId)| < maxNeighbours then [last] else [];
      assert KeepRanked(s, maxNeighbours) == kept + tail;
      OfPrimaryAppend(kept, tail, p);
      OfPrimaryAppend(init, [last], p);
      OfPrimaryOne(last, p);
      var before := OfPrimary(init, p);
      var got := OfPrimary(kept, p) + OfPrimary(tail, p);
      var whole := before + OfPrimary([last], p);
      assert OfPrimary(kept, p) == before[..Clamp(maxNeighbours, |before|)];
      if last.primaryId != p {
        assert OfPrimary(tail, p) == [] && got == OfPrimary(kept, p);
        assert whole == before;
      } else if |before| < maxNeighbours {
        assert tail == [last] && OfPrimary(kept, p) == before;
        assert got == whole && Clamp(maxNeighbours, |whole|) == |whole|;
      } else {
        assert tail == [] && got == OfPrimary(kept, p);
        assert whole == before + [last];
        PrefixExtend(before, last, maxNeighbours);
      }
    }
  }

  /** Appending one element to a list extends its first k elements only while fewer than k are there. */
  lemma PrefixExtend(b: seq<NeighbourResult>, x: NeighbourResult, k: int)
    ensures (b + [x])[..Clamp(k, |b| + 1)] == if |b| < k then b + [x] else b[..Clamp(k, |b|)]
  {
    if k <= |b| {
      assert (b + [x])[..Clamp(k, |b| + 1)] == b[..Clamp(k, |b|)];
    }
  }

  lemma OfPrimaryOne(x: NeighbourResult, p: int)
    ensures OfPrimary([x], p) == if x.primaryId == p then [x] else []
  {
    assert [x][..0] == [];
  }

  lemma {:induction false} OfPrimaryAppend(s: seq<NeighbourResult>, t: seq<NeighbourResult>, p: int)
    ensures OfPrimary(s + t, p) == OfPrimary(s, p) + OfPrimary(t, p)
  {
    if |t| > 0 {
      assert (s + t)[..|s + t| - 1] == s + t[..|t| - 1];
      OfPrimaryAppend(s, t[..|t| - 1], p);
    } else {
      assert s + t == s;
    }
  }

  /** Filtering a list sorted by score descending leaves it sorted. */
  lemma {:induction false} OfPrimarySorted(s: seq<NeighbourResult>, p: int)
    requires Sorting.SortedBy(s, NeighbourDesc)
    ensures Sorting.SortedBy(OfPrimary(s, p), NeighbourDesc)
  {
    if |s| > 0 {
      var last := s[|s| - 1];
      var init := s[..|s| - 1];
      assert Sorting.SortedBy(init, NeighbourDesc);
      OfPrimarySorted(init, p);
      if last.primaryId == p {
        var f := OfPrimary(init, p);
        OfPrimaryMembers(init, p);
        forall i | 0 <= i < |f| ensures NeighbourDesc(f[i], last) {
          assert f[i] in init;
          var k :| 0 <= k < |init| && init[k] == f[i];
          assert NeighbourDesc(s[k], s[|s| - 1]);
        }
      }
    }
  }

  /** The elements of one primary, counted with multiplicity, depend only on the multiset of the list. */
  lemma {:induction false} OfPrimaryMultiset(s: seq<NeighbourResult>, p: int)
    ensures forall x :: multiset(OfPrimary(s, p))[x] == if x.primaryId == p then multiset(s)[x] else 0
  {
    if |s| > 0 {
      var last := s[|s| - 1];
      var init := s[..|s| - 1];
      assert s == init + [last];
      OfPrimaryMultiset(init, p);
    }
  }

  /**
   * findNeighboursNative: both orientations of every row joining a primary
   * and a candidate, ranked by score descending within each primary, up to
   * maxNeighbours per primary.
   */
  function FindNeighboursNative(rows: seq<EventSimilarity>, primaryIds: set<int>, candidateIds: set<int>, maxNeighbours: int)
    : (r: seq<NeighbourResult>)
    ensures forall x :: x in r ==> x in Pairs(rows, primaryIds, candidateIds)
    ensures forall x :: x in r ==> x.primaryId in primaryIds && x.neighbourId in candidateIds
  {
    var ranked := Sorting.SortBy(Pairs(rows, primaryIds, candidateIds), NeighbourDesc);
    var r := KeepRanked(ranked, maxNeighbours);
    assert forall x :: x in r ==> x in Pairs(rows, primaryIds, candidateIds) by {
      forall x | x in r ensures x in Pairs(rows, primaryIds, candidateIds) {
        Sorting.SortByMembers(Pairs(rows, primaryIds, candidateIds), NeighbourDesc, x);
      }
    }
    r
  }

  /** The pairs of one primary after ranking are a rearrangement of that primary's pairs. */
  lemma RankedOfPrimary(pairs: seq<NeighbourResult>, p: int)
    ensures var f := OfPrimary(Sorting.SortBy(pairs, NeighbourDesc), p);
      && Sorting.SortedBy(f, NeighbourDesc)
      && multiset(f) == multiset(OfPrimary(pairs, p))
  {
    var ranked := Sorting.SortBy(pairs, NeighbourDesc);
    NeighbourDescIsOrder();
    Sorting.SortBySorted(pairs, NeighbourDesc);
    OfPrimarySorted(ranked, p);
    OfPrimaryMultiset(ranked, p);
    OfPrimaryMultiset(pairs, p);
    assert multiset(OfPrimary(ranked, p)) == multiset(OfPrimary(pairs, p));
  }

  /** A prefix of a sorted rearrangement of all: sorted, drawn from all, and dominating what it leaves out. */
  lemma PrefixOfRearranged(f: seq<NeighbourResult>, all: seq<NeighbourResult>, n: nat)
    requires Sorting.SortedBy(f, NeighbourDesc)
    requires multiset(f) == multiset(all)
    requires n <= |f|
    ensures var got := f[..n];
      && Sorting.SortedBy(got, NeighbourDesc)
      && multiset(got) <= multiset(all)
      && forall x, y :: x in got && y in multiset(all) - multiset(got) ==> x.score >= y.score
  {
    Sorting.SortedPrefixDominates(f, NeighbourDesc, n);
  }

  /**
   * Per primary, the result holds min(maxNeighbours, n) of its n pairs,
   * sorted by score descending, and no pair left out scores higher than
   * one kept.
   */
  lemma NativeTopPerPrimary(rows: seq<EventSimilarity>, primaryIds: set<int>, candidateIds: set<int>, maxNeighbours: int, p: int)
    ensures var got := OfPrimary(FindNeighboursNative(rows, primaryIds, candidateIds, maxNeighbours), p);
      var all := OfPrimary(Pairs(rows, primaryIds, candidateIds), p);
      && |got| == Clamp(maxNeighbours, |all|)
      && Sorting.SortedBy(got, NeighbourDesc)
      && multiset(got) <= multiset(all)
      && forall x, y :: x in got && y in multiset(all) - multiset(got) ==> x.score >= y.score
  {
    var pairs := Pairs(rows, primaryIds, candidateIds);
    var ranked := Sorting.SortBy(pairs, NeighbourDesc);
    var f := OfPrimary(ranked, p);
    var all := OfPrimary(pairs, p);
    RankedOfPrimary(pairs, p);
    assert |f| == |all| by {
      assert |multiset(f)| == |multiset(all)|;
    }
    KeepRankedPerPrimary(ranked, maxNeighbours, p);
    assert FindNeighboursNative(rows, primaryIds, candidateIds, maxNeighbours) == KeepRanked(ranked, maxNeighbours);
    PrefixOfRearranged(f, all, Clamp(maxNeighbours, |f|));
  }

  // ---------------------------------------------------------------------
  // findNeighbourEventsFrom

  /** The neighbour and score of each result, as a Recommendation. */
  function ToRecommendations(s: seq<NeighbourResult>): (r: seq<Recommendation>)
    ensures |r| == |s|
    ensures forall i :: 0 <= i < |s| ==> r[i] == Recommendation(s[i].neighbourId, s[i].score)
  {
    seq(|s|, i requires 0 <= i < |s| => Recommendation(s[i].neighbourId, s[i].score))
  }

  /** Recommendations read back as results of primary p. */
  function WithPrimary(p: int, recs: seq<Recommendation>): (r: seq<NeighbourResult>)
    ensures |r| == |recs|
    ensures forall i :: 0 <= i < |recs| ==> r[i] == NeighbourResult(p, recs[i].eventId, recs[i].score)
  {
    seq(|recs|, i requires 0 <= i < |recs| => NeighbourResult(p, recs[i].eventId, recs[i].score))
  }

  /** The primary ids present in a result list. */
  function Primaries(s: seq<NeighbourResult>): (r: set<int>)
    ensures forall p :: p in r <==> exists x :: x in s && x.primaryId == p
  {
    set x | x in s :: x.primaryId
  }

  /** Collectors.groupingBy(primaryId, mapping(to Recommendation, toList())): each group in list order. */
  function GroupByPrimary(flat: seq<NeighbourResult>): (r: map<int, seq<Recommendation>>)
    ensures forall p :: p in r <==> OfPrimary(flat, p) != []
    ensures forall p :: p in r ==> r[p] == ToRecommendations(OfPrimary(flat, p))
  {
    var r := map p | p in Primaries(flat) :: ToRecommendations(OfPrimary(flat, p));
    assert forall p :: p in r <==> OfPrimary(flat, p) != [] by {
      forall p ensures p in r <==> OfPrimary(flat, p) != [] {
        OfPrimaryMembers(flat, p);
        if OfPrimary(flat, p) != [] {
          assert OfPrimary(flat, p)[0] in flat;
        }
      }
    }
    r
  }

  /** Every group holds only primaries and neighbours drawn from the list. */
  lemma GroupByPrimaryFrom(flat: seq<NeighbourResult>, primaryIds: set<int>, candidates: set<int>)
    requires forall x :: x in flat ==> x.primaryId in primaryIds && x.neighbourId in candidates
    ensures var r := GroupByPrimary(flat);
      && (forall p :: p in r ==> p in primaryIds)
      && forall p, x :: p in r && x in r[p] ==> x.eventId in candidates
  {
    var r := GroupByPrimary(flat);
    forall p | p in r ensures p in primaryIds {
      OfPrimaryMembers(flat, p);
      assert OfPrimary(flat, p)[0] in flat;
    }
    forall p, x: Recommendation | p in r && x in r[p] ensures x.eventId in candidates {
      var i :| 0 <= i < |r[p]| && r[p][i] == x;
      OfPrimaryMembers(flat, p);
      assert OfPrimary(flat, p)[i] in flat;
    }
  }

  /**
   * findNeighbourEventsFrom: nothing when either set is empty; otherwise
   * the native result grouped by primary.
   */
  function FindNeighbourEventsFrom(rows: seq<EventSimilarity>, primaryIds: set<int>, candidates: set<int>, maxNeighbours: int)
    : (r: map<int, seq<Recommendation>>)
    ensures primaryIds == {} || candidates == {} ==> r == map[]
    ensures forall p :: p in r ==> p in primaryIds && r[p] != []
    ensures forall p, x :: p in r && x in r[p] ==> x.eventId in candidates
  {
    if primaryIds == {} || candidates == {} then map[]
    else
      var flat := FindNeighboursNative(rows, primaryIds, candidates, maxNeighbours);
      GroupByPrimaryFrom(flat, primaryIds, candidates);
      GroupByPrimary(flat)
  }

  /** Results of one primary survive the round trip through Recommendation. */
  lemma {:induction false} WithPrimaryOfRecommendations(s: seq<NeighbourResult>, p: int)
    requires forall x :: x in s ==> x.primaryId == p
    ensures WithPrimary(p, ToRecommendations(s)) == s
  {
    var t := WithPrimary(p, ToRecommendations(s));
    forall i | 0 <= i < |s| ensures t[i] == s[i] {
      assert s[i] in s;
    }
  }

  /**
   * For non-empty inputs: primary p has an entry exactly when it has a pair
   * and maxNeighbours > 0; the entry, read back as pairs of p, holds
   * min(maxNeighbours, n) of p's n pairs (both orientations), and none of
   * the pairs left out scores higher than one kept. The entry is listed in
   * rank order, which is the model's choice: the query has no outer ORDER BY.
   */
  lemma NeighbourEventsTop(rows: seq<EventSimilarity>, primaryIds: set<int>, candidates: set<int>, maxNeighbours: int, p: int)
    requires primaryIds != {} && candidates != {}
    ensures var r := FindNeighbourEventsFrom(rows, primaryIds, candidates, maxNeighbours);
      var all := OfPrimary(Pairs(rows, primaryIds, candidates), p);
      && (p in r <==> maxNeighbours > 0 && all != [])
      && (p in r ==>
            var got := WithPrimary(p, r[p]);
            && |got| == Clamp(maxNeighbours, |all|)
            && Sorting.SortedBy(r[p], ScoreDesc)
            && multiset(got) <= multiset(all)
            && forall x, y :: x in got && y in multiset(all) - multiset(got) ==> x.score >= y.score)
  {
    var r := FindNeighbourEventsFrom(rows, primaryIds, candidates, maxNeighbours);
    var flat := FindNeighboursNative(rows, primaryIds, candidates, maxNeighbours);
    var all := OfPrimary(Pairs(rows, primaryIds, candidates), p);
    var f := OfPrimary(flat, p);
    NativeTopPerPrimary(rows, primaryIds, candidates, maxNeighbours, p);
    OfPrimaryMembers(flat, p);
    assert r == GroupByPrimary(flat);
    if p in r {
      assert r[p] == ToRecommendations(f);
      WithPrimaryOfRecommendations(f, p);
      assert Sorting.SortedBy(r[p], ScoreDesc) by {
        forall i, j | 0 <= i < j < |r[p]| ensures ScoreDesc(r[p][i], r[p][j]) {
          assert NeighbourDesc(f[i], f[j]);
        }
      }
    }
  }
}
