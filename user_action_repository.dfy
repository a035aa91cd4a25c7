/**
 * The declarative queries of UserActionRepository as pure functions over
 * the rows of user_actions, in table order, plus its two default methods
 * that turn query rows into maps.
 */
module UserActionRepository {
  import opened Common
  import opened AnalyzerModel

  /** At most one row per (user, event): the key handleUserAction upserts by. */
  predicate UniqueKeys(rows: seq<UserAction>)
  {
    forall i, j :: 0 <= i < j < |rows| ==>
      rows[i].userId != rows[j].userId || rows[i].eventId != rows[j].eventId
  }

  predicate HasKey(a: UserAction, userId: int, eventId: int)
  {
    a.userId == userId && a.eventId == eventId
  }

  /** The position of the first row for (userId, eventId). */
  function IndexOf(rows: seq<UserAction>, userId: int, eventId: int): (r: Option<nat>)
    ensures r.Some? ==> r.value < |rows| && HasKey(rows[r.value], userId, eventId)
    ensures r.Some? ==> forall i :: 0 <= i < r.value ==> !HasKey(rows[i], userId, eventId)
    ensures r.None? ==> forall i :: 0 <= i < |rows| ==> !HasKey(rows[i], userId, eventId)
  {
    if |rows| == 0 then None
    else if HasKey(rows[0], userId, eventId) then Some(0)
    else
      var rest := IndexOf(rows[1..], userId, eventId);
      if rest.None? then None else Some(rest.value + 1)
  }

  /** findByUserIdAndEventId: the row for (userId, eventId), if there is one. */
  function FindByUserIdAndEventId(rows: seq<UserAction>, userId: int, eventId: int): (r: Option<UserAction>)
    ensures r.Some? ==> r.value in rows && HasKey(r.value, userId, eventId)
    ensures r.None? <==> forall a :: a in rows ==> !HasKey(a, userId, eventId)
  {
    var i := IndexOf(rows, userId, eventId);
    if i.None? then None else Some(rows[i.value])
  }

  /**
   * With one row per key the row found is the only row with its key, so
   * the single-result query never meets the two rows it would throw on.
   */
  lemma FoundRowIsOnly(rows: seq<UserAction>, userId: int, eventId: int)
    requires UniqueKeys(rows)
    ensures var r := FindByUserIdAndEventId(rows, userId, eventId);
      r.Some? ==> forall a :: a in rows && HasKey(a, userId, eventId) ==> a == r.value
  {
    var i := IndexOf(rows, userId, eventId);
    if i.Some? {
      forall a | a in rows && HasKey(a, userId, eventId) ensures a == rows[i.value] {
        var j :| 0 <= j < |rows| && rows[j] == a;
        assert HasKey(rows[j], userId, eventId) && HasKey(rows[i.value], userId, eventId);
        assert j == i.value;
      }
    }
  }

  /** findEventIdsByUserId: the set of event ids of the user's rows. */
  function FindEventIdsByUserId(rows: seq<UserAction>, userId: int): (r: set<int>)
    ensures forall e :: e in r <==> exists a :: a in rows && HasKey(a, userId, e)
  {
    set a | a in rows && a.userId == userId :: a.eventId
  }

  /** The event ids of the user's rows in table order, one per row. */
  function UserEventIds(rows: seq<UserAction>, userId: int): (r: seq<int>)
    ensures |r| <= |rows|
    ensures forall e :: e in r <==> e in FindEventIdsByUserId(rows, userId)
  {
    if |rows| == 0 then []
    else
      var last := rows[|rows| - 1];
      var init := UserEventIds(rows[..|rows| - 1], userId);
      assert rows == rows[..|rows| - 1] + [last];
      if last.userId == userId then init + [last.eventId] else init
  }

  /** A user without rows has no ids. */
  lemma {:induction false} NoEventsNoIds(rows: seq<UserAction>, userId: int)
    requires FindEventIdsByUserId(rows, userId) == {}
    ensures UserEventIds(rows, userId) == []
  {
    if |rows| > 0 {
      var init := rows[..|rows| - 1];
      var last := rows[|rows| - 1];
      assert last in rows;
      assert HasKey(last, userId, last.eventId) ==> last.eventId in FindEventIdsByUserId(rows, userId);
      assert forall a :: a in init ==> a in rows;
      NoEventsNoIds(init, userId);
    }
  }

  /**
   * findRecentEventIdsByUserId: the query has no ORDER BY, so the page is
   * the first page-size ids in the order the table yields them, which the
   * model fixes to table order.
   */
  function FindRecentEventIdsByUserId(rows: seq<UserAction>, userId: int, pageable: Pageable): (r: seq<int>)
    ensures |r| <= pageable.size && |r| <= |UserEventIds(rows, userId)|
    ensures r == UserEventIds(rows, userId)[..|r|]
    ensures |r| < pageable.size ==> r == UserEventIds(rows, userId)
    ensures forall e :: e in r ==> e in FindEventIdsByUserId(rows, userId)
  {
    Take(UserEventIds(rows, userId), pageable.size)
  }

  /** findActionWeights: (eventId, actionWeight) of the user's rows whose event is in eventIds, in table order. */
  function FindActionWeights(rows: seq<UserAction>, userId: int, eventIds: set<int>): (r: seq<(int, real)>)
    ensures forall p :: p in r <==> exists a :: a in rows && a.userId == userId && a.eventId in eventIds && p == (a.eventId, a.actionWeight)
  {
    if |rows| == 0 then []
    else
      var last := rows[|rows| - 1];
      assert rows == rows[..|rows| - 1] + [last];
      FindActionWeights(rows[..|rows| - 1], userId, eventIds)
        + (if last.userId == userId && last.eventId in eventIds then [(last.eventId, last.actionWeight)] else [])
  }

  /** Some pair has key k. */
  predicate KeyIn(k: int, pairs: seq<(int, real)>)
  {
    exists i :: 0 <= i < |pairs| && pairs[i].0 == k
  }

  /** Some row belongs to event e. */
  predicate HasRows(rows: seq<UserAction>, e: int)
  {
    exists a :: a in rows && a.eventId == e
  }

  predicate DistinctKeys(pairs: seq<(int, real)>)
  {
    forall i, j :: 0 <= i < j < |pairs| ==> pairs[i].0 != pairs[j].0
  }

  /**
   * Collectors.toMap over (key, value) rows: None stands for the
   * IllegalStateException it throws on a repeated key.
   */
  function ToMap(pairs: seq<(int, real)>): (r: Option<map<int, real>>)
    ensures r.Some? <==> DistinctKeys(pairs)
    ensures r.Some? ==> forall k :: k in r.value <==> KeyIn(k, pairs)
    ensures r.Some? ==> forall i :: 0 <= i < |pairs| ==> pairs[i].0 in r.value && r.value[pairs[i].0] == pairs[i].1
  {
    if |pairs| == 0 then Some(map[])
    else
      var rest := ToMap(pairs[1..]);
      if rest.None? || pairs[0].0 in rest.value then None
      else
        assert forall i :: 1 <= i < |pairs| ==> pairs[i] == pairs[1..][i - 1];
        assert forall k :: KeyIn(k, pairs) <==> k == pairs[0].0 || KeyIn(k, pairs[1..]) by {
          forall k | KeyIn(k, pairs) && k != pairs[0].0 ensures KeyIn(k, pairs[1..]) {
            var i :| 0 <= i < |pairs| && pairs[i].0 == k;
            assert pairs[1..][i - 1].0 == k;
          }
          forall k | KeyIn(k, pairs[1..]) ensures KeyIn(k, pairs) {
            var i :| 0 <= i < |pairs[1..]| && pairs[1..][i].0 == k;
            assert pairs[i + 1].0 == k;
          }
        }
        Some(rest.value[pairs[0].0 := pairs[0].1])
  }

  /** findWeightsByUserIdAndEventIds: an empty id set gives an empty map without querying. */
  function FindWeightsByUserIdAndEventIds(rows: seq<UserAction>, userId: int, eventIds: set<int>): (r: Option<map<int, real>>)
    ensures eventIds == {} ==> r == Some(map[])
    ensures eventIds != {} ==> r == ToMap(FindActionWeights(rows, userId, eventIds))
  {
    if eventIds == {} then Some(map[]) else ToMap(FindActionWeights(rows, userId, eventIds))
  }

  /** With one row per (user, event) the map never fails: it holds exactly the user's weights for the requested events. */
  lemma {:induction false} WeightsOfUniqueRows(rows: seq<UserAction>, userId: int, eventIds: set<int>)
    requires UniqueKeys(rows)
    ensures FindWeightsByUserIdAndEventIds(rows, userId, eventIds).Some?
    ensures var m := FindWeightsByUserIdAndEventIds(rows, userId, eventIds).value;
      && (forall e :: e in m <==> e in eventIds && e in FindEventIdsByUserId(rows, userId))
      && (forall a :: a in rows && a.userId == userId && a.eventId in eventIds ==> m[a.eventId] == a.actionWeight)
  {
    if eventIds != {} {
      var pairs := FindActionWeights(rows, userId, eventIds);
      ActionWeightsDistinct(rows, userId, eventIds);
      var m := ToMap(pairs).value;
      forall a | a in rows && a.userId == userId && a.eventId in eventIds
        ensures a.eventId in m && m[a.eventId] == a.actionWeight
      {
        assert (a.eventId, a.actionWeight) in pairs;
        var i :| 0 <= i < |pairs| && pairs[i] == (a.eventId, a.actionWeight);
      }
      forall e | e in m ensures e in eventIds && e in FindEventIdsByUserId(rows, userId) {
        assert KeyIn(e, pairs);
        var i :| 0 <= i < |pairs| && pairs[i].0 == e;
        assert pairs[i] in pairs;
      }
      forall e | e in eventIds && e in FindEventIdsByUserId(rows, userId) ensures e in m {
        var a :| a in rows && HasKey(a, userId, e);
        assert (a.eventId, a.actionWeight) in pairs;
        var i :| 0 <= i < |pairs| && pairs[i] == (a.eventId, a.actionWeight);
        assert KeyIn(e, pairs);
      }
    }
  }

  lemma {:induction false} ActionWeightsDistinct(rows: seq<UserAction>, userId: int, eventIds: set<int>)
    requires UniqueKeys(rows)
    ensures DistinctKeys(FindActionWeights(rows, userId, eventIds))
  {
    if |rows| > 0 {
      var init := rows[..|rows| - 1];
      var last := rows[|rows| - 1];
      assert UniqueKeys(init);
      ActionWeightsDistinct(init, userId, eventIds);
      var p := FindActionWeights(init, userId, eventIds);
      if last.userId == userId && last.eventId in eventIds {
        forall i | 0 <= i < |p| ensures p[i].0 != last.eventId {
          assert p[i] in p;
          var k :| 0 <= k < |init| && init[k].userId == userId && p[i] == (init[k].eventId, init[k].actionWeight);
          assert rows[k] == init[k];
        }
      }
    }
  }

  /** SUM(actionWeight) over the rows of one event. */
  function SumOfWeights(rows: seq<UserAction>, eventId: int): real
  {
    if |rows| == 0 then 0.0
    else
      SumOfWeights(rows[..|rows| - 1], eventId)
        + (if rows[|rows| - 1].eventId == eventId then rows[|rows| - 1].actionWeight else 0.0)
  }

  /** An event without rows sums to 0. */
  lemma {:induction false} SumOfAbsent(rows: seq<UserAction>, eventId: int)
    requires !HasRows(rows, eventId)
    ensures SumOfWeights(rows, eventId) == 0.0
  {
    if |rows| > 0 {
      assert forall a :: a in rows[..|rows| - 1] ==> a in rows;
      SumOfAbsent(rows[..|rows| - 1], eventId);
    }
  }

  /** The GROUP BY keys: the distinct event ids of rows whose event is requested, in order of first row. */
  function GroupKeys(rows: seq<UserAction>, eventIds: seq<int>): (r: seq<int>)
    ensures forall i, j :: 0 <= i < j < |r| ==> r[i] != r[j]
    ensures forall e :: e in r <==> e in eventIds && HasRows(rows, e)
  {
    if |rows| == 0 then []
    else
      var last := rows[|rows| - 1];
      var init := GroupKeys(rows[..|rows| - 1], eventIds);
      assert rows == rows[..|rows| - 1] + [last];
      assert forall e :: HasRows(rows, e) <==> HasRows(rows[..|rows| - 1], e) || e == last.eventId;
      if last.eventId in eventIds && last.eventId !in init then init + [last.eventId] else init
  }

  /** getSumOfWeights: one (eventId, sum) row per group. */
  function GetSumOfWeights(rows: seq<UserAction>, eventIds: seq<int>): (r: seq<(int, real)>)
    ensures DistinctKeys(r)
    ensures forall k :: KeyIn(k, r) <==> k in eventIds && HasRows(rows, k)
    ensures forall i :: 0 <= i < |r| ==> r[i].1 == SumOfWeights(rows, r[i].0)
  {
    var keys := GroupKeys(rows, eventIds);
    var r := seq(|keys|, i requires 0 <= i < |keys| => (keys[i], SumOfWeights(rows, keys[i])));
    assert forall k :: KeyIn(k, r) <==> k in keys by {
      forall k | k in keys ensures KeyIn(k, r) {
        var i :| 0 <= i < |keys| && keys[i] == k;
        assert r[i].0 == k;
      }
      forall k | KeyIn(k, r) ensures k in keys {
        var i :| 0 <= i < |r| && r[i].0 == k;
        assert keys[i] == k;
      }
    }
    r
  }

  /**
   * getAggregatedWeightsForEvents: an empty request gives an empty map;
   * otherwise the map from each requested event that has rows to the sum
   * of its weights (events without rows are absent).
   */
  function GetAggregatedWeightsForEvents(rows: seq<UserAction>, eventIds: seq<int>): (r: map<int, real>)
    ensures forall e :: e in r <==> e in eventIds && HasRows(rows, e)
    ensures forall e :: e in r ==> r[e] == SumOfWeights(rows, e)
  {
    if |eventIds| == 0 then map[]
    else
      var pairs := GetSumOfWeights(rows, eventIds);
      var m := ToMap(pairs);
      assert m.Some?;
      assert forall e :: e in m.value ==> m.value[e] == SumOfWeights(rows, e) by {
        forall e | e in m.value ensures m.value[e] == SumOfWeights(rows, e) {
          assert KeyIn(e, pairs);
          var i :| 0 <= i < |pairs| && pairs[i].0 == e;
        }
      }
      m.value
  }
}
