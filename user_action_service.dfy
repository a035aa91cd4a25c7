/**
 * The analyzer's UserActionService: a monotonic upsert of user actions
 * keyed by (userId, eventId). A stored row is overwritten only by an
 * action whose configured weight is strictly greater.
 */
module UserActionService {
  import opened Common
  import opened Messages
  import opened AnalyzerModel
  import opened UserActionRepository

  /** analyzer.weights.*: the configured weight of each action kind. */
  datatype WeightProperties = WeightProperties(view: real, register: real, like: real)

  /** avroTypeToEntity: the switch from the Avro enum to the entity enum. */
  function AvroTypeToEntity(t: ActionTypeAvro): (r: ActionType)
    ensures t.VIEW? <==> r.VIEW?
    ensures t.REGISTER? <==> r.REGISTER?
    ensures t.LIKE? <==> r.LIKE?
  {
    match t
    case VIEW => ActionType.VIEW
    case REGISTER => ActionType.REGISTER
    case LIKE => ActionType.LIKE
  }

  /** The type mapping (total, as a match over every case) is injective. */
  lemma AvroTypeToEntityInjective(s: ActionTypeAvro, t: ActionTypeAvro)
    ensures AvroTypeToEntity(s) == AvroTypeToEntity(t) ==> s == t
  {
  }

  /** getWeightForAction: the configured weight of the action's kind. */
  function GetWeightForAction(w: WeightProperties, t: ActionType): (r: real)
    ensures t.VIEW? ==> r == w.view
    ensures t.REGISTER? ==> r == w.register
    ensures t.LIKE? ==> r == w.like
  {
    match t
    case VIEW => w.view
    case REGISTER => w.register
    case LIKE => w.like
  }

  /** The weight an incoming action resolves to. */
  function NewWeight(w: WeightProperties, avro: UserActionAvro): real
  {
    GetWeightForAction(w, AvroTypeToEntity(avro.actionType))
  }

  /**
   * The table after handling one action: a new row when (user, event) has
   * none; type, timestamp and weight overwritten when the new weight is
   * strictly greater (Double.compare > 0); otherwise nothing.
   */
  function Upsert(rows: seq<UserAction>, w: WeightProperties, avro: UserActionAvro): seq<UserAction>
  {
    var newType := AvroTypeToEntity(avro.actionType);
    var newWeight := GetWeightForAction(w, newType);
    match IndexOf(rows, avro.userId, avro.eventId)
    case None => rows + [UserAction(avro.userId, avro.eventId, newType, avro.timestamp, newWeight)]
    case Some(i) =>
      if newWeight > rows[i].actionWeight
      then rows[i := rows[i].(actionType := newType, timestamp := avro.timestamp, actionWeight := newWeight)]
      else rows
  }

  class Store {
    /** The user_actions table, in insertion order. */
    var rows: seq<UserAction>
    const weights: WeightProperties

    /** At most one row per (user, event), so findByUserIdAndEventId never meets two. */
    ghost predicate Valid()
      reads this
    {
      UniqueKeys(rows)
    }

    constructor(weights: WeightProperties)
      ensures Valid()
      ensures rows == [] && this.weights == weights
    {
      rows := [];
      this.weights := weights;
    }

    /** handleUserAction: look the row up, resolve type and weight, then insert or conditionally overwrite. */
    method HandleUserAction(avro: UserActionAvro)
      requires Valid()
      modifies this
      ensures Valid()
      ensures rows == Upsert(old(rows), weights, avro)
    {
      UpsertKeepsUniqueKeys(rows, weights, avro);
      var found := IndexOf(rows, avro.userId, avro.eventId);
      var newType := AvroTypeToEntity(avro.actionType);
      var newWeight := GetWeightForAction(weights, newType);
      if found.Some? {
        var userAction := rows[found.value];
        if newWeight > userAction.actionWeight {
          userAction := userAction.(actionType := newType, timestamp := avro.timestamp, actionWeight := newWeight);
          rows := rows[found.value := userAction];
        }
        return;
      }
      var userAction := UserAction(avro.userId, avro.eventId, newType, avro.timestamp, newWeight);
      rows := rows + [userAction];
    }
  }

  /**
   * After handling, the row for (user, event) exists; its weight is the
   * larger of the old and the new weight, and type and timestamp are the
   * message's exactly when the new weight was strictly greater (or there
   * was no row), the old ones otherwise.
   */
  lemma UpsertStoredRow(rows: seq<UserAction>, w: WeightProperties, avro: UserActionAvro)
    ensures var after := FindByUserIdAndEventId(Upsert(rows, w, avro), avro.userId, avro.eventId);
      var before := FindByUserIdAndEventId(rows, avro.userId, avro.eventId);
      var newWeight := NewWeight(w, avro);
      && after.Some?
      && (before.None? ==> after.value == UserAction(avro.userId, avro.eventId, AvroTypeToEntity(avro.actionType),
                                                     avro.timestamp, newWeight))
      && (before.Some? && newWeight > before.value.actionWeight ==>
            after.value == before.value.(actionType := AvroTypeToEntity(avro.actionType), timestamp := avro.timestamp,
                                         actionWeight := newWeight))
      && (before.Some? && newWeight <= before.value.actionWeight ==> after.value == before.value)
      && (before.Some? ==> after.value.actionWeight == if newWeight > before.value.actionWeight then newWeight
                                                     else before.value.actionWeight)
  {
    var next := Upsert(rows, w, avro);
    var k := IndexOf(rows, avro.userId, avro.eventId);
    if k.None? {
      assert forall i :: 0 <= i < |rows| ==> next[i] == rows[i];
      assert IndexOf(next, avro.userId, avro.eventId) == Some(|rows|) by {
        IndexOfAt(next, avro.userId, avro.eventId, |rows|);
      }
    } else {
      assert forall i :: 0 <= i < k.value ==> next[i] == rows[i];
      IndexOfAt(next, avro.userId, avro.eventId, k.value);
    }
  }

  /** A row with the key at position i and none before it is what IndexOf finds. */
  lemma {:induction false} IndexOfAt(rows: seq<UserAction>, userId: int, eventId: int, i: nat)
    requires i < |rows| && HasKey(rows[i], userId, eventId)
    requires forall j :: 0 <= j < i ==> !HasKey(rows[j], userId, eventId)
    ensures IndexOf(rows, userId, eventId) == Some(i)
  {
    if i > 0 {
      IndexOfAt(rows[1..], userId, eventId, i - 1);
    }
  }

  /**
   * Only the row keyed by (user, event) is written: every other row keeps
   * its position and contents, and a row is added only when the key had
   * none, at the end.
   */
  lemma UpsertTouchesOnlyKey(rows: seq<UserAction>, w: WeightProperties, avro: UserActionAvro)
    ensures var next := Upsert(rows, w, avro);
      && |rows| <= |next| <= |rows| + 1
      && (forall i :: 0 <= i < |rows| && !HasKey(rows[i], avro.userId, avro.eventId) ==> next[i] == rows[i])
      && (forall i :: 0 <= i < |rows| ==> HasKey(next[i], rows[i].userId, rows[i].eventId))
      && (|next| == |rows| + 1 <==> forall a :: a in rows ==> !HasKey(a, avro.userId, avro.eventId))
  {
    var k := IndexOf(rows, avro.userId, avro.eventId);
    if k.Some? {
      assert rows[k.value] in rows;
    } else {
      forall a | a in rows ensures !HasKey(a, avro.userId, avro.eventId) {
        var i :| 0 <= i < |rows| && rows[i] == a;
      }
    }
  }

  /** Stored weights never decrease: every row keeps at least its weight at its position. */
  lemma UpsertNeverDecreases(rows: seq<UserAction>, w: WeightProperties, avro: UserActionAvro)
    ensures var next := Upsert(rows, w, avro);
      forall i :: 0 <= i < |rows| ==> next[i].actionWeight >= rows[i].actionWeight
  {
  }

  /** One row per (user, event) before implies one row per (user, event) after. */
  lemma UpsertKeepsUniqueKeys(rows: seq<UserAction>, w: WeightProperties, avro: UserActionAvro)
    requires UniqueKeys(rows)
    ensures UniqueKeys(Upsert(rows, w, avro))
  {
    var next := Upsert(rows, w, avro);
    UpsertTouchesOnlyKey(rows, w, avro);
    forall i, j | 0 <= i < j < |next| ensures next[i].userId != next[j].userId || next[i].eventId != next[j].eventId {
      if j == |rows| {
        assert HasKey(next[i], rows[i].userId, rows[i].eventId) && rows[i] in rows;
      } else {
        assert HasKey(next[i], rows[i].userId, rows[i].eventId) && HasKey(next[j], rows[j].userId, rows[j].eventId);
      }
    }
  }

  /** Redelivering the same action changes nothing. */
  lemma UpsertIdempotent(rows: seq<UserAction>, w: WeightProperties, avro: UserActionAvro)
    ensures Upsert(Upsert(rows, w, avro), w, avro) == Upsert(rows, w, avro)
  {
    var next := Upsert(rows, w, avro);
    var k := IndexOf(rows, avro.userId, avro.eventId);
    if k.None? {
      assert forall i :: 0 <= i < |rows| ==> next[i] == rows[i];
      IndexOfAt(next, avro.userId, avro.eventId, |rows|);
    } else {
      assert forall i :: 0 <= i < k.value ==> next[i] == rows[i];
      IndexOfAt(next, avro.userId, avro.eventId, k.value);
    }
  }
}
