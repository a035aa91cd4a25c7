/**
 * The analyzer's SimilarityService: stores an incoming similarity message
 * unless the similarities table already holds a row for the same pair of
 * events, in either orientation. The first stored score of a pair wins.
 */
module SimilarityService {
  import opened Messages
  import opened AnalyzerModel
  import opened EventSimilarityRepository

  /** SimilarityMapper.AvroSimilarityToEntity: every field carried over, the id left to the database. */
  function ToEntity(avro: EventSimilarityAvro): EventSimilarity
  {
    EventSimilarity(avro.eventA, avro.eventB, avro.score, avro.timestamp)
  }

  /** The table after handling one message. */
  function Handled(rows: seq<EventSimilarity>, avro: EventSimilarityAvro): seq<EventSimilarity>
  {
    if ExistsByEventAAndEventB(rows, avro.eventA, avro.eventB) then rows else rows + [ToEntity(avro)]
  }

  /** At most one row per unordered pair of events. */
  predicate OnePerPair(rows: seq<EventSimilarity>)
  {
    forall i, j :: 0 <= i < j < |rows| ==> !JoinsPair(rows[j], rows[i].eventA, rows[i].eventB)
  }

  class Store {
    /** The similarities table, in insertion order. */
    var rows: seq<EventSimilarity>

    /** The table never holds two rows for one unordered pair. */
    ghost predicate Valid()
      reads this
    {
      OnePerPair(rows)
    }

    constructor()
      ensures Valid() && rows == []
    {
      rows := [];
    }

    /** handleSimilarity: skip a known pair, otherwise save the mapped entity. */
    method HandleSimilarity(avro: EventSimilarityAvro)
      requires Valid()
      modifies this
      ensures Valid()
      ensures rows == Handled(old(rows), avro)
    {
      HandledKeepsOnePerPair(rows, avro);
      if ExistsByEventAAndEventB(rows, avro.eventA, avro.eventB) {
        return;
      }
      var similarity := ToEntity(avro);
      rows := rows + [similarity];
    }
  }

  /**
   * A message writes nothing when the pair is stored in either orientation,
   * and otherwise appends exactly one row carrying its four fields.
   */
  lemma HandledEffect(rows: seq<EventSimilarity>, avro: EventSimilarityAvro)
    ensures (exists s :: s in rows && JoinsPair(s, avro.eventA, avro.eventB)) ==> Handled(rows, avro) == rows
    ensures (forall s :: s in rows ==> !JoinsPair(s, avro.eventA, avro.eventB))
            ==> Handled(rows, avro) == rows + [EventSimilarity(avro.eventA, avro.eventB, avro.score, avro.timestamp)]
  {
  }

  /** After handling, the message's pair is stored; redelivering the message is then a no-op. */
  lemma HandledIdempotent(rows: seq<EventSimilarity>, avro: EventSimilarityAvro)
    ensures ExistsByEventAAndEventB(Handled(rows, avro), avro.eventA, avro.eventB)
    ensures Handled(Handled(rows, avro), avro) == Handled(rows, avro)
  {
    var once := Handled(rows, avro);
    if !ExistsByEventAAndEventB(rows, avro.eventA, avro.eventB) {
      assert once[|rows|] == ToEntity(avro);
      assert ToEntity(avro) in once && JoinsPair(ToEntity(avro), avro.eventA, avro.eventB);
    }
  }

  /**
   * First write wins: for every pair {a, b} already stored, the rows
   * holding that pair (and so their scores) are the same after any message.
   */
  lemma FirstWriteWins(rows: seq<EventSimilarity>, avro: EventSimilarityAvro, a: int, b: int)
    requires exists s :: s in rows && JoinsPair(s, a, b)
    ensures forall t :: t in Handled(rows, avro) && JoinsPair(t, a, b) <==> t in rows && JoinsPair(t, a, b)
  {
    var s :| s in rows && JoinsPair(s, a, b);
    var e := ToEntity(avro);
    if JoinsPair(e, a, b) {
      assert JoinsPair(s, avro.eventA, avro.eventB);
      assert Handled(rows, avro) == rows;
    }
  }

  /** A table with one row per unordered pair keeps that shape. */
  lemma HandledKeepsOnePerPair(rows: seq<EventSimilarity>, avro: EventSimilarityAvro)
    requires OnePerPair(rows)
    ensures OnePerPair(Handled(rows, avro))
  {
    var next := Handled(rows, avro);
    if next != rows {
      forall i, j | 0 <= i < j < |next| ensures !JoinsPair(next[j], next[i].eventA, next[i].eventB) {
        if j == |rows| {
          assert next[i] == rows[i] && rows[i] in rows;
          if JoinsPair(next[j], rows[i].eventA, rows[i].eventB) {
            assert JoinsPair(rows[i], avro.eventA, avro.eventB);
            assert false;
          }
        } else {
          assert next[i] == rows[i] && next[j] == rows[j];
        }
      }
    }
  }
}
