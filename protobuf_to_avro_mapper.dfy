/**
 * The collector's ProtobufToAvroMapper: the gRPC action kind and
 * timestamp as their Avro counterparts.
 */
module ProtobufToAvroMapper {
  import opened Common
  import opened Messages

  /** The gRPC enum, with the UNRECOGNIZED constant protobuf adds to every Java enum. */
  datatype ActionTypeProto = ACTION_VIEW | ACTION_REGISTER | ACTION_LIKE | UNRECOGNIZED

  /** google.protobuf.Timestamp: seconds and a nanosecond part, as sent. */
  datatype Timestamp = Timestamp(seconds: int, nanos: int)

  /** Why a conversion threw. */
  datatype Failure =
    | NullActionType                            // IllegalArgumentException
    | UnknownActionType(proto: ActionTypeProto) // IllegalArgumentException
    | InstantOutOfRange                         // DateTimeException or ArithmeticException

  datatype Result<T> = Success(value: T) | Error(failure: Failure)

  /**
   * toAvroActionType: null and any constant other than the three actions
   * throw; the three actions map to the Avro kind of the same name.
   */
  function ToAvroActionType(proto: Option<ActionTypeProto>): (r: Result<ActionTypeAvro>)
    ensures proto.None? <==> r == Error(NullActionType)
    ensures proto == Some(UNRECOGNIZED) <==> r == Error(UnknownActionType(UNRECOGNIZED))
    ensures proto == Some(ACTION_VIEW) <==> r == Success(ActionTypeAvro.VIEW)
    ensures proto == Some(ACTION_REGISTER) <==> r == Success(ActionTypeAvro.REGISTER)
    ensures proto == Some(ACTION_LIKE) <==> r == Success(ActionTypeAvro.LIKE)
  {
    if proto.None? then Error(NullActionType)
    else
      match proto.value
      case ACTION_VIEW => Success(ActionTypeAvro.VIEW)
      case ACTION_REGISTER => Success(ActionTypeAvro.REGISTER)
      case ACTION_LIKE => Success(ActionTypeAvro.LIKE)
      case UNRECOGNIZED => Error(UnknownActionType(UNRECOGNIZED))
  }

  /** Distinct action kinds never map to the same Avro kind, and every Avro kind is reached. */
  lemma ToAvroActionTypeInjective(p: Option<ActionTypeProto>, q: Option<ActionTypeProto>)
    ensures ToAvroActionType(p).Success? && ToAvroActionType(p) == ToAvroActionType(q) ==> p == q
    ensures ToAvroActionType(Some(ACTION_VIEW)).Success? && ToAvroActionType(Some(ACTION_REGISTER)).Success?
            && ToAvroActionType(Some(ACTION_LIKE)).Success?
  {
  }

  /** The nanoseconds since the epoch a timestamp denotes. */
  function TotalNanos(ts: Timestamp): int
  {
    ts.seconds * 1_000_000_000 + ts.nanos
  }

  /** The instants Java can represent, counted in nanoseconds since the epoch. */
  predicate Representable(nanos: int)
  {
    MinSecond * 1_000_000_000 <= nanos < (MaxSecond + 1) * 1_000_000_000
  }

  /**
   * toInstant: null stays null; otherwise Instant.ofEpochSecond(seconds,
   * nanos), which carries whole seconds of nanos into the seconds, keeps
   * the (floor) remainder as the nanosecond part, and throws
   * (DateTimeException, or ArithmeticException on long overflow) when the
   * seconds fall outside the Instant range.
   */
  function ToInstant(timestamp: Option<Timestamp>): (r: Result<Option<Instant>>)
    ensures timestamp.None? <==> r == Success(None)
    ensures r.Error? <==> timestamp.Some? && !Representable(TotalNanos(timestamp.value))
    ensures r.Error? ==> r.failure == InstantOutOfRange
    ensures r.Success? && r.value.Some? ==> ValidInstant(r.value.value)
    ensures r.Success? && r.value.Some? ==>
      r.value.value.epochSecond * 1_000_000_000 + r.value.value.nano == TotalNanos(timestamp.value)
  {
    if timestamp.None? then Success(None)
    else
      var ts := timestamp.value;
      var seconds, nano := ts.seconds + ts.nanos / 1_000_000_000, ts.nanos % 1_000_000_000;
      CarryKeepsTotal(ts, seconds, nano);
      if seconds < MinSecond || seconds > MaxSecond then Error(InstantOutOfRange)
      else Success(Some(Instant(seconds, nano)))
  }

  /** The carried seconds and remainder denote the same time, and lie in range exactly when that time does. */
  lemma CarryKeepsTotal(ts: Timestamp, seconds: int, nano: int)
    requires seconds == ts.seconds + ts.nanos / 1_000_000_000 && nano == ts.nanos % 1_000_000_000
    ensures 0 <= nano < 1_000_000_000
    ensures seconds * 1_000_000_000 + nano == TotalNanos(ts)
    ensures MinSecond <= seconds <= MaxSecond <==> Representable(TotalNanos(ts))
  {
    var n := 1_000_000_000;
    assert ts.nanos == (ts.nanos / n) * n + nano;
    assert seconds * n == ts.seconds * n + (ts.nanos / n) * n;
    if seconds < MinSecond {
      assert seconds * n <= (MinSecond - 1) * n;
    }
    if seconds > MaxSecond {
      assert seconds * n >= (MaxSecond + 1) * n;
    }
    if MinSecond <= seconds <= MaxSecond {
      assert MinSecond * n <= seconds * n <= MaxSecond * n;
    }
  }

  /** Nanos already in [0, 10^9) are kept as they are, for seconds in the Instant range. */
  lemma ToInstantNormal(timestamp: Timestamp)
    requires 0 <= timestamp.nanos < 1_000_000_000
    requires MinSecond <= timestamp.seconds <= MaxSecond
    ensures ToInstant(Some(timestamp)) == Success(Some(Instant(timestamp.seconds, timestamp.nanos)))
  {
  }
}
