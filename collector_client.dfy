/** The stats client's CollectorClient: an Instant as the protobuf Timestamp it sends. */
module CollectorClient {
  import opened Common
  import opened Messages
  import opened ProtobufToAvroMapper

  /** buildTimestamp: seconds from getEpochSecond, nanos from getNano. */
  function BuildTimestamp(instant: Instant): Timestamp
  {
    Timestamp(instant.epochSecond, instant.nano)
  }

  /** The collector reads back exactly the Instant the client sent. */
  lemma TimestampRoundTrip(instant: Instant)
    requires ValidInstant(instant)
    ensures ToInstant(Some(BuildTimestamp(instant))) == Success(Some(instant))
  {
    ToInstantNormal(BuildTimestamp(instant));
  }

  /**
   * Reading a representable Timestamp and sending it back gives it in
   * normal form, denoting the same time; any other Timestamp is refused.
   */
  lemma InstantRoundTrip(timestamp: Timestamp)
    ensures ToInstant(Some(timestamp)).Success? <==> Representable(TotalNanos(timestamp))
    ensures ToInstant(Some(timestamp)).Success? ==>
      var back := BuildTimestamp(ToInstant(Some(timestamp)).value.value);
      && 0 <= back.nanos < 1_000_000_000
      && TotalNanos(back) == TotalNanos(timestamp)
      && (0 <= timestamp.nanos < 1_000_000_000 ==> back == timestamp)
  {
    if ToInstant(Some(timestamp)).Success? && 0 <= timestamp.nanos < 1_000_000_000 {
      var back := BuildTimestamp(ToInstant(Some(timestamp)).value.value);
      assert back.seconds * 1_000_000_000 == timestamp.seconds * 1_000_000_000 + timestamp.nanos - back.nanos;
    }
  }
}
