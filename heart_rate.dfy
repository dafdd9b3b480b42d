/**
 * The heart-rate client of blt/src/applications/heart_rate.rs: its descriptor
 * and the decoding of a notified measurement as a big-endian u16.
 */
module HeartRate {
  import opened Common
  import opened Descriptor

  /** `vector_to_heart_rate`: `(time[0] as u16) << 8` plus `time[1] as u16`. Indexing
      panics below two bytes. The sum never leaves the u16 range, so no overflow. */
  function VectorToHeartRate(time: seq<byte>): (r: int)
    requires |time| >= 2
    ensures 0 <= r <= 65535
    ensures r / 256 == time[0] && r % 256 == time[1]
  {
    (time[0] as int) * 256 + time[1]
  }

  /** The big-endian bytes of a u16: the inverse of the decoding. */
  function HeartRateToVector(value: int): (v: seq<byte>)
    requires 0 <= value <= 65535
    ensures |v| == 2
  {
    [value / 256, value % 256]
  }

  /** Only the first two bytes matter. */
  lemma DecodeReadsTwoBytes(time: seq<byte>, other: seq<byte>)
    requires |time| >= 2 && |other| >= 2 && time[..2] == other[..2]
    ensures VectorToHeartRate(time) == VectorToHeartRate(other)
  {
  }

  /** Distinct leading byte pairs decode to distinct values. */
  lemma {:induction false} DecodeInjective(a: seq<byte>, b: seq<byte>)
    requires |a| >= 2 && |b| >= 2
    requires VectorToHeartRate(a) == VectorToHeartRate(b)
    ensures a[0] == b[0] && a[1] == b[1]
  {
  }

  /** Round trips in both directions between u16 values and two-byte vectors. */
  lemma {:induction false} RoundTrip(value: int, v: seq<byte>)
    requires 0 <= value <= 65535 && |v| == 2
    ensures VectorToHeartRate(HeartRateToVector(value)) == value
    ensures HeartRateToVector(VectorToHeartRate(v)) == v
  {
  }

  /** The heart-rate `application_descriptor`: one measurement characteristic, no read
      configuration (`default_reade`), writing disabled, notifications from `default_notify`. */
  function ApplicationDescriptorOf(service: Uuid, serviceName: string, measurement: Uuid)
    : (d: ApplicationDescriptor)
    ensures d.ServiceUuid() == service && d.CharacteristicsUuids() == [measurement]
    ensures |d.readFunctions| == |d.writeFunctions| == |d.notifyFunctions| == 1
    ensures d.readFunctions[0].None?
    ensures d.writeFunctions[0].Some? && !d.writeFunctions[0].value.write
    ensures d.notifyFunctions[0] == DefaultNotify() && d.notifyFunctions[0].value.notify
  {
    New(service, serviceName, [measurement],
        [DefaultReade()],
        [Some(WRITE_DEFAULTS.(write := false))],
        [DefaultNotify()])
  }
}
