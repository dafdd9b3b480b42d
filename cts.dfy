/**
 * The Current Time Service client of blt/src/applications/cts.rs: the 9-byte
 * Current Time codec (Date Time as a little-endian year followed by month,
 * day, hour, minute and second; Day of Week; Fractions256) and the rule that
 * rewrites the peripheral's clock when it is more than ten minutes off.
 */
module Cts {
  import opened Common

  /** `DIFF_IN_MINUTES_TO_FORCE_SYNC`. */
  const DIFF_IN_MINUTES_TO_FORCE_SYNC: int := 10

  /** A calendar date and a time of day to the second, without time zone:
      the fields of chrono's `NaiveDateTime`, and those read from a `DateTime<Utc>`. */
  datatype DateTime = DateTime(year: int, month: int, day: int, hour: int, minute: int, second: int)

  predicate IsLeapYear(y: int)
  {
    y % 4 == 0 && (y % 100 != 0 || y % 400 == 0)
  }

  function DaysInMonth(y: int, m: int): int
    requires 1 <= m <= 12
  {
    if m == 2 then (if IsLeapYear(y) then 29 else 28)
    else if m == 4 || m == 6 || m == 9 || m == 11 then 30
    else 31
  }

  /** A real date-time of the proleptic Gregorian calendar, which every chrono value is. */
  predicate ValidDateTime(t: DateTime)
  {
    && 1 <= t.month <= 12
    && 1 <= t.day <= DaysInMonth(t.year, t.month)
    && 0 <= t.hour < 24
    && 0 <= t.minute < 60
    && 0 <= t.second < 60
  }

  /** Days from 1970-01-01 to the given civil date, negative before it. */
  function DaysFromCivil(y: int, m: int, d: int): int
    requires 1 <= m <= 12
  {
    var y' := if m <= 2 then y - 1 else y;
    var era := y' / 400;
    var yoe := y' - era * 400;
    var mp := (m + 9) % 12;
    var doy := (153 * mp + 2) / 5 + d - 1;
    var doe := yoe * 365 + yoe / 4 - yoe / 100 + doy;
    era * 146097 + doe - 719468
  }

  /** `weekday().num_days_from_monday()`: Monday is 0 and Sunday is 6
      (1970-01-01 was a Thursday). */
  function DaysFromMonday(t: DateTime): (w: int)
    requires ValidDateTime(t)
    ensures 0 <= w < 7
  {
    (DaysFromCivil(t.year, t.month, t.day) + 3) % 7
  }

  /** `timestamp()`: seconds since 1970-01-01T00:00:00, the value read as UTC. */
  function Timestamp(t: DateTime): int
    requires ValidDateTime(t)
  {
    DaysFromCivil(t.year, t.month, t.day) * 86400 + t.hour * 3600 + t.minute * 60 + t.second
  }

  lemma ByteSplit(y: int)
    ensures y % 256 + 256 * ((y / 256) % 256) == y % 65536
  {
  }

  /** `date_time_to_vector`: the Current Time value written to the peripheral. The
      year is truncated to 16 bits (`as u8` of the year and of the year shifted by 8). */
  function DateTimeToVector(t: DateTime): (v: seq<byte>)
    requires ValidDateTime(t)
    ensures |v| == 9
    ensures v[0] + 256 * (v[1] as int) == t.year % 65536
    ensures v[2..7] == [t.month, t.day, t.hour, t.minute, t.second]
    ensures 1 <= v[7] <= 7 && v[7] == DaysFromMonday(t) + 1
    ensures v[8] == 0
  {
    ByteSplit(t.year);
    [t.year % 256, (t.year / 256) % 256, t.month, t.day, t.hour, t.minute, t.second,
     DaysFromMonday(t) + 1, 0]
  }

  /** The failure of chrono's `parse_from_str`. */
  datatype ParseError = ParseError

  /** The fields `vector_to_naive_date_time` reads from the first seven bytes. */
  function Fields(time: seq<byte>): DateTime
    requires |time| >= 7
  {
    DateTime(time[0] + 256 * (time[1] as int), time[2], time[3], time[4], time[5], time[6])
  }

  /** Whether `NaiveDateTime::parse_from_str(s, "%Y-%m-%d %H:%M:%S")` accepts the text
      `format!("{:#04}-{:#02}-{:#02} {:#02}:{:#02}:{:#02}", ..)` of these fields: an
      unsigned `%Y` is read with at most four digits, so a year of five digits is
      refused, and the fields must form a valid date-time. */
  predicate Parsable(t: DateTime)
  {
    0 <= t.year <= 9999 && ValidDateTime(t)
  }

  /** `vector_to_naive_date_time`. Indexing panics below seven bytes, hence the requires. */
  function VectorToNaiveDateTime(time: seq<byte>): (r: Result<DateTime, ParseError>)
    requires |time| >= 7
    ensures r.Ok? ==> ValidDateTime(r.value) && 0 <= r.value.year < 10000
  {
    var t := Fields(time);
    if Parsable(t) then Ok(t) else Err(ParseError)
  }

  /** Only the first seven bytes are read: the day of week and the fractions are ignored. */
  lemma DecodeIgnoresTail(time: seq<byte>, tail: seq<byte>)
    requires |time| >= 7
    ensures VectorToNaiveDateTime(time + tail) == VectorToNaiveDateTime(time[..7])
  {
  }

  /** Decoding succeeds exactly for the encodings of valid date-times of years 0..9999. */
  lemma DecodeFailsOnInvalid(time: seq<byte>)
    requires |time| >= 7
    ensures VectorToNaiveDateTime(time).Err? <==> !ValidDateTime(Fields(time)) || Fields(time).year > 9999
  {
  }

  /** Round trip: decoding an encoding gives back the date and time of a year below 10000. */
  lemma {:induction false} RoundTrip(t: DateTime)
    requires ValidDateTime(t) && 0 <= t.year <= 9999
    ensures VectorToNaiveDateTime(DateTimeToVector(t)) == Ok(t)
  {
  }

  /** The other direction: a 9-byte value that decodes, whose weekday byte is right
      and whose fractions byte is 0, is the encoding of what it decodes to. */
  lemma {:induction false} EncodeOfDecode(v: seq<byte>)
    requires |v| == 9 && VectorToNaiveDateTime(v).Ok?
    requires v[7] == DaysFromMonday(VectorToNaiveDateTime(v).value) + 1 && v[8] == 0
    ensures DateTimeToVector(VectorToNaiveDateTime(v).value) == v
  {
    var t := VectorToNaiveDateTime(v).value;
    var w := DateTimeToVector(t);
    assert w[0] + 256 * (w[1] as int) == v[0] + 256 * (v[1] as int);
    assert w[0] == v[0] && w[1] == v[1];
    assert w[2..7][0] == w[2] && w[2..7][1] == w[3] && w[2..7][2] == w[4];
    assert w[2..7][3] == w[5] && w[2..7][4] == w[6];
    assert w == v;
  }

  function Abs(x: int): int
  {
    if x < 0 then -x else x
  }

  /** The resynchronisation rule: the clock skew in whole seconds is strictly more
      than `60 * DIFF_IN_MINUTES_TO_FORCE_SYNC`. */
  predicate NeedsSync(serviceTime: DateTime, localTime: DateTime)
    requires ValidDateTime(serviceTime) && ValidDateTime(localTime)
  {
    Abs(Timestamp(serviceTime) - Timestamp(localTime)) > 60 * DIFF_IN_MINUTES_TO_FORCE_SYNC
  }

  /** A call on the remote Current Time characteristic. */
  datatype CtsCall = ReadTime | WriteTime(value: seq<byte>)

  /** How one `exercise_characteristics` ends: it returns `Ok(())`, it returns the error of a
      failed read or write (the `?` operators), or it panics (the `unwrap`s on the
      characteristic lookup and on the decode in `read_service_value`). */
  datatype Outcome = Completed | ErrorReturned | Panicked

  /** What one `exercise_characteristics` does: the calls made, and how it ended. */
  datatype Exercise = Exercise(calls: seq<CtsCall>, outcome: Outcome)

  /** `read_service_value` does not panic on this value. */
  predicate Decodes(value: seq<byte>)
  {
    |value| >= 7 && VectorToNaiveDateTime(value).Ok?
  }

  /** The first read succeeded, decoded, and is more than ten minutes off the local time. */
  predicate SyncNeeded(served: Option<seq<byte>>, local: DateTime)
    requires ValidDateTime(local)
  {
    served.Some? && Decodes(served.value) && NeedsSync(VectorToNaiveDateTime(served.value).value, local)
  }

  /** The client's `exercise_characteristics`. `present` says whether the discovered
      characteristics hold the Current Time characteristic; `served` is what the first read
      returns (`None` when the read fails), `local` the local clock (`Utc::now()`),
      `writeOk` whether the corrective write succeeds, and `reread` what the read after the
      write returns (`None` when it fails). */
  function ExerciseCharacteristics(present: bool, served: Option<seq<byte>>, local: DateTime,
                                   writeOk: bool, reread: Option<seq<byte>>): (r: Exercise)
    requires ValidDateTime(local)
    ensures r.calls == [] <==> !present
    ensures present ==> r.calls[0] == ReadTime
    ensures |r.calls| <= 3
    ensures |r.calls| >= 2 <==> present && SyncNeeded(served, local)
    ensures |r.calls| >= 2 ==> r.calls[1] == WriteTime(DateTimeToVector(local))
    ensures |r.calls| == 3 <==> present && SyncNeeded(served, local) && writeOk
    ensures |r.calls| == 3 ==> r.calls[2] == ReadTime
    ensures r.outcome == Panicked <==>
              || !present
              || (served.Some? && !Decodes(served.value))
              || (|r.calls| == 3 && reread.Some? && !Decodes(reread.value))
    ensures r.outcome == ErrorReturned <==>
              present && (served.None? || (SyncNeeded(served, local) && (!writeOk || reread.None?)))
  {
    if !present then Exercise([], Panicked)
    else if served.None? then Exercise([ReadTime], ErrorReturned)
    else if !Decodes(served.value) then Exercise([ReadTime], Panicked)
    else if !NeedsSync(VectorToNaiveDateTime(served.value).value, local) then Exercise([ReadTime], Completed)
    else
      var write := WriteTime(DateTimeToVector(local));
      if !writeOk then Exercise([ReadTime, write], ErrorReturned)
      else if reread.None? then Exercise([ReadTime, write, ReadTime], ErrorReturned)
      else if !Decodes(reread.value) then Exercise([ReadTime, write, ReadTime], Panicked)
      else Exercise([ReadTime, write, ReadTime], Completed)
  }

  /** A skew of exactly ten minutes, the peripheral ahead or behind, is not corrected,
      whatever the write and re-read would do. */
  lemma SkewOfTenMinutesIsKept(served: seq<byte>, local: DateTime, writeOk: bool, reread: Option<seq<byte>>)
    requires ValidDateTime(local) && Decodes(served)
    requires Abs(Timestamp(VectorToNaiveDateTime(served).value) - Timestamp(local)) == 600
    ensures ExerciseCharacteristics(true, Some(served), local, writeOk, reread) == Exercise([ReadTime], Completed)
  {
  }

  /** When the peripheral stores what it is sent, the corrective write makes the re-read
      return the local time exactly, the exercise completes, and a second exercise at that
      time writes nothing. */
  lemma {:induction false} CorrectionConverges(served: seq<byte>, local: DateTime)
    requires ValidDateTime(local) && 0 <= local.year <= 9999
    requires Decodes(served) && NeedsSync(VectorToNaiveDateTime(served).value, local)
    ensures var written := DateTimeToVector(local);
            && ExerciseCharacteristics(true, Some(served), local, true, Some(written)).outcome == Completed
            && VectorToNaiveDateTime(written) == Ok(local)
            && ExerciseCharacteristics(true, Some(written), local, true, Some(written)) == Exercise([ReadTime], Completed)
  {
    RoundTrip(local);
  }
}
