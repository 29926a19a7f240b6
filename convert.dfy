/** Conversions between `Timestamp` and `Duration`, i64, u64, u128 and text
    (src/convert.rs). Every integer form counts nanoseconds. */
module Convert {
  import opened Ints
  import opened Wrappers
  import opened Errors
  import Durations
  import Decimal
  import opened Common

  /** `From<Duration> for Timestamp`. */
  function FromDuration(d: Durations.Duration): (t: Timestamp)
    ensures AsNanos(t) == Durations.AsNanos(d)
    ensures IntoDuration(t) == d
  {
    Stamp(d)
  }

  /** `From<Timestamp> for Duration`. */
  function IntoDuration(t: Timestamp): (d: Durations.Duration)
    ensures Durations.AsNanos(d) == AsNanos(t)
  {
    t.d
  }

  lemma TimestampDurationRoundTrip(t: Timestamp)
    ensures FromDuration(IntoDuration(t)) == t
  {
  }

  /** `TryFrom<i64> for Timestamp`: negative counts are out of range. */
  function TryFromI64(v: i64): (r: Result<Timestamp, Error>)
    ensures r.Ok? <==> v >= 0
    ensures r.Ok? ==> AsNanos(r.value) == v
    ensures r.Err? ==> r.error == Convert(OutOfRange)
  {
    if v < 0 then Err(Convert(OutOfRange)) else Ok(FromNanos(v))
  }

  /** `TryFrom<Timestamp> for i64`: fails when the count exceeds i64::MAX. */
  function TryIntoI64(t: Timestamp): (r: Result<i64, Error>)
    ensures r.Ok? <==> AsNanos(t) <= I64_MAX
    ensures r.Ok? ==> r.value == AsNanos(t)
    ensures r.Err? ==> r.error == Convert(OutOfRange)
  {
    var n := AsNanos(t);
    if n <= I64_MAX then Ok(n) else Err(Convert(OutOfRange))
  }

  /** Every non-negative i64 survives i64 -> Timestamp -> i64. */
  lemma I64RoundTrip(v: i64)
    requires v >= 0
    ensures TryFromI64(v).Ok? && TryIntoI64(TryFromI64(v).value) == Ok(v)
  {
  }

  /** Every timestamp that narrows to i64 is rebuilt from that i64. */
  lemma TimestampI64RoundTrip(t: Timestamp)
    requires TryIntoI64(t).Ok?
    ensures TryFromI64(TryIntoI64(t).value) == Ok(t)
  {
    FromNanosAsNanos(t);
  }

  /** `From<u64> for Timestamp`. */
  function FromU64(n: u64): (t: Timestamp)
    ensures AsNanos(t) == n
  {
    FromNanos(n)
  }

  /** `TryFrom<Timestamp> for u64`: fails when the count exceeds u64::MAX. */
  function TryIntoU64(t: Timestamp): (r: Result<u64, Error>)
    ensures r.Ok? <==> AsNanos(t) <= U64_MAX
    ensures r.Ok? ==> r.value == AsNanos(t)
    ensures r.Err? ==> r.error == Convert(OutOfRange)
  {
    var n := AsNanos(t);
    if n <= U64_MAX then Ok(n) else Err(Convert(OutOfRange))
  }

  lemma U64RoundTrip(n: u64)
    ensures TryIntoU64(FromU64(n)) == Ok(n)
  {
  }

  lemma TimestampU64RoundTrip(t: Timestamp)
    requires TryIntoU64(t).Ok?
    ensures FromU64(TryIntoU64(t).value) == t
  {
    FromNanosAsNanos(t);
  }

  /** `From<Timestamp> for u128`: total, since every count fits in 128 bits. */
  function IntoU128(t: Timestamp): (v: u128)
    ensures v == AsNanos(t) && v <= Durations.MAX_NANOS
    ensures v <= U64_MAX ==> TryFromU128(v) == Ok(t)
  {
    AsNanos(t)
  }

  /** `TryFrom<u128> for Timestamp`: fails when the value exceeds u64::MAX. */
  function TryFromU128(v: u128): (r: Result<Timestamp, Error>)
    ensures r.Ok? <==> v <= U64_MAX
    ensures r.Ok? ==> AsNanos(r.value) == v
    ensures r.Err? ==> r.error == Convert(OutOfRange)
  {
    if v <= U64_MAX then Ok(FromNanos(v)) else Err(Convert(OutOfRange))
  }

  /** u128 -> Timestamp -> u128 is exact on every value that is accepted. */
  lemma U128RoundTrip(v: u128)
    requires v <= U64_MAX
    ensures IntoU128(TryFromU128(v).value) == v
  {
  }

  /** `FromStr`, integer-nanosecond build: a string that parses as a u64 is that many
      nanoseconds; any other string goes to the calendar-string parser, whose outcome
      is the parameter `calendarParse`. */
  function FromStr(s: string, calendarParse: Result<Timestamp, Error>): (r: Result<Timestamp, Error>)
    ensures Decimal.ParseU64(s).Some? ==> r.Ok? && AsNanos(r.value) == Decimal.ParseU64(s).value
    ensures Decimal.ParseU64(s).None? ==> r == calendarParse
  {
    match Decimal.ParseU64(s)
    case Some(v) => Ok(FromU64(v))
    case None => calendarParse
  }

  /** The `Display` text of a timestamp whose count fits in u64 parses back to it,
      whatever the calendar parser would have said. */
  lemma FromStrDisplay(t: Timestamp, calendarParse: Result<Timestamp, Error>)
    requires AsNanos(t) <= U64_MAX
    ensures FromStr(Display(t), calendarParse) == Ok(t)
  {
    Decimal.ParseToDecimal(AsNanos(t));
    FromNanosAsNanos(t);
  }

  /** A leading '+' is accepted by the integer branch. */
  lemma FromStrPlus(t: Timestamp, calendarParse: Result<Timestamp, Error>)
    requires AsNanos(t) <= U64_MAX
    ensures FromStr(['+'] + Display(t), calendarParse) == Ok(t)
  {
    Decimal.ParseU64Plus(Display(t));
    FromStrDisplay(t, calendarParse);
  }

  /** Leading zeros are accepted by the integer branch and change nothing. */
  lemma FromStrLeadingZeros(t: Timestamp, zeros: string, calendarParse: Result<Timestamp, Error>)
    requires AsNanos(t) <= U64_MAX
    requires forall i :: 0 <= i < |zeros| ==> zeros[i] == '0'
    ensures FromStr(zeros + Display(t), calendarParse) == Ok(t)
  {
    Decimal.ParseLeadingZeros(zeros, AsNanos(t));
    FromNanosAsNanos(t);
  }

  /** Conversely, canonical decimal text within u64 is read by the integer branch and
      is exactly the `Display` of the timestamp it yields. */
  lemma FromStrCanonical(s: string, calendarParse: Result<Timestamp, Error>)
    requires Decimal.IsCanonical(s) && Decimal.Value(s) <= U64_MAX
    ensures FromStr(s, calendarParse).Ok?
    ensures Display(FromStr(s, calendarParse).value) == s
  {
    assert Decimal.IsDigit(s[0]);
    Decimal.CanonicalIsToDecimal(s);
  }

  /** A digit string whose value exceeds u64::MAX is not taken by the integer branch:
      it goes to the calendar-string parser. */
  lemma FromStrOverflowFallsBack(s: string, calendarParse: Result<Timestamp, Error>)
    requires s != [] && Decimal.AllDigits(s) && Decimal.Value(s) > U64_MAX
    ensures FromStr(s, calendarParse) == calendarParse
  {
  }

  /** A string with a character that is not a digit (other than one leading '+') is
      not taken by the integer branch: it goes to the calendar-string parser. */
  lemma FromStrNonDigitFallsBack(s: string, i: nat, calendarParse: Result<Timestamp, Error>)
    requires i < |s| && !Decimal.IsDigit(s[i]) && !(i == 0 && s[0] == '+')
    ensures FromStr(s, calendarParse) == calendarParse
  {
    if |s| >= 2 && s[0] == '+' && i > 0 {
      assert s[1..][i - 1] == s[i];
    }
  }

  /** For instance, a calendar date is handed to the calendar-string parser. */
  lemma FromStrDateFallsBack(calendarParse: Result<Timestamp, Error>)
    ensures FromStr("2024-01-01", calendarParse) == calendarParse
  {
    FromStrNonDigitFallsBack("2024-01-01", 4, calendarParse);
  }
}
