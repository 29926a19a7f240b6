/** Database column encodings of `Timestamp` (src/impl_sqlx.rs).
    SQLite stores an i64 of nanoseconds since the UNIX epoch; PostgreSQL's binary
    `TIMESTAMPTZ` stores an i64 of microseconds since 2000-01-01T00:00:00Z. The driver's
    own decoding of the column into an i64 is not modelled: decoding starts from that i64. */
module Sqlx {
  import opened Ints
  import opened Wrappers
  import opened Errors
  import Durations
  import opened Common
  import Convert

  /** Microseconds from the UNIX epoch to 2000-01-01T00:00:00Z. */
  const J2000_EPOCH_US: i64 := 946_684_800_000_000

  /** The values of sqlx's `BoxDynError` that these decoders can produce: the crate's
      own `Error`, or the standard library's integer-narrowing error, boxed directly. */
  datatype DecodeError = CrateError(error: Error) | TryFromIntError

  /** Whether the encoded argument is SQL NULL; these encoders never write NULL. */
  datatype IsNull = Yes | No

  /** The one variant of sqlx's SQLite argument value that this encoder produces. */
  datatype SqliteArgumentValue = Int64(value: i64)

  /** The caller's argument list that SQLite `encode_by_ref` appends to. */
  class SqliteArguments {
    var values: seq<SqliteArgumentValue>

    constructor ()
      ensures values == []
    {
      values := [];
    }
  }

  /** The integer SQLite stores: the i64 narrowing of the nanosecond count. The source
      panics ("timestamp too large") when that narrowing fails, so it is required. */
  function SqliteValue(t: Timestamp): (v: i64)
    requires AsNanos(t) <= I64_MAX
    ensures Convert.TryIntoI64(t) == Ok(v)
  {
    Convert.TryIntoI64(t).value
  }

  /** SQLite `encode_by_ref`: pushes one `Int64` onto the caller's arguments. */
  method SqliteEncodeByRef(t: Timestamp, args: SqliteArguments) returns (isNull: IsNull)
    requires AsNanos(t) <= I64_MAX
    modifies args
    ensures args.values == old(args.values) + [Int64(SqliteValue(t))]
    ensures isNull == No
  {
    args.values := args.values + [Int64(SqliteValue(t))];
    isNull := No;
  }

  /** SQLite `decode`: a negative count is rejected, any other is that many nanoseconds. */
  function SqliteDecode(v: i64): (r: Result<Timestamp, DecodeError>)
    ensures r.Ok? <==> v >= 0
    ensures r.Ok? ==> AsNanos(r.value) == v
    ensures r.Err? ==> r.error == CrateError(Convert(OutOfRange))
  {
    match Convert.TryFromI64(v)
    case Ok(t) => Ok(t)
    case Err(e) => Err(CrateError(e))
  }

  /** Every timestamp SQLite can store is decoded back unchanged. */
  lemma SqliteRoundTrip(t: Timestamp)
    requires AsNanos(t) <= I64_MAX
    ensures SqliteDecode(SqliteValue(t)) == Ok(t)
  {
    Convert.TimestampI64RoundTrip(t);
  }

  /** The integer PostgreSQL stores: microseconds narrowed to i64 (the source panics
      "timestamp too large" otherwise), then shifted to the 2000-01-01 epoch. The shift
      cannot overflow, since the microsecond count is never negative. */
  function PgValue(t: Timestamp): (us: i64)
    requires AsMicros(t) <= I64_MAX
    ensures us + J2000_EPOCH_US == AsMicros(t)
    ensures us < 0 <==> AsNanos(t) < J2000_EPOCH_US * Durations.NANOS_PER_MICRO
  {
    AsMicros(t) - J2000_EPOCH_US
  }

  /** The argument buffer PostgreSQL `encode_by_ref` writes to, as the sequence of i64
      values written (their big-endian byte form is the driver's). */
  class PgArgumentBuffer {
    var values: seq<i64>

    constructor ()
      ensures values == []
    {
      values := [];
    }
  }

  /** PostgreSQL `encode_by_ref`: writes the shifted microsecond count. */
  method PgEncodeByRef(t: Timestamp, buf: PgArgumentBuffer) returns (isNull: IsNull)
    requires AsMicros(t) <= I64_MAX
    modifies buf
    ensures buf.values == old(buf.values) + [PgValue(t)]
    ensures isNull == No
  {
    buf.values := buf.values + [PgValue(t)];
    isNull := No;
  }

  /** PostgreSQL `decode`: shifts back to the UNIX epoch and narrows to u64. The i64
      addition panics on overflow, so it is required not to; a negative sum (an instant
      before 1970) fails the narrowing. */
  function PgDecode(us: i64): (r: Result<Timestamp, DecodeError>)
    requires us + J2000_EPOCH_US <= I64_MAX
    ensures r.Ok? <==> us + J2000_EPOCH_US >= 0
    ensures r.Ok? ==> AsMicros(r.value) == us + J2000_EPOCH_US && r.value.d.nanos % Durations.NANOS_PER_MICRO == 0
    ensures r.Err? ==> r.error == TryFromIntError
  {
    var sum := us + J2000_EPOCH_US;
    if sum < 0 then Err(TryFromIntError) else Ok(FromMicros(sum))
  }

  /** Encoding then decoding keeps the instant to the microsecond. */
  lemma PgRoundTrip(t: Timestamp)
    requires AsMicros(t) <= I64_MAX
    ensures PgDecode(PgValue(t)) == Ok(FromMicros(AsMicros(t)))
  {
  }

  /** ... and is exact precisely when there are no sub-microsecond nanoseconds. */
  lemma PgRoundTripExactIff(t: Timestamp)
    requires AsMicros(t) <= I64_MAX
    ensures PgDecode(PgValue(t)) == Ok(t) <==> t.d.nanos % Durations.NANOS_PER_MICRO == 0
  {
    var back := FromMicros<Wall>(AsMicros(t));
    AsNanosInjective(back, t);
  }

  /** The 2000-01-01 epoch itself encodes as 0, and one second after it as 1_000_000,
      which decodes back to the same instant. */
  lemma PgEpochValues()
    ensures PgValue(FromMicros(946_684_800_000_000)) == 0
    ensures PgValue(FromMicros(946_684_800_000_000 + 1_000_000)) == 1_000_000
    ensures PgDecode(1_000_000) == Ok(FromMicros(946_684_800_000_000 + 1_000_000))
  {
  }
}
