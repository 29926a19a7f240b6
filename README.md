# bma-ts time values: a Dafny model of the arithmetic and conversion layer

This project models the integer core of the `bma-ts` Rust crate. The crate has two
value types, the wall-clock `Timestamp` and the `Monotonic` instant. Each wraps one
standard-library `Duration`, a `(secs: u64, nanos: u32)` pair with `nanos < 1_000_000_000`.
The model covers:

- the unit accessors and constructors, `abs_diff` and `Display`;
- `duration_since` and `elapsed`, which return `TimeWentBackward` when time appears to run backwards;
- the shift between the ANSI epoch (1601-01-01) and the UNIX epoch (1970-01-01);
- the checked narrowings to and from `u64`, `i64` and `u128`, and the integer branch of `FromStr`;
- `Timestamp ± Duration`;
- the SQLite and PostgreSQL column encodings;
- the integer-mode bincode encoding.

Module layout, one file per source file:

| file | module | models |
|---|---|---|
| `ints.dfy` | `Ints` | the Rust integer widths as subset types of `int` |
| `wrappers.dfy` | `Wrappers` | `Option`, `Result` |
| `error.dfy` | `Errors` | `src/error.rs`: `Parse`, `ConvertChrono`, `Convert`, `TimeWentBackward` |
| `duration.dfy` | `Durations` | the standard `Duration`: accessors, constructors, ordering, `+`, `-` |
| `decimal.dfy` | `Decimal` | integer `Display` and `str::parse::<u64>` |
| `common.dfy` | `Common` | `src/common.rs`, once for both types |
| `timestamp.dfy` | `Timestamps` | `src/timestamp.rs` |
| `convert.dfy` | `Convert` | `src/convert.rs` |
| `operations.dfy` | `Operations` | `src/operations.rs` |
| `impl_sqlx.dfy` | `Sqlx` | `src/impl_sqlx.rs` |
| `impl_bincode.dfy` | `Bincode` | `src/impl_bincode.rs` |

The `impl_common!` macro stamps the same body onto both types. The model writes that
body once, over `Stamp<Kind>`. `Kind` is a phantom marker: `Timestamp = Stamp<Wall>` and
`Monotonic = Stamp<Mono>`. So every property proved in `Common` and `Bincode` holds for
both types. For `Monotonic`, the model reads the conversion `u64 -> Monotonic` used by
its bincode decoder as `from_nanos`, and `Monotonic -> Duration`, used by `as_duration`,
as the wrapped field; neither conversion is defined in the files modelled here.

The `Duration` type has a `Nanoseconds` field whose subset type is `0 <= n < 1_000_000_000`, so every value in the model is normalised by construction.

Where the source panics, the model has a precondition instead. This covers `Duration`'s
`+` on seconds overflow and `-` on underflow. It also covers the `expect` and `unwrap`
calls in the SQLite, PostgreSQL and bincode encoders, and the i64 addition in the
PostgreSQL decoder. Where the source returns an error, the model returns `Err` with the
same kind.

Two points where the model follows the code closely:

- `Timestamp + Duration` and `Timestamp - Duration` use `Duration`'s operators, which
  panic on overflow and underflow. The model requires what avoids the panic; it returns
  no error for them.
- `try_from_unix_to_ansi` fails in two ways. It fails when the count exceeds u64, before
  the addition, and it fails when the shifted sum overflows u64. Both are modelled.
  `try_from_ansi_to_unix` likewise fails when the count exceeds u64, and when the count
  is below the epoch difference.

## Model

| member | source | states |
|---|---|---|
| Durations.AsNanos | src/common.rs:57-59 | the nanosecond count is at most the largest `Duration`, and seconds and sub-second nanos are recovered from it by division and remainder |
| Durations.AsSecs | src/common.rs:17-19 | whole seconds are the nanosecond count truncated to seconds |
| Durations.AsMicros | src/common.rs:41-43 | microseconds are the nanosecond count truncated to microseconds |
| Durations.AsMillis | src/common.rs:49-51 | milliseconds are the nanosecond count truncated to milliseconds |
| Durations.FromSecs | src/common.rs:21-23 | `from_secs(s)` has `s` whole seconds, no sub-second part, and `s*1e9` nanoseconds |
| Durations.FromMillis | src/common.rs:53-55 | `from_millis(m)` has exactly `m*1e6` nanoseconds |
| Durations.FromMicros | src/common.rs:45-47 | `from_micros(u)` has exactly `u*1000` nanoseconds |
| Durations.FromNanos | src/common.rs:61-63 | `from_nanos(n)` has exactly `n` nanoseconds |
| Durations.OrderAgreesWithNanos | src/timestamp.rs:10-11 | the derived `PartialOrd`, modelled by the predicates `Less` and `LessEq` as the lexicographic order on (secs, nanos), agrees with the order of the nanosecond counts, and so does equality |
| Durations.AddFitsIff | src/operations.rs:9-11 | the predicate `AddFits` is `checked_add`'s no-panic condition: the seconds sum plus the nanosecond carry fits in u64. It holds exactly when the exact nanosecond sum is representable |
| Durations.Add | src/operations.rs:9-11 | the sum's nanosecond count is the sum of the counts, with the carry normalised |
| Durations.Sub | src/operations.rs:17-19 | if the subtrahend is not larger, the difference's nanosecond count is the difference of the counts |
| Decimal.ToDecimal | src/common.rs:69-73 | integer `Display` is canonical decimal text whose value is the number |
| Decimal.ParseU64 | src/convert.rs:12 | `parse::<u64>` accepts only a digit string or `+` followed by a digit string, so never a leading `-` or any other non-digit; a plain digit string is accepted exactly when its value fits in u64 (larger ones are rejected), and it then gives that value |
| Decimal.ParseToDecimal | src/convert.rs:11-14 | `parse::<u64>` of the decimal text of any u64 gives that u64 back |
| Decimal.ParseU64Plus | src/convert.rs:11-14 | `parse::<u64>` accepts one leading `+` with no effect on the value |
| Decimal.ParseU64RejectsMinus | src/convert.rs:11-14 | `parse::<u64>` rejects a leading `-` |
| Decimal.CanonicalIsToDecimal | src/common.rs:69-73 | every canonical decimal string is the `Display` of its own value, so `Display` is a bijection onto canonical text |
| Decimal.ValueLeadingZeros | src/convert.rs:11-14 | leading zeros do not change the value of a digit string |
| Decimal.ParseLeadingZeros | src/convert.rs:11-14 | `parse::<u64>` accepts leading zeros in front of the decimal text of a u64 and gives that u64 |
| Common.AsNanos | src/common.rs:57-59 | `as_nanos` is bounded and determines secs and subsec nanos |
| Common.AsSecs | src/common.rs:17-19 | `as_secs` is `as_nanos / 1e9` |
| Common.AsMicros | src/common.rs:41-43 | `as_micros` is `as_nanos / 1000` |
| Common.AsMillis | src/common.rs:49-51 | `as_millis` is `as_nanos / 1e6` |
| Common.FromSecs | src/common.rs:21-23 | `from_secs(s).as_secs() == s`, the subsecond part is zero, `as_nanos == s*1e9` |
| Common.FromMillis | src/common.rs:53-55 | `from_millis(m)` has `as_millis == m`, `as_micros == m*1000`, `as_nanos == m*1e6` |
| Common.FromMicros | src/common.rs:45-47 | `from_micros(u)` has `as_micros == u`, `as_nanos == u*1000`, `as_millis == u/1000` |
| Common.FromNanos | src/common.rs:61-63 | `from_nanos(n)` has `as_nanos == n`, and the micros, millis and secs accessors truncate `n` |
| Common.AsDuration | src/common.rs:64-67 | `as_duration` gives the wrapped duration, which rebuilds the same value |
| Common.FromNanosAsNanos | src/common.rs:57-63 | `from_nanos(t.as_nanos()) == t` whenever the count fits in u64 |
| Common.AsNanosInjective | src/common.rs:57-59 | two values are equal exactly when their nanosecond counts are |
| Common.OrderAgreesWithNanos | src/timestamp.rs:10-11 | `a > b` and `a >= b` on either type agree with `as_nanos` |
| Common.AbsDiff | src/common.rs:9-15 | `abs_diff` never panics and its `as_nanos` is `abs(a.as_nanos - b.as_nanos)` |
| Common.AbsDiffSymmetric | src/common.rs:9-15 | `abs_diff(a, b) == abs_diff(b, a)` |
| Common.AbsDiffSelf | src/common.rs:9-15 | `abs_diff(a, a)` is zero |
| Common.AbsDiffZeroIff | src/common.rs:9-15 | `abs_diff(a, b)` is zero exactly when `a == b` |
| Common.Display | src/common.rs:69-73 | `Display` is the canonical decimal text of `as_nanos` |
| Common.DisplayInjective | src/common.rs:69-73 | different values display differently |
| Common.FromNanosFixture | src/tests.rs:13-18 | the `from_nanos` test: exact nanos, millis `n/1e6`, micros `n/1000` |
| Common.FromMicrosFixture | src/tests.rs:19-24 | the `from_micros` test: micros exact, millis `/1000`, nanos `*1000` |
| Common.FromMillisFixture | src/tests.rs:25-30 | the `from_millis` test: millis exact, micros `*1000`, nanos `*1e6` |
| Timestamps.NowRounded | src/timestamp.rs:26-29 | the rounded value keeps the sample's whole seconds, has zero sub-second nanos, is not after the sample, and is less than one second before it |
| Timestamps.DurationSince | src/timestamp.rs:40-46 | `Ok(self - earlier)` exactly when `earlier <= self`, otherwise `Err(TimeWentBackward)` |
| Timestamps.Elapsed | src/timestamp.rs:31-38 | against the sample `now`: `Ok(now - self)` exactly when `self <= now`, otherwise `Err(TimeWentBackward)` |
| Timestamps.DurationSinceSelf | src/timestamp.rs:40-46 | `t.duration_since(t)` is zero |
| Timestamps.DurationSinceAddBack | src/timestamp.rs:40-46 | on success, `earlier + result` does not overflow and equals `self` |
| Timestamps.ElapsedInFuture | src/timestamp.rs:31-38 | a timestamp one second after the sample gives `TimeWentBackward` |
| Timestamps.TryFromAnsiToUnix | src/timestamp.rs:61-67 | fails with `Convert` when `as_nanos > u64::MAX` or `as_nanos < 11_644_473_600_000_000_000`; otherwise subtracts that offset |
| Timestamps.TryFromUnixToAnsi | src/timestamp.rs:71-77 | fails with `Convert` when `as_nanos > u64::MAX` or the sum with the offset exceeds u64; otherwise adds the offset |
| Timestamps.UnixAnsiRoundTrip | src/timestamp.rs:61-77 | whenever `unix_to_ansi(t)` succeeds, `ansi_to_unix` of it is `t` |
| Timestamps.AnsiUnixRoundTrip | src/timestamp.rs:61-77 | whenever `ansi_to_unix(t)` succeeds, `unix_to_ansi` of it is `t` |
| Timestamps.AnsiExample | src/timestamp.rs:56-59 | Windows ticks 133_575_013_473_650_000 × 100 shift to UNIX nanos 1_713_027_747_365_000_000 |
| Convert.FromDuration | src/convert.rs:27-31 | `Timestamp::from(d)` has the duration's nanosecond count and converts back to `d` |
| Convert.IntoDuration | src/convert.rs:33-37 | `Duration::from(t)` has the timestamp's nanosecond count |
| Convert.TimestampDurationRoundTrip | src/convert.rs:27-37 | Timestamp → Duration → Timestamp is the identity |
| Convert.TryFromI64 | src/convert.rs:41-46 | fails with `Convert` exactly when `v < 0`, otherwise gives `v` nanoseconds |
| Convert.TryIntoI64 | src/convert.rs:48-53 | succeeds exactly when `as_nanos <= i64::MAX`, giving `as_nanos`; otherwise fails with `Convert` |
| Convert.I64RoundTrip | src/convert.rs:41-53 | every non-negative i64 survives i64 → Timestamp → i64 |
| Convert.TimestampI64RoundTrip | src/convert.rs:41-53 | a timestamp that narrows to i64 is rebuilt from that i64 |
| Convert.FromU64 | src/convert.rs:57-61 | `Timestamp::from(n)` has `n` nanoseconds |
| Convert.TryIntoU64 | src/convert.rs:63-68 | fails with `Convert` exactly when `as_nanos > u64::MAX`, otherwise gives `as_nanos` |
| Convert.U64RoundTrip | src/convert.rs:57-68 | `u64::try_from(Timestamp::from(n)) == Ok(n)` for every u64 |
| Convert.TimestampU64RoundTrip | src/convert.rs:57-68 | a timestamp that narrows to u64 is rebuilt from that u64 |
| Convert.IntoU128 | src/convert.rs:72-76 | `u128::from(t) == t.as_nanos()` for every timestamp, including counts above u64::MAX; when it fits in u64 it converts back to `t` |
| Convert.TryFromU128 | src/convert.rs:78-83 | fails with `Convert` exactly when `v > u64::MAX`, otherwise gives `v` nanoseconds |
| Convert.U128RoundTrip | src/convert.rs:72-83 | u128 → Timestamp → u128 is exact on every accepted value |
| Convert.FromStr | src/convert.rs:10-22 | a string that parses as u64 gives that many nanoseconds with no fallback; any other string gives the calendar parser's outcome |
| Convert.FromStrDisplay | src/convert.rs:10-14 | `FromStr` of the `Display` text gives the timestamp back when its count fits in u64 |
| Convert.FromStrPlus | src/convert.rs:10-14 | the same holds with a leading `+` |
| Convert.FromStrLeadingZeros | src/convert.rs:10-14 | `FromStr` of the `Display` text with leading zeros still gives the timestamp |
| Convert.FromStrCanonical | src/convert.rs:10-14 | canonical decimal text within u64 is parsed by the integer branch, and the result displays as that same text |
| Convert.FromStrOverflowFallsBack | src/convert.rs:10-22 | a digit string whose value exceeds u64::MAX goes to the calendar-string parser and yields its outcome |
| Convert.FromStrNonDigitFallsBack | src/convert.rs:10-22 | a string with a non-digit character, other than one leading `+`, goes to the calendar-string parser and yields its outcome |
| Convert.FromStrDateFallsBack | src/convert.rs:10-22 | the calendar date `2024-01-01` goes to the calendar-string parser |
| Operations.Add | src/operations.rs:9-11 | `(t + d).as_nanos == t.as_nanos + d.as_nanos`, provided the seconds sum with carry fits in u64 |
| Operations.Sub | src/operations.rs:17-19 | `(t - d).as_nanos == t.as_nanos - d.as_nanos`, provided `d <= t` |
| Operations.AsRef | src/operations.rs:28-32 | `as_ref()` gives the wrapped duration unchanged, the same one `as_duration` gives |
| Operations.AddThenSub | src/operations.rs:9-19 | `(t + d) - d == t` whenever `t + d` does not overflow |
| Operations.SubThenAdd | src/operations.rs:9-19 | `(t - d) + d == t` whenever `t - d` does not underflow |
| Operations.AddNotBefore | src/operations.rs:9-11 | `t + d >= t` |
| Operations.SubNotAfter | src/operations.rs:17-19 | `t - d <= t` |
| Operations.AddDefinedIff | src/operations.rs:9-11 | `t + d` avoids the panic exactly when the exact sum is at most the largest `Duration` |
| Operations.SubDefinedIff | src/operations.rs:17-19 | `t - d` avoids the panic exactly when `d.as_nanos <= t.as_nanos` |
| Sqlx.SqliteValue | src/impl_sqlx.rs:21-27 | the stored integer is the successful i64 narrowing of `as_nanos`, which is required |
| Sqlx.SqliteEncodeByRef | src/impl_sqlx.rs:21-27 | appends exactly one `Int64(as_nanos)` to the caller's arguments and reports not-NULL |
| Sqlx.SqliteDecode | src/impl_sqlx.rs:29-33 | a negative i64 fails with the crate's `Convert`; a non-negative `v` gives `v` nanoseconds |
| Sqlx.SqliteRoundTrip | src/impl_sqlx.rs:21-33 | `decode(encode(t)) == t` whenever `as_nanos <= i64::MAX` |
| Sqlx.PgValue | src/impl_sqlx.rs:44-50 | the stored integer is `as_micros - 946_684_800_000_000`, negative exactly for instants before 2000-01-01, with `as_micros <= i64::MAX` required |
| Sqlx.PgEncodeByRef | src/impl_sqlx.rs:46-50 | writes exactly that integer to the buffer and reports not-NULL |
| Sqlx.PgDecode | src/impl_sqlx.rs:55-59 | gives `from_micros(us + 946_684_800_000_000)`, fails when that sum is negative, and requires the sum not to overflow i64 |
| Sqlx.PgRoundTrip | src/impl_sqlx.rs:44-59 | `decode(encode(t)) == from_micros(t.as_micros())` |
| Sqlx.PgRoundTripExactIff | src/impl_sqlx.rs:44-59 | the PostgreSQL round trip is exact exactly when the subsec nanos are divisible by 1000 |
| Sqlx.PgEpochValues | src/impl_sqlx.rs:44-59 | 2000-01-01 encodes as 0; one second later encodes as 1_000_000 and decodes back |
| Bincode.EncodedValue | src/impl_bincode.rs:14-15 | the written u64 is the one whose `from_nanos` is the value, i.e. exactly `as_nanos`; it is required to fit |
| Bincode.DecodedValue | src/impl_bincode.rs:35-36 | the decoded value has the read u64 as its nanosecond count |
| Bincode.Encode | src/impl_bincode.rs:53-61 | appends exactly one u64, the nanosecond count, to the encoder's output |
| Bincode.Decode | src/impl_bincode.rs:63-70 | consumes one u64 and gives `from_nanos` of it, or fails on empty input |
| Bincode.RoundTrip | src/impl_bincode.rs:9-38 | `decode(encode(t)) == t` for both types |
| Bincode.EncodeThenDecode | src/impl_bincode.rs:79-95 | encoding to a fresh buffer and decoding from it gives `Ok(t)` |
| Bincode.Fixtures | src/impl_bincode.rs:79-95 | 1.5 s as a `Timestamp` and 2.5 s as a `Monotonic` are written as their nanosecond counts and read back |

## Left out

- Clock sampling: `Timestamp::now`, `Monotonic::now`/`now_rounded`/`elapsed`, and `Default`, which samples the clock. These are operating-system I/O. `now_rounded` and `Timestamp::elapsed` take the clock sample as a parameter.
- The lazily initialised `STARTED_AT` reference instant of non-UNIX platforms. It is process-wide initialisation.
- Floating-point seconds: `as_/from_secs_f64`, `as_/from_secs_f32`, the `f32`/`f64` conversions, the `as-float-secs` variants of `FromStr` and bincode, and the float test assertions. They depend on IEEE rounding.
- The calendar adapters for `chrono` and `time`, and the `ConvertChrono` error they raise. They are thin wrappers over external crates.
- The `dateparser` fallback of `FromStr`. It is an external parser; the model takes its outcome as a parameter.
- The serde serializer and visitor. They are framework wiring.
- sqlx `type_info`/`compatible` metadata, and the driver's decoding of a column into an i64. The PostgreSQL buffer and the bincode streams are sequences of integers; the byte layout of those integers is not modelled.
- `impl_borrow_decode!` and `AsRef<Timestamp> for Timestamp`. Both are identity plumbing.
- The text of error messages. `Convert` carries which conversion failed, not the message string.
- Bincode.Encode: the errors of the generic encoder's writer are not modelled. A slice writer can run out of space and an I/O writer can fail; the model's output sequence always accepts the value.
- Sqlx.PgDecode: the i64 overflow of `us + 946_684_800_000_000` is a precondition. This matches an overflow-checked build, which panics; a build without overflow checks would wrap instead.
