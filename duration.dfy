/** The standard library's `Duration`, the single field of both `Timestamp` and
    `Monotonic`: whole seconds as a u64 plus a sub-second nanosecond part that is
    always below one second. Only the operations the library calls are modelled. */
module Durations {
  import opened Ints

  const NANOS_PER_SEC: int := 1_000_000_000
  const NANOS_PER_MILLI: int := 1_000_000
  const NANOS_PER_MICRO: int := 1_000
  const MILLIS_PER_SEC: int := 1_000
  const MICROS_PER_SEC: int := 1_000_000

  /** Largest nanosecond count a `Duration` can hold: u64::MAX seconds and 999_999_999 ns. */
  const MAX_NANOS: int := 0xFFFF_FFFF_FFFF_FFFF * 1_000_000_000 + 999_999_999

  /** The normalised sub-second part; the range is the type, so every `Duration` is normalised. */
  type Nanoseconds = n: int | 0 <= n < 1_000_000_000

  datatype Duration = Duration(secs: u64, nanos: Nanoseconds)

  const ZERO: Duration := Duration(0, 0)

  /** `as_nanos`: the total nanosecond count. Seconds and sub-second part are
      recoverable from it, so distinct durations have distinct counts. */
  function AsNanos(d: Duration): (r: u128)
    ensures r <= MAX_NANOS
    ensures r / NANOS_PER_SEC == d.secs && r % NANOS_PER_SEC == d.nanos
  {
    d.secs * NANOS_PER_SEC + d.nanos
  }

  /** `as_secs`: whole seconds, i.e. the nanosecond count truncated to seconds. */
  function AsSecs(d: Duration): (r: u64)
    ensures r == AsNanos(d) / NANOS_PER_SEC
  {
    d.secs
  }

  /** `as_micros`: the nanosecond count truncated to microseconds. */
  function AsMicros(d: Duration): (r: u128)
    ensures r == AsNanos(d) / NANOS_PER_MICRO
  {
    var r := d.secs * MICROS_PER_SEC + d.nanos / NANOS_PER_MICRO;
    assert AsNanos(d) == r * NANOS_PER_MICRO + d.nanos % NANOS_PER_MICRO;
    r
  }

  /** `as_millis`: the nanosecond count truncated to milliseconds. */
  function AsMillis(d: Duration): (r: u128)
    ensures r == AsNanos(d) / NANOS_PER_MILLI
  {
    var r := d.secs * MILLIS_PER_SEC + d.nanos / NANOS_PER_MILLI;
    assert AsNanos(d) == r * NANOS_PER_MILLI + d.nanos % NANOS_PER_MILLI;
    r
  }

  /** `Duration::from_secs`: exact, with no sub-second part. */
  function FromSecs(s: u64): (d: Duration)
    ensures AsSecs(d) == s && d.nanos == 0
    ensures AsNanos(d) == s * NANOS_PER_SEC
  {
    Duration(s, 0)
  }

  /** `Duration::from_millis`: exact. */
  function FromMillis(m: u64): (d: Duration)
    ensures AsNanos(d) == m * NANOS_PER_MILLI
  {
    Duration(m / MILLIS_PER_SEC, (m % MILLIS_PER_SEC) * NANOS_PER_MILLI)
  }

  /** `Duration::from_micros`: exact. */
  function FromMicros(u: u64): (d: Duration)
    ensures AsNanos(d) == u * NANOS_PER_MICRO
  {
    Duration(u / MICROS_PER_SEC, (u % MICROS_PER_SEC) * NANOS_PER_MICRO)
  }

  /** `Duration::from_nanos`: exact. */
  function FromNanos(n: u64): (d: Duration)
    ensures AsNanos(d) == n
  {
    Duration(n / NANOS_PER_SEC, n % NANOS_PER_SEC)
  }

  /** The derived `PartialOrd`: lexicographic on (secs, nanos). */
  predicate Less(a: Duration, b: Duration)
  {
    a.secs < b.secs || (a.secs == b.secs && a.nanos < b.nanos)
  }

  predicate LessEq(a: Duration, b: Duration)
  {
    a.secs < b.secs || (a.secs == b.secs && a.nanos <= b.nanos)
  }

  /** The derived ordering agrees with the ordering of the nanosecond counts. */
  lemma OrderAgreesWithNanos(a: Duration, b: Duration)
    ensures Less(a, b) <==> AsNanos(a) < AsNanos(b)
    ensures LessEq(a, b) <==> AsNanos(a) <= AsNanos(b)
    ensures a == b <==> AsNanos(a) == AsNanos(b)
  {
    var x, y := AsNanos(a), AsNanos(b);
    assert x == a.secs * NANOS_PER_SEC + a.nanos;
    assert y == b.secs * NANOS_PER_SEC + b.nanos;
    if a.secs < b.secs {
      assert a.secs * NANOS_PER_SEC + NANOS_PER_SEC <= b.secs * NANOS_PER_SEC;
    } else if b.secs < a.secs {
      assert b.secs * NANOS_PER_SEC + NANOS_PER_SEC <= a.secs * NANOS_PER_SEC;
    }
  }

  /** What `checked_add` demands before `+` would panic: the seconds sum, plus the
      carry out of the nanosecond sum, fits in a u64. */
  predicate AddFits(a: Duration, b: Duration)
  {
    a.secs + b.secs + (if a.nanos + b.nanos >= NANOS_PER_SEC then 1 else 0) <= U64_MAX
  }

  /** `+` succeeds exactly when the exact nanosecond sum is representable. */
  lemma AddFitsIff(a: Duration, b: Duration)
    ensures AddFits(a, b) <==> AsNanos(a) + AsNanos(b) <= MAX_NANOS
  {
    var s := a.secs + b.secs;
    assert AsNanos(a) + AsNanos(b) == s * NANOS_PER_SEC + a.nanos + b.nanos;
  }

  /** `Duration + Duration`: adds the nanosecond counts, carrying into seconds. */
  function Add(a: Duration, b: Duration): (r: Duration)
    requires AddFits(a, b)
    ensures AsNanos(r) == AsNanos(a) + AsNanos(b)
  {
    if a.nanos + b.nanos >= NANOS_PER_SEC then
      Duration(a.secs + b.secs + 1, a.nanos + b.nanos - NANOS_PER_SEC)
    else
      Duration(a.secs + b.secs, a.nanos + b.nanos)
  }

  /** `Duration - Duration`: panics unless the subtrahend is not larger, so that is
      required; borrows a second when the nanosecond part would go negative. */
  function Sub(a: Duration, b: Duration): (r: Duration)
    requires LessEq(b, a)
    ensures AsNanos(r) == AsNanos(a) - AsNanos(b)
  {
    if a.nanos >= b.nanos then
      Duration(a.secs - b.secs, a.nanos - b.nanos)
    else
      Duration(a.secs - b.secs - 1, a.nanos + NANOS_PER_SEC - b.nanos)
  }
}
