/** The members that `impl_common!` stamps onto both `Timestamp` and `Monotonic`
    (src/common.rs). They are written once, over `Stamp<Kind>`, where the phantom
    `Kind` keeps the two types apart exactly as the two Rust newtypes do. */
module Common {
  import opened Ints
  import opened Durations
  import Decimal

  /** A newtype around one `Duration`; equality and ordering are the duration's. */
  datatype Stamp<Kind> = Stamp(d: Duration)

  /** Marker of the wall-clock type (src/timestamp.rs). */
  datatype Wall = Wall
  /** Marker of the monotonic type (src/monotonic.rs). */
  datatype Mono = Mono

  type Timestamp = Stamp<Wall>
  type Monotonic = Stamp<Mono>

  /** `a >= b` and `a > b` by the derived ordering. */
  predicate NotBefore<K>(a: Stamp<K>, b: Stamp<K>)
  {
    LessEq(b.d, a.d)
  }

  predicate After<K>(a: Stamp<K>, b: Stamp<K>)
  {
    Less(b.d, a.d)
  }

  function AsNanos<K>(t: Stamp<K>): (r: u128)
    ensures r <= MAX_NANOS
    ensures r / NANOS_PER_SEC == t.d.secs && r % NANOS_PER_SEC == t.d.nanos
  {
    Durations.AsNanos(t.d)
  }

  function AsMicros<K>(t: Stamp<K>): (r: u128)
    ensures r == AsNanos(t) / NANOS_PER_MICRO
  {
    Durations.AsMicros(t.d)
  }

  function AsMillis<K>(t: Stamp<K>): (r: u128)
    ensures r == AsNanos(t) / NANOS_PER_MILLI
  {
    Durations.AsMillis(t.d)
  }

  function AsSecs<K>(t: Stamp<K>): (r: u64)
    ensures r == AsNanos(t) / NANOS_PER_SEC
  {
    Durations.AsSecs(t.d)
  }

  /** `from_secs`: round-trips through `as_secs` and has no sub-second part. */
  function FromSecs<K>(s: u64): (t: Stamp<K>)
    ensures AsSecs(t) == s && t.d.nanos == 0
    ensures AsNanos(t) == s * NANOS_PER_SEC
  {
    Stamp(Durations.FromSecs(s))
  }

  /** `from_millis`: exact in its own unit and in the finer ones. */
  function FromMillis<K>(m: u64): (t: Stamp<K>)
    ensures AsMillis(t) == m
    ensures AsMicros(t) == m * 1_000
    ensures AsNanos(t) == m * NANOS_PER_MILLI
  {
    Stamp(Durations.FromMillis(m))
  }

  /** `from_micros`: exact in its own unit and the finer one, truncating in milliseconds. */
  function FromMicros<K>(u: u64): (t: Stamp<K>)
    ensures AsMicros(t) == u
    ensures AsNanos(t) == u * NANOS_PER_MICRO
    ensures AsMillis(t) == u / 1_000
  {
    Stamp(Durations.FromMicros(u))
  }

  /** `from_nanos`: exact, and the coarser accessors truncate. */
  function FromNanos<K>(n: u64): (t: Stamp<K>)
    ensures AsNanos(t) == n
    ensures AsMicros(t) == n / NANOS_PER_MICRO
    ensures AsMillis(t) == n / NANOS_PER_MILLI
    ensures AsSecs(t) == n / NANOS_PER_SEC
  {
    Stamp(Durations.FromNanos(n))
  }

  /** `as_duration`: the wrapped duration, from which the value is rebuilt unchanged. */
  function AsDuration<K>(t: Stamp<K>): (r: Duration)
    ensures Stamp(r) == t
  {
    t.d
  }

  /** Every count that fits in a u64 is rebuilt exactly by `from_nanos`. */
  lemma FromNanosAsNanos<K>(t: Stamp<K>)
    requires AsNanos(t) <= U64_MAX
    ensures FromNanos<K>(AsNanos(t)) == t
  {
  }

  /** Distinct stamps have distinct nanosecond counts. */
  lemma AsNanosInjective<K>(a: Stamp<K>, b: Stamp<K>)
    ensures AsNanos(a) == AsNanos(b) <==> a == b
  {
  }

  /** The derived ordering agrees with the nanosecond counts. */
  lemma OrderAgreesWithNanos<K>(a: Stamp<K>, b: Stamp<K>)
    ensures After(a, b) <==> AsNanos(a) > AsNanos(b)
    ensures NotBefore(a, b) <==> AsNanos(a) >= AsNanos(b)
  {
    Durations.OrderAgreesWithNanos(b.d, a.d);
  }

  /** `abs_diff`: the distance between the two nanosecond counts, whichever is later;
      never panics because the larger one is always the minuend. */
  function AbsDiff<K>(a: Stamp<K>, b: Stamp<K>): (r: Duration)
    ensures Durations.AsNanos(r) ==
      if AsNanos(a) >= AsNanos(b) then AsNanos(a) - AsNanos(b) else AsNanos(b) - AsNanos(a)
  {
    OrderAgreesWithNanos(a, b);
    if After(a, b) then Sub(a.d, b.d) else Sub(b.d, a.d)
  }

  lemma AbsDiffSymmetric<K>(a: Stamp<K>, b: Stamp<K>)
    ensures AbsDiff(a, b) == AbsDiff(b, a)
  {
    Durations.OrderAgreesWithNanos(AbsDiff(a, b), AbsDiff(b, a));
  }

  lemma AbsDiffSelf<K>(a: Stamp<K>)
    ensures AbsDiff(a, a) == ZERO
  {
    Durations.OrderAgreesWithNanos(AbsDiff(a, a), ZERO);
  }

  /** `abs_diff` is zero exactly on equal arguments. */
  lemma AbsDiffZeroIff<K>(a: Stamp<K>, b: Stamp<K>)
    ensures AbsDiff(a, b) == ZERO <==> a == b
  {
    Durations.OrderAgreesWithNanos(AbsDiff(a, b), ZERO);
    AsNanosInjective(a, b);
  }

  /** `Display`: the canonical decimal text of the nanosecond count. */
  function Display<K>(t: Stamp<K>): (s: string)
    ensures Decimal.IsCanonical(s) && Decimal.Value(s) == AsNanos(t)
  {
    Decimal.ToDecimal(AsNanos(t))
  }

  /** Two stamps display the same text only if they are equal. */
  lemma DisplayInjective<K>(a: Stamp<K>, b: Stamp<K>)
    requires Display(a) == Display(b)
    ensures a == b
  {
    AsNanosInjective(a, b);
  }

  /** The `from_nanos` fixture of src/tests.rs:13-18. */
  lemma FromNanosFixture()
    ensures var t := FromNanos<Wall>(1_632_093_707_123_456_789);
      && AsNanos(t) == 1_632_093_707_123_456_789
      && AsMillis(t) == 1_632_093_707_123
      && AsMicros(t) == 1_632_093_707_123_456
  {
  }

  /** The `from_micros` fixture of src/tests.rs:19-24. */
  lemma FromMicrosFixture()
    ensures var t := FromMicros<Wall>(1_632_093_707_123_456);
      && AsMillis(t) == 1_632_093_707_123
      && AsMicros(t) == 1_632_093_707_123_456
      && AsNanos(t) == 1_632_093_707_123_456_000
  {
  }

  /** The `from_millis` fixture of src/tests.rs:25-30. */
  lemma FromMillisFixture()
    ensures var t := FromMillis<Wall>(1_632_093_707_123);
      && AsMillis(t) == 1_632_093_707_123
      && AsMicros(t) == 1_632_093_707_123_000
      && AsNanos(t) == 1_632_093_707_123_000_000
  {
  }
}
