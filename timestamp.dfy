/** The wall-clock `Timestamp` (src/timestamp.rs): comparison against an earlier
    instant and the ANSI (1601-01-01) <-> UNIX (1970-01-01) epoch shift. Sampling the
    system clock is not modelled: where the source reads it, the sample is a parameter. */
module Timestamps {
  import opened Ints
  import opened Wrappers
  import opened Errors
  import Durations
  import opened Common

  /** Nanoseconds from 1601-01-01 to 1970-01-01: 11_644_473_600 seconds. */
  const ANSI_EPOCH_DIFF_NANOS: u64 := 11_644_473_600_000_000_000

  /** `now_rounded`, given the clock sample `now`: the whole seconds of the sample,
      with the sub-second part dropped. */
  function NowRounded(now: Timestamp): (r: Timestamp)
    ensures AsSecs(r) == AsSecs(now) && r.d.nanos == 0
    ensures NotBefore(now, r) && AsNanos(now) - AsNanos(r) < Durations.NANOS_PER_SEC
  {
    Stamp(Durations.FromSecs(now.d.secs))
  }

  /** `duration_since`: the time from `earlier` to `self` when `self` is not before it,
      `TimeWentBackward` otherwise. */
  function DurationSince(self: Timestamp, earlier: Timestamp): (r: Result<Durations.Duration, Error>)
    ensures r.Ok? <==> AsNanos(earlier) <= AsNanos(self)
    ensures r.Ok? ==> Durations.AsNanos(r.value) == AsNanos(self) - AsNanos(earlier)
    ensures r.Err? ==> r.error == TimeWentBackward
  {
    OrderAgreesWithNanos(self, earlier);
    if NotBefore(self, earlier) then Ok(Durations.Sub(self.d, earlier.d)) else Err(TimeWentBackward)
  }

  /** `elapsed`, given the clock sample `now`: `duration_since` taken against that sample. */
  function Elapsed(self: Timestamp, now: Timestamp): (r: Result<Durations.Duration, Error>)
    ensures r.Ok? <==> AsNanos(self) <= AsNanos(now)
    ensures r.Ok? ==> Durations.AsNanos(r.value) == AsNanos(now) - AsNanos(self)
    ensures r.Err? ==> r.error == TimeWentBackward
  {
    OrderAgreesWithNanos(now, self);
    if NotBefore(now, self) then Ok(Durations.Sub(now.d, self.d)) else Err(TimeWentBackward)
  }

  lemma DurationSinceSelf(t: Timestamp)
    ensures DurationSince(t, t) == Ok(Durations.ZERO)
  {
    Durations.OrderAgreesWithNanos(DurationSince(t, t).value, Durations.ZERO);
  }

  /** On success, adding the result back to `earlier` gives `self` again, without overflow. */
  lemma DurationSinceAddBack(self: Timestamp, earlier: Timestamp)
    requires DurationSince(self, earlier).Ok?
    ensures Durations.AddFits(earlier.d, DurationSince(self, earlier).value)
    ensures Durations.Add(earlier.d, DurationSince(self, earlier).value) == self.d
  {
    var r := DurationSince(self, earlier).value;
    Durations.AddFitsIff(earlier.d, r);
    Durations.OrderAgreesWithNanos(Durations.Add(earlier.d, r), self.d);
  }

  /** A timestamp one second in the future has not elapsed yet. */
  lemma ElapsedInFuture(now: Timestamp)
    requires now.d.secs < U64_MAX
    ensures Elapsed(Stamp(Durations.Add(now.d, Durations.FromSecs(1))), now) == Err(TimeWentBackward)
  {
  }

  /** `try_from_ansi_to_unix`: subtracts the epoch difference from a u64 nanosecond count. */
  function TryFromAnsiToUnix(self: Timestamp): (r: Result<Timestamp, Error>)
    ensures AsNanos(self) > U64_MAX ==> r == Err(Convert(OutOfRange))
    ensures AsNanos(self) <= U64_MAX && AsNanos(self) < ANSI_EPOCH_DIFF_NANOS ==> r == Err(Convert(AnsiToUnix))
    ensures r.Ok? <==> ANSI_EPOCH_DIFF_NANOS <= AsNanos(self) <= U64_MAX
    ensures r.Ok? ==> AsNanos(r.value) == AsNanos(self) - ANSI_EPOCH_DIFF_NANOS
  {
    var n := AsNanos(self);
    if n > U64_MAX then Err(Convert(OutOfRange))
    else if n < ANSI_EPOCH_DIFF_NANOS then Err(Convert(AnsiToUnix))
    else Ok(FromNanos(n - ANSI_EPOCH_DIFF_NANOS))
  }

  /** `try_from_unix_to_ansi`: adds the epoch difference to a u64 nanosecond count. */
  function TryFromUnixToAnsi(self: Timestamp): (r: Result<Timestamp, Error>)
    ensures AsNanos(self) > U64_MAX ==> r == Err(Convert(OutOfRange))
    ensures AsNanos(self) <= U64_MAX && AsNanos(self) + ANSI_EPOCH_DIFF_NANOS > U64_MAX ==> r == Err(Convert(UnixToAnsi))
    ensures r.Ok? <==> AsNanos(self) + ANSI_EPOCH_DIFF_NANOS <= U64_MAX
    ensures r.Ok? ==> AsNanos(r.value) == AsNanos(self) + ANSI_EPOCH_DIFF_NANOS
  {
    var n := AsNanos(self);
    if n > U64_MAX then Err(Convert(OutOfRange))
    else if n + ANSI_EPOCH_DIFF_NANOS > U64_MAX then Err(Convert(UnixToAnsi))
    else Ok(FromNanos(n + ANSI_EPOCH_DIFF_NANOS))
  }

  /** Shifting to the ANSI epoch and back is the identity whenever the shift succeeds. */
  lemma UnixAnsiRoundTrip(t: Timestamp)
    requires TryFromUnixToAnsi(t).Ok?
    ensures TryFromAnsiToUnix(TryFromUnixToAnsi(t).value) == Ok(t)
  {
    var back := TryFromAnsiToUnix(TryFromUnixToAnsi(t).value);
    AsNanosInjective(back.value, t);
  }

  /** And in the other direction, whenever the first shift succeeds. */
  lemma AnsiUnixRoundTrip(t: Timestamp)
    requires TryFromAnsiToUnix(t).Ok?
    ensures TryFromUnixToAnsi(TryFromAnsiToUnix(t).value) == Ok(t)
  {
    var back := TryFromUnixToAnsi(TryFromAnsiToUnix(t).value);
    AsNanosInjective(back.value, t);
  }

  /** The documented example: Windows ticks 133_575_013_473_650_000 (times 100 for
      nanoseconds) are UNIX nanoseconds 1_713_027_747_365_000_000. */
  lemma AnsiExample()
    ensures var r := TryFromAnsiToUnix(FromNanos(133_575_013_473_650_000 * 100));
      r.Ok? && AsNanos(r.value) == 1_713_027_747_365_000_000
  {
  }
}
