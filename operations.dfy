/** `Timestamp + Duration`, `Timestamp - Duration` and `AsRef<Duration>`
    (src/operations.rs). Both operators panic where the standard `Duration` operators
    do, so the model requires what avoids the panic. */
module Operations {
  import Durations
  import opened Common

  /** `t + d`: shifts the instant later by `d`; requires the sum to be representable. */
  function Add(t: Timestamp, d: Durations.Duration): (r: Timestamp)
    requires Durations.AddFits(t.d, d)
    ensures AsNanos(r) == AsNanos(t) + Durations.AsNanos(d)
  {
    Stamp(Durations.Add(t.d, d))
  }

  /** `t - d`: shifts the instant earlier by `d`; requires `d` not to exceed `t`. */
  function Sub(t: Timestamp, d: Durations.Duration): (r: Timestamp)
    requires Durations.LessEq(d, t.d)
    ensures AsNanos(r) == AsNanos(t) - Durations.AsNanos(d)
  {
    Stamp(Durations.Sub(t.d, d))
  }

  /** `AsRef<Duration>`: the wrapped duration, the same one `as_duration` gives. */
  function AsRef(t: Timestamp): (d: Durations.Duration)
    ensures d == AsDuration(t)
    ensures Durations.AsNanos(d) == AsNanos(t)
  {
    t.d
  }

  /** Adding then subtracting the same duration is the identity. */
  lemma AddThenSub(t: Timestamp, d: Durations.Duration)
    requires Durations.AddFits(t.d, d)
    ensures Durations.LessEq(d, Add(t, d).d)
    ensures Sub(Add(t, d), d) == t
  {
    Durations.OrderAgreesWithNanos(d, Add(t, d).d);
    AsNanosInjective(Sub(Add(t, d), d), t);
  }

  /** Subtracting then adding the same duration is the identity. */
  lemma SubThenAdd(t: Timestamp, d: Durations.Duration)
    requires Durations.LessEq(d, t.d)
    ensures Durations.AddFits(Sub(t, d).d, d)
    ensures Add(Sub(t, d), d) == t
  {
    Durations.OrderAgreesWithNanos(d, t.d);
    Durations.AddFitsIff(Sub(t, d).d, d);
    AsNanosInjective(Add(Sub(t, d), d), t);
  }

  /** `t + d` is never before `t`, and `t - d` never after it. */
  lemma AddNotBefore(t: Timestamp, d: Durations.Duration)
    requires Durations.AddFits(t.d, d)
    ensures NotBefore(Add(t, d), t)
  {
    OrderAgreesWithNanos(Add(t, d), t);
  }

  lemma SubNotAfter(t: Timestamp, d: Durations.Duration)
    requires Durations.LessEq(d, t.d)
    ensures NotBefore(t, Sub(t, d))
  {
    OrderAgreesWithNanos(t, Sub(t, d));
  }

  /** `+` panics exactly when the exact sum exceeds the largest `Duration`. */
  lemma AddDefinedIff(t: Timestamp, d: Durations.Duration)
    ensures Durations.AddFits(t.d, d) <==> AsNanos(t) + Durations.AsNanos(d) <= Durations.MAX_NANOS
  {
    Durations.AddFitsIff(t.d, d);
  }

  /** `-` panics exactly when `d` is longer than the time since the epoch. */
  lemma SubDefinedIff(t: Timestamp, d: Durations.Duration)
    ensures Durations.LessEq(d, t.d) <==> Durations.AsNanos(d) <= AsNanos(t)
  {
    Durations.OrderAgreesWithNanos(d, t.d);
  }
}
