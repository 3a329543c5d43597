/**
  Conversion of a 64-bit NTP timestamp (RFC 5905, section 6) to an instant,
  as `ntpTime.UTC` computes it: whole nanoseconds after the 1900 epoch, in
  uint64 arithmetic.
 */
module Timestamp {
  import opened GoTime
  import opened Wire

  /** `time.Date(1900, 1, 1, 0, 0, 0, 0, time.UTC)`: the origin of instants. */
  const Epoch1900: Instant := 0

  /**
    The exact instant a timestamp denotes, `seconds + fraction / 2^32`
    seconds after the epoch, scaled by 2^32 so that it is a whole number of
    units of 2^-32 nanosecond.
   */
  function Scaled(t: NtpTime): int
  {
    (Widen(t.seconds) * Two32 + Widen(t.fraction)) * NanosPerSecond
  }

  /** `uint64(x)` for a uint32 `x`. */
  function Widen(x: bv32): (n: U64)
    ensures n < Two32
  {
    x as int
  }

  // The helpers below keep bit-vector reasoning out of the arithmetic proofs.

  /** `uint64(f) * 1e9 >> 32`: the fraction as whole nanoseconds, rounded down. */
  function FractionNanos(f: bv32): (ns: int)
    ensures 0 <= ns < NanosPerSecond
    ensures ns * Two32 <= Widen(f) * NanosPerSecond < (ns + 1) * Two32
  {
    var n := Widen(f);
    ScaleDown(n);
    MulU64(n, NanosPerSecond) / Two32
  }

  lemma ScaleDown(n: int)
    requires 0 <= n < Two32
    ensures n * NanosPerSecond < Two64
    ensures var q := (n * NanosPerSecond) / Two32;
      0 <= q < NanosPerSecond && q * Two32 <= n * NanosPerSecond < (q + 1) * Two32
  {
  }

  /**
    `t.UTC()`: the instant of `t`, rounded down to a whole nanosecond. None of
    the uint64 operations wraps and the sum fits in a Duration, so the result
    is the exact value `seconds * 1e9 + fraction nanoseconds`.
   */
  function Utc(t: NtpTime): (ns: Instant)
    ensures ns == Widen(t.seconds) * NanosPerSecond + FractionNanos(t.fraction)
    ensures 0 <= ns < Two32 * NanosPerSecond
    ensures ns * Two32 <= Scaled(t) < (ns + 1) * Two32
  {
    var s, q := Widen(t.seconds), FractionNanos(t.fraction);
    UtcSteps(s, Widen(t.fraction), q);
    Epoch1900 + AsDuration(AddU64(MulU64(s, NanosPerSecond), q))
  }

  /**
    The uint64 steps of the conversion neither wrap nor turn negative, and
    their result is the timestamp rounded down to a whole nanosecond.
   */
  lemma UtcSteps(s: U64, f: int, q: U64)
    requires s < Two32 && 0 <= f < Two32
    requires q < NanosPerSecond && q * Two32 <= f * NanosPerSecond < (q + 1) * Two32
    ensures var ns := s * NanosPerSecond + q;
      && AsDuration(AddU64(MulU64(s, NanosPerSecond), q)) == ns
      && 0 <= ns < Two32 * NanosPerSecond
      && ns * Two32 <= (s * Two32 + f) * NanosPerSecond < (ns + 1) * Two32
  {
    var m := s * NanosPerSecond;
    assert m + q < Two32 * NanosPerSecond < Two63;
    assert MulU64(s, NanosPerSecond) == m;
    assert AddU64(m, q) == m + q;
  }

  /** Every intermediate value of the conversion stays below 2^64, and the total below 2^63. */
  lemma UtcNoOverflow(t: NtpTime)
    ensures Widen(t.seconds) * NanosPerSecond < Two64
    ensures Widen(t.fraction) * NanosPerSecond < Two64
    ensures Widen(t.seconds) * NanosPerSecond + FractionNanos(t.fraction) < Two63
  {
  }

  /** The conversion is monotone: a later timestamp never gives an earlier instant. */
  lemma UtcMonotone(a: NtpTime, b: NtpTime)
    requires Scaled(a) <= Scaled(b)
    ensures Utc(a) <= Utc(b)
  {
    FloorMonotone(Utc(a), Scaled(a), Utc(b), Scaled(b));
  }

  /** A later second always gives a later instant, whatever the two fractions. */
  lemma UtcSecondsStrict(a: NtpTime, b: NtpTime)
    requires Widen(a.seconds) < Widen(b.seconds)
    ensures Utc(a) < Utc(b)
  {
    var sa, sb := Widen(a.seconds), Widen(b.seconds);
    assert Utc(a) < (sa + 1) * NanosPerSecond <= sb * NanosPerSecond <= Utc(b);
  }

  /** Within one second, a larger fraction never gives an earlier instant. */
  lemma UtcFractionMonotone(a: NtpTime, b: NtpTime)
    requires a.seconds == b.seconds && Widen(a.fraction) <= Widen(b.fraction)
    ensures Utc(a) <= Utc(b)
  {
    var fa, fb := Widen(a.fraction), Widen(b.fraction);
    FloorMonotone(FractionNanos(a.fraction), fa * NanosPerSecond, FractionNanos(b.fraction), fb * NanosPerSecond);
  }

  /** Rounding down to a multiple of 2^32 keeps the order. */
  lemma FloorMonotone(x: int, sx: int, y: int, sy: int)
    requires x * Two32 <= sx < (x + 1) * Two32
    requires y * Two32 <= sy < (y + 1) * Two32
    ensures sx <= sy ==> x <= y
  {
  }

  /** The epoch itself, and half a second after it. */
  lemma UtcExamples()
    ensures Utc(NtpTime(0, 0)) == 0
    ensures Utc(NtpTime(0, 0x8000_0000)) == 500_000_000
  {
  }
}
