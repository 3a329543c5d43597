/**
  The clock offset the client derives from one exchange, as `msg.diff`
  computes it: T1 is the local instant just before the request is written,
  T2 and T3 are the server's receive and transmit timestamps of the reply,
  T4 is the local instant when the offset is computed.
 */
module Offset {
  import opened GoTime
  import opened Wire
  import opened Timestamp

  /**
    The offset formula on unbounded integers: the receive interval T2 - T1
    less half the round trip (T4 - T1) - (T3 - T2), halved toward zero.
   */
  function ClockOffset(t1: int, t2: int, t3: int, t4: int): int
  {
    (t2 - t1) - Half((t4 - t1) - (t3 - t2))
  }

  /** Instants from 1900 to about 2046, where no step of `Diff` saturates or wraps. */
  predicate InRange(t: Instant)
  {
    0 <= t < Two62
  }

  /**
    `m.diff(original)`, with the `time.Now()` reading it starts with passed in
    as `now`: every step is Go's Duration arithmetic, whose subtraction of
    instants saturates and whose subtraction of Durations wraps. When both
    local instants lie between 1900 and about 2046, no step saturates or
    wraps, and the result is the offset formula applied to T1, the server's
    two timestamps and T4.
   */
  function Diff(m: Msg, original: Instant, now: Instant): (d: Duration)
    ensures InRange(original) && InRange(now) ==>
      d == ClockOffset(original, Utc(m.receiveTime), Utc(m.transmitTime), now)
  {
    var t2, t3 := Utc(m.receiveTime), Utc(m.transmitTime);
    DiffSteps(original, t2, t3, now);
    var duration := Sub(now, original);
    var processing := Sub(t3, t2);
    var sendTime := Half(Minus(duration, processing));
    Minus(Sub(t2, original), sendTime)
  }

  /**
    For server instants below 2^32 seconds and local instants in range, the
    saturating and wrapping steps of `Diff` compute the offset formula exactly.
   */
  lemma DiffSteps(t1: Instant, t2: Instant, t3: Instant, t4: Instant)
    requires 0 <= t2 < Two32 * NanosPerSecond && 0 <= t3 < Two32 * NanosPerSecond
    ensures InRange(t1) && InRange(t4) ==>
      Minus(Sub(t2, t1), Half(Minus(Sub(t4, t1), Sub(t3, t2)))) == ClockOffset(t1, t2, t3, t4)
  {
    if InRange(t1) && InRange(t4) {
      assert Two32 * NanosPerSecond < Two62;
      var d := (t4 - t1) - (t3 - t2);
      assert Minus(Sub(t4, t1), Sub(t3, t2)) == d;
      assert -Two62 < Half(d) < Two62;
    }
  }

  /** The offset rounds the symmetric mean ((T2 - T1) + (T3 - T4)) / 2 by at most half a unit. */
  lemma OffsetNearSymmetric(t1: int, t2: int, t3: int, t4: int)
    ensures -1 <= 2 * ClockOffset(t1, t2, t3, t4) - ((t2 - t1) + (t3 - t4)) <= 1
  {
  }

  /** When the round trip is even, the offset is exactly the symmetric mean. */
  lemma OffsetSymmetricWhenEven(t1: int, t2: int, t3: int, t4: int)
    requires ((t4 - t1) - (t3 - t2)) % 2 == 0
    ensures ClockOffset(t1, t2, t3, t4) == ((t2 - t1) + (t3 - t4)) / 2
  {
  }

  /**
    A server that stamps the reply 10 s after the request went out, on a
    round trip of 20 s: the two clocks agree. A server 15 s ahead on a 10 s
    round trip: the local clock is 10 s behind.
   */
  lemma DiffExamples()
    ensures ClockOffset(0, 10, 10, 20) == 0
    ensures ClockOffset(0, 15, 15, 10) == 10
    ensures var at15 := NtpTime(15, 0);
      Diff(Zero.(receiveTime := at15, transmitTime := at15), 0, 10 * NanosPerSecond) == 10 * NanosPerSecond
  {
    assert Half(20) == 10 && Half(10) == 5;
    var at15 := NtpTime(15, 0);
    assert Utc(at15) == 15 * NanosPerSecond;
    assert Half(10 * NanosPerSecond) == 5 * NanosPerSecond;
    var m := Zero.(receiveTime := at15, transmitTime := at15);
    assert InRange(0) && InRange(10 * NanosPerSecond);
    assert ClockOffset(0, 15 * NanosPerSecond, 15 * NanosPerSecond, 10 * NanosPerSecond) == 10 * NanosPerSecond;
    assert Diff(m, 0, 10 * NanosPerSecond) == ClockOffset(0, Utc(m.receiveTime), Utc(m.transmitTime), 10 * NanosPerSecond);
  }
}
