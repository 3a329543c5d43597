/**
  The parts of Go's integer and `time` semantics the client's arithmetic
  depends on. An instant is an integer number of nanoseconds since
  1900-01-01T00:00:00Z, the NTP epoch; a `time.Duration` is a signed 64-bit
  number of nanoseconds.
 */
module GoTime {

  const NanosPerSecond: int := 1_000_000_000
  const Two32: int := 0x1_0000_0000
  const Two62: int := 0x4000_0000_0000_0000
  const Two63: int := 0x8000_0000_0000_0000
  const Two64: int := 0x1_0000_0000_0000_0000

  /** Nanoseconds since 1900-01-01T00:00:00Z; negative before it. */
  type Instant = int

  type U64 = x: int | 0 <= x < 0x1_0000_0000_0000_0000

  type Duration = x: int | -0x8000_0000_0000_0000 <= x < 0x8000_0000_0000_0000

  const MinDuration: Duration := -0x8000_0000_0000_0000
  const MaxDuration: Duration := 0x7FFF_FFFF_FFFF_FFFF

  /** 1970-01-01T00:00:00Z, the value the client returns with an error. */
  const ErrTime: Instant := 2_208_988_800 * 1_000_000_000

  /** Go's zero `time.Time`, 0001-01-01T00:00:00Z, found in a response that carries an error. */
  const ZeroTime: Instant := -59_926_608_000 * 1_000_000_000

  /** `a * b` on uint64: the product modulo 2^64. */
  function MulU64(a: U64, b: U64): (r: U64)
    ensures (r - a * b) % Two64 == 0
    ensures a * b < Two64 ==> r == a * b
  {
    var p := a * b;
    assert 0 <= p;
    p % Two64
  }

  /** `a + b` on uint64: the sum modulo 2^64. */
  function AddU64(a: U64, b: U64): (r: U64)
    ensures a + b < Two64 ==> r == a + b
    ensures a + b >= Two64 ==> r == a + b - Two64
  {
    (a + b) % Two64
  }

  /** `time.Duration(n)` for a uint64 `n`: the same 64 bits read as two's complement. */
  function AsDuration(n: U64): (d: Duration)
    ensures (d - n) % Two64 == 0
    ensures n < Two63 ==> d == n
  {
    if n < Two63 then n else n - Two64
  }

  /** `a - b` on Durations: int64 subtraction, which wraps around. */
  function Minus(a: Duration, b: Duration): (d: Duration)
    ensures (d - (a - b)) % Two64 == 0
    ensures MinDuration <= a - b <= MaxDuration ==> d == a - b
  {
    var x := a - b;
    if x > MaxDuration then x - Two64
    else if x < MinDuration then x + Two64
    else x
  }

  /** `d / 2` on Durations: Go's division truncates toward zero. */
  function Half(d: int): (q: int)
    ensures d >= 0 ==> 0 <= d - 2 * q <= 1
    ensures d < 0 ==> -1 <= d - 2 * q <= 0
  {
    if d >= 0 then d / 2 else -((-d) / 2)
  }

  /** Truncation is symmetric around zero. */
  lemma HalfNegate(d: int)
    ensures Half(-d) == -Half(d)
  {
  }

  /** `t.Sub(u)`: the exact difference, saturated at the ends of the Duration range. */
  function Sub(t: Instant, u: Instant): (d: Duration)
    ensures MinDuration <= t - u <= MaxDuration ==> d == t - u
    ensures t - u > MaxDuration ==> d == MaxDuration
    ensures t - u < MinDuration ==> d == MinDuration
  {
    if t - u > MaxDuration then MaxDuration
    else if t - u < MinDuration then MinDuration
    else t - u
  }
}
