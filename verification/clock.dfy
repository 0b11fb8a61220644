/**
 Instants and durations as Go's `time` package treats them: an instant is a
 count of nanoseconds, a duration is a signed 64-bit count of nanoseconds.
 */
module Clock {

  /** A point in time, in nanoseconds. */
  type Instant = int

  const NanosPerSecond: int := 1_000_000_000
  const TwoTo64: int := 0x1_0000_0000_0000_0000
  const MinInt64: int := -0x8000_0000_0000_0000
  const MaxInt64: int := 0x7fff_ffff_ffff_ffff

  /** The largest whole number of seconds whose nanosecond count fits in an int64. */
  const MaxSeconds: int := MaxInt64 / NanosPerSecond

  predicate IsInt64(n: int) {
    MinInt64 <= n <= MaxInt64
  }

  /** Two's-complement wrap-around of a mathematical integer into int64. */
  function Wrap64(n: int): (r: int)
    ensures IsInt64(r)
    ensures IsInt64(n) ==> r == n
    ensures (r - n) % TwoTo64 == 0
    ensures n == MaxInt64 + 1 ==> r == MinInt64
  {
    var x := n - MinInt64;
    assert x == TwoTo64 * (x / TwoTo64) + x % TwoTo64;
    x % TwoTo64 + MinInt64
  }

  /** `t.Before(u)`: strictly earlier. */
  predicate Before(t: Instant, u: Instant) {
    t < u
  }

  /** `t.After(u)`: strictly later. */
  predicate After(t: Instant, u: Instant) {
    t > u
  }

  /**
   `time.Second * time.Duration(n)`: the product is taken in int64 and
   wraps around when `n` is outside about ±292 years of seconds.
   */
  function Seconds(n: int): (d: int)
    ensures IsInt64(d)
    ensures (d - n * NanosPerSecond) % TwoTo64 == 0
    ensures -MaxSeconds <= n <= MaxSeconds ==> d == n * NanosPerSecond
  {
    Wrap64(n * NanosPerSecond)
  }

  /** One more second than fits wraps round to a negative duration. */
  lemma SecondsWrapsNegative()
    ensures Seconds(MaxSeconds + 1) < 0
  {
    assert (MaxSeconds + 1) * NanosPerSecond == 9_223_372_037_000_000_000;
  }

  /** Further out, the wrapped duration can be of either sign again. */
  lemma SecondsWrapsPositive()
    ensures Seconds(18_446_744_074) == 290_448_384
  {
    assert 18_446_744_074 * NanosPerSecond == 18_446_744_074_000_000_000;
  }
}
