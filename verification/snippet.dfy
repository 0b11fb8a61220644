/** The snippet record and the computation of its absolute deadline. */
module Snippets {
  import opened Wrappers
  import opened Clock

  /**
   A stored text snippet. `expiresIn` (seconds to live) and `likes` are
   pointers in the source, so either may be absent.
   */
  datatype Snippet = Snippet(
    url: string,
    name: string,
    expiresIn: Option<int>,
    expiresAt: Instant,
    snippet: string,
    likes: Option<int>)

  /** Reading the seconds-to-live through an absent pointer faults. */
  datatype Fault = NilExpiresIn

  /**
   Resolves the deadline to `now` plus `expiresIn` seconds, the seconds being
   converted to nanoseconds in int64 arithmetic, so the offset from `now` is
   the one int64 congruent to the exact product. Every other field is kept.
   */
  function SetExpiresAt(s: Snippet, now: Instant): (r: Result<Snippet, Fault>)
    ensures r.Err? <==> s.expiresIn.None?
    ensures r.Ok? ==> r.value == s.(expiresAt := r.value.expiresAt)
    ensures r.Ok? ==> IsInt64(r.value.expiresAt - now)
    ensures r.Ok? ==> (r.value.expiresAt - now - s.expiresIn.value * NanosPerSecond) % TwoTo64 == 0
    ensures r.Ok? && -MaxSeconds <= s.expiresIn.value <= MaxSeconds ==>
              r.value.expiresAt == now + s.expiresIn.value * NanosPerSecond
  {
    match s.expiresIn
    case None => Err(NilExpiresIn)
    case Some(n) => Ok(s.(expiresAt := now + Seconds(n)))
  }

  /**
   A seconds-to-live one past the int64 range of nanoseconds wraps round and
   puts the deadline in the past, so the snippet is born expired.
   */
  lemma SetExpiresAtWraps(s: Snippet, now: Instant)
    requires s.expiresIn == Some(MaxSeconds + 1)
    ensures SetExpiresAt(s, now).Ok? && SetExpiresAt(s, now).value.expiresAt < now
  {
    SecondsWrapsNegative();
  }
}
