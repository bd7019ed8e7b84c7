/** The fixed-window counter of one client, as values: the quota of a
    window, how much of it is used, and what the two counter operations
    (consume one request, reset the window) do to it. The `Limiter` class
    in module Limiters is proved against these functions. */
module FixedWindow {
  import opened Errors

  // ---------------------------------------------------------------------
  // Go's 64-bit integers and time.Duration
  // ---------------------------------------------------------------------

  const MinInt64: int := -0x8000_0000_0000_0000
  const MaxInt64: int := 0x7FFF_FFFF_FFFF_FFFF
  const TwoTo64: int := 0x1_0000_0000_0000_0000

  /** A time.Duration counts nanoseconds; time.Millisecond is 1,000,000 of them. */
  const Millisecond: int := 1_000_000

  predicate IsInt64(x: int) {
    MinInt64 <= x <= MaxInt64
  }

  /** Two's complement wrap-around of an int64 operation whose exact result is x. */
  function WrapInt64(x: int): (r: int)
    ensures IsInt64(r)
    ensures (x - r) % TwoTo64 == 0
    ensures IsInt64(x) ==> r == x
  {
    (x - MinInt64) % TwoTo64 + MinInt64
  }

  /** `time.Duration(ms) * time.Millisecond`: an int64 multiplication, which
      wraps when the product leaves the int64 range. */
  function MillisToDuration(ms: int): (d: int)
    requires IsInt64(ms)
    ensures IsInt64(d)
    ensures IsInt64(ms * Millisecond) ==> d == ms * Millisecond
    ensures 0 <= ms <= MaxInt64 / Millisecond ==> d == ms * Millisecond && d >= 0
  {
    WrapInt64(ms * Millisecond)
  }

  /** The conversion is exact only up to about 106 days: one millisecond
      more and the product wraps to a negative duration. */
  lemma MillisToDurationWraps()
    ensures MaxInt64 / Millisecond == 9_223_372_036_854
    ensures MillisToDuration(9_223_372_036_855) < 0
  {
  }

  /** A window of 2^58 ms wraps to a duration of exactly zero. */
  lemma MillisToDurationWrapsToZero()
    ensures MillisToDuration(0x400_0000_0000_0000) == 0
  {
  }

  // ---------------------------------------------------------------------
  // The counter
  // ---------------------------------------------------------------------

  /** `used` is usedRequests, `allowed` is allowedRequests. */
  datatype Counter = Counter(used: int, allowed: int)

  /** The invariant of a limiter between operations. */
  predicate Valid(c: Counter) {
    0 <= c.used <= c.allowed
  }

  /** What GetRequestsAvailable reports. */
  function Available(c: Counter): int {
    c.allowed - c.used
  }

  /** The counter of a newly constructed limiter: nothing used yet. */
  function Fresh(allowed: int): (c: Counter)
    ensures c.allowed == allowed && Available(c) == allowed
    ensures allowed >= 0 ==> Valid(c)
  {
    Counter(0, allowed)
  }

  /** IncrementRequestsUsed: refused, with nothing changed, when the used
      count has reached the quota exactly; otherwise one more request. */
  function Increment(c: Counter): (r: (Counter, Outcome))
    ensures r.0.allowed == c.allowed
    ensures r.1 == Pass || r.1 == Fail(TooManyRequests)
    ensures r.1.Fail? <==> c.used == c.allowed
    ensures r.1.Fail? ==> r.0 == c
    ensures r.1.Pass? ==> r.0.used == c.used + 1 && Available(r.0) == Available(c) - 1
    ensures Valid(c) ==> Valid(r.0)
  {
    if c.used == c.allowed then (c, Fail(TooManyRequests))
    else (Counter(c.used + 1, c.allowed), Pass)
  }

  /** Clear: a new window, whatever was used before. */
  function Clear(c: Counter): (r: Counter)
    ensures r.allowed == c.allowed
    ensures Available(r) == r.allowed
    ensures c.allowed >= 0 ==> Valid(r)
  {
    Counter(0, c.allowed)
  }

  lemma ClearIdempotent(c: Counter)
    ensures Clear(Clear(c)) == Clear(c)
  {
  }

  /** The invariant as the getters see it. */
  lemma ValidIffAvailableWithinLimit(c: Counter)
    ensures Valid(c) <==> 0 <= Available(c) <= c.allowed
  {
  }

  // ---------------------------------------------------------------------
  // Several consecutive requests in one window
  // ---------------------------------------------------------------------

  /** k consecutive IncrementRequestsUsed calls: the final counter and the
      outcome of each call, in order. */
  function IncrementTimes(c: Counter, k: nat): (r: (Counter, seq<Outcome>))
    ensures |r.1| == k
    ensures r.0.allowed == c.allowed
    ensures Valid(c) ==> Valid(r.0)
    decreases k
  {
    if k == 0 then (c, [])
    else
      var first := Increment(c);
      var rest := IncrementTimes(first.0, k - 1);
      (rest.0, [first.1] + rest.1)
  }

  /** While quota is left every request is admitted, one unit each. */
  lemma {:induction false} AdmittedWhileQuotaLeft(c: Counter, k: nat)
    requires Valid(c) && k <= Available(c)
    ensures IncrementTimes(c, k).0 == Counter(c.used + k, c.allowed)
    ensures forall i :: 0 <= i < k ==> IncrementTimes(c, k).1[i] == Pass
    decreases k
  {
    if k > 0 {
      var first := Increment(c);
      AdmittedWhileQuotaLeft(first.0, k - 1);
    }
  }

  /** Once the quota is used up every further request is refused and the
      counter stays where it is. */
  lemma {:induction false} RefusedOnceExhausted(c: Counter, k: nat)
    requires c.used == c.allowed
    ensures IncrementTimes(c, k).0 == c
    ensures forall i :: 0 <= i < k ==> IncrementTimes(c, k).1[i] == Fail(TooManyRequests)
  {
    if k > 0 {
      RefusedOnceExhausted(c, k - 1);
    }
  }

  /** Requests made in two bursts are the requests made in one. */
  lemma {:induction false} IncrementTimesAdditive(c: Counter, j: nat, k: nat)
    ensures IncrementTimes(c, j + k).0 == IncrementTimes(IncrementTimes(c, j).0, k).0
    ensures IncrementTimes(c, j + k).1 == IncrementTimes(c, j).1 + IncrementTimes(IncrementTimes(c, j).0, k).1
    decreases j
  {
    if j > 0 {
      IncrementTimesAdditive(Increment(c).0, j - 1, k);
    }
  }

  /** With a quota of n and a fresh window, exactly n requests are admitted,
      every later one is refused, and nothing is then available. */
  lemma ExactlyQuotaAdmitted(n: nat, extra: nat)
    ensures var r := IncrementTimes(Fresh(n), n + extra);
      && Available(r.0) == 0
      && (forall i :: 0 <= i < n ==> r.1[i] == Pass)
      && (forall i :: n <= i < n + extra ==> r.1[i] == Fail(TooManyRequests))
  {
    var c := Fresh(n);
    AdmittedWhileQuotaLeft(c, n);
    var full := IncrementTimes(c, n).0;
    RefusedOnceExhausted(full, extra);
    IncrementTimesAdditive(c, n, extra);
  }

  /** The (n+1)-th request of a fresh window with quota n is the first refused. */
  lemma NextAfterQuotaRefused(n: nat)
    ensures IncrementTimes(Fresh(n), n + 1).1[n] == Fail(TooManyRequests)
    ensures Available(IncrementTimes(Fresh(n), n + 1).0) == 0
  {
    ExactlyQuotaAdmitted(n, 1);
  }

  /** Why the quota must not be negative: the check is `used == allowed`,
      so a counter already past its quota admits every request until
      usedRequests overflows the int64 range. */
  lemma {:induction false} NegativeQuotaAdmitsUntilOverflow(c: Counter, k: nat)
    requires c.used > c.allowed
    requires c.used + k <= MaxInt64
    ensures IncrementTimes(c, k).0.used == c.used + k
    ensures forall i :: 0 <= i < k ==> IncrementTimes(c, k).1[i] == Pass
    decreases k
  {
    if k > 0 {
      NegativeQuotaAdmitsUntilOverflow(Increment(c).0, k - 1);
    }
  }
}
