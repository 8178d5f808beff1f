/**
 * Backoff strategies, the retry policy built on them, and the request clone
 * the policy hands to each new attempt.
 *
 * Durations are counted in nanoseconds and bounded like Rust's `Duration`
 * (u64 seconds plus under a second of nanoseconds). `next` and `retry` clone
 * their state and update the clone; here that is a datatype update, and the
 * sleep they perform is returned as the delay.
 */
module Retry {
  import opened Wrappers
  import opened Headers
  import opened Requests

  const NANOS_PER_SEC: nat := 1_000_000_000
  const U64_LIMIT: nat := 0x1_0000_0000_0000_0000
  /** `Duration::MAX`: u64::MAX seconds and 999_999_999 nanoseconds. */
  const MAX_DURATION: nat := U64_LIMIT * NANOS_PER_SEC - 1
  const U32_MAX: nat := 0xFFFF_FFFF

  type Duration = d: nat | d <= MAX_DURATION
  type U32 = n: nat | n <= U32_MAX

  function Secs(s: nat): Duration
    requires s < U64_LIMIT
  {
    s * NANOS_PER_SEC
  }

  function Min(a: int, b: int): int
  {
    if a <= b then a else b
  }

  function Pow2(n: nat): (r: nat)
    ensures r >= 1
  {
    if n == 0 then 1 else 2 * Pow2(n - 1)
  }

  lemma {:induction false} Pow2Monotone(i: nat, j: nat)
    requires i <= j
    ensures Pow2(i) <= Pow2(j)
    decreases j
  {
    if i < j {
      Pow2Monotone(i, j - 1);
    }
  }

  lemma {:induction false} Pow2Add(a: nat, b: nat)
    ensures Pow2(a + b) == Pow2(a) * Pow2(b)
    decreases b
  {
    if b > 0 {
      Pow2Add(a, b - 1);
      assert Pow2(a + b) == 2 * Pow2(a + b - 1);
    }
  }

  lemma Pow2Of31()
    ensures Pow2(31) == 0x8000_0000
  {
    assert Pow2(4) == 16 && Pow2(3) == 8;
    Pow2Add(4, 4);
    Pow2Add(8, 8);
    Pow2Add(16, 8);
    Pow2Add(24, 4);
    Pow2Add(28, 3);
  }

  /** `2_u32.saturating_pow(n)`. */
  function SaturatingPow2(n: U32): (r: U32)
    ensures r >= 1
  {
    if Pow2(n) > U32_MAX then U32_MAX else Pow2(n)
  }

  /** `saturating_pow` gives the exact power up to `2^31` and `u32::MAX` from `2^32` on. */
  lemma {:induction false} SaturatingPow2Threshold(n: U32)
    ensures n < 32 ==> SaturatingPow2(n) == Pow2(n)
    ensures n >= 32 ==> SaturatingPow2(n) == U32_MAX
  {
    Pow2Of31();
    if n < 32 {
      Pow2Monotone(n, 31);
    } else {
      Pow2Monotone(32, n);
    }
  }

  lemma MulMonotone(d: nat, k1: nat, k2: nat)
    requires k1 <= k2
    ensures d * k1 <= d * k2
  {
  }

  /** `Duration::checked_mul`: `None` when the product does not fit in a `Duration`. */
  function CheckedMul(d: Duration, k: U32): (r: Option<Duration>)
    ensures r.Some? <==> d * k < U64_LIMIT * NANOS_PER_SEC
    ensures r.Some? ==> r.value == d * k
  {
    if d * k <= MAX_DURATION then Some(d * k) else None
  }

  /** The two backoff strategies; `jitter` is the ratio of the base delay that may be added at random. */
  datatype Backoff =
    | Linear(timeout: Duration)
    | Exponential(min: Duration, max: Duration, jitter: real, iterations: U32)
  {
    /**
     * `ExponentialBackoff::base`: `min * 2^iterations`, saturating, capped
     * at `max`. An overflowing product falls back to `max`, which is what
     * the cap gives anyway.
     */
    function Base(): (b: Duration)
      requires Exponential?
      ensures b <= max
      ensures min <= max ==> min <= b
      ensures b == Min(min * SaturatingPow2(iterations), max)
    {
      var k := SaturatingPow2(iterations);
      MulMonotone(min, 1, k);
      var scaled := match CheckedMul(min, k) case Some(d) => d case None => max;
      Min(scaled, max)
    }

    /**
     * `ExponentialBackoff::jitter`, given the random amount `raw` it drew:
     * nothing when the ratio is zero, otherwise `raw` clamped so that
     * `base + jitter` stays within `max`.
     */
    function Jitter(base: Duration, raw: Duration): (j: Duration)
      requires Exponential? && base <= max
      ensures base + j <= max
      ensures j <= raw
      ensures jitter == 0.0 ==> j == 0
      ensures jitter != 0.0 ==> j == raw || base + j == max
    {
      if jitter == 0.0 then 0 else Min(raw, max - base)
    }

    /** `Backoff::next`: the successor state and the delay slept before it is yielded. */
    function Next(raw: Duration): (r: (Backoff, Duration))
      ensures Linear? ==> r == (this, timeout)
      ensures Exponential? ==>
        && r.0.Exponential? && r.0.min == min && r.0.max == max && r.0.jitter == jitter
        && r.0.iterations == (if iterations < U32_MAX then iterations + 1 else 0)
        && Base() <= r.1 <= max
        && (jitter == 0.0 ==> r.1 == Base())
        && (jitter != 0.0 ==> r.1 == Min(Base() + raw, max))
    {
      match this
      case Linear(_) => (this, timeout)
      case Exponential(_, _, _, _) =>
        var base := Base();
        var delay := base + Jitter(base, raw);
        (this.(iterations := (iterations + 1) % (U32_MAX + 1)), delay)
    }
  }

  /** The delays of `n` successive `next` calls, every one drawing `raw`. */
  function Delays(b: Backoff, n: nat, raw: Duration): (ds: seq<Duration>)
    ensures |ds| == n
    decreases n
  {
    if n == 0 then [] else [b.Next(raw).1] + Delays(b.Next(raw).0, n - 1, raw)
  }

  /** For the first 32 iterations the base delay is exactly `min * 2^iterations`, capped at `max`. */
  lemma BaseDoubles(b: Backoff)
    requires b.Exponential? && b.iterations < 32
    ensures b.Base() == Min(b.min * Pow2(b.iterations), b.max)
  {
    Pow2Monotone(b.iterations, 31);
    Pow2Of31();
  }

  /** The base delay never shrinks as the iterations grow. */
  lemma BaseMonotone(b: Backoff, later: U32)
    requires b.Exponential? && b.iterations <= later
    ensures b.Base() <= b.(iterations := later).Base()
  {
    Pow2Monotone(b.iterations, later);
    MulMonotone(b.min, SaturatingPow2(b.iterations), SaturatingPow2(later));
  }

  /** Without jitter, min = 1s and max = 8s give delays of 1, 2, 4, 8 and 8 seconds. */
  lemma DoublingExample(raw: Duration)
    ensures Delays(Exponential(Secs(1), Secs(8), 0.0, 0), 5, raw)
      == [Secs(1), Secs(2), Secs(4), Secs(8), Secs(8)]
  {
  }

  /** `ExponentialBackoff::default`. */
  function DefaultExponential(): (b: Backoff)
    ensures b.Exponential? && b.iterations == 0
    ensures b.min == Secs(1) && b.max == Secs(60) && b.jitter == 2.0
    ensures b.Base() == Secs(1)
  {
    Exponential(Secs(1), Secs(60), 2.0, 0)
  }

  /** `ExponentialBackoff::new`: the given bounds and ratio, the rest from the default. */
  function NewExponential(min: Duration, max: Duration, jitter: real): (b: Backoff)
    ensures b.Exponential? && b.min == min && b.max == max && b.jitter == jitter
    ensures b.iterations == 0 && b.Base() == Min(min, max)
  {
    var d := DefaultExponential();
    Exponential(min, max, jitter, d.iterations)
  }

  /** `WithBackoff`: the retries left and the backoff state. */
  datatype WithBackoff = WithBackoff(attempts: U32, backoff: Backoff)
  {
    /**
     * `Policy::retry`: `None` stops; otherwise the policy for the next
     * attempt and the delay slept before it.
     */
    function Retry(result: AttemptResult, raw: Duration): (r: Option<(WithBackoff, Duration)>)
      ensures r.None? <==> IsSuccess(result) || attempts == 0
      ensures r.Some? ==>
        && r.value.0.attempts == attempts - 1
        && (r.value.0.backoff, r.value.1) == backoff.Next(raw)
    {
      if IsSuccess(result) then None
      else if attempts == 0 then None
      else
        var next := backoff.Next(raw);
        Some((WithBackoff(attempts - 1, next.0), next.1))
    }
  }

  /**
   * How many attempts the retry loop makes when the i-th attempt ends with
   * `results[i]`: it stops when the policy says stop or the results run out.
   */
  function TotalAttempts(p: WithBackoff, results: seq<AttemptResult>, raw: Duration): (n: nat)
    ensures n <= |results|
    ensures results != [] ==> n >= 1
    decreases |results|
  {
    if results == [] then 0
    else match p.Retry(results[0], raw)
      case None => 1
      case Some(next) => 1 + TotalAttempts(next.0, results[1..], raw)
  }

  /** At most `attempts` retries: one first attempt plus the budget. */
  lemma {:induction false} AttemptsBounded(p: WithBackoff, results: seq<AttemptResult>, raw: Duration)
    ensures TotalAttempts(p, results, raw) <= p.attempts + 1
    decreases |results|
  {
    if results != [] {
      match p.Retry(results[0], raw)
      case None =>
      case Some(next) => AttemptsBounded(next.0, results[1..], raw);
    }
  }

  /**
   * The loop stops at the first success, and only failures use up the
   * budget: with the first success at position `k`, or `k` failures that
   * spend the whole budget, it makes `min(k, attempts) + 1` attempts.
   */
  lemma {:induction false} StopsAtFirstSuccessOrBudget(p: WithBackoff, results: seq<AttemptResult>, k: nat, raw: Duration)
    requires k < |results|
    requires forall i :: 0 <= i < k ==> !IsSuccess(results[i])
    requires IsSuccess(results[k]) || k == p.attempts
    ensures TotalAttempts(p, results, raw) == Min(k, p.attempts) + 1
    decreases k
  {
    if k > 0 && p.attempts > 0 {
      var next := p.Retry(results[0], raw).value;
      forall i | 0 <= i < k - 1 ensures !IsSuccess(results[1..][i]) {
        assert results[1..][i] == results[i + 1];
      }
      StopsAtFirstSuccessOrBudget(next.0, results[1..], k - 1, raw);
    }
  }

  /** Iterations plus retries left never exceed `u32::MAX`, so the iteration counter never wraps. */
  predicate HasHeadroom(p: WithBackoff)
  {
    p.backoff.Exponential? ==> p.backoff.iterations + p.attempts <= U32_MAX
  }

  lemma RetryKeepsHeadroom(p: WithBackoff, result: AttemptResult, raw: Duration)
    requires HasHeadroom(p) && p.Retry(result, raw).Some?
    ensures HasHeadroom(p.Retry(result, raw).value.0)
    ensures p.backoff.Exponential? ==> p.Retry(result, raw).value.0.backoff.iterations == p.backoff.iterations + 1
  {
  }

  /** The header-copying loop of `clone_request`: every entry but the Authorization ones, in order. */
  method CopyWithoutAuthorization(src: HeaderMap) returns (hs: HeaderMap)
    ensures hs == Without(src, AUTHORIZATION)
  {
    hs := [];
    for i := 0 to |src|
      invariant hs + Without(src[i..], AUTHORIZATION) == Without(src, AUTHORIZATION)
    {
      var h := src[i];
      assert src[i..][1..] == src[i + 1..];
      if h.name != AUTHORIZATION {
        hs := hs + [h];
      }
    }
  }

  /** `Policy::clone_request`: the same target, method and body, without any Authorization header. */
  method CloneRequest(req: Request) returns (r: Request)
    ensures fresh(r)
    ensures r.uri == req.uri && r.verb == req.verb && r.body == req.body
    ensures r.headers == Without(req.headers, AUTHORIZATION)
  {
    var hs := CopyWithoutAuthorization(req.headers);
    r := new Request(req.uri, req.verb, hs, req.body);
  }
}
