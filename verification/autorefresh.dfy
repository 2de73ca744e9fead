/**
 * Auto-refresh timing: the retry backoff and the interval the refresh timer
 * is armed with. Delays are in seconds, timer intervals in milliseconds;
 * arming and clearing the timer itself is not modelled.
 */
module AutoRefresh {
  import opened Wrappers
  import opened Numbers

  const MaxBackoff: real := 300.0
  const MinRefresh: real := 5.0

  /** 2^e for any integer e, negative exponents giving fractions. */
  function Pow2(e: int): (p: real)
    ensures p > 0.0
    ensures e >= 0 ==> p >= 1.0
    decreases if e >= 0 then e else -e
  {
    if e == 0 then 1.0
    else if e > 0 then 2.0 * Pow2(e - 1)
    else Pow2(e + 1) / 2.0
  }

  /** `calculateBackoff`: the base delay doubled per consecutive failure past the first, capped at 300 s. */
  function CalculateBackoff(failCount: int, baseDelay: real): (d: real)
    ensures failCount == 0 ==> d == baseDelay
    ensures failCount != 0 ==> d <= MaxBackoff
    ensures failCount >= 1 && baseDelay >= 0.0 ==> d >= MinReal(baseDelay, MaxBackoff)
  {
    if failCount == 0 then baseDelay
    else
      MinReal(Uncapped(failCount, baseDelay), MaxBackoff)
  }

  /** The delays the source's examples list: 60, 120, 240, then the 300 s cap, and 15 for a failure count of -1. */
  lemma BackoffExamples()
    ensures CalculateBackoff(1, 60.0) == 60.0
    ensures CalculateBackoff(2, 60.0) == 120.0
    ensures CalculateBackoff(3, 60.0) == 240.0
    ensures CalculateBackoff(4, 60.0) == 300.0
    ensures CalculateBackoff(-1, 60.0) == 15.0
  {
    assert Pow2(3) == 8.0;
  }

  /** The first failure waits the base delay, capped. */
  lemma BackoffFirstFailure(baseDelay: real)
    ensures CalculateBackoff(1, baseDelay) == MinReal(baseDelay, MaxBackoff)
  {
  }

  /** Each further failure doubles the previous delay, up to the cap. */
  lemma BackoffDoubles(failCount: int, baseDelay: real)
    requires failCount != 0 && failCount != -1
    ensures CalculateBackoff(failCount + 1, baseDelay) == MinReal(2.0 * CalculateBackoff(failCount, baseDelay), MaxBackoff)
  {
    var p := Pow2(failCount - 1);
    assert Pow2(failCount) == 2.0 * p;
    assert Uncapped(failCount + 1, baseDelay) == 2.0 * Uncapped(failCount, baseDelay) by {
      assert baseDelay * (2.0 * p) == 2.0 * (baseDelay * p);
    }
  }

  lemma {:induction false} Pow2Monotone(i: int, j: int)
    requires 0 <= i <= j
    ensures Pow2(i) <= Pow2(j)
    decreases j - i
  {
    if i < j {
      Pow2Monotone(i, j - 1);
    }
  }

  /** The uncapped backoff base * 2^(failCount - 1). */
  function Uncapped(failCount: int, baseDelay: real): real {
    baseDelay * Pow2(failCount - 1)
  }

  lemma UncappedMonotone(m: int, n: int, baseDelay: real)
    requires 1 <= m <= n
    requires baseDelay >= 0.0
    ensures Uncapped(m, baseDelay) <= Uncapped(n, baseDelay)
  {
    var p, q := Pow2(m - 1), Pow2(n - 1);
    Pow2Monotone(m - 1, n - 1);
    assert baseDelay * p <= baseDelay * q;
  }

  /** More failures never shorten the delay (from the first failure on, for a non-negative base). */
  lemma BackoffMonotone(m: int, n: int, baseDelay: real)
    requires 1 <= m <= n
    requires baseDelay >= 0.0
    ensures CalculateBackoff(m, baseDelay) <= CalculateBackoff(n, baseDelay)
  {
    UncappedMonotone(m, n, baseDelay);
  }

  /** `setupAutoRefresh`: an interval of max(5, refreshSec) seconds when enabled, no timer otherwise. */
  function SetupAutoRefresh(enabled: bool, refreshSec: real): (intervalMs: Option<real>)
    ensures intervalMs.Some? <==> enabled
    ensures intervalMs.Some? ==> intervalMs.value >= MinRefresh * 1000.0
    ensures intervalMs.Some? && refreshSec >= MinRefresh ==> intervalMs.value == refreshSec * 1000.0
    ensures intervalMs.Some? && refreshSec < MinRefresh ==> intervalMs.value == MinRefresh * 1000.0
  {
    if enabled then Some(MaxReal(MinRefresh, refreshSec) * 1000.0) else None
  }

  /** `setupAutoRefreshWithBackoff`: the backoff of max(5, refreshSec) seconds when enabled. */
  function SetupAutoRefreshWithBackoff(enabled: bool, refreshSec: real, failCount: int): (intervalMs: Option<real>)
    ensures intervalMs.Some? <==> enabled
    ensures intervalMs.Some? && failCount >= 0 ==> intervalMs.value >= MinRefresh * 1000.0
    ensures intervalMs.Some? && failCount >= 1 ==> intervalMs.value <= MaxBackoff * 1000.0
    ensures intervalMs.Some? && failCount == 0 ==> intervalMs == SetupAutoRefresh(enabled, refreshSec)
    ensures intervalMs.Some? ==> intervalMs.value == CalculateBackoff(failCount, MaxReal(MinRefresh, refreshSec)) * 1000.0
  {
    if enabled then
      var delay := CalculateBackoff(failCount, MaxReal(MinRefresh, refreshSec));
      Some(delay * 1000.0)
    else None
  }

  /**
   * The armed interval follows the backoff sequence: the first failure waits
   * the refresh period (at least 5 s, at most 300 s), and each further failure
   * doubles the interval up to 300 s.
   */
  lemma BackoffIntervalDoubles(refreshSec: real, failCount: int)
    requires failCount >= 1
    ensures SetupAutoRefreshWithBackoff(true, refreshSec, 1)
              == Some(MinReal(MaxReal(MinRefresh, refreshSec), MaxBackoff) * 1000.0)
    ensures SetupAutoRefreshWithBackoff(true, refreshSec, failCount + 1).value
              == MinReal(2.0 * SetupAutoRefreshWithBackoff(true, refreshSec, failCount).value, MaxBackoff * 1000.0)
  {
    var base := MaxReal(MinRefresh, refreshSec);
    BackoffFirstFailure(base);
    BackoffDoubles(failCount, base);
  }
}
