/**
 * Time, the return codes and the tolerance classifier of
 * lib/checkssl/checkssl.go.
 *
 * An instant is an integer count of nanoseconds since Go's zero `time.Time`
 * (January 1, year 1, UTC), so `IsZero()` is `t == ZERO_TIME`, and
 * `t.After(u)` / `t.Before(u)` are the strict comparisons `t > u` / `t < u`.
 */
module Tolerance {

  type Time = int

  const ZERO_TIME: Time := 0
  const HOUR: int := 3_600_000_000_000
  const DAY: int := 24 * HOUR

  /** The range of `time.Duration`, an `int64` count of nanoseconds. */
  const MIN_DURATION: int := -0x8000_0000_0000_0000
  const MAX_DURATION: int := 0x7FFF_FFFF_FFFF_FFFF

  const RETURNCODE_PASS := 0
  const RETURNCODE_EXPIRED := 2
  const RETURNCODE_THRESHOLDFAIL := 3
  const RETURNCODE_NOTVALIDYET := 4
  const RETURNCODE_ERROR := 5

  /** `t.After(notBefore) && t.Before(notAfter)`: `t` lies strictly inside the window. */
  predicate Within(t: Time, notBefore: Time, notAfter: Time) {
    notBefore < t < notAfter
  }

  /**
   * `checkIfExpirationIsWithinTolerance`: four rules, first match wins. The
   * clock reading `now` is only consulted by the second rule.
   */
  function Classify(threshold: Time, notBefore: Time, notAfter: Time, now: Time): (code: int)
    ensures code in {RETURNCODE_PASS, RETURNCODE_EXPIRED, RETURNCODE_THRESHOLDFAIL, RETURNCODE_NOTVALIDYET}
    ensures code == RETURNCODE_PASS <==> Within(threshold, notBefore, notAfter)
    ensures code == RETURNCODE_THRESHOLDFAIL ==> Within(now, notBefore, notAfter) && threshold != now
    ensures code == RETURNCODE_NOTVALIDYET <==>
      !Within(threshold, notBefore, notAfter) && !Within(now, notBefore, notAfter)
      && threshold < notBefore && threshold < notAfter
    ensures code == RETURNCODE_EXPIRED <==>
      !Within(threshold, notBefore, notAfter) && !Within(now, notBefore, notAfter)
      && (threshold >= notBefore || threshold >= notAfter)
  {
    if Within(threshold, notBefore, notAfter) then RETURNCODE_PASS
    else if Within(now, notBefore, notAfter) then RETURNCODE_THRESHOLDFAIL
    else if threshold < notBefore && threshold < notAfter then RETURNCODE_NOTVALIDYET
    else RETURNCODE_EXPIRED
  }

  /**
   * With the threshold equal to the clock reading (zero days of lead time)
   * the result is never THRESHOLDFAIL; for a proper window it is PASS inside,
   * NOTVALIDYET strictly before the start and EXPIRED from the start instant
   * on and from the end instant on.
   */
  lemma ClassifyAtNow(now: Time, notBefore: Time, notAfter: Time)
    requires notBefore < notAfter
    ensures Classify(now, notBefore, notAfter, now) != RETURNCODE_THRESHOLDFAIL
    ensures now < notBefore ==> Classify(now, notBefore, notAfter, now) == RETURNCODE_NOTVALIDYET
    ensures now == notBefore || now >= notAfter ==> Classify(now, notBefore, notAfter, now) == RETURNCODE_EXPIRED
  {
  }

  /**
   * A window that holds now but not the threshold gives THRESHOLDFAIL,
   * whether the threshold lies past the end or at or before the start; and
   * THRESHOLDFAIL arises in no other way.
   */
  lemma ClassifyRenewSoon(threshold: Time, notBefore: Time, notAfter: Time, now: Time)
    ensures Classify(threshold, notBefore, notAfter, now) == RETURNCODE_THRESHOLDFAIL <==>
      Within(now, notBefore, notAfter) && !Within(threshold, notBefore, notAfter)
  {
  }

  /** The four sample windows a week either side of now. */
  lemma ClassifyExamples(now: Time)
    ensures Classify(now, now - 7 * DAY, now + 7 * DAY, now) == RETURNCODE_PASS
    ensures Classify(now + 8 * DAY, now - 7 * DAY, now + 7 * DAY, now) == RETURNCODE_THRESHOLDFAIL
    ensures Classify(now, now + 7 * DAY, now + 7 * DAY, now) == RETURNCODE_NOTVALIDYET
    ensures Classify(now, now - 7 * DAY, now - 7 * DAY, now) == RETURNCODE_EXPIRED
  {
  }
}
