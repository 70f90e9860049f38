/** Decides whether a failed task is tried again, and after how long. */
module TaskRetry {

  datatype RetryPolicy = RetryPolicy(
    maxAttempts: int,
    initialDelayMs: real,
    backoffMultiplier: real,
    maxDelayMs: real,
    jitter: real)

  /** A thrown value: an error of the platform, with its flag and class, or anything else. */
  datatype TaskError =
    | PlatformError(retryable: bool, permanentClass: bool, message: string)
    | OtherError(message: string)

  datatype Decision = Retry(delayMs: nat) | GiveUp

  /** What a task definition must satisfy to be stored. */
  ghost predicate ValidPolicy(p: RetryPolicy) {
    && p.maxAttempts > 0
    && p.initialDelayMs >= 0.0
    && p.backoffMultiplier > 0.0
    && p.maxDelayMs >= 0.0
    && 0.0 <= p.jitter <= 1.0
  }

  predicate Permanent(error: TaskError) {
    error.PlatformError? && (!error.retryable || error.permanentClass)
  }

  function Pow(base: real, n: nat): real {
    if n == 0 then 1.0 else base * Pow(base, n - 1)
  }

  function Min(a: real, b: real): real {
    if a <= b then a else b
  }

  function Scale(x: real, factor: real): real {
    x * factor
  }

  /** Symmetric jitter around one. */
  function JitterFactor(p: RetryPolicy, random: real): real {
    1.0 + Scale(random * 2.0 - 1.0, p.jitter)
  }

  /** Rounds half up, as Math.round does. */
  function Round(x: real): int {
    (x + 0.5).Floor
  }

  /** The delay before jitter: exponential in the attempts already made, up to the policy's bound. */
  function Backoff(p: RetryPolicy, attempt: int): real
    requires attempt >= 1
  {
    Min(Scale(p.initialDelayMs, Pow(p.backoffMultiplier, attempt - 1)), p.maxDelayMs)
  }

  /** `attempt` counts from one and `random` lies between zero and one. */
  function Decide(error: TaskError, attempt: int, p: RetryPolicy, random: real): Decision
    requires attempt >= 1
  {
    if Permanent(error) then GiveUp
    else if attempt >= p.maxAttempts then GiveUp
    else
      var delay := Round(Scale(Backoff(p, attempt), JitterFactor(p, random)));
      Retry(if delay < 0 then 0 else delay)
  }

  /**
    * A task is retried exactly when attempts remain and the error is none of the platform's, or one of the platform's
    * that is retryable and of no permanent class.
    */
  lemma RetriesWhileAttemptsRemain(error: TaskError, attempt: int, p: RetryPolicy, random: real)
    requires attempt >= 1
    ensures Decide(error, attempt, p, random).Retry? <==>
            attempt < p.maxAttempts && (error.OtherError? || (error.retryable && !error.permanentClass))
  {
  }

  // ---------- The backoff, attempt by attempt ----------

  lemma {:induction false} PowSteps(base: real, n: nat)
    ensures Pow(base, 0) == 1.0 && Pow(base, n + 1) == Pow(base, n) * base
  {
    if n > 0 {
      PowSteps(base, n - 1);
      Commutes(base, Pow(base, n - 1), base);
    }
  }

  lemma Commutes(a: real, b: real, c: real)
    ensures a * (b * c) == (a * b) * c
    ensures a * b == b * a
  {
  }

  /** The first wait is the initial one, if the bound allows it. */
  lemma FirstBackoff(p: RetryPolicy)
    ensures Backoff(p, 1) == if p.initialDelayMs <= p.maxDelayMs then p.initialDelayMs else p.maxDelayMs
  {
  }

  /** As long as a wait is below the bound, the next one is longer by the multiplier, up to the bound. */
  lemma NextBackoff(p: RetryPolicy, attempt: int)
    requires attempt >= 1 && Backoff(p, attempt) < p.maxDelayMs
    ensures var next := Backoff(p, attempt) * p.backoffMultiplier;
            Backoff(p, attempt + 1) == if next <= p.maxDelayMs then next else p.maxDelayMs
  {
    PowSteps(p.backoffMultiplier, attempt - 1);
    Commutes(p.initialDelayMs, Pow(p.backoffMultiplier, attempt - 1), p.backoffMultiplier);
    assert Pow(p.backoffMultiplier, attempt) == Pow(p.backoffMultiplier, attempt - 1) * p.backoffMultiplier;
  }

  /** Once at the bound, and with a multiplier of at least one, waits stay there. */
  lemma BackoffStaysBounded(p: RetryPolicy, a: int, b: int)
    requires ValidPolicy(p) && 1 <= a <= b && p.backoffMultiplier >= 1.0 && Backoff(p, a) == p.maxDelayMs
    ensures Backoff(p, b) == p.maxDelayMs
  {
    hide Backoff;
    BackoffGrows(p, a, b);
    BackoffBounds(p, b);
  }

  /** The random draw moves the wait evenly from one end of the band to the other. */
  lemma JitterIsEven(p: RetryPolicy, random: real, other: real)
    ensures JitterFactor(p, 0.0) == 1.0 - p.jitter && JitterFactor(p, 1.0) == 1.0 + p.jitter
    ensures JitterFactor(p, random) - JitterFactor(p, other) == 2.0 * p.jitter * (random - other)
  {
  }

  /** The wait is a whole number of milliseconds, the one nearest to the exact one, halves going up. */
  lemma WaitIsNearest(error: TaskError, attempt: int, p: RetryPolicy, random: real)
    requires ValidPolicy(p) && attempt >= 1 && 0.0 <= random <= 1.0
    requires Decide(error, attempt, p, random).Retry?
    ensures var exact := Backoff(p, attempt) * JitterFactor(p, random);
            exact - 0.5 < Decide(error, attempt, p, random).delayMs as real <= exact + 0.5
  {
    hide Backoff, JitterFactor;
    BackoffBounds(p, attempt);
    JitterFactorBounds(p, random);
    NonNegativeScale(Backoff(p, attempt), JitterFactor(p, random));
  }

  lemma {:induction false} PowPositive(base: real, n: nat)
    requires base > 0.0
    ensures Pow(base, n) > 0.0
  {
    if n > 0 {
      PowPositive(base, n - 1);
    }
  }

  lemma {:induction false} PowMonotonic(base: real, m: nat, n: nat)
    requires base >= 1.0 && m <= n
    ensures Pow(base, m) <= Pow(base, n)
    decreases n
  {
    if m < n {
      PowMonotonic(base, m, n - 1);
      PowPositive(base, n - 1);
      assert Pow(base, n - 1) <= base * Pow(base, n - 1);
    }
  }

  lemma BackoffBounds(p: RetryPolicy, attempt: int)
    requires ValidPolicy(p) && attempt >= 1
    ensures 0.0 <= Backoff(p, attempt) <= p.maxDelayMs
  {
    PowPositive(p.backoffMultiplier, attempt - 1);
  }

  lemma ScalesUp(x: real, y: real, factor: real)
    requires x <= y && factor >= 0.0
    ensures Scale(x, factor) <= Scale(y, factor)
    ensures Scale(factor, x) <= Scale(factor, y)
  {
  }

  lemma JitterFactorBounds(p: RetryPolicy, random: real)
    requires ValidPolicy(p) && 0.0 <= random <= 1.0
    ensures 0.0 <= 1.0 - p.jitter <= JitterFactor(p, random) <= 1.0 + p.jitter
  {
    ScalesUp(-1.0, random * 2.0 - 1.0, p.jitter);
    ScalesUp(random * 2.0 - 1.0, 1.0, p.jitter);
  }

  lemma RoundIsNear(x: real)
    ensures x - 0.5 <= Round(x) as real <= x + 0.5
  {
  }

  lemma NonNegativeScale(x: real, factor: real)
    requires x >= 0.0 && factor >= 0.0
    ensures Scale(x, factor) >= 0.0
  {
  }

  /** The delay stays within the jitter band around the bounded backoff, so it never passes the bound by more. */
  lemma DelayStaysInBand(error: TaskError, attempt: int, p: RetryPolicy, random: real)
    requires ValidPolicy(p) && attempt >= 1 && 0.0 <= random <= 1.0
    requires Decide(error, attempt, p, random).Retry?
    ensures var delay := Decide(error, attempt, p, random).delayMs as real;
            && Scale(Backoff(p, attempt), 1.0 - p.jitter) - 0.5 <= delay
            && delay <= Scale(Backoff(p, attempt), 1.0 + p.jitter) + 0.5
            && delay <= Scale(p.maxDelayMs, 1.0 + p.jitter) + 0.5
  {
    hide Round, Backoff, JitterFactor, Scale;
    var capped := Backoff(p, attempt);
    var factor := JitterFactor(p, random);
    BackoffBounds(p, attempt);
    JitterFactorBounds(p, random);
    ScalesUp(1.0 - p.jitter, factor, capped);
    ScalesUp(factor, 1.0 + p.jitter, capped);
    ScalesUp(capped, p.maxDelayMs, 1.0 + p.jitter);
    NonNegativeScale(capped, 1.0 + p.jitter);
    RoundIsNear(Scale(capped, factor));
  }

  lemma BackoffGrows(p: RetryPolicy, a: int, b: int)
    requires ValidPolicy(p) && 1 <= a <= b && p.backoffMultiplier >= 1.0
    ensures Backoff(p, a) <= Backoff(p, b)
  {
    hide Pow;
    PowMonotonic(p.backoffMultiplier, a - 1, b - 1);
    ScalesUp(Pow(p.backoffMultiplier, a - 1), Pow(p.backoffMultiplier, b - 1), p.initialDelayMs);
  }

  /** Without jitter, a multiplier of at least one never shortens the wait. */
  lemma DelaysGrow(error: TaskError, a: int, b: int, p: RetryPolicy, r1: real, r2: real)
    requires ValidPolicy(p) && 1 <= a <= b && p.backoffMultiplier >= 1.0 && p.jitter == 0.0
    requires Decide(error, a, p, r1).Retry? && Decide(error, b, p, r2).Retry?
    ensures Decide(error, a, p, r1).delayMs <= Decide(error, b, p, r2).delayMs
  {
    hide Backoff;
    BackoffGrows(p, a, b);
    assert JitterFactor(p, r1) == 1.0 && JitterFactor(p, r2) == 1.0;
  }
}
