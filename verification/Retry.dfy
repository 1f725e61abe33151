/** The two retry decorators: capped exponential backoff with jitter, and geometric backoff. */
module Retry {

  /** What one call of the decorated function does: it returns, or raises with a message. */
  datatype Outcome<V> = Value(value: V) | Error(message: string)

  /** How the wrapper ends. `BadSleep` is the error `time.sleep` raises for a negative delay,
      `NoAttempt` the final raise after a loop that never ran. */
  datatype Ending<V> = Returned(value: V) | Raised(message: string) | BadSleep | NoAttempt

  datatype Trace<V> = Trace(ending: Ending<V>, calls: nat, sleeps: seq<real>)

  const JITTER_LOWER := 0.8
  const JITTER_RANGE := 0.4

  function Pow(x: real, n: nat): real {
    if n == 0 then 1.0 else x * Pow(x, n - 1)
  }

  function Min(a: real, b: real): real {
    if a <= b then a else b
  }

  /** `delay * factor ** i` */
  function Grown(delay: real, factor: real, i: nat): real {
    delay * Pow(factor, i)
  }

  /** The delay after failed attempt `i`, before jitter. */
  function PlainDelay(base: real, cap: real, exponential: bool, i: nat): real {
    if exponential then Min(Grown(base, 2.0, i), cap) else base
  }

  function Jittered(delay: real, random: real): real {
    delay * (JITTER_LOWER + random * JITTER_RANGE)
  }

  /** The delays of the capped decorator before and after jitter, and those of the geometric one. */
  function PlainDelays(base: real, cap: real, exponential: bool): nat -> real {
    (i: nat) => PlainDelay(base, cap, exponential, i)
  }

  function CappedDelays(base: real, cap: real, exponential: bool, random: nat -> real): nat -> real {
    (i: nat) => Jittered(PlainDelay(base, cap, exponential, i), random(i))
  }

  function GeometricDelays(delay: real, backoff: real): nat -> real {
    (i: nat) => Grown(delay, backoff, i)
  }

  /** The errors after which the geometric decorator goes on. */
  function RetriedErrors(retryable: string -> bool, transientOnly: bool): string -> bool {
    e => !transientOnly || retryable(e)
  }

  // ---- What a retrying wrapper promises ----

  /** The trace of a wrapper that makes at most `most` calls, goes on only after an error for which
      `again` holds, and sleeps `delay(i)` after failed call `i`. */
  ghost predicate Follows<V>(outcomes: nat -> Outcome<V>, again: string -> bool, most: int, delay: nat -> real,
                             t: Trace<V>)
  {
    if most <= 0 then t == Trace(NoAttempt, 0, [])
    else
      && 1 <= t.calls <= most
      && (forall i | 0 <= i < t.calls - 1 :: outcomes(i).Error? && again(outcomes(i).message))
      && t.sleeps == Sleeps(delay, t.calls - 1)
      && (forall i | 0 <= i < t.calls - 1 :: delay(i) >= 0.0)
      && match t.ending
         case Returned(v) => outcomes(t.calls - 1) == Value(v)
         case Raised(e) => outcomes(t.calls - 1) == Error(e) && (!again(e) || t.calls == most)
         case BadSleep =>
           && outcomes(t.calls - 1).Error? && again(outcomes(t.calls - 1).message)
           && t.calls < most && delay(t.calls - 1) < 0.0
         case NoAttempt => false
  }

  function Sleeps(delay: nat -> real, n: nat): seq<real> {
    seq(n, i requires 0 <= i < n => delay(i))
  }

  lemma {:induction false} DelayAt(base: real, cap: real, exponential: bool, random: nat -> real, i: nat, power: real)
    requires power == Pow(2.0, i)
    ensures CappedDelays(base, cap, exponential, random)(i)
            == (if exponential then Min(base * power, cap) else base) * (JITTER_LOWER + random(i) * JITTER_RANGE)
  {
  }

  /** `tools/llm/probe_config.py`: exponential backoff with a cap and jitter. */
  method WithCappedRetry<V>(outcomes: nat -> Outcome<V>, retryable: string -> bool, maxRetries: int, baseDelay: real,
                            maxDelay: real, exponential: bool, random: nat -> real) returns (t: Trace<V>)
    ensures Follows(outcomes, retryable, maxRetries + 1,
                    CappedDelays(baseDelay, maxDelay, exponential, random), t)
  {
    ghost var delays := CappedDelays(baseDelay, maxDelay, exponential, random);
    var sleeps: seq<real> := [];
    var power := 1.0;
    var attempt := 0;
    while attempt < maxRetries + 1
      invariant 0 <= attempt && (attempt <= maxRetries + 1 || attempt == 0)
      invariant attempt == 0 || attempt <= maxRetries
      invariant power == Pow(2.0, attempt)
      invariant sleeps == Sleeps(delays, attempt)
      invariant forall i | 0 <= i < attempt ::
                  outcomes(i).Error? && retryable(outcomes(i).message) && delays(i) >= 0.0
    {
      match outcomes(attempt)
      case Value(v) => return Trace(Returned(v), attempt + 1, sleeps);
      case Error(e) =>
        if !retryable(e) || attempt >= maxRetries {
          return Trace(Raised(e), attempt + 1, sleeps);
        }
        var delay := if exponential then Min(baseDelay * power, maxDelay) else baseDelay;
        delay := delay * (JITTER_LOWER + random(attempt) * JITTER_RANGE);
        DelayAt(baseDelay, maxDelay, exponential, random, attempt, power);
        assert delay == delays(attempt);
        if delay < 0.0 { return Trace(BadSleep, attempt + 1, sleeps); }
        sleeps := sleeps + [delay];
        power := 2.0 * power;
        attempt := attempt + 1;
    }
    t := Trace(NoAttempt, 0, []);
  }

  /** `tools/core/tool_init.py`: geometric backoff. */
  method WithGeometricRetry<V>(outcomes: nat -> Outcome<V>, retryable: string -> bool, maxAttempts: int, delay: real,
                               backoff: real, transientOnly: bool) returns (t: Trace<V>)
    ensures Follows(outcomes, RetriedErrors(retryable, transientOnly), maxAttempts, GeometricDelays(delay, backoff), t)
  {
    ghost var delays := GeometricDelays(delay, backoff);
    var sleeps: seq<real> := [];
    var currentDelay := delay;
    var lastError := "";
    var attempt := 0;
    while attempt < maxAttempts
      invariant 0 <= attempt && (attempt <= maxAttempts || attempt == 0)
      invariant attempt < maxAttempts ==> currentDelay == delays(attempt) && sleeps == Sleeps(delays, attempt)
      invariant attempt == maxAttempts && attempt > 0 ==> sleeps == Sleeps(delays, attempt - 1)
      invariant attempt > 0 ==> outcomes(attempt - 1) == Error(lastError)
      invariant forall i | 0 <= i < attempt ::
                  outcomes(i).Error? && (!transientOnly || retryable(outcomes(i).message))
      invariant forall i | 0 <= i < attempt && i < maxAttempts - 1 :: delays(i) >= 0.0
    {
      match outcomes(attempt)
      case Value(v) => return Trace(Returned(v), attempt + 1, sleeps);
      case Error(e) =>
        lastError := e;
        if transientOnly && !retryable(e) { return Trace(Raised(e), attempt + 1, sleeps); }
        if attempt < maxAttempts - 1 {
          if currentDelay < 0.0 { return Trace(BadSleep, attempt + 1, sleeps); }
          sleeps := sleeps + [currentDelay];
          currentDelay := currentDelay * backoff;
          Reorder(delay, backoff, Pow(backoff, attempt));
        }
        attempt := attempt + 1;
    }
    t := if attempt == 0 then Trace(NoAttempt, 0, []) else Trace(Raised(lastError), attempt, sleeps);
  }

  lemma {:induction false} Reorder(a: real, b: real, c: real)
    ensures (a * c) * b == a * (b * c)
  {
  }

  // ---- Consequences ----

  /** The promise leaves no freedom: a wrapper's trace is determined by the outcomes. */
  lemma {:induction false} TraceIsUnique<V>(outcomes: nat -> Outcome<V>, again: string -> bool, most: int,
                                            delay: nat -> real, t: Trace<V>, u: Trace<V>)
    requires Follows(outcomes, again, most, delay, t) && Follows(outcomes, again, most, delay, u)
    ensures t == u
  {
    if most > 0 {
      if t.calls < u.calls {
        StopsThere(outcomes, again, most, delay, t, u);
      } else if u.calls < t.calls {
        StopsThere(outcomes, again, most, delay, u, t);
      }
    }
  }

  lemma {:induction false} StopsThere<V>(outcomes: nat -> Outcome<V>, again: string -> bool, most: int,
                                         delay: nat -> real, t: Trace<V>, u: Trace<V>)
    requires most > 0 && Follows(outcomes, again, most, delay, t) && Follows(outcomes, again, most, delay, u)
    ensures !(t.calls < u.calls)
  {
  }

  /** The final raise is reached only by a wrapper that was configured to make no call at all. */
  lemma {:induction false} FinalRaiseUnreached<V>(outcomes: nat -> Outcome<V>, again: string -> bool, most: int,
                                                  delay: nat -> real, t: Trace<V>)
    requires Follows(outcomes, again, most, delay, t)
    ensures t.ending.NoAttempt? <==> most <= 0
    ensures t.ending.Raised? ==> outcomes(t.calls - 1) == Error(t.ending.message)
    ensures t.ending.Returned? ==> forall i | 0 <= i < t.calls - 1 :: outcomes(i).Error?
  {
  }

  /** Two wrappers with the same bound and the same notion of a retryable error make the same
      calls and end the same way, whatever their delays, as long as no delay is negative. */
  lemma {:induction false} DecoratorsAgree<V>(outcomes: nat -> Outcome<V>, again: string -> bool, most: int,
                                              delay: nat -> real, other: nat -> real, t: Trace<V>, u: Trace<V>)
    requires Follows(outcomes, again, most, delay, t) && Follows(outcomes, again, most, other, u)
    requires forall i: nat :: delay(i) >= 0.0 && other(i) >= 0.0
    ensures t.calls == u.calls && t.ending == u.ending
  {
    if most > 0 {
      var relaid := Trace(u.ending, u.calls, Sleeps(delay, u.calls - 1));
      assert Follows(outcomes, again, most, delay, relaid);
      TraceIsUnique(outcomes, again, most, delay, t, relaid);
    }
  }

  // ---- Delays ----

  lemma {:induction false} PowPositive(x: real, n: nat)
    requires x >= 0.0
    ensures Pow(x, n) >= 0.0
  {
    if n != 0 {
      PowPositive(x, n - 1);
      ProductNonNegative(x, Pow(x, n - 1));
    }
  }

  lemma {:induction false} ProductNonNegative(a: real, b: real)
    requires a >= 0.0 && b >= 0.0
    ensures a * b >= 0.0
  {
  }

  lemma {:induction false} JitterBounds(delay: real, random: real)
    requires delay >= 0.0 && 0.0 <= random < 1.0
    ensures 0.8 * delay <= Jittered(delay, random) <= 1.2 * delay
  {
    ProductNonNegative(delay, random);
    ProductNonNegative(delay, 1.0 - random);
    assert Jittered(delay, random) == 0.8 * delay + 0.4 * (delay * random);
  }

  /** Jitter moves a delay in proportion to the random number, from four fifths of it to six fifths. */
  lemma {:induction false} JitterSpans(delay: real, random: real)
    ensures Jittered(delay, random) == 0.8 * delay + 0.4 * delay * random
    ensures Jittered(delay, 0.0) == 0.8 * delay && Jittered(delay, 1.0) == 1.2 * delay
  {
    assert delay * (0.8 + random * 0.4) == delay * 0.8 + delay * random * 0.4;
  }

  /** With sensible settings the two decorators run the same calls to the same end. */
  lemma {:induction false} CappedAgreesWithGeometric<V>(outcomes: nat -> Outcome<V>, retryable: string -> bool,
      maxRetries: int, baseDelay: real, maxDelay: real, exponential: bool, random: nat -> real,
      delay: real, backoff: real, t: Trace<V>, u: Trace<V>)
    requires baseDelay >= 0.0 && maxDelay >= 0.0 && delay >= 0.0 && backoff >= 0.0
    requires forall i: nat :: 0.0 <= random(i) < 1.0
    requires Follows(outcomes, retryable, maxRetries + 1,
                     CappedDelays(baseDelay, maxDelay, exponential, random), t)
    requires Follows(outcomes, RetriedErrors(retryable, true), maxRetries + 1, GeometricDelays(delay, backoff), u)
    ensures t.calls == u.calls && t.ending == u.ending
  {
    var capped := CappedDelays(baseDelay, maxDelay, exponential, random);
    var geometric := GeometricDelays(delay, backoff);
    forall i: nat ensures capped(i) >= 0.0 && geometric(i) >= 0.0 {
      PowPositive(2.0, i);
      ProductNonNegative(baseDelay, Pow(2.0, i));
      JitterBounds(PlainDelay(baseDelay, maxDelay, exponential, i), random(i));
      PowPositive(backoff, i);
      ProductNonNegative(delay, Pow(backoff, i));
    }
    assert forall e: string :: RetriedErrors(retryable, true)(e) == retryable(e);
    assert Follows(outcomes, retryable, maxRetries + 1, geometric, u);
    DecoratorsAgree(outcomes, retryable, maxRetries + 1, capped, geometric, t, u);
  }

  function Sum(delay: nat -> real, n: nat): real {
    if n == 0 then 0.0 else Sum(delay, n - 1) + delay(n - 1)
  }

  function Total(sleeps: seq<real>): real {
    if sleeps == [] then 0.0 else Total(sleeps[..|sleeps| - 1]) + sleeps[|sleeps| - 1]
  }

  lemma {:induction false} TotalIsSum(delay: nat -> real, n: nat)
    ensures Total(Sleeps(delay, n)) == Sum(delay, n)
  {
    if n != 0 {
      assert Sleeps(delay, n)[..n - 1] == Sleeps(delay, n - 1);
      TotalIsSum(delay, n - 1);
    }
  }

  lemma {:induction false} SumBounds(plain: nat -> real, jittered: nat -> real, n: nat)
    requires forall i | 0 <= i < n :: 0.8 * plain(i) <= jittered(i) <= 1.2 * plain(i)
    ensures 0.8 * Sum(plain, n) <= Sum(jittered, n) <= 1.2 * Sum(plain, n)
  {
    if n != 0 { SumBounds(plain, jittered, n - 1); }
  }

  /** All sleeping of the capped decorator together lies between 0.8 and 1.2 times the sum of the
      plain delays of the calls that failed. */
  lemma {:induction false} CappedSleepBounds<V>(outcomes: nat -> Outcome<V>, retryable: string -> bool, maxRetries: int,
      baseDelay: real, maxDelay: real, exponential: bool, random: nat -> real, t: Trace<V>)
    requires baseDelay >= 0.0 && maxDelay >= 0.0 && forall i: nat :: 0.0 <= random(i) < 1.0
    requires Follows(outcomes, retryable, maxRetries + 1,
                     CappedDelays(baseDelay, maxDelay, exponential, random), t)
    requires maxRetries >= 0
    ensures var plain := Sum(PlainDelays(baseDelay, maxDelay, exponential), t.calls - 1);
            0.8 * plain <= Total(t.sleeps) <= 1.2 * plain
  {
    var plain := PlainDelays(baseDelay, maxDelay, exponential);
    var jittered := CappedDelays(baseDelay, maxDelay, exponential, random);
    forall i: nat ensures 0.8 * plain(i) <= jittered(i) <= 1.2 * plain(i) {
      PowPositive(2.0, i);
      ProductNonNegative(baseDelay, Pow(2.0, i));
      JitterBounds(plain(i), random(i));
    }
    TotalIsSum(jittered, t.calls - 1);
    SumBounds(plain, jittered, t.calls - 1);
  }

  lemma {:induction false} PowOfTwoGrows(base: real, i: nat, j: nat)
    requires base >= 0.0 && i <= j
    ensures Grown(base, 2.0, i) <= Grown(base, 2.0, j)
  {
    if i < j {
      PowOfTwoGrows(base, i, j - 1);
      PowPositive(2.0, j - 1);
      ProductNonNegative(base, Pow(2.0, j - 1));
      assert base * Pow(2.0, j) == 2.0 * (base * Pow(2.0, j - 1));
    }
  }

  function Repeated(x: real): nat -> real {
    (i: nat) => x
  }

  lemma {:induction false} SumRepeated(x: real, n: nat)
    ensures Sum(Repeated(x), n) == n as real * x
  {
    if n != 0 {
      SumRepeated(x, n - 1);
      assert n as real == (n - 1) as real + 1.0;
    }
  }

  /** Capping a sequence that doubles and passes the cap at index `m`. */
  lemma {:induction false} SumOfCapped(doubling: nat -> real, cap: real, capped: nat -> real, m: nat, n: nat)
    requires forall i: nat :: doubling(i + 1) == 2.0 * doubling(i)
    requires forall i: nat :: capped(i) == if i < m then doubling(i) else cap
    ensures Sum(capped, n) == if n <= m then doubling(n) - doubling(0)
                              else doubling(m) - doubling(0) + Sum(Repeated(cap), n - m)
  {
    if n != 0 { SumOfCapped(doubling, cap, capped, m, n - 1); }
  }

  lemma {:induction false} DelayStep(delay: real, backoff: real, i: nat)
    ensures GeometricDelays(delay, backoff)(i + 1) == GeometricDelays(delay, backoff)(i) * backoff
  {
    assert Pow(backoff, i + 1) == backoff * Pow(backoff, i);
    Reorder(delay, backoff, Pow(backoff, i));
  }

  lemma {:induction false} Distribute(a: real, b: real, c: real)
    ensures (a + b) * c == a * c + b * c
    ensures a * (b - 1.0) == a * b - a
  {
  }

  /** delay * (backoff^n - 1) */
  function PowerGain(delay: real, backoff: real, n: nat): real {
    delay * (Pow(backoff, n) - 1.0)
  }

  lemma {:induction false} PowerGainIs(delay: real, backoff: real, n: nat)
    ensures PowerGain(delay, backoff, n) == GeometricDelays(delay, backoff)(n) - GeometricDelays(delay, backoff)(0)
  {
    Distribute(delay, Pow(backoff, n), 1.0);
  }

  lemma {:induction false} CappedSplit(base: real, cap: real, m: nat, n: nat)
    requires base >= 0.0 && Grown(base, 2.0, m) >= cap
    requires forall i | 0 <= i < m :: Grown(base, 2.0, i) <= cap
    ensures var doubling := GeometricDelays(base, 2.0);
            Sum(PlainDelays(base, cap, true), n)
            == if n <= m then doubling(n) - doubling(0) else doubling(m) - doubling(0) + Sum(Repeated(cap), n - m)
  {
    var doubling := GeometricDelays(base, 2.0);
    var capped := PlainDelays(base, cap, true);
    forall i: nat ensures doubling(i + 1) == 2.0 * doubling(i) { DelayStep(base, 2.0, i); }
    forall i: nat ensures capped(i) == if i < m then doubling(i) else cap {
      assert capped(i) == Min(Grown(base, 2.0, i), cap);
      if i >= m { PowOfTwoGrows(base, m, i); }
    }
    SumOfCapped(doubling, cap, capped, m, n);
  }

  /** The plain delays double until the cap is reached at attempt `m`, and stay at the cap from there. */
  lemma {:induction false} CappedClosedForm(base: real, cap: real, m: nat, n: nat)
    requires base >= 0.0 && Grown(base, 2.0, m) >= cap
    requires forall i | 0 <= i < m :: Grown(base, 2.0, i) <= cap
    ensures Sum(PlainDelays(base, cap, true), n)
            == if n <= m then PowerGain(base, 2.0, n) else PowerGain(base, 2.0, m) + Sum(Repeated(cap), n - m)
    ensures n > m ==> Sum(Repeated(cap), n - m) == (n - m) as real * cap
  {
    CappedSplit(base, cap, m, n);
    PowerGainIs(base, 2.0, if n <= m then n else m);
    if n > m { SumRepeated(cap, n - m); }
  }

  /** Doubling from a positive base outgrows every bound. */
  lemma {:induction false} DoublingIsUnbounded(base: real, n: nat)
    requires base > 0.0
    ensures Grown(base, 2.0, n) >= base * (n as real + 1.0)
  {
    if n == 0 {
      assert Grown(base, 2.0, 0) == base;
    } else {
      DoublingIsUnbounded(base, n - 1);
      DelayStep(base, 2.0, n - 1);
      assert Grown(base, 2.0, n) == Grown(base, 2.0, n - 1) * 2.0;
      Scale(base, n as real);
    }
  }

  lemma {:induction false} Scale(base: real, x: real)
    requires base > 0.0 && x >= 1.0
    ensures base * x * 2.0 >= base * (x + 1.0)
  {
    ProductNonNegative(base, x - 1.0);
    assert base * x * 2.0 - base * (x + 1.0) == base * (x - 1.0);
  }

  /** The first attempt, among the first `n`, at which the doubled delay reaches the cap. */
  lemma {:induction false} FirstCapped(base: real, cap: real, n: nat) returns (m: nat)
    requires Grown(base, 2.0, n) >= cap
    ensures m <= n && Grown(base, 2.0, m) >= cap
    ensures forall i | 0 <= i < m :: Grown(base, 2.0, i) < cap
  {
    m := 0;
    while Grown(base, 2.0, m) < cap
      invariant m <= n
      invariant forall i | 0 <= i < m :: Grown(base, 2.0, i) < cap
      decreases n - m
    {
      m := m + 1;
    }
  }

  /** With a positive base the cap is always reached, at one attempt: the first whose doubled delay is
      not below the cap. */
  lemma {:induction false} CapIsReached(base: real, cap: real) returns (m: nat)
    requires base > 0.0
    ensures Grown(base, 2.0, m) >= cap
    ensures forall i | 0 <= i < m :: Grown(base, 2.0, i) < cap
  {
    var n: nat := if cap <= base then 0 else (cap / base).Floor;
    DoublingIsUnbounded(base, n);
    if cap > base {
      assert cap / base <= n as real + 1.0;
      QuotientBound(cap, base, n as real + 1.0);
    }
    m := FirstCapped(base, cap, n);
  }

  lemma {:induction false} QuotientBound(a: real, b: real, c: real)
    requires b > 0.0 && a / b <= c
    ensures a <= b * c
  {
    var q := a / b;
    assert q * b == a;
    ProductNonNegative(b, c - q);
    assert b * (c - q) == b * c - b * q;
  }

  /** The sum of any number of plain delays, for every positive base and every cap: a power of two gain
      up to the attempt at which the cap is reached, and the cap for every attempt from there. */
  lemma {:induction false} PlainDelaysSum(base: real, cap: real, n: nat) returns (m: nat)
    requires base > 0.0
    ensures Grown(base, 2.0, m) >= cap && forall i | 0 <= i < m :: Grown(base, 2.0, i) < cap
    ensures Sum(PlainDelays(base, cap, true), n)
            == if n <= m then PowerGain(base, 2.0, n) else PowerGain(base, 2.0, m) + (n - m) as real * cap
  {
    m := CapIsReached(base, cap);
    CappedClosedForm(base, cap, m, n);
  }

  /** With a base of zero every delay is zero, or the cap if that is negative. */
  lemma {:induction false} ZeroBaseSum(cap: real, n: nat)
    ensures Sum(PlainDelays(0.0, cap, true), n) == n as real * Min(0.0, cap)
  {
    if n != 0 {
      ZeroBaseSum(cap, n - 1);
      assert PlainDelays(0.0, cap, true)(n - 1) == Min(0.0, cap);
      Distribute((n - 1) as real, 1.0, Min(0.0, cap));
    }
  }

  /** Without the exponential the base is slept each time and the cap plays no part. */
  lemma {:induction false} ConstantSum(base: real, cap: real, n: nat)
    ensures PlainDelay(base, cap, false, n) == base
    ensures Sum(PlainDelays(base, cap, false), n) == n as real * base
  {
    if n != 0 {
      ConstantSum(base, cap, n - 1);
      Distribute((n - 1) as real, 1.0, base);
    }
  }

  lemma {:induction false} GeometricProduct(delay: real, backoff: real, n: nat)
    ensures var g := GeometricDelays(delay, backoff); Sum(g, n) * (backoff - 1.0) == g(n) - g(0)
  {
    var g := GeometricDelays(delay, backoff);
    if n != 0 {
      GeometricProduct(delay, backoff, n - 1);
      DelayStep(delay, backoff, n - 1);
      Distribute(Sum(g, n - 1), g(n - 1), backoff - 1.0);
      Distribute(g(n - 1), backoff, 1.0);
    }
  }

  /** The geometric decorator's delays sum to a geometric series. */
  lemma {:induction false} GeometricClosedForm(delay: real, backoff: real, n: nat)
    requires backoff != 1.0
    ensures Sum(GeometricDelays(delay, backoff), n) == GeometricSum(delay, backoff, n)
  {
    GeometricProduct(delay, backoff, n);
    PowerGainIs(delay, backoff, n);
    QuotientOf(Sum(GeometricDelays(delay, backoff), n), backoff - 1.0, PowerGain(delay, backoff, n));
  }

  lemma {:induction false} QuotientOf(a: real, b: real, c: real)
    requires b != 0.0 && a * b == c
    ensures a == c / b
  {
  }

  lemma {:induction false} GeometricTotal(delay: real, backoff: real, n: nat)
    requires backoff != 1.0
    ensures Total(Sleeps(GeometricDelays(delay, backoff), n)) == GeometricSum(delay, backoff, n)
  {
    TotalIsSum(GeometricDelays(delay, backoff), n);
    GeometricClosedForm(delay, backoff, n);
  }

  /** Total sleep of the geometric decorator over its retries. */
  lemma {:induction false} GeometricSleep<V>(outcomes: nat -> Outcome<V>, again: string -> bool, maxAttempts: int,
                                             delay: real, backoff: real, t: Trace<V>)
    requires Follows(outcomes, again, maxAttempts, GeometricDelays(delay, backoff), t)
    requires maxAttempts > 0 && backoff != 1.0
    ensures Total(t.sleeps) == GeometricSum(delay, backoff, t.calls - 1)
  {
    GeometricTotal(delay, backoff, t.calls - 1);
  }

  /** delay * (backoff^n - 1) / (backoff - 1) */
  function GeometricSum(delay: real, backoff: real, n: nat): real
    requires backoff != 1.0
  {
    PowerGain(delay, backoff, n) / (backoff - 1.0)
  }
}
