/** The HTTP retry loop (internal/client/client.go `doInternal`) with the retry policy of
    internal/platform/ratelimit.go.

    The environment answers every send; durations and clock readings are integers in nanoseconds. */
module RetryLoop {
  import opened Strings

  const SECOND: int := 1_000_000_000
  const MAX_RETRY_AFTER: int := 60 * SECOND

  // ----- policy -----

  /** `CanRetryRequest`, for a method already trimmed and in upper case. */
  predicate CanRetryRequest(verb: string, idempotencyKey: string) {
    if verb in ["GET", "HEAD", "OPTIONS", "PUT", "DELETE"] then true
    else if verb in ["POST", "PATCH"] then TrimSpace(idempotencyKey) != ""
    else false
  }

  /** What 64-bit arithmetic makes of a product. */
  function Wrap64(x: int): (r: int)
    ensures -0x8000_0000_0000_0000 <= r < 0x8000_0000_0000_0000
  {
    (x + 0x8000_0000_0000_0000) % 0x1_0000_0000_0000_0000 - 0x8000_0000_0000_0000
  }

  /** Wrapping changes a number by a multiple of 2^64, and a number of 64 bits not at all. */
  lemma WrapsAround(x: int)
    ensures (Wrap64(x) - x) % 0x1_0000_0000_0000_0000 == 0
    ensures -0x8000_0000_0000_0000 <= x < 0x8000_0000_0000_0000 ==> Wrap64(x) == x
  {
    var y, m := x + 0x8000_0000_0000_0000, 0x1_0000_0000_0000_0000;
    assert y == y / m * m + y % m;
    assert Wrap64(x) - x == -(y / m) * m;
  }

  /** A header that parses as seconds holds a number of 64 bits; anything larger does not parse. */
  type ParsedSeconds = n: int | 0 <= n < 0x8000_0000_0000_0000

  /** A `Retry-After` header as parsed; `jitter` is the random wait drawn when it is unusable. */
  datatype RetryAfter = Seconds(n: ParsedSeconds) | Until(wait: int, jitter: nat) | Absent(jitter: nat)

  function MinInt(a: int, b: int): int { if a < b then a else b }

  /** The longest jitter at an attempt: one second doubled up to six times. */
  function JitterCap(attempt: nat): int {
    SECOND * Pow2(MinInt(attempt, 6))
  }

  function Pow2(n: nat): (p: nat)
    ensures p >= 1
  {
    if n == 0 then 1 else 2 * Pow2(n - 1)
  }

  /** `RetryAfterDelay`; the draw is reduced into `[0, cap]`.  The product of a header in seconds with a
      second is not guarded against overflow. */
  function RetryAfterDelay(h: RetryAfter, attempt: nat): (wait: int)
    ensures wait <= MAX_RETRY_AFTER
    ensures wait < 0 <==> h.Seconds? && Wrap64(h.n * SECOND) < 0
  {
    match h
    case Seconds(n) => MinInt(Wrap64(n * SECOND), MAX_RETRY_AFTER)
    case Until(wait, jitter) =>
      if wait > 0 then MinInt(wait, MAX_RETRY_AFTER) else MinInt(jitter % (JitterCap(attempt) + 1), MAX_RETRY_AFTER)
    case Absent(jitter) => MinInt(jitter % (JitterCap(attempt) + 1), MAX_RETRY_AFTER)
  }

  const MAX_SECONDS: nat := 0x7FFF_FFFF_FFFF_FFFF / SECOND

  /** A header in seconds is honoured, up to a minute, exactly when it asks for the wrapped product or
      longer than a minute anyway; always when the product fits 64 bits. */
  lemma RetryAfterIsHonoured(n: ParsedSeconds, attempt: nat)
    ensures n <= MAX_SECONDS ==> RetryAfterDelay(Seconds(n), attempt) == MinInt(n * SECOND, MAX_RETRY_AFTER) >= 0
    ensures n > MAX_SECONDS ==>
              (RetryAfterDelay(Seconds(n), attempt) == MinInt(n * SECOND, MAX_RETRY_AFTER) <==>
               Wrap64(n * SECOND) >= MAX_RETRY_AFTER)
  {
    if n <= MAX_SECONDS {
      assert n * SECOND <= MAX_SECONDS * SECOND < 0x8000_0000_0000_0000;
    } else {
      assert n * SECOND >= (MAX_SECONDS + 1) * SECOND >= MAX_RETRY_AFTER;
    }
  }

  /** A header of ten thousand million seconds yields a negative delay, and so an immediate retry. */
  lemma HugeRetryAfterIsNegative(attempt: nat)
    ensures RetryAfterDelay(Seconds(10_000_000_000), attempt) == -8_446_744_073_709_551_616
  {
    assert 10_000_000_000 * SECOND == 10_000_000_000_000_000_000;
  }

  /** The back-offs double: a second, two, four and so on. */
  lemma {:induction false} BackoffsDouble(a: nat, b: nat)
    ensures Pow2(0) == 1 && Pow2(1) == 2
    ensures Pow2(a + b) == Pow2(a) * Pow2(b)
  {
    if a > 0 {
      BackoffsDouble(a - 1, b);
      Reassociate(2, Pow2(a - 1), Pow2(b));
    }
  }

  lemma Reassociate(x: int, y: int, z: int)
    ensures x * (y * z) == (x * y) * z
  {
  }

  lemma JitterCapIs(attempt: nat)
    ensures JitterCap(attempt) >= 0
    ensures attempt <= 6 ==> JitterCap(attempt) == 1_000_000_000 * Pow2(attempt)
    ensures attempt >= 6 ==> JitterCap(attempt) == 64_000_000_000
  {
    assert Pow2(6) == 2 * Pow2(5) == 4 * Pow2(4) == 8 * Pow2(3) == 64;
  }

  lemma Reduce(x: nat, m: nat)
    requires m > 0
    ensures 0 <= x % m < m && (x < m ==> x % m == x)
  {
  }

  /** A header that names a time ahead is honoured up to a minute. */
  lemma DateIsHonoured(wait: int, jitter: nat, attempt: nat)
    requires wait > 0
    ensures RetryAfterDelay(Until(wait, jitter), attempt) == if wait < 60_000_000_000 then wait else 60_000_000_000
  {
  }

  /** Without a usable header the delay is drawn at random: never negative, at most a second, doubled
      with every attempt up to the sixth, and at most a minute; every delay in that range can be drawn. */
  lemma DelayIsDrawn(wait: int, jitter: nat, attempt: nat)
    requires wait <= 0
    ensures var h := Absent(jitter); var past := Until(wait, jitter);
            && RetryAfterDelay(past, attempt) == RetryAfterDelay(h, attempt)
            && 0 <= RetryAfterDelay(h, attempt) <= 60_000_000_000
            && (attempt <= 6 ==> RetryAfterDelay(h, attempt) <= 1_000_000_000 * Pow2(attempt))
            && (jitter <= 60_000_000_000 && (attempt <= 6 ==> jitter <= 1_000_000_000 * Pow2(attempt)) ==>
                  RetryAfterDelay(h, attempt) == jitter)
  {
    var cap := JitterCap(attempt);
    JitterCapIs(attempt);
    hide JitterCap, Pow2;
    Reduce(jitter, cap + 1);
  }

  // ----- environment -----

  datatype Answer =
    | NetworkError(contextDone: bool)
    | BodyUnreadable(status: int)          // a status line, but the body breaks off
    | Response(status: int, retryAfter: RetryAfter)

  /** What happens around attempt `k`: whether pacing lets it through, the answer to the send, the
      time since the first attempt when a back-off is considered, and whether the back-off sleep is
      cut short by the context. */
  datatype Environment = Environment(
    admitted: nat -> bool, answer: nat -> Answer, elapsed: nat -> int, sleepCut: nat -> bool)

  datatype Policy = Policy(clientMaxRetries: nat, maxAttempts: int, retryBudget: int, replayable: bool) {
    /** Retries allowed after the first attempt. */
    function MaxRetries(): nat {
      if maxAttempts > 0 && clientMaxRetries > maxAttempts - 1 then maxAttempts - 1 else clientMaxRetries
    }

    predicate WithinBudget(elapsed: int, wait: int) {
      retryBudget > 0 && elapsed + wait <= retryBudget
    }
  }

  datatype Result =
    | Succeeded(status: int)
    | RateLimited(attempts: nat, wait: int)
    | ApiError(status: int)
    | Unreachable                          // the last network error
    | Aborted                              // pacing, context or body error

  /** A scheduled back-off: after attempt `attempt`, `at` nanoseconds in, for `wait`. */
  datatype Backoff = Backoff(attempt: nat, at: int, wait: int)

  // ----- what an attempt leads to -----

  /** An answer that says nothing final: a network error, 429 or a server error. */
  predicate Transient(a: Answer) {
    match a
    case NetworkError(contextDone) => !contextDone
    case BodyUnreadable(_) => false
    case Response(status, _) => status == 429 || status >= 500
  }

  /** How long the loop would back off. */
  function WaitAfter(a: Answer, attempt: nat): int {
    if a.Response? && a.status == 429 then RetryAfterDelay(a.retryAfter, attempt) else Pow2(attempt) * SECOND
  }

  /** A back-off is scheduled after attempt `k`. */
  predicate BacksOff(p: Policy, env: Environment, k: nat) {
    && env.admitted(k) && Transient(env.answer(k))
    && k < p.MaxRetries() && p.replayable
    && p.WithinBudget(env.elapsed(k), WaitAfter(env.answer(k), k))
  }

  /** The loop goes on to attempt `k + 1`. */
  predicate GoesOn(p: Policy, env: Environment, k: nat) {
    BacksOff(p, env, k) && !env.sleepCut(k)
  }

  /** The first attempt from `k` on after which the loop does not go on. */
  function Last(p: Policy, env: Environment, k: nat): (n: nat)
    requires k <= p.MaxRetries()
    ensures k <= n <= p.MaxRetries() && !GoesOn(p, env, n)
    ensures forall j :: k <= j < n ==> GoesOn(p, env, j)
    decreases p.MaxRetries() - k
  {
    if GoesOn(p, env, k) then Last(p, env, k + 1) else k
  }

  /** What the caller gets when attempt `k` is the last one. */
  function Verdict(p: Policy, env: Environment, k: nat): Result {
    if !env.admitted(k) || BacksOff(p, env, k) then Aborted
    else match env.answer(k)
      case NetworkError(contextDone) => if contextDone then Aborted else Unreachable
      case BodyUnreadable(_) => Aborted
      case Response(status, retryAfter) =>
        if status < 400 then Succeeded(status)
        else if status == 429 then RateLimited(k + 1, RetryAfterDelay(retryAfter, k))
        else ApiError(status)
  }

  function Sends(env: Environment, k: nat): nat {
    if env.admitted(k) then k + 1 else k
  }

  /** The back-offs scheduled before attempt `k`. */
  function Backoffs(env: Environment, k: nat): seq<Backoff> {
    seq(k, i requires 0 <= i < k => Backoff(i, env.elapsed(i), WaitAfter(env.answer(i), i)))
  }

  // ----- the loop -----

  /** The outcome of a whole call, as `DoInternal` returns it. */
  ghost predicate Outcome(p: Policy, env: Environment, r: Result, sends: nat, backoffs: seq<Backoff>) {
    var k := Last(p, env, 0);
    && r == Verdict(p, env, k)
    && sends == Sends(env, k)
    && backoffs == Backoffs(env, if BacksOff(p, env, k) then k + 1 else k)
  }

  method DoInternal(p: Policy, env: Environment) returns (r: Result, sends: nat, backoffs: seq<Backoff>)
    ensures Outcome(p, env, r, sends, backoffs)
  {
    var maxRetries := p.clientMaxRetries;
    if p.maxAttempts > 0 && maxRetries > p.maxAttempts - 1 {
      maxRetries := p.maxAttempts - 1;
    }
    sends, backoffs := 0, [];
    for attempt := 0 to maxRetries + 1
      invariant sends == attempt
      invariant backoffs == Backoffs(env, attempt)
      invariant attempt <= maxRetries && Last(p, env, 0) == Last(p, env, attempt)
    {
      if !env.admitted(attempt) {
        return Aborted, sends, backoffs;
      }
      sends := sends + 1;
      var wait: int;
      match env.answer(attempt) {
        case NetworkError(contextDone) =>
          if contextDone {
            return Aborted, sends, backoffs;
          }
          if !(attempt < maxRetries && p.replayable) {
            return Unreachable, sends, backoffs;
          }
          wait := Pow2(attempt) * SECOND;
          if !p.WithinBudget(env.elapsed(attempt), wait) {
            return Unreachable, sends, backoffs;
          }
        case BodyUnreadable(_) =>
          return Aborted, sends, backoffs;
        case Response(status, retryAfter) =>
          if status < 400 {
            return Succeeded(status), sends, backoffs;
          }
          if status == 429 {
            wait := RetryAfterDelay(retryAfter, attempt);
            if !(attempt < maxRetries && p.replayable && p.WithinBudget(env.elapsed(attempt), wait)) {
              return RateLimited(attempt + 1, wait), sends, backoffs;
            }
          } else if status >= 500 && attempt < maxRetries && p.replayable {
            wait := Pow2(attempt) * SECOND;
            if !p.WithinBudget(env.elapsed(attempt), wait) {
              return ApiError(status), sends, backoffs;
            }
          } else {
            return ApiError(status), sends, backoffs;
          }
      }
      assert BacksOff(p, env, attempt) && wait == WaitAfter(env.answer(attempt), attempt);
      backoffs := backoffs + [Backoff(attempt, env.elapsed(attempt), wait)];
      if env.sleepCut(attempt) {
        return Aborted, sends, backoffs;
      }
    }
    // the loop never runs out of attempts: its last round always returns
    assert false;
  }

  // ----- for every environment -----

  /** The number of sends: at most `min(clientMaxRetries, MaxAttempts - 1) + 1`, and one when the
      request may not be replayed. */
  lemma SendsAreBounded(p: Policy, env: Environment, r: Result, sends: nat, backoffs: seq<Backoff>)
    requires Outcome(p, env, r, sends, backoffs)
    ensures sends <= p.clientMaxRetries + 1
    ensures p.maxAttempts > 0 ==> sends <= p.maxAttempts
    ensures !p.replayable ==> sends <= 1 && backoffs == []
    ensures r.RateLimited? ==> r.attempts == sends && r.wait <= MAX_RETRY_AFTER
  {
    if !p.replayable { assert !GoesOn(p, env, 0); }
  }

  /** The idempotent methods of RFC 7231, section 4.2.2. */
  predicate IsIdempotent(verb: string) {
    verb in ["GET", "HEAD", "OPTIONS", "TRACE", "PUT", "DELETE"]
  }

  /** Whatever the network does, a request reaches it twice only if the caller declared it a read, its
      method is idempotent, or it is a POST or PATCH with an idempotency key.  Of the idempotent
      methods TRACE alone is never retried. */
  lemma OnlyReplayableRequestsAreResent(p: Policy, env: Environment, r: Result, sends: nat, backoffs: seq<Backoff>,
                                        readOnlyIntent: bool, verb: string, key: string)
    requires Outcome(p, env, r, sends, backoffs)
    requires p.replayable == (readOnlyIntent || CanRetryRequest(verb, key))
    ensures sends > 1 ==> readOnlyIntent || IsIdempotent(verb) || (verb in ["POST", "PATCH"] && TrimSpace(key) != "")
    ensures sends > 1 && verb == "TRACE" ==> readOnlyIntent
    ensures IsIdempotent(verb) && verb != "TRACE" ==> p.replayable
    ensures verb in ["POST", "PATCH"] && TrimSpace(key) != "" ==> p.replayable
  {
    SendsAreBounded(p, env, r, sends, backoffs);
  }

  /** When a back-off is scheduled: the request may be replayed and attempts are left under both limits,
      the answer was a network error, a server error or a 429, and the time so far together with the delay
      is within a budget, which must be there. */
  lemma BacksOffExactlyWhen(p: Policy, env: Environment, k: nat)
    ensures BacksOff(p, env, k) <==>
              && env.admitted(k) && p.replayable && p.retryBudget > 0
              && k < p.clientMaxRetries && (p.maxAttempts > 0 ==> k + 1 < p.maxAttempts)
              && var a := env.answer(k);
              || ((a == NetworkError(false) || (a.Response? && a.status >= 500))
                  && env.elapsed(k) + 1_000_000_000 * Pow2(k) <= p.retryBudget)
              || (a.Response? && a.status == 429
                  && env.elapsed(k) + RetryAfterDelay(a.retryAfter, k) <= p.retryBudget)
  {
    hide RetryAfterDelay, Pow2;
  }

  /** The back-offs of a call are made after its sends, one each but perhaps the last, with the delay the
      answer asks for. */
  lemma BackoffsFollowSends(p: Policy, env: Environment, r: Result, sends: nat, backoffs: seq<Backoff>)
    requires Outcome(p, env, r, sends, backoffs)
    ensures |backoffs| <= sends <= |backoffs| + 1
    ensures forall i :: 0 <= i < |backoffs| ==>
              var a := env.answer(i);
              && backoffs[i].attempt == i && backoffs[i].at == env.elapsed(i)
              && (a == NetworkError(false) || (a.Response? && (a.status == 429 || a.status >= 500)))
              && (a.Response? && a.status == 429 ==> backoffs[i].wait == RetryAfterDelay(a.retryAfter, i))
              && (!(a.Response? && a.status == 429) ==> backoffs[i].wait == 1_000_000_000 * Pow2(i))
  {
    hide RetryAfterDelay, Pow2;
    var k := Last(p, env, 0);
    forall i | 0 <= i < |backoffs|
      ensures BacksOff(p, env, i) && backoffs[i] == Backoff(i, env.elapsed(i), WaitAfter(env.answer(i), i))
    {
      if i < k { assert GoesOn(p, env, i); }
      WaitAfterSays(env.answer(i), i);
    }
    forall i | 0 <= i < |backoffs| { WaitAfterSays(env.answer(i), i); }
  }

  lemma WaitAfterSays(a: Answer, attempt: nat)
    ensures WaitAfter(a, attempt) == if a.Response? && a.status == 429 then RetryAfterDelay(a.retryAfter, attempt)
                                     else 1_000_000_000 * Pow2(attempt)
  {
    hide RetryAfterDelay, Pow2;
  }

  /** What the caller is told: nothing was got from the server only if pacing, the context or a body that
      broke off put an end to the call; otherwise the result is that of the last answer. */
  lemma ResultIsLastAnswer(p: Policy, env: Environment, r: Result, sends: nat, backoffs: seq<Backoff>)
    requires Outcome(p, env, r, sends, backoffs)
    ensures sends == |backoffs| ==> r == Aborted && (!env.admitted(sends) || (sends > 0 && env.sleepCut(sends - 1)))
    ensures sends > |backoffs| ==>
              (r == Aborted <==> env.answer(sends - 1) == NetworkError(true) || env.answer(sends - 1).BodyUnreadable?)
    ensures r != Aborted ==> sends > 0
    ensures r != Aborted && env.answer(sends - 1) == NetworkError(false) ==> r == Unreachable
    ensures r != Aborted && env.answer(sends - 1).Response? ==>
              var status := env.answer(sends - 1).status;
              && (status < 400 ==> r == Succeeded(status))
              && (status == 429 ==>
                    r == RateLimited(sends, RetryAfterDelay(env.answer(sends - 1).retryAfter, sends - 1)))
              && (400 <= status != 429 ==> r == ApiError(status))
  {
    hide RetryAfterDelay, Pow2;
  }

  /** A back-off is scheduled after the budget has run out. */
  predicate BacksOffLate(p: Policy, env: Environment, k: nat) {
    BacksOff(p, env, k) && env.elapsed(k) > p.retryBudget
  }

  /** The budget is defeated by exactly one thing: a 429 whose header in seconds wraps to a delay so
      negative that it makes up for the time overrun. */
  lemma BacksOffLateExactlyWhen(p: Policy, env: Environment, k: nat)
    ensures BacksOffLate(p, env, k) <==>
              && env.admitted(k) && k < p.MaxRetries() && p.replayable && 0 < p.retryBudget < env.elapsed(k)
              && env.answer(k).Response? && env.answer(k).status == 429 && env.answer(k).retryAfter.Seconds?
              && Wrap64(env.answer(k).retryAfter.n * SECOND) <= p.retryBudget - env.elapsed(k)
  {
    hide Wrap64, JitterCap;
    assert Pow2(k) * SECOND >= 0;
    if env.answer(k).Response? && env.answer(k).retryAfter.Seconds? {
      var wrapped := Wrap64(env.answer(k).retryAfter.n * SECOND);
      assert RetryAfterDelay(env.answer(k).retryAfter, k) == MinInt(wrapped, MAX_RETRY_AFTER);
    }
  }

  /** A header in seconds can defeat the budget of a call, at some time, exactly when its product wraps to
      a negative number. */
  lemma HeaderDefeatsBudgetExactlyWhen(p: Policy, n: ParsedSeconds, attempt: nat)
    requires p.retryBudget > 0
    ensures (exists elapsed: int ::
               elapsed > p.retryBudget && p.WithinBudget(elapsed, RetryAfterDelay(Seconds(n), attempt)))
            <==> Wrap64(n * SECOND) < 0
  {
    hide Wrap64, JitterCap;
    var wait := RetryAfterDelay(Seconds(n), attempt);
    if Wrap64(n * SECOND) < 0 {
      assert p.retryBudget - wait > p.retryBudget && p.WithinBudget(p.retryBudget - wait, wait);
    }
  }

  /** No back-off is scheduled to end after the retry budget.  None is scheduled once the budget has run
      out either, unless its delay has wrapped to a negative number. */
  lemma BackoffsFitTheBudget(p: Policy, env: Environment, r: Result, sends: nat, backoffs: seq<Backoff>)
    requires Outcome(p, env, r, sends, backoffs)
    ensures forall b :: b in backoffs ==> b.at + b.wait <= p.retryBudget
    ensures forall b :: b in backoffs ==> (b.at > p.retryBudget <==> BacksOffLate(p, env, b.attempt))
    ensures forall b :: b in backoffs && b.wait >= 0 ==> b.at <= p.retryBudget
    ensures |backoffs| <= p.MaxRetries()
    ensures sends == 0 ==> backoffs == []
  {
    var k := Last(p, env, 0);
    forall b | b in backoffs
      ensures b.at + b.wait <= p.retryBudget && BacksOff(p, env, b.attempt) && b.at == env.elapsed(b.attempt)
    {
      var j :| 0 <= j < |backoffs| && backoffs[j] == b;
      if j < k { assert GoesOn(p, env, j); }
      assert BacksOff(p, env, j);
    }
    if |backoffs| > 0 { assert BacksOff(p, env, 0) by { if k > 0 { assert GoesOn(p, env, 0); } } }
  }

  /** As long as headers in seconds stay within 64 bits of nanoseconds, the budget bounds the start of
      every back-off. */
  lemma BudgetHoldsWithoutOverflow(p: Policy, env: Environment, r: Result, sends: nat, backoffs: seq<Backoff>)
    requires Outcome(p, env, r, sends, backoffs)
    requires forall k :: env.answer(k).Response? && env.answer(k).retryAfter.Seconds? ==>
               env.answer(k).retryAfter.n <= MAX_SECONDS
    ensures forall b :: b in backoffs ==> b.at <= p.retryBudget
  {
    BackoffsFitTheBudget(p, env, r, sends, backoffs);
    forall b | b in backoffs
      ensures b.at <= p.retryBudget
    {
      BacksOffLateExactlyWhen(p, env, b.attempt);
      var a := env.answer(b.attempt);
      if a.Response? && a.retryAfter.Seconds? { RetryAfterIsHonoured(a.retryAfter.n, b.attempt); }
    }
  }

  /** Ten thousand million seconds: with a budget of a second the call is retried after a hundred. */
  lemma HugeRetryAfterDefeatsBudget(p: Policy, env: Environment)
    requires p.MaxRetries() > 0 && p.replayable && p.retryBudget == SECOND
    requires env.admitted(0) && !env.sleepCut(0) && env.elapsed(0) == 100 * SECOND
    requires env.answer(0) == Response(429, Seconds(10_000_000_000))
    ensures GoesOn(p, env, 0) && BacksOffLate(p, env, 0)
  {
    HugeRetryAfterIsNegative(0);
  }

  /** A call succeeds exactly when some attempt is answered below 400 after attempts that all were
      transient, replayable, within budget and not interrupted. */
  lemma SucceedsExactlyWhen(p: Policy, env: Environment, status: int)
    ensures Verdict(p, env, Last(p, env, 0)) == Succeeded(status) <==>
            exists k :: 0 <= k <= p.MaxRetries() && AnsweredAt(p, env, k, status)
  {
    var n := Last(p, env, 0);
    if Verdict(p, env, n) == Succeeded(status) { assert AnsweredAt(p, env, n, status); }
    if k :| 0 <= k <= p.MaxRetries() && AnsweredAt(p, env, k, status) {
      if k < n { assert GoesOn(p, env, k); }
      if n < k { assert !GoesOn(p, env, n); }
    }
  }

  ghost predicate AnsweredAt(p: Policy, env: Environment, k: nat, status: int) {
    && status < 400 && env.admitted(k) && env.answer(k).Response? && env.answer(k).status == status
    && forall j :: 0 <= j < k ==> GoesOn(p, env, j)
  }
}
