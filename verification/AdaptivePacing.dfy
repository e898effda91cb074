/** The adaptive request pacer (internal/cliutil/ratelimit.go `AdaptiveLimiter`).

    Rates are reals in requests per second, clock readings integers in nanoseconds. */
module AdaptivePacing {
  import opened Wrappers

  const SECOND: real := 1_000_000_000.0
  const RAMP_AFTER: nat := 10

  /** The fields of the limiter; `last` is the slot of the latest request. */
  datatype Pace = Pace(
    rate: real, floor: real, ceiling: real, maxRate: real, budgetRate: real,
    successes: nat, headerDriven: bool, last: Option<int>)

  /** One use of the limiter.  `secs` is the time until the advertised reset; `lag` is how much the
      clock moves on between the two readings inside `Wait`. */
  datatype Event =
    | Headers(remaining: int, secs: real)
    | Success
    | RateLimited
    | Wait(now: int, lag: nat)

  function Min(x: real, y: real): real { if x <= y then x else y }

  function Max(x: real, y: real): real { if x >= y then x else y }

  /** A rate pulled into `[floor, maxRate]`, the latter only when a cap is set. */
  function Clamped(p: Pace, target: real): real {
    Max(if p.maxRate > 0.0 then Min(target, p.maxRate) else target, p.floor)
  }

  predicate Accepted(ev: Event) {
    ev.Headers? && ev.secs > 0.0 && ev.remaining >= 0
  }

  function Spread(ev: Event): real
    requires Accepted(ev)
  {
    ev.remaining as real / ev.secs
  }

  /** `time.Duration(float64(time.Second) / rate)`. */
  function Delay(rate: real): int
    requires rate > 0.0
  {
    (SECOND / rate).Floor
  }

  function Slot(p: Pace, now: int, lag: nat): int
    requires p.rate > 0.0
  {
    if p.last.Some? && now - p.last.value < Delay(p.rate) then lag + p.last.value + Delay(p.rate) else now + lag
  }

  function Next(p: Pace, ev: Event): Pace
    requires p.rate > 0.0
  {
    match ev
    case Headers(remaining, secs) =>
      if !Accepted(ev) then p
      else
        var budget := Max(p.budgetRate, Spread(ev));
        var target := if remaining as real < budget * 2.0 then remaining as real / 2.0 else budget;
        p.(budgetRate := budget, rate := Clamped(p, target), headerDriven := true, successes := 0)
    case Success =>
      if p.headerDriven then p.(successes := 0)
      else if p.successes + 1 < RAMP_AFTER then p.(successes := p.successes + 1)
      else
        var ramped := p.rate * 1.25;
        p.(rate := Clamped(p, if p.ceiling > 0.0 then Min(ramped, p.ceiling * 0.9) else ramped), successes := 0)
    case RateLimited =>
      p.(ceiling := p.rate, rate := Max(p.rate / 2.0, p.floor),
         budgetRate := if p.headerDriven then p.budgetRate else p.budgetRate / 2.0, successes := 0)
    case Wait(now, lag) => p.(last := Some(Slot(p, now, lag)))
  }

  function Start(startRate: real, maxRate: real): Pace {
    Pace(startRate, Min(0.5, startRate), 0.0, maxRate, 0.0, 0, false, None)
  }

  /** A limiter starts at the rate asked for and never goes below that or half a request a second,
      whichever is less; it knows nothing of the server yet. */
  lemma StartsFresh(startRate: real, maxRate: real)
    requires startRate > 0.0
    ensures var p := Start(startRate, maxRate);
            && p.rate == startRate && p.maxRate == maxRate && p.floor == (if startRate < 0.5 then startRate else 0.5)
            && p.ceiling == 0.0 && p.budgetRate == 0.0 && p.successes == 0 && !p.headerDriven && p.last == None
  {
  }

  class AdaptiveLimiter {
    var rate: real
    var floor: real
    var ceiling: real
    var maxRate: real
    var budgetRate: real
    var successes: nat
    var headerDriven: bool
    var lastRequest: Option<int>

    function State(): Pace
      reads this
    {
      Pace(rate, floor, ceiling, maxRate, budgetRate, successes, headerDriven, lastRequest)
    }

    constructor (startRate: real, maxRate: real)
      requires startRate > 0.0
      ensures State() == Start(startRate, maxRate)
    {
      floor := if startRate < 0.5 then startRate else 0.5;
      rate := startRate;
      this.maxRate := maxRate;
      ceiling, budgetRate := 0.0, 0.0;
      successes, headerDriven, lastRequest := 0, false, None;
    }

    /** `newAdaptiveLimiter`: a rate of zero or less turns pacing off. */
    static method New(startRate: real, maxRate: real) returns (l: AdaptiveLimiter?)
      ensures l == null <==> startRate <= 0.0
      ensures l != null ==> fresh(l) && l.State() == Start(startRate, maxRate)
    {
      if startRate <= 0.0 {
        return null;
      }
      l := new AdaptiveLimiter(startRate, maxRate);
    }

    method ObserveHeaders(remaining: int, secs: real)
      requires rate > 0.0
      modifies this
      ensures State() == Next(old(State()), Headers(remaining, secs))
    {
      if secs <= 0.0 || remaining < 0 {
        return;
      }
      var evenSpread := remaining as real / secs;
      if evenSpread > budgetRate {
        budgetRate := evenSpread;
      }
      var target := budgetRate;
      if remaining as real < target * 2.0 {
        target := remaining as real / 2.0;
      }
      if maxRate > 0.0 && target > maxRate {
        target := maxRate;
      }
      if target < floor {
        target := floor;
      }
      rate := target;
      headerDriven := true;
      successes := 0;
    }

    /** `Wait` up to the sleep; the caller goes on no earlier than `lastRequest`. */
    method Wait(now: int, lag: nat) returns (sleep: int)
      requires rate > 0.0
      modifies this`lastRequest
      ensures State() == Next(old(State()), Event.Wait(now, lag))
      ensures sleep >= 0 && lastRequest == Some(now + lag + sleep)
    {
      var delay := Delay(rate);
      sleep := 0;
      if lastRequest.Some? {
        var elapsed := now - lastRequest.value;
        if elapsed < delay {
          sleep := delay - elapsed;
        }
      }
      lastRequest := Some(now + lag + sleep);
    }

    method OnSuccess()
      requires rate > 0.0
      modifies this
      ensures State() == Next(old(State()), Success)
    {
      if headerDriven {
        successes := 0;
        return;
      }
      successes := successes + 1;
      if successes >= RAMP_AFTER {
        var newRate := rate * 1.25;
        if ceiling > 0.0 && newRate > ceiling * 0.9 {
          newRate := ceiling * 0.9;
        }
        if maxRate > 0.0 && newRate > maxRate {
          newRate := maxRate;
        }
        if newRate < floor {
          newRate := floor;
        }
        rate := newRate;
        successes := 0;
      }
    }

    method OnRateLimit()
      requires rate > 0.0
      modifies this
      ensures State() == Next(old(State()), RateLimited)
    {
      ceiling := rate;
      rate := rate / 2.0;
      if rate < floor {
        rate := floor;
      }
      if !headerDriven {
        budgetRate := budgetRate / 2.0;
      }
      successes := 0;
    }
  }

  // ----- every sequence of events -----

  /** The largest accepted `remaining / secs` so far. */
  function HighWater(events: seq<Event>): real {
    if events == [] then 0.0
    else
      var ev, before := events[|events| - 1], HighWater(events[..|events| - 1]);
      if Accepted(ev) then Max(before, Spread(ev)) else before
  }

  predicate HeaderFree(events: seq<Event>) {
    forall i :: 0 <= i < |events| ==> !Accepted(events[i])
  }

  ghost predicate Inv(p: Pace, events: seq<Event>) {
    && 0.0 < p.floor <= p.rate
    && (p.maxRate > 0.0 ==> p.rate <= p.maxRate)
    && p.budgetRate == HighWater(events) && p.budgetRate >= 0.0
    && (p.headerDriven <==> !HeaderFree(events))
    && (!p.headerDriven ==> p.budgetRate == 0.0)
    && (!p.headerDriven && p.ceiling > 0.0 ==> p.rate <= p.ceiling)
    && p.ceiling >= 0.0
  }

  /** One event keeps the bounds, whatever came before it. */
  lemma NextKeepsInv(p: Pace, events: seq<Event>, ev: Event)
    requires Inv(p, events)
    ensures Inv(Next(p, ev), events + [ev])
    ensures Next(p, ev).floor == p.floor && Next(p, ev).maxRate == p.maxRate
    ensures ev.RateLimited? && HeaderFree(events) && p.ceiling > 0.0 ==> Next(p, ev).ceiling <= p.ceiling
    ensures Accepted(ev) ==> 2.0 * Next(p, ev).rate <= Max(ev.remaining as real, 2.0 * p.floor)
  {
    hide Spread;
    var all := events + [ev];
    assert all[..|events|] == events && all[|events|] == ev;
    assert HeaderFree(all) <==> HeaderFree(events) && !Accepted(ev) by {
      assert forall i :: 0 <= i < |events| ==> all[i] == events[i];
      if HeaderFree(all) { assert !Accepted(all[|events|]); }
    }
    if Accepted(ev) { SpreadNonNegative(ev); }
  }

  lemma SpreadNonNegative(ev: Event)
    requires Accepted(ev)
    ensures Spread(ev) >= 0.0
  {
  }

  /** The state after a run; `Inv` holds at every point of it. */
  ghost function After(p: Pace, events: seq<Event>): (p': Pace)
    requires Inv(p, [])
    ensures Inv(p', events) && p'.floor == p.floor && p'.maxRate == p.maxRate
    decreases |events|
  {
    if events == [] then p
    else
      var n := |events| - 1;
      assert events == events[..n] + [events[n]];
      var before := After(p, events[..n]);
      NextKeepsInv(before, events[..n], events[n]);
      Next(before, events[n])
  }

  /** Both constructors start in the invariant: with the start rate as cap, or without a cap. */
  lemma StartInv(startRate: real, maxRate: real)
    requires startRate > 0.0 && maxRate in {0.0, startRate}
    ensures Inv(Start(startRate, maxRate), [])
  {
  }

  /** The pace never leaves `[floor, cap]`, the inferred refill rate is the high-water mark of what
      the server advertised, and right after headers the pace spends at most half the remaining
      allowance a second. */
  lemma PaceStaysInBounds(startRate: real, maxRate: real, events: seq<Event>)
    requires startRate > 0.0 && maxRate in {0.0, startRate}
    ensures Inv(Start(startRate, maxRate), [])
    ensures var p := After(Start(startRate, maxRate), events);
            && 0.0 < Min(0.5, startRate) <= p.rate
            && (maxRate > 0.0 ==> p.rate <= maxRate)
            && p.budgetRate == HighWater(events)
            && (events != [] && Accepted(events[|events| - 1]) ==>
                  2.0 * p.rate <= Max(events[|events| - 1].remaining as real, 2.0 * Min(0.5, startRate)))
  {
    StartInv(startRate, maxRate);
    if events != [] {
      var n := |events| - 1;
      NextKeepsInv(After(Start(startRate, maxRate), events[..n]), events[..n], events[n]);
    }
  }

  /** Without header information the ceilings recorded at successive 429s never rise. */
  lemma {:induction false} CeilingsFall(p: Pace, events: seq<Event>, i: nat, j: nat)
    requires Inv(p, []) && HeaderFree(events) && i < j <= |events|
    requires After(p, events[..i]).ceiling > 0.0
    ensures 0.0 < After(p, events[..j]).ceiling <= After(p, events[..i]).ceiling
    decreases j
  {
    hide Inv;
    if i + 1 < j { CeilingsFall(p, events, i, j - 1); }
    var before := After(p, events[..j - 1]);
    assert events[..j][..j - 1] == events[..j - 1];
    NextKeepsInv(before, events[..j - 1], events[j - 1]);
    PositiveRate(before, events[..j - 1]);
  }

  lemma PositiveRate(p: Pace, events: seq<Event>)
    requires Inv(p, events)
    ensures p.rate > 0.0
  {
  }

  // ----- what single events do -----

  /** The high-water mark is the largest allowance per second advertised so far: none was larger, and it
      was advertised, or nothing was. */
  lemma {:induction false} HighWaterIsLargest(events: seq<Event>)
    ensures forall i :: 0 <= i < |events| && Accepted(events[i]) ==>
              events[i].remaining as real / events[i].secs <= HighWater(events)
    ensures HighWater(events) == 0.0 || exists i :: 0 <= i < |events| && Accepted(events[i])
                                                    && events[i].remaining as real / events[i].secs == HighWater(events)
  {
    if events != [] {
      var n := |events| - 1;
      HighWaterIsLargest(events[..n]);
      assert forall i :: 0 <= i < n ==> events[..n][i] == events[i];
    }
  }

  /** `rate` is `target`, or the bound of `[floor, cap]` that target lies beyond. */
  predicate IsPulled(rate: real, target: real, floor: real, cap: real) {
    if cap > 0.0 && target > cap then rate == cap
    else if target < floor then rate == floor
    else rate == target
  }

  /** Headers set the pace to the largest allowance advertised so far, or to half of what remains if that
      is less, within floor and cap. */
  lemma HeadersSetThePace(p: Pace, events: seq<Event>, ev: Event)
    requires Inv(p, events) && Accepted(ev) && (p.maxRate > 0.0 ==> p.floor <= p.maxRate)
    ensures var budget, half := HighWater(events + [ev]), ev.remaining as real / 2.0;
            IsPulled(Next(p, ev).rate, if half < budget then half else budget, p.floor, p.maxRate)
  {
    var all := events + [ev];
    assert all[..|events|] == events && all[|events|] == ev;
    hide Spread;
  }

  /** Headers that say nothing leave the pace alone. */
  lemma UselessHeaders(p: Pace, remaining: int, secs: real)
    requires p.rate > 0.0 && (secs <= 0.0 || remaining < 0)
    ensures Next(p, Headers(remaining, secs)) == p
  {
  }

  /** A 429 halves the pace, down to the floor, and the pace it came at becomes the ceiling. */
  lemma RateLimitHalves(p: Pace)
    requires p.rate > 0.0
    ensures var p' := Next(p, RateLimited);
            && p'.ceiling == p.rate && p'.successes == 0
            && (p.rate >= 2.0 * p.floor ==> 2.0 * p'.rate == p.rate)
            && (p.rate < 2.0 * p.floor ==> p'.rate == p.floor)
  {
  }

  /** The pace after a number of successes in a row. */
  ghost function AfterSuccesses(p: Pace, n: nat): (p': Pace)
    requires p.rate > 0.0 && p.floor > 0.0
    ensures p'.rate > 0.0 && p'.floor == p.floor
  {
    if n == 0 then p else Next(AfterSuccesses(p, n - 1), Success)
  }

  lemma {:induction false} FewerSuccesses(p: Pace, n: nat)
    requires p.rate > 0.0 && p.floor > 0.0 && !p.headerDriven && p.successes == 0 && n <= 9
    ensures AfterSuccesses(p, n) == p.(successes := n)
  {
    if n > 0 { FewerSuccesses(p, n - 1); }
  }

  /** Without headers nine successes in a row leave the pace alone, and the tenth raises it by a quarter,
      to nine tenths of the ceiling at most, within floor and cap. */
  lemma TenthSuccessRamps(p: Pace, n: nat)
    requires p.rate > 0.0 && p.floor > 0.0 && !p.headerDriven && p.successes == 0
    requires p.maxRate > 0.0 ==> p.floor <= p.maxRate
    ensures n <= 9 ==> AfterSuccesses(p, n).rate == p.rate
    ensures var up := 5.0 * p.rate / 4.0; var brake := 9.0 * p.ceiling / 10.0;
            IsPulled(AfterSuccesses(p, 10).rate, if p.ceiling > 0.0 && up > brake then brake else up, p.floor,
                     p.maxRate)
    ensures AfterSuccesses(p, 10).successes == 0
  {
    if n <= 9 { FewerSuccesses(p, n); }
    FewerSuccesses(p, 9);
  }

  /** Once headers drive the pace, successes leave it alone. */
  lemma {:induction false} HeadersOutrankSuccesses(p: Pace, n: nat)
    requires p.rate > 0.0 && p.floor > 0.0 && p.headerDriven
    ensures AfterSuccesses(p, n).rate == p.rate && AfterSuccesses(p, n).headerDriven
  {
    if n > 0 { HeadersOutrankSuccesses(p, n - 1); }
  }

  // ----- spacing of requests -----

  /** The slots handed out so far, in order. */
  ghost function Slots(p: Pace, events: seq<Event>): seq<int>
    requires Inv(p, [])
    decreases |events|
  {
    if events == [] then []
    else
      var n := |events| - 1;
      Slots(p, events[..n]) + if events[n].Wait? then [After(p, events).last.value] else []
  }

  /** The delay is the time a request takes at the rate, in whole nanoseconds. */
  lemma DelayIsPeriod(rate: real)
    requires rate > 0.0
    ensures Delay(rate) as real * rate <= 1_000_000_000.0 < (Delay(rate) as real + 1.0) * rate
    ensures Delay(rate) >= 0
  {
    var x := 1_000_000_000.0 / rate;
    assert x * rate == 1_000_000_000.0 && x > 0.0;
    var d := Delay(rate) as real;
    assert d <= x < d + 1.0;
    MulLe(d, x, rate);
    MulLess(x, d + 1.0, rate);
    assert 1_000_000_000.0 < (d + 1.0) * rate;
  }

  /** A request waits until one delay after the slot before it and no longer; the first one, or one that
      comes late enough, does not wait. */
  lemma WaitsJustLongEnough(p: Pace, now: int, lag: nat)
    requires p.rate > 0.0
    ensures var slot := Next(p, Wait(now, lag)).last.value; var free := now + lag;
            if p.last.Some? && now < p.last.value + Delay(p.rate) then slot == p.last.value + Delay(p.rate) + lag
            else slot == free
    ensures Next(p, Wait(now, lag)).last.value >= now + lag
    ensures p.last.Some? ==> Next(p, Wait(now, lag)).last.value >= p.last.value + Delay(p.rate)
  {
    hide Delay;
  }

  lemma DelayFalls(rate: real, cap: real)
    requires 0.0 < rate <= cap
    ensures Delay(rate) >= Delay(cap)
  {
    var x, y := SECOND / rate, SECOND / cap;
    assert x * rate == SECOND && y * cap == SECOND && y > 0.0;
    MulLe(rate, cap, y);
    CancelLe(y, x, rate);
  }

  lemma MulLe(a: real, b: real, y: real)
    requires a <= b && y > 0.0
    ensures y * a <= y * b
  {
  }

  lemma CancelLe(a: real, b: real, r: real)
    requires r > 0.0 && a * r <= b * r
    ensures a <= b
  {
  }

  lemma {:induction false} LastSlot(p: Pace, events: seq<Event>)
    requires Inv(p, []) && p.last == None
    ensures var slots := Slots(p, events);
            After(p, events).last == if slots == [] then None else Some(slots[|slots| - 1])
    decreases |events|
  {
    if events != [] { LastSlot(p, events[..|events| - 1]); }
  }

  /** Under a cap, successive requests are at least the cap's delay apart, whatever happens between. */
  lemma {:induction false} RequestsAreSpaced(p: Pace, events: seq<Event>, i: nat, j: nat)
    requires Inv(p, []) && p.last == None && p.maxRate > 0.0 && i <= j < |Slots(p, events)|
    ensures Slots(p, events)[j] - Slots(p, events)[i] >= (j - i) * Delay(p.maxRate)
    decreases |events|
  {
    hide Inv;
    var n := |events| - 1;
    var before := events[..n];
    if j < |Slots(p, before)| {
      RequestsAreSpaced(p, before, i, j);
    } else if i < j {
      RequestsAreSpaced(p, before, i, j - 1);
      LastSlot(p, before);
      WithinCap(p, before);
      DelayFalls(After(p, before).rate, p.maxRate);
      assert (j - i) * Delay(p.maxRate) == (j - 1 - i) * Delay(p.maxRate) + Delay(p.maxRate);
    }
  }

  /** In rates: the slots from `i` to `j` are at least as far apart as `j - i` requests at the cap, up to a
      nanosecond each. */
  lemma RequestsKeepTheCap(p: Pace, events: seq<Event>, i: nat, j: nat)
    requires Inv(p, []) && p.last == None && p.maxRate > 0.0 && i <= j < |Slots(p, events)|
    ensures (Slots(p, events)[j] - Slots(p, events)[i] + (j - i)) as real * p.maxRate >=
            (j - i) as real * 1_000_000_000.0
  {
    hide Inv, Slots, Delay;
    RequestsAreSpaced(p, events, i, j);
    DelayIsPeriod(p.maxRate);
    var n, d := (j - i) as real, Delay(p.maxRate) as real;
    var gap := (Slots(p, events)[j] - Slots(p, events)[i]) as real;
    assert gap >= n * d by { assert ((j - i) * Delay(p.maxRate)) as real == n * d; }
    assert gap + n >= n * (d + 1.0);
    MulLe(n * (d + 1.0), gap + n, p.maxRate);
    assert n * (d + 1.0) * p.maxRate == n * ((d + 1.0) * p.maxRate);
    ScaleUp(n, 1_000_000_000.0, (d + 1.0) * p.maxRate);
  }

  lemma MulLess(x: real, y: real, z: real)
    requires x < y && z > 0.0
    ensures x * z < y * z
  {
  }

  lemma ScaleUp(n: real, x: real, y: real)
    requires n >= 0.0 && x <= y
    ensures n * x <= n * y
  {
  }

  lemma WithinCap(p: Pace, events: seq<Event>)
    requires Inv(p, []) && p.maxRate > 0.0
    ensures 0.0 < After(p, events).rate <= p.maxRate
  {
  }
}
