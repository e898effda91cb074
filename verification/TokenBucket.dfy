/** The cross-process token bucket (internal/platform/ratelimit.go `EndpointLimiter.Wait`).

    Durations and clock readings are integers in nanoseconds, tokens are reals; the locked
    read-modify-write of the ledger file is one step.  `tokens` and `updatedAt` are the fields of
    the ledger; `updatedAt` may lie in the future, which is how a reservation is recorded. */
module TokenBucket {
  import opened Wrappers

  datatype Budget = Budget(steady: int, interval: int, burst: int) {
    /** `EndpointBudget.Validate`, the part that concerns pacing. */
    predicate Valid() {
      steady >= 1 && interval > 0 && burst >= 1
    }

    /** Nanoseconds per token. */
    function Period(): real
      requires Valid()
    {
      interval as real / steady as real
    }
  }

  datatype Ledger = Ledger(tokens: real, updatedAt: int)

  function Ceil(x: real): int { -((-x).Floor) }

  function MinReal(x: real, y: real): real { if x <= y then x else y }

  function MaxReal(x: real, y: real): real { if x >= y then x else y }

  /** Tokens that accrue in `elapsed` nanoseconds. */
  function Earned(b: Budget, elapsed: int): real
    requires b.Valid()
  {
    elapsed as real * (b.steady as real / b.interval as real)
  }

  /** Whole nanoseconds until `needed` tokens have accrued. */
  function RefillTime(b: Budget, needed: real): int
    requires b.Valid()
  {
    assert b.steady as real / b.interval as real > 0.0;
    Ceil(needed / (b.steady as real / b.interval as real))
  }

  /** The ledger once time has been accounted for up to `now`. */
  function Refilled(b: Budget, ledger: Option<Ledger>, now: int): Ledger
    requires b.Valid()
  {
    match ledger
    case None => Ledger(b.burst as real, now)
    case Some(l) =>
      if l.updatedAt < now then
        Ledger(MinReal(b.burst as real, l.tokens + Earned(b, now - l.updatedAt)), now)
      else l
  }

  /** One call: a token is taken, or the next free slot is reserved. */
  function Taken(b: Budget, ledger: Option<Ledger>, now: int): Ledger
    requires b.Valid()
  {
    var l := Refilled(b, ledger, now);
    if l.tokens >= 1.0 then l.(tokens := l.tokens - 1.0)
    else
      var start := if l.updatedAt < now then now else l.updatedAt;
      Ledger(0.0, start + RefillTime(b, 1.0 - l.tokens))
  }

  predicate Reserves(b: Budget, ledger: Option<Ledger>, now: int)
    requires b.Valid()
  {
    Refilled(b, ledger, now).tokens < 1.0
  }

  /** When the request of the call is let through. */
  function Granted(b: Budget, ledger: Option<Ledger>, now: int): int
    requires b.Valid()
  {
    if Reserves(b, ledger, now) then Taken(b, ledger, now).updatedAt else now
  }

  class EndpointLimiter {
    const budget: Budget
    var ledger: Option<Ledger>

    /** A limiter takes over the ledger an earlier process left, if any. */
    constructor (budget: Budget, ledger: Option<Ledger>)
      requires budget.Valid()
      ensures this.budget == budget && this.ledger == ledger
    {
      this.budget := budget;
      this.ledger := ledger;
    }

    /** `Wait`: updates the ledger and returns how long the caller sleeps. */
    method Wait(now: int) returns (wait: int)
      requires budget.Valid()
      modifies this`ledger
      ensures ledger == Some(Taken(budget, old(ledger), now))
      ensures now + wait == Granted(budget, old(ledger), now)
    {
      hide Earned, RefillTime;
      var tokens, updatedAt := 0.0, 0;
      var capacity := budget.burst as real;
      if ledger.None? {
        updatedAt := now;
        tokens := capacity;
      } else {
        tokens, updatedAt := ledger.value.tokens, ledger.value.updatedAt;
        if updatedAt < now {
          var elapsed := now - updatedAt;
          tokens := MinReal(capacity, tokens + Earned(budget, elapsed));
          updatedAt := now;
        }
      }
      wait := 0;
      if tokens >= 1.0 {
        tokens := tokens - 1.0;
      } else {
        var reservationStart := updatedAt;
        if reservationStart < now {
          reservationStart := now;
        }
        var needed := 1.0 - tokens;
        var refill := RefillTime(budget, needed);
        updatedAt := reservationStart + refill;
        tokens := 0.0;
        wait := updatedAt - now;
      }
      ledger := Some(Ledger(tokens, updatedAt));
    }
  }

  // ----- one call against the exact bucket -----

  /** What a ledger last used at time `t` satisfies. */
  ghost predicate Consistent(b: Budget, l: Ledger, t: int)
    requires b.Valid()
  {
    && 0.0 <= l.tokens <= b.burst as real
    && (l.updatedAt > t ==> l.tokens == 0.0)
  }

  /** The time `tokens` tokens are worth. */
  function Worth(b: Budget, tokens: real): real
    requires b.Valid()
  {
    tokens * b.Period()
  }

  lemma WorthIsLinear(b: Budget, x: real, y: real)
    requires b.Valid()
    ensures Worth(b, x + y) == Worth(b, x) + Worth(b, y)
    ensures Worth(b, x - y) == Worth(b, x) - Worth(b, y)
    ensures (x <= y) == (Worth(b, x) <= Worth(b, y))
    ensures Worth(b, 0.0) == 0.0 && Worth(b, 1.0) == b.Period() > 0.0
  {
    var p := b.Period();
    assert p > 0.0;
    Mul(x, y, p);
    Scale(x, y, p);
  }

  lemma Mul(x: real, y: real, z: real)
    ensures (x + y) * z == x * z + y * z
    ensures (x - y) * z == x * z - y * z
  {
  }

  lemma Scale(x: real, y: real, p: real)
    requires p > 0.0
    ensures (x <= y) == (x * p <= y * p)
  {
  }

  lemma RateTimesPeriod(s: real, i: real)
    requires s > 0.0 && i > 0.0
    ensures s / i > 0.0 && (s / i) * (i / s) == 1.0
  {
    var x, y := s / i, i / s;
    assert x * i == s && y * s == i;
    MulAssoc(x, y, s);
    Cancel(x * y, s);
    Cancel(1.0, s);
  }

  lemma MulAssoc(x: real, y: real, z: real)
    ensures x * y * z == x * (y * z)
  {
  }

  lemma Cancel(x: real, r: real)
    requires r != 0.0
    ensures x * r / r == x
  {
  }

  /** What accrues in a while is worth that while. */
  lemma EarnedIsWorth(b: Budget, elapsed: int)
    requires b.Valid() && elapsed >= 0
    ensures Worth(b, Earned(b, elapsed)) == elapsed as real && Earned(b, elapsed) >= 0.0
  {
    var s, i, e := b.steady as real, b.interval as real, elapsed as real;
    RateTimesPeriod(s, i);
    MulAssoc(e, s / i, i / s);
    NonNegative(e, s / i);
  }

  lemma NonNegative(x: real, y: real)
    requires x >= 0.0 && y >= 0.0
    ensures x * y >= 0.0
  {
  }

  /** The wait for missing tokens is what they are worth, rounded up. */
  lemma RefillTimeBounds(b: Budget, needed: real)
    requires b.Valid()
    ensures Worth(b, needed) <= RefillTime(b, needed) as real < Worth(b, needed) + 1.0
  {
    var s, i := b.steady as real, b.interval as real;
    RateTimesPeriod(s, i);
    MulAssoc(needed, i / s, s / i);
    Cancel(needed * (i / s), s / i);
    CeilBounds(needed / (s / i));
  }

  lemma CeilBounds(x: real)
    ensures x <= Ceil(x) as real < x + 1.0
  {
  }

  /** The virtual time of a ledger: when the bucket would have been empty, at the refill rate. */
  ghost function Virtual(b: Budget, l: Ledger): real
    requires b.Valid()
  {
    l.updatedAt as real - Worth(b, l.tokens)
  }

  /** The exact bucket keeps only its virtual time; a full bucket is `burst` periods behind now. */
  function ExactFloor(b: Budget, virtual: Option<real>, now: int): real
    requires b.Valid()
  {
    var full := now as real - Worth(b, b.burst as real);
    if virtual.None? then full else MaxReal(virtual.value, full)
  }

  function ExactNext(b: Budget, virtual: Option<real>, now: int): real
    requires b.Valid()
  {
    ExactFloor(b, virtual, now) + b.Period()
  }

  function ExactGrant(b: Budget, virtual: Option<real>, now: int): real
    requires b.Valid()
  {
    MaxReal(now as real, ExactNext(b, virtual, now))
  }

  ghost function VirtualOf(b: Budget, ledger: Option<Ledger>): Option<real>
    requires b.Valid()
  {
    if ledger.None? then None else Some(Virtual(b, ledger.value))
  }

  /** Refilling moves the virtual time exactly as the exact bucket does. */
  lemma RefillIsExact(b: Budget, ledger: Option<Ledger>, t: int, now: int)
    requires b.Valid() && t <= now
    requires ledger.Some? ==> Consistent(b, ledger.value, t)
    ensures var l := Refilled(b, ledger, now);
            && Consistent(b, l, now) && l.updatedAt >= now
            && Virtual(b, l) == ExactFloor(b, VirtualOf(b, ledger), now)
  {
    hide Earned, Worth;
    var cap := b.burst as real;
    WorthIsLinear(b, cap, 0.0);
    if ledger.Some? {
      var l := ledger.value;
      WorthIsLinear(b, l.tokens, cap);
      if l.updatedAt < now {
        var earned := Earned(b, now - l.updatedAt);
        EarnedIsWorth(b, now - l.updatedAt);
        WorthIsLinear(b, l.tokens, earned);
        WorthIsLinear(b, l.tokens + earned, cap);
      }
    }
  }

  /** One call moves the virtual time by one period; only a reservation rounds, up and by less
      than a nanosecond. */
  lemma TakeIsNearlyExact(b: Budget, ledger: Option<Ledger>, t: int, now: int)
    requires b.Valid() && t <= now
    requires ledger.Some? ==> Consistent(b, ledger.value, t)
    ensures var l := Taken(b, ledger, now); var next := ExactNext(b, VirtualOf(b, ledger), now);
            && Consistent(b, l, now)
            && (if Reserves(b, ledger, now)
                then next > now as real && next <= Virtual(b, l) < next + 1.0 && Virtual(b, l) == l.updatedAt as real
                else next <= now as real && Virtual(b, l) == next && l.updatedAt == now)
  {
    hide Worth, RefillTime, Refilled;
    RefillIsExact(b, ledger, t, now);
    var l := Refilled(b, ledger, now);
    WorthIsLinear(b, l.tokens, 1.0);
    WorthIsLinear(b, 1.0, l.tokens);
    if l.tokens < 1.0 { RefillTimeBounds(b, 1.0 - l.tokens); }
  }

  // ----- whole runs: `nows` are the clock readings of successive calls, by any process -----

  ghost predicate NonDecreasing(nows: seq<int>) {
    forall i, j :: 0 <= i <= j < |nows| ==> nows[i] <= nows[j]
  }

  /** The clock does not run backwards, and the ledger the run starts from, if any, was left by such
      calls. */
  ghost predicate Runs(b: Budget, start: Option<Ledger>, nows: seq<int>)
    requires b.Valid()
  {
    NonDecreasing(nows) && (start.Some? && nows != [] ==> Consistent(b, start.value, nows[0]))
  }

  function LedgerAfter(b: Budget, start: Option<Ledger>, nows: seq<int>): Option<Ledger>
    requires b.Valid()
  {
    if nows == [] then start
    else Some(Taken(b, LedgerAfter(b, start, nows[..|nows| - 1]), nows[|nows| - 1]))
  }

  /** When call `i` is let through. */
  function GrantAt(b: Budget, start: Option<Ledger>, nows: seq<int>, i: nat): int
    requires b.Valid() && i < |nows|
  {
    Granted(b, LedgerAfter(b, start, nows[..i]), nows[i])
  }

  /** How many of the calls had to reserve. */
  function Reservations(b: Budget, start: Option<Ledger>, nows: seq<int>): nat
    requires b.Valid()
  {
    if nows == [] then 0
    else
      var before := nows[..|nows| - 1];
      Reservations(b, start, before) + if Reserves(b, LedgerAfter(b, start, before), nows[|nows| - 1]) then 1 else 0
  }

  ghost function ExactAfter(b: Budget, start: Option<Ledger>, nows: seq<int>): Option<real>
    requires b.Valid()
  {
    if nows == [] then VirtualOf(b, start)
    else Some(ExactNext(b, ExactAfter(b, start, nows[..|nows| - 1]), nows[|nows| - 1]))
  }

  ghost function ExactGrantAt(b: Budget, start: Option<Ledger>, nows: seq<int>, i: nat): real
    requires b.Valid() && i < |nows|
  {
    ExactGrant(b, ExactAfter(b, start, nows[..i]), nows[i])
  }

  /** One call, with the ledger before and after it. */
  lemma CallAt(b: Budget, start: Option<Ledger>, nows: seq<int>, i: nat)
    requires b.Valid() && Runs(b, start, nows) && i < |nows|
    ensures LedgerAfter(b, start, nows[..i + 1]) == Some(Taken(b, LedgerAfter(b, start, nows[..i]), nows[i]))
    ensures ExactAfter(b, start, nows[..i + 1]) == Some(ExactNext(b, ExactAfter(b, start, nows[..i]), nows[i]))
    ensures Reservations(b, start, nows[..i + 1]) ==
            Reservations(b, start, nows[..i]) + if Reserves(b, LedgerAfter(b, start, nows[..i]), nows[i]) then 1 else 0
  {
    assert nows[..i + 1][..i] == nows[..i];
  }

  /** `0 <= tokens <= burst`, and a ledger stamped in the future holds no tokens. */
  lemma {:induction false} LedgerStaysConsistent(b: Budget, start: Option<Ledger>, nows: seq<int>, i: nat)
    requires b.Valid() && Runs(b, start, nows) && i <= |nows|
    ensures i > 0 ==> Consistent(b, LedgerAfter(b, start, nows[..i]).value, nows[i - 1])
    decreases i
  {
    hide Taken, LedgerAfter, ExactNext, Reserves;
    if i > 0 {
      LedgerStaysConsistent(b, start, nows, i - 1);
      CallAt(b, start, nows, i - 1);
      TakeAt(b, start, nows, i - 1);
    }
  }

  /** `TakeIsNearlyExact` at call `i`. */
  lemma TakeAt(b: Budget, start: Option<Ledger>, nows: seq<int>, i: nat)
    requires b.Valid() && Runs(b, start, nows) && i < |nows|
    requires i > 0 ==> Consistent(b, LedgerAfter(b, start, nows[..i]).value, nows[i - 1])
    ensures var ledger := LedgerAfter(b, start, nows[..i]); var now := nows[i];
            var l := Taken(b, ledger, now); var next := ExactNext(b, VirtualOf(b, ledger), now);
            && Consistent(b, l, now)
            && (if Reserves(b, ledger, now)
                then next > now as real && next <= Virtual(b, l) < next + 1.0 && Virtual(b, l) == l.updatedAt as real
                else next <= now as real && Virtual(b, l) == next && l.updatedAt == now)
  {
    hide Taken, ExactNext, Reserves, Consistent, Virtual;
    if i == 0 {
      NothingBefore(b, start, nows);
      TakeIsNearlyExact(b, start, nows[0], nows[0]);
    } else {
      TakeIsNearlyExact(b, LedgerAfter(b, start, nows[..i]), nows[i - 1], nows[i]);
    }
  }

  lemma CallFacts(b: Budget, start: Option<Ledger>, nows: seq<int>, i: nat)
    requires b.Valid() && Runs(b, start, nows) && i < |nows|
    ensures var ledger := LedgerAfter(b, start, nows[..i]); var now := nows[i];
            var after := LedgerAfter(b, start, nows[..i + 1]); var next := ExactNext(b, VirtualOf(b, ledger), now);
            && after.Some? && Consistent(b, after.value, now)
            && (if Reserves(b, ledger, now)
                then
                  && next > now as real && next <= Virtual(b, after.value) < next + 1.0
                  && Virtual(b, after.value) == GrantAt(b, start, nows, i) as real
                else
                  next <= now as real && Virtual(b, after.value) == next && GrantAt(b, start, nows, i) == now)
  {
    hide Taken, LedgerAfter, ExactNext, Reserves, Consistent, Virtual;
    LedgerStaysConsistent(b, start, nows, i);
    TakeAt(b, start, nows, i);
    CallAt(b, start, nows, i);
  }

  /** The ledger's virtual time is never behind the exact bucket's, and ahead by less than one
      nanosecond per reservation made so far. */
  lemma {:induction false} LedgerTracksExact(b: Budget, start: Option<Ledger>, nows: seq<int>, i: nat)
    requires b.Valid() && Runs(b, start, nows) && i < |nows|
    ensures var v := Virtual(b, LedgerAfter(b, start, nows[..i + 1]).value);
            var e, n := ExactAfter(b, start, nows[..i + 1]).value, Reservations(b, start, nows[..i + 1]);
            e <= v && (if n == 0 then v == e else v < e + n as real)
    decreases i
  {
    hide Taken, LedgerAfter, Reserves, Consistent, Virtual, ExactAfter, Reservations, Worth;
    CallAt(b, start, nows, i);
    CallFacts(b, start, nows, i);
    if i == 0 {
      NothingBefore(b, start, nows);
    } else {
      LedgerTracksExact(b, start, nows, i - 1);
      CallAt(b, start, nows, i - 1);
    }
  }

  lemma NothingBefore(b: Budget, start: Option<Ledger>, nows: seq<int>)
    requires b.Valid()
    ensures LedgerAfter(b, start, nows[..0]) == start
    ensures ExactAfter(b, start, nows[..0]) == VirtualOf(b, start)
    ensures Reservations(b, start, nows[..0]) == 0
  {
  }

  /** No request is let through before the exact bucket would let it through, and none is late by a
      nanosecond or more per reservation made so far. */
  lemma GrantTracksExact(b: Budget, start: Option<Ledger>, nows: seq<int>, i: nat)
    requires b.Valid() && Runs(b, start, nows) && i < |nows|
    ensures var g, e := GrantAt(b, start, nows, i) as real, ExactGrantAt(b, start, nows, i);
            var n := Reservations(b, start, nows[..i + 1]);
            e <= g && (if n == 0 then g == e else g < e + n as real)
  {
    hide Taken, LedgerAfter, Reserves, Consistent, Virtual, ExactAfter, Reservations, Worth, GrantAt;
    CallAt(b, start, nows, i);
    CallFacts(b, start, nows, i);
    LedgerTracksExact(b, start, nows, i);
    if i == 0 {
      NothingBefore(b, start, nows);
    } else {
      LedgerTracksExact(b, start, nows, i - 1);
      CallAt(b, start, nows, i - 1);
    }
  }

  /** Each further call moves the virtual time by at least a period. */
  lemma {:induction false} VirtualGrows(b: Budget, start: Option<Ledger>, nows: seq<int>, i: nat, j: nat)
    requires b.Valid() && Runs(b, start, nows) && i <= j < |nows|
    ensures LedgerAfter(b, start, nows[..i + 1]).Some? && LedgerAfter(b, start, nows[..j + 1]).Some?
    ensures Virtual(b, LedgerAfter(b, start, nows[..j + 1]).value) >=
            Virtual(b, LedgerAfter(b, start, nows[..i + 1]).value) + Worth(b, (j - i) as real)
    decreases j - i
  {
    hide Taken, LedgerAfter, Reserves, Consistent, Virtual, Worth;
    CallFacts(b, start, nows, j);
    if i == j {
      WorthIsLinear(b, 0.0, 0.0);
    } else {
      VirtualGrows(b, start, nows, i, j - 1);
      WorthIsLinear(b, (j - 1 - i) as real, 1.0);
      assert (j - 1 - i) as real + 1.0 == (j - i) as real;
    }
  }

  /** Any stretch of calls `i` to `j` stays within the budget: at most `burst` requests plus what
      accrues between the first and the last grant. */
  lemma BurstBound(b: Budget, start: Option<Ledger>, nows: seq<int>, i: nat, j: nat)
    requires b.Valid() && Runs(b, start, nows) && i <= j < |nows|
    ensures (j - i + 1 - b.burst) * b.interval <= b.steady * (GrantAt(b, start, nows, j) - GrantAt(b, start, nows, i))
  {
    var d, n := (GrantAt(b, start, nows, j) - GrantAt(b, start, nows, i)) as real, (j - i) as real;
    assert Worth(b, n + 1.0 - b.burst as real) <= d by {
      hide Taken, LedgerAfter, Reserves, Consistent, Virtual, Worth, GrantAt;
      CallFacts(b, start, nows, i);
      CallFacts(b, start, nows, j);
      VirtualGrows(b, start, nows, i, j);
      WorthIsLinear(b, n, 1.0);
      WorthIsLinear(b, n + 1.0, b.burst as real);
      WorthIsLinear(b, 1.0, b.burst as real);
    }
    InTokens(b, j - i + 1 - b.burst, GrantAt(b, start, nows, j) - GrantAt(b, start, nows, i));
  }

  lemma InTokens(b: Budget, n: int, d: int)
    requires b.Valid() && Worth(b, n as real) <= d as real
    ensures n * b.interval <= b.steady * d
  {
    var s, i, x := b.steady as real, b.interval as real, n as real;
    var p := i / s;
    assert p * s == i;
    MulAssoc(x, p, s);
    Scale(x * p, d as real, s);
    assert x * i <= d as real * s;
    assert (n * b.interval) as real == x * i && (b.steady * d) as real == d as real * s;
  }

  /** Grants are handed out in call order. */
  lemma {:induction false} GrantsAscend(b: Budget, start: Option<Ledger>, nows: seq<int>, i: nat, j: nat)
    requires b.Valid() && Runs(b, start, nows) && i <= j < |nows|
    ensures GrantAt(b, start, nows, i) <= GrantAt(b, start, nows, j)
    decreases j - i
  {
    hide Taken, LedgerAfter, Reserves, Consistent, Virtual, Worth, GrantAt;
    if i < j {
      GrantsAscend(b, start, nows, i, j - 1);
      CallFacts(b, start, nows, j - 1);
      CallFacts(b, start, nows, j);
      WorthIsLinear(b, 0.0, 1.0);
    }
  }

  // ----- no call waits longer than the budget forces it to -----

  /** The earliest time call `j` fits the budget if the bucket was full when call `i` came: `burst` of the
      calls `i` to `j` are free and each of the others takes a period. */
  function Due(b: Budget, nows: seq<int>, i: nat, j: nat): real
    requires b.Valid() && i <= j < |nows|
  {
    nows[i] as real + (j - i + 1 - b.burst) as real * b.Period()
  }

  /** The same, counted from the ledger the run starts from. */
  function CarriedOver(b: Budget, l: Ledger, j: nat): real
    requires b.Valid()
  {
    l.updatedAt as real + ((j + 1) as real - l.tokens) * b.Period()
  }

  /** `v` is the latest of these times for call `j`. */
  ghost predicate LatestDue(b: Budget, start: Option<Ledger>, nows: seq<int>, j: nat, v: real)
    requires b.Valid() && j < |nows|
  {
    && (forall i :: 0 <= i <= j ==> Due(b, nows, i, j) <= v)
    && (start.Some? ==> CarriedOver(b, start.value, j) <= v)
    && ((exists i :: 0 <= i <= j && Due(b, nows, i, j) == v) || (start.Some? && CarriedOver(b, start.value, j) == v))
  }

  lemma DueGrows(b: Budget, nows: seq<int>, i: nat, j: nat)
    requires b.Valid() && i <= j < |nows|
    ensures i < j ==> Due(b, nows, i, j) == Due(b, nows, i, j - 1) + b.Period()
    ensures Due(b, nows, j, j) == nows[j] as real - Worth(b, b.burst as real) + b.Period()
  {
    var p, n := b.Period(), (j - i + 1 - b.burst) as real;
    Mul(n - 1.0, 1.0, p);
    assert n - 1.0 == (j - i - b.burst) as real;
    Mul(1.0, b.burst as real, p);
    assert (1 - b.burst) as real == 1.0 - b.burst as real;
  }

  lemma CarriedGrows(b: Budget, l: Ledger, j: nat)
    requires b.Valid()
    ensures j > 0 ==> CarriedOver(b, l, j) == CarriedOver(b, l, j - 1) + b.Period()
    ensures CarriedOver(b, l, 0) == Virtual(b, l) + b.Period()
  {
    var p, n := b.Period(), (j + 1) as real - l.tokens;
    Mul(n - 1.0, 1.0, p);
    assert n - 1.0 == j as real - l.tokens;
    Mul(1.0, l.tokens, p);
  }

  /** The exact bucket lets a call through at the latest of the times at which it fits the budget. */
  lemma {:induction false} ExactIsLatestDue(b: Budget, start: Option<Ledger>, nows: seq<int>, j: nat)
    requires b.Valid() && Runs(b, start, nows) && j < |nows|
    ensures ExactAfter(b, start, nows[..j + 1]).Some?
    ensures LatestDue(b, start, nows, j, ExactAfter(b, start, nows[..j + 1]).value)
  {
    hide Worth, Virtual, Due, CarriedOver, ExactAfter, LedgerAfter, Reservations;
    CallAt(b, start, nows, j);
    DueGrows(b, nows, j, j);
    if start.Some? { CarriedGrows(b, start.value, j); }
    var v := ExactAfter(b, start, nows[..j + 1]).value;
    if j == 0 {
      NothingBefore(b, start, nows);
      assert Due(b, nows, 0, 0) == v || (start.Some? && CarriedOver(b, start.value, 0) == v);
    } else {
      ExactIsLatestDue(b, start, nows, j - 1);
      var u := ExactAfter(b, start, nows[..j]).value;
      assert v == MaxReal(u, nows[j] as real - Worth(b, b.burst as real)) + b.Period();
      forall i | 0 <= i <= j
        ensures Due(b, nows, i, j) <= v
      {
        DueGrows(b, nows, i, j);
      }
      if v != Due(b, nows, j, j) && !(start.Some? && CarriedOver(b, start.value, j) == v) {
        var i :| 0 <= i <= j - 1 && Due(b, nows, i, j - 1) == u;
        DueGrows(b, nows, i, j);
        assert Due(b, nows, i, j) == v;
      }
    }
  }

  /** A call is let through no earlier than it comes and than the budget allows.  It waits only as long as
      the calls since some earlier moment, or the ledger left by earlier processes, force it to, give or
      take less than a nanosecond for each reservation made. */
  lemma WaitIsForced(b: Budget, start: Option<Ledger>, nows: seq<int>, j: nat)
    requires b.Valid() && Runs(b, start, nows) && j < |nows|
    ensures var g, n := GrantAt(b, start, nows, j), Reservations(b, start, nows[..j + 1]);
            && g >= nows[j]
            && (forall i :: 0 <= i <= j ==> Due(b, nows, i, j) <= g as real)
            && (start.Some? ==> CarriedOver(b, start.value, j) <= g as real)
            && (|| g == nows[j]
                || (exists i :: 0 <= i <= j && g as real < Due(b, nows, i, j) + n as real)
                || (start.Some? && g as real < CarriedOver(b, start.value, j) + n as real))
  {
    hide Due, CarriedOver, GrantAt, Reservations, ExactAfter, Runs;
    ExactIsLatestDue(b, start, nows, j);
    GrantOnSchedule(b, start, nows, j);
  }

  lemma GrantOnSchedule(b: Budget, start: Option<Ledger>, nows: seq<int>, j: nat)
    requires b.Valid() && Runs(b, start, nows) && j < |nows|
    ensures ExactAfter(b, start, nows[..j + 1]).Some?
    ensures var g, n := GrantAt(b, start, nows, j), Reservations(b, start, nows[..j + 1]);
            var v := ExactAfter(b, start, nows[..j + 1]).value;
            g >= nows[j] && v <= g as real && (g == nows[j] || g as real < v + n as real)
  {
    hide GrantAt, Reservations, LedgerAfter, ExactAfter, Taken, Reserves, Consistent, Virtual, ExactNext;
    GrantTracksExact(b, start, nows, j);
    LedgerTracksExact(b, start, nows, j);
    CallAt(b, start, nows, j);
    CallFacts(b, start, nows, j);
  }

  /** From a fresh bucket the first `burst` calls are let through at once. */
  lemma {:induction false} BurstIsImmediate(b: Budget, nows: seq<int>, j: nat)
    requires b.Valid() && Runs(b, None, nows) && j < |nows| && j < b.burst
    ensures GrantAt(b, None, nows, j) == nows[j]
    ensures Reservations(b, None, nows[..j + 1]) == 0
  {
    hide Due, GrantAt, Reservations, LedgerAfter, ExactAfter, Taken, Consistent, Virtual, Reserves;
    CallAt(b, None, nows, j);
    CallFacts(b, None, nows, j);
    ExactIsLatestDue(b, None, nows, j);
    var v := ExactAfter(b, None, nows[..j + 1]).value;
    var i :| 0 <= i <= j && Due(b, nows, i, j) == v;
    DueInBurst(b, nows, i, j);
    if j == 0 {
      NothingBefore(b, None, nows);
    } else {
      BurstIsImmediate(b, nows, j - 1);
      LedgerTracksExact(b, None, nows, j - 1);
      CallFacts(b, None, nows, j - 1);
      ExactIsLatestDue(b, None, nows, j - 1);
      assert VirtualOf(b, LedgerAfter(b, None, nows[..j])) == ExactAfter(b, None, nows[..j]);
    }
  }

  lemma DueInBurst(b: Budget, nows: seq<int>, i: nat, j: nat)
    requires b.Valid() && NonDecreasing(nows) && i <= j < |nows| && j < b.burst
    ensures Due(b, nows, i, j) <= nows[j] as real
  {
    Scale((j - i + 1 - b.burst) as real, 0.0, b.Period());
  }
}
