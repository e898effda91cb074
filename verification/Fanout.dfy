/** The bounded worker pool (internal/cliutil/fanout.go `FanoutRun`) as interleaved steps of a
    feeder, its workers and a context that may be cancelled at any time.

    Sources are their indices `0..n`; what the caller's function does with a source is decided by
    the environment when the call returns. */
module Fanout {
  import opened Wrappers

  /** What one call of the caller's function ends in. */
  datatype Outcome<T> = Value(value: T) | Failure | Panic

  datatype Cause = Cancelled | FnError | FnPanic

  datatype Slot<T> = Slot(result: Option<T>, err: Option<Cause>)

  datatype Worker =
    | Idle                 // at `range jobs`
    | Holding(idx: nat)    // received a job, has not looked at the context yet
    | Calling(idx: nat)    // inside the caller's function
    | Exited

  /** `next` is the feeder's position; `calls` logs the sources the function was called for and
      `returned` what those calls ended in. */
  datatype State<T> = State(
    next: nat, closed: bool, queue: seq<nat>, workers: seq<Worker>, slots: seq<Slot<T>>, cancelled: bool,
    calls: seq<nat>, returned: map<nat, Outcome<T>>)

  datatype Move<T> =
    | Cancel
    | Feed                             // `jobs <- job{i}`
    | StopFeeding                      // `<-ctx.Done()` in the feeder
    | Close                            // all sources fed
    | Take(w: nat)
    | Check(w: nat)                    // the worker reads ctx.Err()
    | Return(w: nat, outcome: Outcome<T>)
    | Exit(w: nat)

  function EmptySlot<T>(): Slot<T> { Slot(None, None) }

  function SlotOf<T>(o: Outcome<T>): Slot<T> {
    match o
    case Value(v) => Slot(Some(v), None)
    case Failure => Slot(None, Some(FnError))
    case Panic => Slot(None, Some(FnPanic))
  }

  function CancelSlot<T>(): Slot<T> { Slot(None, Some(Cancelled)) }

  /** The slots once all sources from `next` on are marked as cancelled. */
  function CancelledFrom<T>(slots: seq<Slot<T>>, next: nat): seq<Slot<T>> {
    seq(|slots|, i requires 0 <= i < |slots| => if i < next then slots[i] else CancelSlot())
  }

  function Capacity<T>(s: State<T>): nat { 2 * |s.workers| }

  function Start<T>(n: nat, concurrency: nat): State<T> {
    State(0, false, [], seq(concurrency, _ => Idle), seq(n, _ => EmptySlot()), false, [], map[])
  }

  predicate Enabled<T>(s: State<T>, m: Move<T>) {
    match m
    case Cancel => !s.cancelled
    case Feed => !s.closed && s.next < |s.slots| && |s.queue| < Capacity(s)
    case StopFeeding => !s.closed && s.next < |s.slots| && s.cancelled
    case Close => !s.closed && s.next >= |s.slots|
    case Take(w) => w < |s.workers| && s.workers[w] == Idle && s.queue != []
    case Check(w) => w < |s.workers| && s.workers[w].Holding? && s.workers[w].idx < |s.slots|
    case Return(w, _) => w < |s.workers| && s.workers[w].Calling? && s.workers[w].idx < |s.slots|
    case Exit(w) => w < |s.workers| && s.workers[w] == Idle && s.queue == [] && s.closed
  }

  function Step<T>(s: State<T>, m: Move<T>): State<T>
    requires Enabled(s, m)
  {
    match m
    case Cancel => s.(cancelled := true)
    case Feed => s.(queue := s.queue + [s.next], next := s.next + 1)
    case StopFeeding => s.(slots := CancelledFrom(s.slots, s.next), next := |s.slots|, closed := true)
    case Close => s.(closed := true)
    case Take(w) => s.(workers := s.workers[w := Holding(s.queue[0])], queue := s.queue[1..])
    case Check(w) =>
      var idx := s.workers[w].idx;
      if s.cancelled then s.(slots := s.slots[idx := CancelSlot()], workers := s.workers[w := Idle])
      else s.(workers := s.workers[w := Calling(idx)], calls := s.calls + [idx])
    case Return(w, outcome) =>
      var idx := s.workers[w].idx;
      s.(slots := s.slots[idx := SlotOf(outcome)], workers := s.workers[w := Idle],
         returned := s.returned[idx := outcome])
    case Exit(w) => s.(workers := s.workers[w := Exited])
  }

  /** `wg.Wait()` has returned: the feeder closed the channel and every worker left its loop. */
  predicate Finished<T>(s: State<T>) {
    s.closed && AllExited(s.workers)
  }

  predicate AllExited(workers: seq<Worker>) {
    forall w :: 0 <= w < |workers| ==> workers[w] == Exited
  }

  // ----- the invariant -----

  predicate Holds(w: Worker, idx: nat) {
    (w.Holding? || w.Calling?) && w.idx == idx
  }

  predicate Held<T>(s: State<T>, idx: nat) {
    exists w :: 0 <= w < |s.workers| && Holds(s.workers[w], idx)
  }

  /** The source is still on its way: not fed, queued, or with a worker. */
  predicate Open<T>(s: State<T>, idx: nat) {
    idx >= s.next || idx in s.queue || Held(s, idx)
  }

  ghost predicate Distinct(q: seq<nat>) {
    forall i, j :: 0 <= i < j < |q| ==> q[i] != q[j]
  }

  ghost predicate Placed<T>(s: State<T>) {
    && s.next <= |s.slots| && |s.workers| > 0
    && Distinct(s.queue)
    && (forall idx :: idx in s.queue ==> idx < s.next && !Held(s, idx))
    && (forall w :: 0 <= w < |s.workers| && (s.workers[w].Holding? || s.workers[w].Calling?) ==>
       s.workers[w].idx < s.next)
    && (forall v, w, idx: nat :: 0 <= v < w < |s.workers| && Holds(s.workers[v], idx) ==> !Holds(s.workers[w], idx))
    && (s.closed ==> s.next == |s.slots|)
    && (forall w :: 0 <= w < |s.workers| && s.workers[w] == Exited ==> s.closed && s.queue == [])
  }

  /** A source has a filled slot exactly when it is not open any more; the slot is what its call
      returned, or a cancellation of a source the function was never called for. */
  ghost predicate Settled<T>(s: State<T>) {
    && (forall idx :: 0 <= idx < |s.slots| && Open(s, idx) ==> s.slots[idx] == EmptySlot() && idx !in s.returned)
    && (forall idx :: 0 <= idx < |s.slots| && !Open(s, idx) ==>
          if idx in s.returned then s.slots[idx] == SlotOf(s.returned[idx])
          else s.cancelled && s.slots[idx] == CancelSlot() && idx !in s.calls)
    && Distinct(s.calls)
    && (forall idx :: idx in s.calls ==> idx < s.next && idx !in s.queue)
    && (forall w :: 0 <= w < |s.workers| && s.workers[w].Holding? ==> s.workers[w].idx !in s.calls)
    && (forall w :: 0 <= w < |s.workers| && s.workers[w].Calling? ==> s.workers[w].idx in s.calls)
    && (forall idx :: idx in s.returned ==> idx in s.calls)
  }

  ghost predicate Inv<T>(s: State<T>) {
    Placed(s) && Settled(s)
  }

  lemma StartInv<T>(n: nat, concurrency: nat)
    requires concurrency >= 1
    ensures Inv<T>(Start(n, concurrency))
  {
  }

  /** How a move changes the set of sources that are with a worker. */
  function HeldChange<T>(s: State<T>, m: Move<T>, idx: nat): bool
    requires Enabled(s, m)
  {
    match m
    case Take(w) => Held(s, idx) || idx == s.queue[0]
    case Check(w) => Held(s, idx) && !(s.cancelled && idx == s.workers[w].idx)
    case Return(w, _) => Held(s, idx) && idx != s.workers[w].idx
    case _ => Held(s, idx)
  }

  /** The source of a busy worker is fed, off the queue and with that worker alone. */
  lemma BusyWorker<T>(s: State<T>, w: nat)
    requires Placed(s) && w < |s.workers| && (s.workers[w].Holding? || s.workers[w].Calling?)
    ensures var idx := s.workers[w].idx;
            && Held(s, idx) && idx < s.next && idx !in s.queue
            && forall v :: 0 <= v < |s.workers| && v != w ==> !Holds(s.workers[v], idx)
  {
    assert Holds(s.workers[w], s.workers[w].idx);
  }

  lemma HeldAfter<T>(s: State<T>, m: Move<T>, idx: nat)
    requires Placed(s) && Enabled(s, m)
    ensures Held(Step(s, m), idx) == HeldChange(s, m, idx)
  {
    if m.Check? || m.Return? { BusyWorker(s, m.w); }
    hide Placed;
    var s' := Step(s, m);
    if m.Take? || m.Check? || m.Return? || m.Exit? {
      assert forall v :: 0 <= v < |s.workers| && v != m.w ==> s'.workers[v] == s.workers[v];
      if Held(s, idx) {
        var v :| 0 <= v < |s.workers| && Holds(s.workers[v], idx);
        if v != m.w { assert Holds(s'.workers[v], idx); }
        if v == m.w && m.Check? && !s.cancelled { assert Holds(s'.workers[v], idx); }
      }
      if m.Take? { assert Holds(s'.workers[m.w], s.queue[0]); }
      if Held(s', idx) {
        var v :| 0 <= v < |s.workers| && Holds(s'.workers[v], idx);
        if v != m.w { assert Holds(s.workers[v], idx); }
      }
    }
  }

  lemma HeldAfterAll<T>(s: State<T>, m: Move<T>)
    requires Placed(s) && Enabled(s, m)
    ensures forall idx: nat :: Held(Step(s, m), idx) == HeldChange(s, m, idx)
  {
    forall idx: nat
      ensures Held(Step(s, m), idx) == HeldChange(s, m, idx)
    {
      HeldAfter(s, m, idx);
    }
  }

  lemma StepPlaced<T>(s: State<T>, m: Move<T>)
    requires Placed(s) && Enabled(s, m)
    ensures Placed(Step(s, m))
  {
    match m {
      case Feed => FeedPlaced(s);
      case Take(w) => TakePlaced(s, w);
      case _ =>
        HeldAfterAll(s, m);
        hide Held;
    }
  }

  lemma FeedPlaced<T>(s: State<T>)
    requires Placed(s) && Enabled(s, Feed)
    ensures Placed(Step(s, Feed))
  {
    HeldAfterAll(s, Feed);
    HeldBelow(s, s.next);
    hide Held;
    var s' := Step(s, Feed);
    assert forall i :: 0 <= i < |s.queue| ==> s.queue[i] in s.queue && s'.queue[i] == s.queue[i];
  }

  lemma TakePlaced<T>(s: State<T>, w: nat)
    requires Placed(s) && Enabled(s, Take(w))
    ensures Placed(Step(s, Take(w)))
  {
    HeldAfterAll(s, Take(w));
    hide Held;
    var s' := Step(s, Take(w));
    assert s.queue[0] in s.queue;
    assert forall i :: 0 <= i < |s'.queue| ==> s'.queue[i] == s.queue[i + 1];
    forall idx | idx in s'.queue
      ensures idx in s.queue && idx != s.queue[0]
    {
      var i :| 0 <= i < |s'.queue| && s'.queue[i] == idx;
      assert s.queue[i + 1] == idx;
    }
    TakeFresh(s, s.queue[0]);
  }

  lemma HeldBelow<T>(s: State<T>, idx: nat)
    requires Placed(s) && idx >= s.next
    ensures !Held(s, idx)
  {
  }

  lemma TakeFresh<T>(s: State<T>, idx: nat)
    requires !Held(s, idx)
    ensures forall w :: 0 <= w < |s.workers| ==> !Holds(s.workers[w], idx)
  {
  }

  lemma StepSettled<T>(s: State<T>, m: Move<T>)
    requires Inv(s) && Enabled(s, m)
    ensures Settled(Step(s, m))
  {
    match m {
      case Feed => FeedSettled(s);
      case Take(w) => TakeSettled(s, w);
      case Check(w) => CheckSettled(s, w);
      case Return(w, outcome) => ReturnSettled(s, w, outcome);
      case _ =>
        HeldAfterAll(s, m);
        hide Held;
    }
  }

  lemma FeedSettled<T>(s: State<T>)
    requires Inv(s) && Enabled(s, Feed)
    ensures Settled(Step(s, Feed))
  {
    HeldAfterAll(s, Feed);
    hide Held;
    assert forall idx :: idx in Step(s, Feed).queue <==> idx in s.queue || idx == s.next;
  }

  lemma TakeSettled<T>(s: State<T>, w: nat)
    requires Inv(s) && Enabled(s, Take(w))
    ensures Settled(Step(s, Take(w)))
  {
    HeldAfterAll(s, Take(w));
    hide Held;
    assert forall idx :: idx in s.queue <==> idx in Step(s, Take(w)).queue || idx == s.queue[0];
  }

  lemma CheckSettled<T>(s: State<T>, w: nat)
    requires Inv(s) && Enabled(s, Check(w))
    ensures Settled(Step(s, Check(w)))
  {
    HeldAfterAll(s, Check(w));
    BusyWorker(s, w);
    hide Held, Placed;
  }

  lemma ReturnSettled<T>(s: State<T>, w: nat, outcome: Outcome<T>)
    requires Inv(s) && Enabled(s, Return(w, outcome))
    ensures Settled(Step(s, Return(w, outcome)))
  {
    HeldAfterAll(s, Return(w, outcome));
    BusyWorker(s, w);
    hide Held, Placed;
  }

  lemma StepInv<T>(s: State<T>, m: Move<T>)
    requires Inv(s) && Enabled(s, m)
    ensures Inv(Step(s, m))
  {
    StepPlaced(s, m);
    StepSettled(s, m);
  }

  // ----- no deadlock, termination, complete results -----

  /** As long as the pool has not finished, the feeder or a worker can move; a call of the function
      can always return. */
  lemma NoDeadlock<T>(s: State<T>) returns (m: Move<T>)
    requires Inv(s) && !Finished(s)
    ensures !m.Cancel? && !m.StopFeeding? && Enabled(s, m)
  {
    if !s.closed && s.next < |s.slots| && |s.queue| < Capacity(s) {
      return Feed;
    }
    if !s.closed && s.next >= |s.slots| {
      return Close;
    }
    var w :| 0 <= w < |s.workers| && s.workers[w] != Exited;
    match s.workers[w]
    case Idle => m := if s.queue != [] then Take(w) else Exit(w);
    case Holding(_) => m := Check(w);
    case Calling(_) => m := Return(w, Failure);
  }

  function Weight(w: Worker): nat {
    match w
    case Idle => 1
    case Holding(_) => 3
    case Calling(_) => 2
    case Exited => 0
  }

  function Weights(ws: seq<Worker>): nat {
    if ws == [] then 0 else Weight(ws[0]) + Weights(ws[1..])
  }

  lemma {:induction false} WeightsUpdate(ws: seq<Worker>, w: nat, x: Worker)
    requires w < |ws|
    ensures Weights(ws[w := x]) + Weight(ws[w]) == Weights(ws) + Weight(x)
  {
    if w > 0 {
      assert ws[w := x][1..] == ws[1..][w - 1 := x];
      WeightsUpdate(ws[1..], w - 1, x);
    }
  }

  /** How many moves are left at most. */
  function Left<T>(s: State<T>): int {
    4 * (|s.slots| - s.next) + 3 * |s.queue| + Weights(s.workers)
    + (if s.closed then 0 else 1) + (if s.cancelled then 0 else 1)
  }

  lemma StepsRunOut<T>(s: State<T>, m: Move<T>)
    requires Inv(s) && Enabled(s, m)
    ensures 0 <= Left(Step(s, m)) < Left(s)
  {
    hide Inv, Weights;
    StepBounds(s, m);
    match m {
      case Take(w) => WeightsUpdate(s.workers, w, Holding(s.queue[0]));
      case Check(w) => WeightsUpdate(s.workers, w, Step(s, m).workers[w]);
      case Return(w, _) => WeightsUpdate(s.workers, w, Idle);
      case Exit(w) => WeightsUpdate(s.workers, w, Exited);
      case _ =>
    }
  }

  lemma StepBounds<T>(s: State<T>, m: Move<T>)
    requires Inv(s) && Enabled(s, m)
    ensures s.next <= |s.slots| && Step(s, m).next <= |Step(s, m).slots|
    ensures m.StopFeeding? ==> s.next < |s.slots| && |Step(s, m).slots| == |s.slots|
  {
  }

  ghost predicate Run<T>(s: State<T>, moves: seq<Move<T>>, s': State<T>)
    decreases |moves|
  {
    if moves == [] then s' == s
    else Enabled(s, moves[0]) && Run(Step(s, moves[0]), moves[1..], s')
  }

  /** No schedule is longer than four moves a source plus one a worker plus two. */
  lemma {:induction false} SchedulesAreBounded<T>(s: State<T>, moves: seq<Move<T>>, s': State<T>)
    requires Inv(s) && Run(s, moves, s')
    ensures Inv(s') && |moves| <= Left(s) && |s'.slots| == |s.slots|
    decreases |moves|
  {
    hide Inv, Left;
    if moves == [] {
      LeftNonNegative(s);
    } else {
      StepInv(s, moves[0]);
      StepsRunOut(s, moves[0]);
      SchedulesAreBounded(Step(s, moves[0]), moves[1..], s');
    }
  }

  lemma LeftNonNegative<T>(s: State<T>)
    requires Inv(s)
    ensures Left(s) >= 0
  {
  }

  lemma {:induction false} AllIdle(concurrency: nat)
    ensures Weights(seq(concurrency, _ => Idle)) == concurrency
  {
    if concurrency > 0 {
      var ws := seq(concurrency, _ => Idle);
      assert ws[1..] == seq(concurrency - 1, _ => Idle);
      AllIdle(concurrency - 1);
    }
  }

  lemma ScheduleLength<T>(n: nat, concurrency: nat, moves: seq<Move<T>>, s': State<T>)
    requires concurrency >= 1 && Run(Start(n, concurrency), moves, s')
    ensures |moves| <= 4 * n + concurrency + 2 && |s'.slots| == n
  {
    StartInv<T>(n, concurrency);
    AllIdle(concurrency);
    hide Inv;
    SchedulesAreBounded(Start(n, concurrency), moves, s');
  }

  /** When the pool has finished, every slot holds exactly one of result and error: what the single
      call for its source returned, or -- only after a cancellation and only for a source the
      function was never called for -- the cancellation. */
  lemma FinishedIsComplete<T>(s: State<T>)
    requires Inv(s) && Finished(s)
    ensures Distinct(s.calls)
    ensures forall idx :: 0 <= idx < |s.slots| ==>
              && (s.slots[idx].result.Some? <==> s.slots[idx].err.None?)
              && (if idx in s.calls then idx in s.returned && s.slots[idx] == SlotOf(s.returned[idx])
                  else s.cancelled && s.slots[idx] == CancelSlot())
  {
    assert s.workers[0] == Exited;
    assert forall idx: nat :: idx < |s.slots| ==> !Open(s, idx);
  }

  /** The queue never holds more than two sources a worker. */
  lemma {:induction false} QueueIsBounded<T>(s: State<T>, moves: seq<Move<T>>, s': State<T>)
    requires |s.queue| <= 2 * |s.workers| && Run(s, moves, s')
    ensures |s'.queue| <= 2 * |s'.workers| == 2 * |s.workers|
    decreases |moves|
  {
    if moves != [] { QueueIsBounded(Step(s, moves[0]), moves[1..], s'); }
  }

  /** A feeder with a source left waits exactly while the queue holds two sources a worker and the context
      is not cancelled. */
  lemma FeederWaitsExactlyWhen<T>(s: State<T>)
    requires !s.closed && s.next < |s.slots|
    ensures !Enabled(s, Feed) && !Enabled(s, StopFeeding) && !Enabled(s, Close) <==>
              |s.queue| >= 2 * |s.workers| && !s.cancelled
  {
  }

  // ----- after a cancellation -----

  /** Once the context is cancelled the function is never called again. */
  lemma NoCallsOnceCancelled<T>(s: State<T>, m: Move<T>)
    requires Enabled(s, m) && s.cancelled
    ensures Step(s, m).cancelled && Step(s, m).calls == s.calls
  {
  }

  /** How many sources the workers pulled from the queue. */
  function Pulls<T>(moves: seq<Move<T>>): nat {
    if moves == [] then 0 else (if moves[0].Take? then 1 else 0) + Pulls(moves[1..])
  }

  /** How many sources the feeder handed over. */
  function Feeds<T>(moves: seq<Move<T>>): nat {
    if moves == [] then 0 else (if moves[0].Feed? then 1 else 0) + Feeds(moves[1..])
  }

  /** The workers pull exactly what was queued and what the feeder still hands over -- also after a
      cancellation, when its `select` may pick the queue as well as the cancelled context. */
  lemma {:induction false} PullsAreExact<T>(s: State<T>, moves: seq<Move<T>>, s': State<T>)
    requires Inv(s) && Run(s, moves, s') && Finished(s')
    ensures Pulls(moves) == |s.queue| + Feeds(moves)
    decreases |moves|
  {
    hide Inv, Finished;
    if moves == [] {
      FinishedIsDrained(s);
    } else {
      StepInv(s, moves[0]);
      PullsAreExact(Step(s, moves[0]), moves[1..], s');
    }
  }

  /** The same after a cancellation; none of what is pulled then is passed to the function. */
  lemma {:induction false} CancelledPoolDrains<T>(s: State<T>, moves: seq<Move<T>>, s': State<T>)
    requires Inv(s) && s.cancelled && Run(s, moves, s') && Finished(s')
    ensures Pulls(moves) == |s.queue| + Feeds(moves) && s'.calls == s.calls
    decreases |moves|
  {
    hide Inv, Finished;
    PullsAreExact(s, moves, s');
    if moves != [] {
      StepInv(s, moves[0]);
      NoCallsOnceCancelled(s, moves[0]);
      CancelledPoolDrains(Step(s, moves[0]), moves[1..], s');
    }
  }

  /** Every pool can finish: some schedule leads to the end. */
  lemma {:induction false} FinishingSchedule<T>(s: State<T>) returns (moves: seq<Move<T>>, s': State<T>)
    requires Inv(s)
    ensures Run(s, moves, s') && Finished(s')
    decreases Left(s)
  {
    hide Inv, Left, Finished, Enabled, Step;
    if Finished(s) {
      moves, s' := [], s;
    } else {
      var m := NoDeadlock(s);
      StepInv(s, m);
      StepsRunOut(s, m);
      var rest;
      rest, s' := FinishingSchedule(Step(s, m));
      moves := [m] + rest;
      assert moves[1..] == rest;
    }
  }

  /** Nothing is queued and the feeder is through with the sources. */
  predicate NothingLeft<T>(s: State<T>) {
    s.queue == [] && (s.closed || s.next >= |s.slots|)
  }

  lemma {:induction false} NothingLeftIsPulled<T>(s: State<T>, moves: seq<Move<T>>, s': State<T>)
    requires NothingLeft(s) && Run(s, moves, s')
    ensures Pulls(moves) == 0
    decreases |moves|
  {
    if moves != [] { NothingLeftIsPulled(Step(s, moves[0]), moves[1..], s'); }
  }

  /** The workers stop pulling in a state, under every schedule, exactly when there is nothing left to
      pull or to feed in it.  Being cancelled makes no difference. */
  lemma PullingStopsExactlyWhen<T(!new)>(s: State<T>)
    requires Inv(s)
    ensures (forall moves: seq<Move<T>>, s': State<T> :: Run(s, moves, s') && Finished(s') ==> Pulls(moves) == 0)
            <==> NothingLeft(s)
  {
    if NothingLeft(s) {
      forall moves: seq<Move<T>>, s': State<T> | Run(s, moves, s') && Finished(s')
        ensures Pulls(moves) == 0
      {
        NothingLeftIsPulled(s, moves, s');
      }
    } else {
      var moves, s' := SomethingIsPulled(s);
    }
  }

  lemma SomethingIsPulled<T>(s: State<T>) returns (moves: seq<Move<T>>, s': State<T>)
    requires Inv(s) && !NothingLeft(s)
    ensures Run(s, moves, s') && Finished(s') && Pulls(moves) > 0
  {
    if s.queue != [] {
      moves, s' := FinishingSchedule(s);
      PullsAreExact(s, moves, s');
    } else {
      assert Enabled(s, Feed) by { assert |s.workers| > 0; }
      StepInv(s, Feed);
      var rest;
      rest, s' := FinishingSchedule(Step(s, Feed));
      PullsAreExact(Step(s, Feed), rest, s');
      moves := [Feed] + rest;
      assert moves[1..] == rest;
    }
  }

  lemma FinishedIsDrained<T>(s: State<T>)
    requires Inv(s) && Finished(s)
    ensures s.queue == []
  {
    assert s.workers[0] == Exited;
  }

  /** A pool with a source can be cancelled with that source queued, and a worker can pull it then. */
  lemma PullsAfterCancel<T>(n: nat, concurrency: nat) returns (s: State<T>)
    requires n >= 1 && concurrency >= 1
    ensures Run(Start(n, concurrency), [Feed, Cancel], s)
    ensures s.cancelled && s.queue == [0] && Enabled(s, Take(0))
  {
    var moves: seq<Move<T>> := [Feed, Cancel];
    var s0: State<T> := Start(n, concurrency);
    var s1 := Step(s0, Feed);
    s := Step(s1, Cancel);
    assert moves[1..] == [Cancel] && moves[1..][1..] == [];
    assert Run(s, moves[1..][1..], s);
    assert Run(s1, moves[1..], s);
  }

  /** Even with nothing queued at the cancellation the feeder may hand over a source after it. */
  lemma FeedsAfterCancel<T>(n: nat, concurrency: nat) returns (s: State<T>)
    requires n >= 1 && concurrency >= 1
    ensures Run(Start(n, concurrency), [Cancel], s)
    ensures s.cancelled && s.queue == [] && Enabled(s, Feed) && Enabled(Step(s, Feed), Take(0))
  {
    var moves: seq<Move<T>> := [Cancel];
    s := Step(Start(n, concurrency), Cancel);
    assert moves[1..] == [];
    assert Run(s, moves[1..], s);
  }

  // ----- the results in source order -----

  /** The sources with a result, in order, with their values. */
  function Results<T>(slots: seq<Slot<T>>): seq<(nat, T)> {
    if slots == [] then []
    else
      var n := |slots| - 1;
      Results(slots[..n]) + if slots[n].result.Some? then [(n, slots[n].result.value)] else []
  }

  function Errors<T>(slots: seq<Slot<T>>): seq<(nat, Cause)> {
    if slots == [] then []
    else
      var n := |slots| - 1;
      Errors(slots[..n]) + if slots[n].err.Some? then [(n, slots[n].err.value)] else []
  }

  /** Results and errors partition the sources, and each keeps source order. */
  lemma {:induction false} ResultsPartition<T>(slots: seq<Slot<T>>)
    requires forall i :: 0 <= i < |slots| ==> (slots[i].result.Some? <==> slots[i].err.None?)
    ensures |Results(slots)| + |Errors(slots)| == |slots|
    ensures forall k :: 0 <= k < |Results(slots)| ==>
              var i := Results(slots)[k].0; i < |slots| && slots[i].result == Some(Results(slots)[k].1)
    ensures forall k :: 0 <= k < |Errors(slots)| ==>
              var i := Errors(slots)[k].0; i < |slots| && slots[i].err == Some(Errors(slots)[k].1)
    ensures forall j, k :: 0 <= j < k < |Results(slots)| ==> Results(slots)[j].0 < Results(slots)[k].0
    ensures forall j, k :: 0 <= j < k < |Errors(slots)| ==> Errors(slots)[j].0 < Errors(slots)[k].0
  {
    if slots != [] {
      ResultsPartition(slots[..|slots| - 1]);
    }
  }

  /** The source is reported by this result and by nothing else. */
  ghost predicate OnlyResult<T>(results: seq<(nat, T)>, errs: seq<(nat, Cause)>, idx: nat, value: T) {
    && (idx, value) in results
    && (forall k :: 0 <= k < |results| && results[k].0 == idx ==> results[k].1 == value)
    && (forall k :: 0 <= k < |errs| ==> errs[k].0 != idx)
  }

  ghost predicate OnlyError<T>(results: seq<(nat, T)>, errs: seq<(nat, Cause)>, idx: nat, cause: Cause) {
    && (idx, cause) in errs
    && (forall k :: 0 <= k < |errs| && errs[k].0 == idx ==> errs[k].1 == cause)
    && (forall k :: 0 <= k < |results| ==> results[k].0 != idx)
  }

  /** What the caller learns about every source: the value its call returned, that the call failed or
      panicked, or that it was cancelled before any call. */
  ghost predicate ReportsAll<T>(s: State<T>, results: seq<(nat, T)>, errs: seq<(nat, Cause)>) {
    forall idx: nat :: idx < |s.slots| ==>
      if idx in s.calls then
        && idx in s.returned
        && (s.returned[idx].Value? ==> OnlyResult(results, errs, idx, s.returned[idx].value))
        && (s.returned[idx].Failure? ==> OnlyError(results, errs, idx, FnError))
        && (s.returned[idx].Panic? ==> OnlyError(results, errs, idx, FnPanic))
      else s.cancelled && OnlyError(results, errs, idx, Cancelled)
  }

  lemma {:induction false} ResultsHold<T>(slots: seq<Slot<T>>, idx: nat)
    requires idx < |slots|
    ensures slots[idx].result.Some? ==> (idx, slots[idx].result.value) in Results(slots)
    ensures slots[idx].err.Some? ==> (idx, slots[idx].err.value) in Errors(slots)
  {
    var n := |slots| - 1;
    if idx < n {
      ResultsHold(slots[..n], idx);
    }
  }

  lemma SlotIsReported<T>(slots: seq<Slot<T>>, idx: nat)
    requires idx < |slots|
    requires forall i :: 0 <= i < |slots| ==> (slots[i].result.Some? <==> slots[i].err.None?)
    ensures slots[idx].result.Some? ==> OnlyResult(Results(slots), Errors(slots), idx, slots[idx].result.value)
    ensures slots[idx].err.Some? ==> OnlyError(Results(slots), Errors(slots), idx, slots[idx].err.value)
  {
    ResultsPartition(slots);
    ResultsHold(slots, idx);
    hide Results, Errors;
  }

  lemma FinishedIsReported<T>(s: State<T>)
    requires Inv(s) && Finished(s)
    ensures ReportsAll(s, Results(s.slots), Errors(s.slots))
  {
    FinishedIsComplete(s);
    hide Results, Errors, Inv, Finished, OnlyResult, OnlyError;
    forall idx: nat | idx < |s.slots|
      ensures s.slots[idx].result.Some? ==>
                OnlyResult(Results(s.slots), Errors(s.slots), idx, s.slots[idx].result.value)
      ensures s.slots[idx].err.Some? ==> OnlyError(Results(s.slots), Errors(s.slots), idx, s.slots[idx].err.value)
    {
      SlotIsReported(s.slots, idx);
    }
  }

  lemma Moved<T>(s: State<T>, m: Move<T>) returns (s': State<T>)
    requires Inv(s) && Enabled(s, m)
    ensures s' == Step(s, m)
    ensures Inv(s') && |s'.slots| == |s.slots| && 0 <= Left(s') < Left(s)
  {
    StepInv(s, m);
    StepsRunOut(s, m);
    s' := Step(s, m);
  }

  /** A worker that received a job looks at the context before it calls the function. */
  method CheckContext<T>(slots: array<Slot<T>>, workers0: seq<Worker>, w: nat, cancelled: bool)
    returns (workers: seq<Worker>)
    requires w < |workers0| && workers0[w].Holding? && workers0[w].idx < slots.Length
    modifies slots
    ensures workers == workers0[w := if cancelled then Idle else Calling(workers0[w].idx)]
    ensures slots[..] == if cancelled then old(slots[..])[workers0[w].idx := CancelSlot()] else old(slots[..])
  {
    var idx := workers0[w].idx;
    if cancelled {
      slots[idx] := CancelSlot();
      workers := workers0[w := Idle];
    } else {
      workers := workers0[w := Calling(idx)];
    }
  }

  /** The function has returned, failed or panicked: its outcome fills the slot. */
  method FillSlot<T>(slots: array<Slot<T>>, workers0: seq<Worker>, w: nat, outcome: Outcome<T>)
    returns (workers: seq<Worker>)
    requires w < |workers0| && workers0[w].Calling? && workers0[w].idx < slots.Length
    modifies slots
    ensures workers == workers0[w := Idle]
    ensures slots[..] == old(slots[..])[workers0[w].idx := SlotOf(outcome)]
  {
    slots[workers0[w].idx] := SlotOf(outcome);
    workers := workers0[w := Idle];
  }

  /** What was returned for a source is what the caller's function answered for that source. */
  ghost predicate Answered<T>(returned: map<nat, Outcome<T>>, outcomes: (nat, nat) -> Outcome<T>) {
    forall idx :: idx in returned ==> exists t: nat :: returned[idx] == outcomes(t, idx)
  }

  lemma NothingAnswered<T>(outcomes: (nat, nat) -> Outcome<T>)
    ensures Answered(map[], outcomes)
  {
  }

  lemma OneMoreAnswer<T>(returned: map<nat, Outcome<T>>, outcomes: (nat, nat) -> Outcome<T>, t: nat, idx: nat)
    requires Answered(returned, outcomes)
    ensures Answered(returned[idx := outcomes(t, idx)], outcomes)
  {
  }

  /** The feeder's loop over the sources it no longer feeds. */
  method MarkCancelled<T>(slots: array<Slot<T>>, next: nat)
    requires next <= slots.Length
    modifies slots
    ensures slots[..] == CancelledFrom(old(slots[..]), next)
  {
    for j := next to slots.Length
      invariant forall i :: next <= i < j ==> slots[i] == CancelSlot()
      invariant forall i :: 0 <= i < next ==> slots[i] == old(slots[i])
    {
      slots[j] := CancelSlot();
    }
  }

  predicate CanFeed(next: nat, closed: bool, queue: seq<nat>, n: nat, concurrency: nat, cancelled: bool) {
    !closed && (next >= n || |queue| < 2 * concurrency || cancelled)
  }

  /** A step of the feeder: it hands over the next source, sees the cancellation -- whichever of the two
      the `select` picks when both are ready -- or closes the channel behind the last source. */
  method FeederStep<T>(slots: array<Slot<T>>, next0: nat, closed0: bool, queue0: seq<nat>, concurrency: nat,
                       cancelled: bool, ghost s: State<T>)
    returns (next: nat, closed: bool, queue: seq<nat>, ghost m: Move<T>)
    requires s.next == next0 <= slots.Length && s.closed == closed0 && s.queue == queue0 && s.cancelled == cancelled
    requires s.slots == slots[..] && |s.workers| == concurrency
    requires CanFeed(next0, closed0, queue0, slots.Length, concurrency, cancelled)
    modifies slots
    ensures Enabled(s, m) && m in {Feed, StopFeeding, Close}
    ensures Step(s, m) == s.(next := next, closed := closed, queue := queue, slots := slots[..])
  {
    next, closed, queue := next0, closed0, queue0;
    if {
      case next < slots.Length && |queue| < 2 * concurrency =>
        m := Feed;
        queue := queue + [next];
        next := next + 1;
      case next < slots.Length && cancelled =>
        m := StopFeeding;
        MarkCancelled(slots, next);
        next := slots.Length;
        closed := true;
      case next >= slots.Length =>
        m := Close;
        closed := true;
    }
  }

  /** A step of worker `w`: it pulls a job, looks at the context, has its call return, or leaves. */
  method WorkerStep<T>(slots: array<Slot<T>>, workers0: seq<Worker>, queue0: seq<nat>, closed: bool, cancelled: bool,
                       w: nat, outcome: Outcome<T>, ghost s: State<T>)
    returns (workers: seq<Worker>, queue: seq<nat>, ghost m: Move<T>)
    requires s.workers == workers0 && s.queue == queue0 && s.closed == closed && s.cancelled == cancelled
    requires s.slots == slots[..]
    requires CanStep(workers0, queue0, closed, slots.Length, w)
    modifies slots
    ensures Enabled(s, m) && m == WorkerMove(s, w, outcome) && |workers| == |workers0|
    ensures Step(s, m) == s.(workers := workers, queue := queue, slots := slots[..], calls := Step(s, m).calls,
                             returned := Step(s, m).returned)
  {
    m := WorkerMove(s, w, outcome);
    workers, queue := workers0, queue0;
    match workers0[w] {
      case Idle =>
        if queue != [] {
          workers := workers[w := Holding(queue[0])];
          queue := queue[1..];
        } else {
          workers := workers[w := Exited];
        }
      case Holding(_) => workers := CheckContext(slots, workers, w, cancelled);
      case Calling(_) => workers := FillSlot(slots, workers, w, outcome);
    }
  }

  predicate CanStep(workers: seq<Worker>, queue: seq<nat>, closed: bool, n: nat, w: nat) {
    && w < |workers| && workers[w] != Exited
    && (workers[w] == Idle ==> queue != [] || closed)
    && (workers[w] != Idle ==> workers[w].idx < n)
  }

  function WorkerMove<T>(s: State<T>, w: nat, outcome: Outcome<T>): Move<T>
    requires w < |s.workers|
  {
    match s.workers[w]
    case Holding(_) => Check(w)
    case Calling(_) => Return(w, outcome)
    case _ => if s.queue != [] then Take(w) else Exit(w)
  }

  lemma CancelStep<T>(s: State<T>)
    ensures Enabled(s, Cancel) == !s.cancelled
    ensures !s.cancelled ==> Step(s, Cancel) == s.(cancelled := true)
  {
  }

  lemma NextInRange<T>(s: State<T>)
    requires Inv(s)
    ensures s.next <= |s.slots|
  {
  }

  /** The worker's call is recorded with the outcome it ended in, and no other. */
  lemma WorkerAnswers<T>(s: State<T>, w: nat, t: nat, outcomes: (nat, nat) -> Outcome<T>, outcome: Outcome<T>)
    requires w < |s.workers| && Enabled(s, WorkerMove(s, w, outcome)) && Answered(s.returned, outcomes)
    requires s.workers[w].Calling? ==> outcome == outcomes(t, s.workers[w].idx)
    ensures Answered(Step(s, WorkerMove(s, w, outcome)).returned, outcomes)
  {
    hide Answered;
    if s.workers[w].Calling? { OneMoreAnswer(s.returned, outcomes, t, s.workers[w].idx); }
  }

  /** Somebody can move: the feeder, or a worker. */
  lemma CanMove<T>(s: State<T>)
    requires Inv(s) && !(s.closed && AllExited(s.workers))
    ensures
      || CanFeed(s.next, s.closed, s.queue, |s.slots|, |s.workers|, s.cancelled)
      || (exists w: nat :: w < |s.workers| && CanStep(s.workers, s.queue, s.closed, |s.slots|, w))
  {
    var m := NoDeadlock(s);
    if !m.Feed? && !m.Close? { assert CanStep(s.workers, s.queue, s.closed, |s.slots|, m.w); }
  }

  /** `FanoutRun`.  The loop is the schedule, any of the enabled moves at every point; the function's
      outcomes and the moment of cancellation are arbitrary.  That some guard always holds is the
      absence of deadlock, the `decreases` clause termination.  `slots` is the array the feeder and
      the workers share. */
  method FanoutRun<T(0)>(n: nat, concurrency0: int, outcomes: (nat, nat) -> Outcome<T>)
    returns (results: seq<(nat, T)>, errs: seq<(nat, Cause)>, ghost last: State<T>)
    ensures |last.slots| == n && Inv(last) && Finished(last)
    ensures |last.workers| == if concurrency0 < 1 then 1 else concurrency0
    ensures Answered(last.returned, outcomes)
    ensures results == Results(last.slots) && errs == Errors(last.slots)
    ensures |results| + |errs| == n && ReportsAll(last, results, errs)
  {
    hide Inv, Left, ReportsAll, AllExited, CancelledFrom, Results, Errors, Answered, CanStep, CanFeed, Step, Enabled,
         WorkerMove;
    var concurrency := if concurrency0 < 1 then 1 else concurrency0;
    StartInv<T>(n, concurrency);
    ghost var s: State<T> := Start(n, concurrency);
    var next, closed, cancelled := 0, false, false;
    var queue: seq<nat> := [];
    var workers: seq<Worker> := seq(concurrency, _ => Idle);
    var slots := new Slot<T>[n](_ => EmptySlot());
    assert slots[..] == s.slots;
    NothingAnswered(outcomes);
    var tick := 0;
    while !(closed && AllExited(workers))
      invariant Inv(s) && |s.slots| == n && |workers| == concurrency
      invariant s.next == next && s.closed == closed && s.queue == queue && s.workers == workers
      invariant s.slots == slots[..] && s.cancelled == cancelled
      invariant Answered(s.returned, outcomes)
      decreases Left(s)
    {
      CanMove(s);
      NextInRange(s);
      tick := tick + 1;
      if {
        case !cancelled =>
          cancelled := true;
          CancelStep(s);
          s := Moved(s, Cancel);
        case CanFeed(next, closed, queue, n, concurrency, cancelled) =>
          ghost var m;
          next, closed, queue, m := FeederStep(slots, next, closed, queue, concurrency, cancelled, s);
          s := Moved(s, m);
        case w: nat :| w < |workers| && CanStep(workers, queue, closed, n, w) =>
          var outcome := OutcomeOf(outcomes, tick, workers[w]);
          ghost var m;
          ghost var before := s;
          workers, queue, m := WorkerStep(slots, workers, queue, closed, cancelled, w, outcome, before);
          WorkerAnswers(before, w, tick, outcomes, outcome);
          s := Moved(before, m);
      }
    }
    last := s;
    results, errs := Collect(slots);
    NothingMissing(s);
    FinishedIsReported(s);
  }

  /** What the call of a worker ends in, if it is calling. */
  function OutcomeOf<T>(outcomes: (nat, nat) -> Outcome<T>, t: nat, worker: Worker): Outcome<T> {
    if worker.Calling? then outcomes(t, worker.idx) else Failure
  }

  lemma NothingMissing<T>(s: State<T>)
    requires Inv(s) && Finished(s)
    ensures |Results(s.slots)| + |Errors(s.slots)| == |s.slots|
  {
    FinishedIsComplete(s);
    ResultsPartition(s.slots);
  }

  /** The collection loop at the end of `FanoutRun`. */
  method Collect<T>(slots: array<Slot<T>>) returns (results: seq<(nat, T)>, errs: seq<(nat, Cause)>)
    ensures results == Results(slots[..]) && errs == Errors(slots[..])
  {
    results, errs := [], [];
    for i := 0 to slots.Length
      invariant results == Results(slots[..i]) && errs == Errors(slots[..i])
    {
      assert slots[..i + 1][..i] == slots[..i];
      if slots[i].result.Some? {
        results := results + [(i, slots[i].result.value)];
      }
      if slots[i].err.Some? {
        errs := errs + [(i, slots[i].err.value)];
      }
    }
    assert slots[..slots.Length] == slots[..];
  }
}
