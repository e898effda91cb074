/** The derivation pass over the journal (internal/learn/derive.go `DeriveFlagCorrections`) and its
    main property: whatever the interleaving of appends, torn appends, retention, passes and store
    errors, the passes record the corrections that a single pass over everything finds, in order --
    except those of failures a pass gave up too early, and exactly when that happens. */
module Derivation {
  import opened Wrappers
  import opened Journal
  import opened FlagCorrections
  import opened RecallSeed

  // ----- lists of entries: judging a batch and judging the whole log -----

  /** Corrections up to the recall family they are filed under. */
  function Unfiled(cs: seq<Correction>): seq<Correction> {
    seq(|cs|, i requires 0 <= i < |cs| => cs[i].(queryFamily := ""))
  }

  lemma UnfiledConcat(x: seq<Correction>, y: seq<Correction>)
    ensures Unfiled(x + y) == Unfiled(x) + Unfiled(y)
  {
  }

  lemma {:induction false} NextInPrefix(x: seq<Entry>, y: seq<Entry>, e: Entry, j: nat)
    requires j <= |x|
    ensures NextFrom(x, e, j) < |x| ==> NextFrom(x + y, e, j) == NextFrom(x, e, j)
    ensures NextFrom(x, e, j) == |x| ==> NextFrom(x + y, e, j) >= |x|
    decreases |x| - j
  {
    if j < |x| { NextInPrefix(x, y, e, j + 1); }
  }

  lemma {:induction false} NextInSuffix(x: seq<Entry>, y: seq<Entry>, e: Entry, j: nat)
    requires j <= |y|
    ensures NextFrom(x + y, e, |x| + j) == |x| + NextFrom(y, e, j)
    decreases |y| - j
  {
    if j < |y| { NextInSuffix(x, y, e, j + 1); }
  }

  /** Later entries never change what was decided about a failure; only an undecided one is still
      open, to the next invocation among them. */
  lemma JudgeInPrefix(x: seq<Entry>, y: seq<Entry>, i: nat, flagExists: FlagProbe)
    requires i < |x|
    ensures Judge(x, i, flagExists) != Undecided ==> Judge(x + y, i, flagExists) == Judge(x, i, flagExists)
    ensures Judge(x, i, flagExists) == Undecided ==>
              && x[i].ts.Some?
              && var j := NextFrom(x + y, x[i], i + 1);
                 && j >= |x|
                 && Judge(x + y, i, flagExists) == if j == |x + y| then Undecided else Match(x[i], (x + y)[j])
  {
    hide Corrected, Example, NextFrom, NormalizeFlag;
    NextInPrefix(x, y, x[i], i + 1);
  }

  lemma JudgeInSuffix(x: seq<Entry>, y: seq<Entry>, i: nat, flagExists: FlagProbe)
    requires i < |y|
    ensures Judge(x + y, |x| + i, flagExists) == Judge(y, i, flagExists)
  {
    hide NextFrom, Match;
    NextInSuffix(x, y, y[i], i + 1);
  }

  // ----- when later entries can still change the corrections -----

  ghost predicate StampedFrom(y: seq<Entry>, from: int) {
    forall k :: 0 <= k < |y| && y[k].ts.Some? ==> y[k].ts.value >= from
  }

  /** A retry stamped at `from` or later could still correct the undecided failure. */
  ghost predicate IsOpen(x: seq<Entry>, i: nat, from: int, flagExists: FlagProbe)
    requires i < |x|
  {
    Judge(x, i, flagExists) == Undecided && Correctable(x[i]) && x[i].ts.Some? && from <= x[i].ts.value + WINDOW
  }

  /** A failure that is not open has no correction to come. */
  lemma ClosedStaysUncorrected(x: seq<Entry>, y: seq<Entry>, i: nat, from: int, flagExists: FlagProbe)
    requires i < |x| && StampedFrom(y, from) && !IsOpen(x, i, from, flagExists)
    ensures CorrectionAt(x + y, map[], i, flagExists) == CorrectionAt(x, map[], i, flagExists)
  {
    hide Judge, Families, Correctable, Corrected, Example, NextFrom, NormalizeFlag;
    assert (x + y)[..i + 1] == x[..i + 1];
    JudgeInPrefix(x, y, i, flagExists);
    if Judge(x, i, flagExists) == Undecided {
      var j := NextFrom(x + y, x[i], i + 1);
      if j < |x + y| {
        var retry := (x + y)[j];
        assert retry == y[j - |x|];
        CorrectableExactlyWhen(x[i]);
        assert Match(x[i], retry).Paired? ==> ShowsCorrection(x[i], retry);
      }
    }
  }

  /** An open failure is corrected by the right retry. */
  lemma OpenCanBeCorrected(x: seq<Entry>, i: nat, from: int, flagExists: FlagProbe) returns (retry: Entry)
    requires i < |x| && IsOpen(x, i, from, flagExists)
    ensures StampedFrom([retry], from) && retry.ts.Some? && retry.ts.value in {from, x[i].ts.value}
    ensures Judge(x + [retry], i, flagExists).Paired?
  {
    hide Judge, Correctable, Corrected, Example, NextFrom, NormalizeFlag;
    retry := CorrectingRetry(x[i], if from >= x[i].ts.value then from else x[i].ts.value);
    JudgeInPrefix(x, [retry], i, flagExists);
    assert (x + [retry])[|x|] == retry && SameInvocation(retry, x[i]);
    NextAtLast(x, retry, x[i], i + 1);
  }

  lemma {:induction false} NextAtLast(x: seq<Entry>, last: Entry, e: Entry, j: nat)
    requires j <= |x| && SameInvocation(last, e)
    ensures NextFrom(x + [last], e, j) <= |x|
    decreases |x| - j
  {
    if j < |x| { NextAtLast(x, last, e, j + 1); }
  }

  lemma {:induction false} CorrectionsStay(x: seq<Entry>, y: seq<Entry>, hi: nat, from: int, flagExists: FlagProbe)
    requires hi <= |x| && StampedFrom(y, from)
    requires forall i :: 0 <= i < hi ==> !IsOpen(x, i, from, flagExists)
    ensures Corrections(x + y, map[], 0, hi, flagExists) == Corrections(x, map[], 0, hi, flagExists)
  {
    hide CorrectionAt, IsOpen;
    if hi > 0 {
      CorrectionsStay(x, y, hi - 1, from, flagExists);
      ClosedStaysUncorrected(x, y, hi - 1, from, flagExists);
    }
  }

  lemma CorrectionGrows(x: seq<Entry>, y: seq<Entry>, i: nat, flagExists: FlagProbe)
    requires i < |x|
    ensures |CorrectionAt(x, map[], i, flagExists)| == (if Judge(x, i, flagExists).Paired? then 1 else 0)
    ensures |CorrectionAt(x + y, map[], i, flagExists)| == (if Judge(x + y, i, flagExists).Paired? then 1 else 0)
    ensures |CorrectionAt(x, map[], i, flagExists)| <= |CorrectionAt(x + y, map[], i, flagExists)|
  {
    hide Judge, Families;
    JudgeInPrefix(x, y, i, flagExists);
  }

  /** Later entries never take a correction away, and one more failure paired is one more correction. */
  lemma {:induction false} CorrectionsGrow(x: seq<Entry>, y: seq<Entry>, hi: nat, flagExists: FlagProbe)
    requires hi <= |x|
    ensures |Corrections(x, map[], 0, hi, flagExists)| <= |Corrections(x + y, map[], 0, hi, flagExists)|
    ensures (exists i :: 0 <= i < hi && Judge(x, i, flagExists) == Undecided && Judge(x + y, i, flagExists).Paired?) ==>
              |Corrections(x, map[], 0, hi, flagExists)| < |Corrections(x + y, map[], 0, hi, flagExists)|
  {
    hide CorrectionAt, Judge;
    if hi > 0 {
      CorrectionsGrow(x, y, hi - 1, flagExists);
      CorrectionGrows(x, y, hi - 1, flagExists);
    }
  }

  /** Exactly the open failures are at stake: entries stamped at `from` or later leave the corrections
      of `x` as they are, whatever they are, if and only if `x` holds no open failure. */
  lemma CorrectionsAreFinal(x: seq<Entry>, from: int, flagExists: FlagProbe)
    ensures (forall y: seq<Entry> :: StampedFrom(y, from) ==>
               Corrections(x + y, map[], 0, |x|, flagExists) == Corrections(x, map[], 0, |x|, flagExists))
            <==> (forall i :: 0 <= i < |x| ==> !IsOpen(x, i, from, flagExists))
  {
    hide Corrections, IsOpen, Judge;
    if forall i :: 0 <= i < |x| ==> !IsOpen(x, i, from, flagExists) {
      forall y: seq<Entry> | StampedFrom(y, from)
        ensures Corrections(x + y, map[], 0, |x|, flagExists) == Corrections(x, map[], 0, |x|, flagExists)
      {
        CorrectionsStay(x, y, |x|, from, flagExists);
      }
    } else {
      var i :| 0 <= i < |x| && IsOpen(x, i, from, flagExists);
      var retry := OpenCanBeCorrected(x, i, from, flagExists);
      OpenIsUndecided(x, i, from, flagExists);
      CorrectionsGrow(x, [retry], |x|, flagExists);
    }
  }

  lemma OpenIsUndecided(x: seq<Entry>, i: nat, from: int, flagExists: FlagProbe)
    requires i < |x| && IsOpen(x, i, from, flagExists)
    ensures Judge(x, i, flagExists) == Undecided
  {
  }

  const SECOND: int := 1_000_000_000

  /** The stamp an entry written at `t` carries: RFC 3339 without a fraction. */
  function Stamp(t: int): int {
    t - t % SECOND
  }

  ghost predicate WholeSeconds(x: seq<Entry>) {
    forall k :: 0 <= k < |x| && x[k].ts.Some? ==> x[k].ts.value % SECOND == 0
  }

  /** The failure's pairing window closes in the very second in which the pass runs. */
  ghost predicate AtEdge(e: Entry, now: int) {
    Correctable(e) && e.ts.Some? && e.ts.value + WINDOW == Stamp(now)
  }

  lemma StampOrder(t: int, now: int)
    ensures Stamp(now) <= now < Stamp(now) + SECOND && Stamp(now) % SECOND == 0
    ensures t >= now ==> Stamp(t) >= Stamp(now)
    ensures t % SECOND == 0 && t < now ==> t <= Stamp(now)
  {
    if t >= now { assert t / SECOND >= now / SECOND; }
    if t % SECOND == 0 && t < now { assert t / SECOND <= now / SECOND; }
  }

  /** Among the failures a pass gives up, the open ones are those at the edge. */
  lemma OpenIsAtEdge(x: seq<Entry>, i: nat, now: int, flagExists: FlagProbe)
    requires i < |x| && WholeSeconds(x) && !IsPending(x, i, now, flagExists)
    ensures IsOpen(x, i, Stamp(now), flagExists) <==> Judge(x, i, flagExists) == Undecided && AtEdge(x[i], now)
  {
    hide Judge, Correctable, Stamp;
    UndecidedHasTime(x, i, flagExists);
    if Judge(x, i, flagExists) == Undecided {
      assert WINDOW == 900 * SECOND;
      WholeSum(x[i].ts.value);
      StampOrder(x[i].ts.value + WINDOW, now);
    }
  }

  lemma WholeSum(t: int)
    requires t % SECOND == 0
    ensures (t + WINDOW) % SECOND == 0
  {
    assert WINDOW == 900 * SECOND;
  }

  lemma UndecidedHasTime(x: seq<Entry>, i: nat, flagExists: FlagProbe)
    requires i < |x|
    ensures Judge(x, i, flagExists) == Undecided ==> x[i].ts.Some?
  {
  }

  /** Batching is harmless at a pass, whatever is written in its second or later, exactly unless an
      undecided failure is at the edge. */
  lemma BatchingIsHarmlessExactlyWhen(x: seq<Entry>, now: int, flagExists: FlagProbe)
    requires WholeSeconds(x) && forall i :: 0 <= i < |x| ==> !IsPending(x, i, now, flagExists)
    ensures (forall y: seq<Entry> :: StampedFrom(y, Stamp(now)) ==>
               Corrections(x + y, map[], 0, |x|, flagExists) == Corrections(x, map[], 0, |x|, flagExists))
            <==> (forall i :: 0 <= i < |x| && Judge(x, i, flagExists) == Undecided ==> !AtEdge(x[i], now))
  {
    hide Corrections, Judge, IsOpen, AtEdge, Stamp, WholeSeconds, IsPending, StampedFrom;
    CorrectionsAreFinal(x, Stamp(now), flagExists);
    forall i | 0 <= i < |x|
      ensures IsOpen(x, i, Stamp(now), flagExists) <==> Judge(x, i, flagExists) == Undecided && AtEdge(x[i], now)
    {
      OpenIsAtEdge(x, i, now, flagExists);
    }
  }

  /** `--limt` with the suggestion `--limit`, and a retry with `--limit`. */
  lemma LimitIsCorrected(failed: Entry, retry: Entry)
    requires failed.failedFlag == "--limt" && failed.suggestedFlag == "--limit" && "limit" in retry.shape
    ensures NormalizeFlag(failed.failedFlag) == "--limt"
    ensures Corrected(failed, retry) == "--limit"
  {
    DoubleDashForm("limt");
    DoubleDashForm("limit");
    assert "--" + "limt" == "--limt" && "--" + "limit" == "--limit";
    hide NormalizeFlag;
  }

  /** A failure and the retry that corrects it right behind. */
  lemma RetryRightBehind(failed: Entry, retry: Entry, flagExists: FlagProbe)
    requires LimitFailed(failed) && LimitRetried(failed, retry) && !flagExists(FlagName(failed.failedFlag))
    ensures Judge([failed], 0, flagExists) == Undecided
    ensures Judge([failed, retry], 0, flagExists) == Paired("--limit", Example(retry))
    ensures Judge([failed, retry], 1, flagExists) == Ignored
  {
    LimitIsCorrected(failed, retry);
    hide NormalizeFlag, FlagName, Corrected, Example;
    var pair := [failed, retry];
    assert SameInvocation(pair[1], failed) && NextFrom(pair, failed, 1) == 1;
    assert NextFrom([failed], failed, 1) == 1;
    hide NextFrom;
  }

  predicate LimitFailed(e: Entry) {
    e.exitCode != 0 && e.failedFlag == "--limt" && e.suggestedFlag == "--limit" && e.ts.Some?
  }

  predicate LimitRetried(failed: Entry, e: Entry) {
    && SameInvocation(e, failed) && e.exitCode == 0 && "limit" in e.shape
    && failed.ts.Some? && e.ts.Some? && 0 <= e.ts.value - failed.ts.value <= WINDOW
  }

  /** Such a failure: a retry written right after the pass is stamped with the second the pass falls
      in, so one pass over the whole log pairs a failure the earlier pass has already given up. */
  lemma TruncatedStampLosesACorrection() returns (x: seq<Entry>, retry: Entry, now: int, flagExists: FlagProbe)
    ensures forall i :: 0 <= i < |x| ==> !IsPending(x, i, now, flagExists)
    ensures retry.ts == Some(Stamp(now))
    ensures Corrections(x, map[], 0, |x|, flagExists) == []
    ensures Corrections(x + [retry], map[], 0, |x|, flagExists) != []
  {
    hide Judge, CorrectionAt, Corrections, Example, FlagName, NextFrom;
    var failed := Entry(Some(0), "s", ["list"], map[], 1, "--limt", "--limit", "");
    retry := Entry(Some(WINDOW), "s", ["list"], map["limit" := "int"], 0, "", "", "");
    flagExists := (name: string) => false;
    now := WINDOW + 1;
    x := [failed];
    var log := x + [retry];
    assert log == [failed, retry];
    RetryRightBehind(failed, retry, flagExists);
    CorrectionGrows(x, [retry], 0, flagExists);
    OneCorrection(x, flagExists);
    OneCorrection(log, flagExists);
  }

  lemma OneCorrection(log: seq<Entry>, flagExists: FlagProbe)
    requires log != []
    ensures Corrections(log, map[], 0, 1, flagExists) == CorrectionAt(log, map[], 0, flagExists)
  {
    hide CorrectionAt;
    assert Corrections(log, map[], 0, 0, flagExists) == [];
  }

  // ----- all corrections but those of failures given up -----

  /** The corrections of the failures at positions `lo` to `hi`, without those in `skip`. */
  ghost function CorrectionsBut(log: seq<Entry>, lo: nat, hi: nat, skip: set<nat>,
                                flagExists: FlagProbe): seq<Correction>
    requires lo <= hi <= |log|
  {
    if lo == hi then []
    else CorrectionsBut(log, lo, hi - 1, skip, flagExists)
         + if hi - 1 in skip then [] else CorrectionAt(log, map[], hi - 1, flagExists)
  }

  lemma OnlyPairsAreCorrected(log: seq<Entry>, i: nat, flagExists: FlagProbe)
    requires i < |log|
    ensures |CorrectionAt(log, map[], i, flagExists)| == if Judge(log, i, flagExists).Paired? then 1 else 0
  {
    hide Judge, Families, NormalizeFlag, Strings.Join;
  }

  /** Skipping failures without a correction makes no difference. */
  lemma {:induction false} SkippingNothing(log: seq<Entry>, lo: nat, hi: nat, skip: set<nat>, skip': set<nat>,
                                           flagExists: FlagProbe)
    requires lo <= hi <= |log|
    requires forall i :: lo <= i < hi && (i in skip) != (i in skip') ==> !Judge(log, i, flagExists).Paired?
    ensures CorrectionsBut(log, lo, hi, skip, flagExists) == CorrectionsBut(log, lo, hi, skip', flagExists)
  {
    hide Judge, CorrectionAt;
    if hi > lo {
      SkippingNothing(log, lo, hi - 1, skip, skip', flagExists);
      OnlyPairsAreCorrected(log, hi - 1, flagExists);
    }
  }

  lemma {:induction false} SkippingNone(log: seq<Entry>, lo: nat, hi: nat, flagExists: FlagProbe)
    requires lo <= hi <= |log|
    ensures CorrectionsBut(log, lo, hi, {}, flagExists) == Corrections(log, map[], lo, hi, flagExists)
  {
    hide CorrectionAt;
    if hi > lo { SkippingNone(log, lo, hi - 1, flagExists); }
  }

  lemma {:induction false} ButSplit(log: seq<Entry>, mid: nat, hi: nat, skip: set<nat>, flagExists: FlagProbe)
    requires mid <= hi <= |log|
    ensures CorrectionsBut(log, 0, hi, skip, flagExists) ==
            CorrectionsBut(log, 0, mid, skip, flagExists) + CorrectionsBut(log, mid, hi, skip, flagExists)
    decreases hi
  {
    hide CorrectionAt;
    if hi > mid { ButSplit(log, mid, hi - 1, skip, flagExists); }
  }

  /** Skipping loses something exactly when a skipped failure has a correction. */
  lemma {:induction false} SkippingLoses(log: seq<Entry>, hi: nat, skip: set<nat>, flagExists: FlagProbe)
    requires hi <= |log|
    ensures |CorrectionsBut(log, 0, hi, skip, flagExists)| <= |Corrections(log, map[], 0, hi, flagExists)|
    ensures CorrectionsBut(log, 0, hi, skip, flagExists) == Corrections(log, map[], 0, hi, flagExists) ||
            |CorrectionsBut(log, 0, hi, skip, flagExists)| < |Corrections(log, map[], 0, hi, flagExists)|
    ensures |CorrectionsBut(log, 0, hi, skip, flagExists)| == |Corrections(log, map[], 0, hi, flagExists)| <==>
            forall i :: 0 <= i < hi && i in skip ==> !Judge(log, i, flagExists).Paired?
  {
    hide Judge, CorrectionAt;
    if hi > 0 {
      SkippingLoses(log, hi - 1, skip, flagExists);
      OnlyPairsAreCorrected(log, hi - 1, flagExists);
    }
  }

  /** Every failure of `x` that is still undecided is among those given up. */
  ghost predicate Accounted(x: seq<Entry>, skip: set<nat>, flagExists: FlagProbe) {
    forall i :: 0 <= i < |x| && Judge(x, i, flagExists) == Undecided ==> i in skip
  }

  lemma {:induction false} CorrectionsInPrefix(x: seq<Entry>, y: seq<Entry>, hi: nat, skip: set<nat>,
                                               flagExists: FlagProbe)
    requires hi <= |x| && Accounted(x, skip, flagExists)
    ensures CorrectionsBut(x + y, 0, hi, skip, flagExists) == CorrectionsBut(x, 0, hi, skip, flagExists)
  {
    hide Judge, Families;
    if hi > 0 {
      CorrectionsInPrefix(x, y, hi - 1, skip, flagExists);
      JudgeInPrefix(x, y, hi - 1, flagExists);
      assert (x + y)[..hi] == x[..hi];
    }
  }

  /** Both seeds name the same family for a session. */
  predicate SameSeed(seed: map<string, string>, full: map<string, string>, session: string) {
    Lookup(seed, session) == Lookup(full, session) && (session in seed <==> session in full)
  }

  lemma CorrectionInSuffix(x: seq<Entry>, y: seq<Entry>, seed: map<string, string>, i: nat, flagExists: FlagProbe)
    requires i < |y|
    ensures Unfiled(CorrectionAt(x + y, map[], |x| + i, flagExists)) == Unfiled(CorrectionAt(y, seed, i, flagExists))
    ensures SameSeed(seed, Families(map[], x), y[i].session) ==>
              CorrectionAt(x + y, map[], |x| + i, flagExists) == CorrectionAt(y, seed, i, flagExists)
  {
    hide Judge, Families, Lookup, File, Unfiled;
    JudgeInSuffix(x, y, i, flagExists);
    FilingIsAllThatDiffers(y[i], Judge(y, i, flagExists), Lookup(Families(map[], (x + y)[..|x| + i + 1]), y[i].session),
                           Lookup(Families(seed, y[..i + 1]), y[i].session));
    assert (x + y)[..|x| + i + 1] == x + y[..i + 1];
    if SameSeed(seed, Families(map[], x), y[i].session) { SameFamily(x, y[..i + 1], seed, y[i].session); }
  }

  lemma FilingIsAllThatDiffers(e: Entry, verdict: Verdict, f: string, g: string)
    ensures Unfiled(File(e, verdict, f)) == Unfiled(File(e, verdict, g))
  {
    hide NormalizeFlag, Strings.Join;
  }

  lemma SameFamily(x: seq<Entry>, y: seq<Entry>, seed: map<string, string>, session: string)
    requires SameSeed(seed, Families(map[], x), session)
    ensures Lookup(Families(map[], x + y), session) == Lookup(Families(seed, y), session)
  {
    hide Families;
    FamiliesConcat(map[], x, y);
    FamiliesOver(seed, y);
  }

  lemma FamiliesOver(seed: map<string, string>, y: seq<Entry>)
    ensures Families(seed, y) == seed + Families(map[], y)
  {
    FamiliesConcat(seed, [], y);
    assert [] + y == y && Families(seed, []) == seed;
  }

  ghost predicate SameSeeds(seed: map<string, string>, x: seq<Entry>, y: seq<Entry>) {
    forall e :: e in y ==> SameSeed(seed, Families(map[], x), e.session)
  }

  lemma {:induction false} CorrectionsInSuffix(x: seq<Entry>, y: seq<Entry>, seed: map<string, string>, hi: nat,
                                               flagExists: FlagProbe)
    requires hi <= |y|
    ensures Unfiled(Corrections(x + y, map[], |x|, |x| + hi, flagExists)) ==
            Unfiled(Corrections(y, seed, 0, hi, flagExists))
    ensures SameSeeds(seed, x, y) ==>
              Corrections(x + y, map[], |x|, |x| + hi, flagExists) == Corrections(y, seed, 0, hi, flagExists)
  {
    hide SameSeed, Families, CorrectionAt;
    if hi > 0 {
      CorrectionsInSuffix(x, y, seed, hi - 1, flagExists);
      CorrectionInSuffix(x, y, seed, hi - 1, flagExists);
      UnfiledConcat(Corrections(x + y, map[], |x|, |x| + hi - 1, flagExists),
                    CorrectionAt(x + y, map[], |x| + hi - 1, flagExists));
      UnfiledConcat(Corrections(y, seed, 0, hi - 1, flagExists), CorrectionAt(y, seed, hi - 1, flagExists));
      assert y[hi - 1] in y;
    }
  }

  /** The failures of the batch `y` that a pass leaves undecided, at their positions behind `base`. */
  ghost function Undecideds(y: seq<Entry>, base: nat, flagExists: FlagProbe): set<nat> {
    set k: nat | k < |y| && Judge(y, k, flagExists) == Undecided :: base + k
  }

  /** Consuming the batch `y` after `x`: the corrections of `y` on its own complete those of `x`. */
  lemma BatchCompletes(x: seq<Entry>, y: seq<Entry>, seed: map<string, string>, skip: set<nat>, flagExists: FlagProbe)
    requires Accounted(x, skip, flagExists) && forall i :: i in skip ==> i < |x|
    ensures var all := CorrectionsBut(x + y, 0, |x + y|, skip + Undecideds(y, |x|, flagExists), flagExists);
            && Unfiled(all) == Unfiled(CorrectionsBut(x, 0, |x|, skip, flagExists))
               + Unfiled(Corrections(y, seed, 0, |y|, flagExists))
            && (SameSeeds(seed, x, y) ==>
                  all == CorrectionsBut(x, 0, |x|, skip, flagExists) + Corrections(y, seed, 0, |y|, flagExists))
  {
    hide Accounted, SameSeeds, Corrections, CorrectionsBut, Unfiled, Judge;
    var log, skip' := x + y, skip + Undecideds(y, |x|, flagExists);
    forall i: nat | i < |log| && (i in skip') != (i in skip)
      ensures Judge(log, i, flagExists) == Undecided
    {
      JudgeInSuffix(x, y, i - |x|, flagExists);
    }
    SkippingNothing(log, 0, |log|, skip', skip, flagExists);
    ButSplit(log, |x|, |log|, skip, flagExists);
    CorrectionsInPrefix(x, y, |x|, skip, flagExists);
    SkippingNothing(log, |x|, |log|, skip, {}, flagExists);
    SkippingNone(log, |x|, |log|, flagExists);
    CorrectionsInSuffix(x, y, seed, |y|, flagExists);
    UnfiledConcat(CorrectionsBut(log, 0, |x|, skip, flagExists), CorrectionsBut(log, |x|, |log|, skip, flagExists));
  }

  /** A pass accounts for every failure it leaves undecided. */
  lemma BatchGivesUp(x: seq<Entry>, y: seq<Entry>, skip: set<nat>, flagExists: FlagProbe)
    requires Accounted(x, skip, flagExists)
    ensures Accounted(x + y, skip + Undecideds(y, |x|, flagExists), flagExists)
  {
    hide Judge;
    forall i | 0 <= i < |x + y| && Judge(x + y, i, flagExists) == Undecided
      ensures i in skip + Undecideds(y, |x|, flagExists)
    {
      if i < |x| { JudgeInPrefix(x, y, i, flagExists); } else { JudgeInSuffix(x, y, i - |x|, flagExists); }
    }
  }

  // ----- replays: what was recorded holds what should have been recorded -----

  /** `a` results from leaving things out of `b`. */
  predicate Subsequence<T(==)>(a: seq<T>, b: seq<T>) {
    || a == []
    || (b != [] &&
        (Subsequence(a, b[..|b| - 1]) || (a[|a| - 1] == b[|b| - 1] && Subsequence(a[..|a| - 1], b[..|b| - 1]))))
  }

  ghost predicate Ascends(at: seq<nat>) {
    forall i, j :: 0 <= i < j < |at| ==> at[i] < at[j]
  }

  /** `at` says where the elements of `a` stand in `b`, in order. */
  ghost predicate Picks<T>(a: seq<T>, b: seq<T>, at: seq<nat>) {
    |at| == |a| && Ascends(at) && forall i :: 0 <= i < |a| ==> at[i] < |b| && b[at[i]] == a[i]
  }

  lemma {:induction false} SubsequencePicks<T>(a: seq<T>, b: seq<T>) returns (at: seq<nat>)
    requires Subsequence(a, b)
    ensures Picks(a, b, at)
    decreases |b|
  {
    if a == [] {
      at := [];
    } else if Subsequence(a, b[..|b| - 1]) {
      at := SubsequencePicks(a, b[..|b| - 1]);
    } else {
      at := SubsequencePicks(a[..|a| - 1], b[..|b| - 1]);
      at := at + [|b| - 1];
    }
  }

  lemma {:induction false} PicksIsSubsequence<T>(a: seq<T>, b: seq<T>, at: seq<nat>)
    requires Picks(a, b, at)
    ensures Subsequence(a, b)
    decreases |b|
  {
    if a != [] {
      var n := |a| - 1;
      assert at[n] < |b|;
      if at[n] == |b| - 1 {
        PicksIsSubsequence(a[..n], b[..|b| - 1], at[..n]);
      } else {
        PicksIsSubsequence(a, b[..|b| - 1], at);
      }
    }
  }

  /** A subsequence is what ascending positions pick out. */
  lemma SubsequenceExactlyWhen<T(!new)>(a: seq<T>, b: seq<T>)
    ensures Subsequence(a, b) <==> exists at: seq<nat> :: Picks(a, b, at)
  {
    if Subsequence(a, b) { var at := SubsequencePicks(a, b); }
    if at: seq<nat> :| Picks(a, b, at) { PicksIsSubsequence(a, b, at); }
  }

  lemma {:induction false} SubsequenceOfMore<T>(a: seq<T>, b: seq<T>, more: seq<T>)
    requires Subsequence(a, b)
    ensures Subsequence(a, b + more)
    decreases |more|
  {
    if more == [] {
      assert b + more == b;
    } else {
      SubsequenceOfMore(a, b, more[..|more| - 1]);
      assert (b + more)[..|b + more| - 1] == b + more[..|more| - 1];
    }
  }

  lemma {:induction false} SubsequenceConcat<T>(a: seq<T>, b: seq<T>, c: seq<T>)
    requires Subsequence(a, b)
    ensures Subsequence(a + c, b + c)
    decreases |c|
  {
    if c == [] {
      assert a + c == a && b + c == b;
    } else {
      SubsequenceConcat(a, b, c[..|c| - 1]);
      assert (a + c)[..|a + c| - 1] == a + c[..|c| - 1];
      assert (b + c)[..|b + c| - 1] == b + c[..|c| - 1];
    }
  }

  // ----- whole runs -----

  /** A failure a pass at `at` gave up; the log then was `upto` entries long. */
  datatype Abandoned = Abandoned(at: int, upto: nat)

  /** `w` is the journal with the stored offset, `emitted` every correction recorded so far, `clean`
      says that no store error has occurred, `filed` that every committed pass started from the families
      of everything consumed, and `abandoned` holds the failures given up, by their position in what
      has been consumed. */
  datatype State = State(
    w: World<Entry>, emitted: seq<Correction>, clean: bool, filed: bool, abandoned: map<nat, Abandoned>)

  /** `refused` is the observation of the pass at which the store fails, if any. */
  datatype Step = Log(ev: Event) | Pass(now: int, refused: Option<nat>)

  ghost predicate Bounded(s: State) {
    s.w.gone <= |s.w.hist| == |s.w.got|
  }

  ghost function Unconsumed(parse: Parser, w: World<Entry>): seq<Entry>
    requires w.gone <= |w.hist| == |w.got|
  {
    Unread(parse, Alive(w), w.off)
  }

  /** Only passes read. */
  predicate CanHappen(s: State, step: Step) {
    step.Log? ==> step.ev != Read && Possible(s.w, step.ev)
  }

  ghost function Abandons(y: seq<Entry>, base: nat, now: int, flagExists: FlagProbe): map<nat, Abandoned> {
    map i: nat | i in Undecideds(y, base, flagExists) :: Abandoned(now, base + |y|)
  }

  /** The pass has nothing to do, or holds the batch. */
  ghost predicate Holds(parse: Parser, w: World<Entry>, now: int, flagExists: FlagProbe)
    requires w.gone <= |w.hist| == |w.got|
  {
    var batch := Unconsumed(parse, w);
    || (batch == [] && Advanced(Alive(w), w.off) == w.off)
    || (exists i :: 0 <= i < |batch| && IsPending(batch, i, now, flagExists))
  }

  /** One pass.  After a store error the batch stays unconsumed, with some of it recorded. */
  ghost function Advance(parse: Parser, s: State, now: int, refused: Option<nat>, flagExists: FlagProbe): (s': State)
    requires Bounded(s)
    ensures Bounded(s')
  {
    if Holds(parse, s.w, now, flagExists) then s
    else
      var batch := Unconsumed(parse, s.w);
      var seed := Seed(parse, Alive(s.w), s.w.off, batch);
      var pairs := Corrections(batch, seed, 0, |batch|, flagExists);
      if refused.Some? && refused.value < |pairs| then
        s.(emitted := s.emitted + pairs[..refused.value], clean := false)
      else
        State(ReadStep(parse, s.w), s.emitted + pairs, s.clean, s.filed && SameSeeds(seed, s.w.out, batch),
              s.abandoned + Abandons(batch, |s.w.out|, now, flagExists))
  }

  // ----- the pass -----

  /** What a pass does to the offset, the candidates and the segments. */
  lemma AdvanceEffect(parse: Parser, s: State, now: int, refused: Option<nat>, flagExists: FlagProbe)
    requires Bounded(s)
    ensures var s' := Advance(parse, s, now, refused, flagExists);
            var batch, next := Unconsumed(parse, s.w), Advanced(Alive(s.w), s.w.off);
            var pairs := Corrections(batch, Seed(parse, Alive(s.w), s.w.off, batch), 0, |batch|, flagExists);
            && Alive(s'.w) == Alive(s.w)
            && (if Holds(parse, s.w, now, flagExists) then s' == s
                else if refused.Some? && refused.value < |pairs| then
                  s'.w.off == s.w.off && s'.emitted == s.emitted + pairs[..refused.value]
                else s'.w.off == next && s'.emitted == s.emitted + pairs)
  {
    hide Corrections, Seed, Unread, IsPending, Undecideds;
    if s.w.hist == [] { assert Alive(s.w) == []; }
  }

  /** `DeriveFlagCorrections` against a journal, a stored offset and the quarantined candidates. */
  class Deriver {
    const parse: Parser
    const flagExists: FlagProbe
    const journal: JournalDir<Entry>
    var offset: Offset
    var candidates: seq<Correction>

    constructor (journal: JournalDir<Entry>, flagExists: FlagProbe)
      ensures this.journal == journal && this.flagExists == flagExists && this.parse == journal.parse
      ensures offset == ZERO_OFFSET && candidates == []
    {
      this.journal := journal;
      this.parse := journal.parse;
      this.flagExists := flagExists;
      offset := ZERO_OFFSET;
      candidates := [];
    }

    /** The journal, offset and candidates are those of the run state `s`. */
    ghost predicate Shows(s: State)
      reads this, journal
    {
      Bounded(s) && journal.segs == Alive(s.w) && offset == s.w.off && candidates == s.emitted
    }

    /** One pass.  `accepts(k)` says whether the store takes the k-th observation of this pass; when
        it does not, the offset stays and the batch is replayed by the next pass. */
    method Derive(now: int, accepts: nat -> bool) returns (ok: bool, ghost refused: Option<nat>)
      requires parse == journal.parse
      modifies this`offset, this`candidates
      ensures var batch := Unread(parse, journal.segs, old(offset));
              var next := Advanced(journal.segs, old(offset));
              var pairs := Corrections(batch, Seed(parse, journal.segs, old(offset), batch), 0, |batch|, flagExists);
              if (batch == [] && next == old(offset))
                  || (exists i :: 0 <= i < |batch| && IsPending(batch, i, now, flagExists)) then
                ok && offset == old(offset) && candidates == old(candidates)
              else if ok then
                offset == next && candidates == old(candidates) + pairs
              else
                && refused.Some? && refused.value < |pairs| && !accepts(refused.value)
                && offset == old(offset) && candidates == old(candidates) + pairs[..refused.value]
      ensures ok <==> refused.None?
      ensures (forall k :: accepts(k)) ==> ok
      ensures forall s: State :: old(Shows(s)) ==> Shows(Advance(parse, s, now, refused, flagExists))
    {
      hide Corrections, Seed, Unread, Advanced, IsPending;
      refused := None;
      var entries, next := journal.ReadFrom(offset);
      if |entries| == 0 && next == offset {
        return true, None;
      }
      var recallSeed := SessionRecallFamiliesBeforeBatch(parse, journal.segs, offset, entries);
      var pairs, pending := PairFlagCorrections(entries, recallSeed, now, flagExists);
      if pending {
        return true, None;
      }
      for k := 0 to |pairs|
        invariant candidates == old(candidates) + pairs[..k] && offset == old(offset)
      {
        if !accepts(k) {
          refused := Some(k);
          forall s: State | old(Shows(s))
            ensures Shows(Advance(parse, s, now, refused, flagExists))
          {
            AdvanceEffect(parse, s, now, refused, flagExists);
          }
          return false, refused;
        }
        candidates := candidates + [pairs[k]];
      }
      assert pairs[..|pairs|] == pairs;
      offset := next;
      forall s: State | old(Shows(s))
        ensures Shows(Advance(parse, s, now, refused, flagExists))
      {
        AdvanceEffect(parse, s, now, refused, flagExists);
      }
      return true, None;
    }
  }

  // ----- runs keep one pass -----

  ghost function Perform(parse: Parser, s: State, step: Step, flagExists: FlagProbe): (s': State)
    requires Bounded(s)
    ensures Bounded(s')
  {
    match step
    case Log(ev) => s.(w := Next(parse, s.w, ev))
    case Pass(now, refused) => Advance(parse, s, now, refused, flagExists)
  }

  /** Nothing has been deleted, and no segment the reader has left behind ends in a record that is
      complete but for its newline. */
  ghost predicate Intact(parse: Parser, w: World<Entry>) {
    w.gone == 0
    && forall i :: 0 <= i < w.cur && i < |w.hist| ==> Decode(parse, w.hist[i].data[Complete(w.hist[i].data)..]) == []
  }

  /** Everything consumed names its session, as every appended record does. */
  ghost predicate Named(entries: seq<Entry>) {
    forall e :: e in entries ==> e.session != ""
  }

  /** An abandoned failure had no next invocation in the log then, and its window had passed. */
  ghost predicate GivenUp(out: seq<Entry>, i: nat, a: Abandoned, flagExists: FlagProbe) {
    && i < a.upto <= |out| && Judge(out[..a.upto], i, flagExists) == Undecided
    && out[i].ts.Some? && out[i].ts.value + WINDOW < a.at
  }

  ghost predicate OnePass(parse: Parser, s: State, flagExists: FlagProbe) {
    && Exact(parse, s.w)
    && Accounted(s.w.out, s.abandoned.Keys, flagExists)
    && (forall i :: i in s.abandoned ==> GivenUp(s.w.out, i, s.abandoned[i], flagExists))
    && (Intact(parse, s.w) && Named(s.w.out) ==> s.filed)
    && var kept := CorrectionsBut(s.w.out, 0, |s.w.out|, s.abandoned.Keys, flagExists);
       && Recorded(Unfiled(kept), Unfiled(s.emitted), s.clean)
       && (s.filed ==> Recorded(kept, s.emitted, s.clean))
  }

  /** Everything wanted was recorded in order; without store errors nothing else was. */
  predicate Recorded(wanted: seq<Correction>, emitted: seq<Correction>, clean: bool) {
    Subsequence(wanted, emitted) && (clean ==> wanted == emitted)
  }

  lemma RecordedBatch(wanted: seq<Correction>, emitted: seq<Correction>, clean: bool, pairs: seq<Correction>)
    requires Recorded(wanted, emitted, clean)
    ensures Recorded(wanted + pairs, emitted + pairs, clean)
    ensures Recorded(wanted, emitted + pairs, false)
  {
    SubsequenceConcat(wanted, emitted, pairs);
    SubsequenceOfMore(wanted, emitted, pairs);
  }

  // --- what stays unread ---

  lemma FreshGrows(parse: Parser, s: Segment, more: Bytes, off: Offset)
    requires off.segment == Some(s.day) ==> off.at <= |s.data|
    ensures Fresh(parse, s, off) <= Fresh(parse, Segment(s.day, s.data + more), off)
  {
    hide Lines, Entries;
    if !Skipped(s, off) {
      var start := Start(s, off);
      assert (s.data + more)[start..] == s.data[start..] + more;
      LinesGrow(s.data[start..], more);
      var x, z := Lines(s.data[start..]), Lines(s.data[start..] + more);
      EntriesSplit(parse, x, z[|x|..]);
      assert z == x + z[|x|..];
    }
  }

  /** An append only adds entries behind those already unread. */
  lemma WriteExtendsUnread(parse: Parser, w: World<Entry>, day: int, text: Bytes)
    requires Exact(parse, w)
    ensures Unconsumed(parse, w) <= Unconsumed(parse, Write(w, day, text))
  {
    hide Lines, Entries, Delivered, Fresh, Unread;
    var segs, segs' := Alive(w), Alive(Write(w, day, text));
    AppendSeesSurvivors(w.hist, w.gone, day, text);
    assert segs' == Written(segs, day, text);
    if segs != [] && segs[|segs| - 1].day == day {
      var older, last := segs[..|segs| - 1], segs[|segs| - 1];
      var more := Repaired(last.data)[|last.data|..] + text;
      assert Repaired(last.data) + text == last.data + more;
      assert segs == older + [last] && segs' == older + [Segment(day, last.data + more)];
      FreshGrows(parse, last, more, w.off);
      UnreadStep(parse, older, last, w.off);
      UnreadStep(parse, older, Segment(day, last.data + more), w.off);
    } else {
      UnreadStep(parse, segs, Segment(day, text), w.off);
    }
  }

  /** The record torn off at the end of the segment an append goes to, which the append closes off. */
  ghost function ClosedRecord(parse: Parser, w: World<Entry>, day: int): seq<Entry> {
    if w.hist == [] || w.hist[|w.hist| - 1].day != day || AtBoundary(w.hist[|w.hist| - 1].data) then []
    else Decode(parse, w.hist[|w.hist| - 1].data[Complete(w.hist[|w.hist| - 1].data)..])
  }

  /** An appended record becomes readable, behind everything unread; with it only the record whose tail
      the append repairs. */
  lemma AppendIsUnread(parse: Parser, w: World<Entry>, day: int, line: Bytes)
    requires Exact(parse, w) && Possible(w, Append(day, line))
    ensures Unconsumed(parse, Next(parse, w, Append(day, line))) ==
            Unconsumed(parse, w) + ClosedRecord(parse, w, day) + Decode(parse, line)
  {
    hide Lines, Entries, Delivered, Fresh, Unread, Complete, Decode;
    var text := line + [NEWLINE];
    var segs := Alive(w);
    AppendSeesSurvivors(w.hist, w.gone, day, text);
    assert Alive(Next(parse, w, Append(day, line))) == Written(segs, day, text);
    if segs != [] && segs[|segs| - 1].day == day {
      var older, last := segs[..|segs| - 1], segs[|segs| - 1];
      assert segs == older + [last] && last == w.hist[|w.hist| - 1];
      assert Written(segs, day, text) == older + [Segment(day, Repaired(last.data) + text)];
      UnreadStep(parse, older, last, w.off);
      UnreadStep(parse, older, Segment(day, Repaired(last.data) + text), w.off);
      FreshAfterAppend(parse, last, w.off, line);
      var unread := Unread(parse, older, w.off);
      var seen, closed := Fresh(parse, last, w.off), ClosedRecord(parse, w, day);
      Assoc(unread, seen + closed, Decode(parse, line));
      Assoc(unread, seen, closed);
    } else {
      UnreadStep(parse, segs, Segment(day, text), w.off);
      NewSegmentIsFresh(parse, Segment(day, text), w.off, line);
    }
  }

  lemma FreshAfterAppend(parse: Parser, s: Segment, off: Offset, line: Bytes)
    requires NEWLINE !in line && !Skipped(s, off)
    requires off.segment == Some(s.day) ==> off.at <= |s.data| && AtBoundary(s.data[..off.at])
    ensures Fresh(parse, Segment(s.day, Repaired(s.data) + (line + [NEWLINE])), off) ==
            Fresh(parse, s, off) + (if AtBoundary(s.data) then [] else Decode(parse, s.data[Complete(s.data)..]))
            + Decode(parse, line)
  {
    hide Lines, Entries, Complete, Decode, AtBoundary;
    var start := Start(s, off);
    StartIsBoundary(s, off);
    LinesAfterAppend(s.data, start, line);
    var torn := if AtBoundary(s.data) then [] else [s.data[Complete(s.data)..]];
    EntriesSplit(parse, Lines(s.data[start..]) + torn, [line]);
    EntriesSplit(parse, Lines(s.data[start..]), torn);
    OneEntry(parse, line);
    if !AtBoundary(s.data) { OneEntry(parse, torn[0]); } else { NoEntries(parse, []); }
  }

  lemma StartIsBoundary(s: Segment, off: Offset)
    requires off.segment == Some(s.day) ==> off.at <= |s.data| && AtBoundary(s.data[..off.at])
    ensures AtBoundary(s.data[..Start(s, off)])
  {
  }

  lemma OneEntry(parse: Parser, line: Bytes)
    ensures Entries(parse, [line]) == Decode(parse, line)
  {
    assert [line][1..] == [] && Entries(parse, []) == [];
  }

  lemma NewSegmentIsFresh(parse: Parser, s: Segment, off: Offset, line: Bytes)
    requires NEWLINE !in line && s.data == line + [NEWLINE] && (off.segment.Some? ==> off.segment.value < s.day)
    ensures Fresh(parse, s, off) == Decode(parse, line)
  {
    hide Lines, Entries, Complete, Decode;
    OneLine(line);
    OneEntry(parse, line);
    assert s.data[0..] == s.data;
  }

  lemma ReadLeavesNothing(parse: Parser, w: World<Entry>)
    requires Exact(parse, w) && w.hist != []
    ensures Unconsumed(parse, ReadStep(parse, w)) == []
  {
    hide Lines, Entries, Delivered, Unread, Advanced;
    var w' := ReadStep(parse, w);
    ReadKeepsExact(parse, w);
    ReadMovesCursor(parse, w);
    var last := w.hist[|w.hist| - 1];
    var older := w.hist[w.gone..|w.hist| - 1];
    assert Alive(w') == older + [last];
    UnreadStep(parse, older, last, w'.off);
    NothingBeforeCursor(parse, older, w'.off);
    var head, tail := last.data[..w'.off.at], last.data[w'.off.at..];
    assert last.data == head + tail;
    LinesSplit(head, tail);
    assert Lines(tail) == [];
    NoEntries(parse, []);
  }

  // --- what the seed is taken from ---

  lemma BoundaryHasNoTail(parse: Parser, d: Bytes)
    requires AtBoundary(d)
    ensures Entries(parse, SplitLines(d)) == Entries(parse, Lines(d))
  {
    LinesSplit(d, []);
    assert d + [] == d && Complete([]) == 0 && d[|d|..] == [];
    TailDecodes(parse, d);
  }

  lemma TailDecodes(parse: Parser, d: Bytes)
    ensures Entries(parse, SplitLines(d)) == Entries(parse, Lines(d)) + Decode(parse, d[Complete(d)..])
  {
    hide Lines, Complete, Decode;
    var tail := d[Complete(d)..];
    EntriesSplit(parse, Lines(d), [tail]);
    assert [tail][1..] == [] && Entries(parse, [tail]) == Decode(parse, tail) + [];
  }

  /** The torn record a segment left behind ends in, if it decodes: the scan sees it, no read does. */
  ghost function Tail(parse: Parser, w: World<Entry>, i: nat): seq<Entry>
    requires i < |w.hist|
  {
    if i < w.cur then Decode(parse, w.hist[i].data[Complete(w.hist[i].data)..]) else []
  }

  /** Of a surviving segment the scan decodes what reads have returned, and the tail. */
  lemma SegmentConsumed(parse: Parser, w: World<Entry>, i: nat)
    requires Exact(parse, w) && w.off.segment.Some? && w.gone <= i < |w.hist|
    ensures ConsumedOf(parse, w.hist[i], w.off) == Entries(parse, Lines(w.hist[i].data)[..w.got[i]]) + Tail(parse, w, i)
  {
    hide Lines, Entries, Delivered, SplitLines, Complete, Decode;
    var data, off := w.hist[i].data, w.off;
    if i > w.cur {
      NoEntries(parse, Lines(data));
    } else if i < w.cur {
      TailDecodes(parse, data);
      assert Lines(data)[..|Lines(data)|] == Lines(data);
    } else {
      var head, tail := data[..off.at], data[off.at..];
      assert data == head + tail && Before(w.hist[i], off) == head;
      LinesSplit(head, tail);
      assert Lines(data)[..w.got[i]] == Lines(head);
      BoundaryHasNoTail(parse, head);
    }
  }

  lemma {:induction false} ConsumedIsDelivered(parse: Parser, w: World<Entry>, n: nat)
    requires Exact(parse, w) && Intact(parse, w) && w.off.segment.Some? && n <= |w.hist|
    ensures Consumed(parse, w.hist[..n], w.off) == Delivered(parse, w.hist, w.got, n)
  {
    hide Lines, Entries, Delivered, Exact, Intact, ConsumedOf;
    ExactBounds(parse, w);
    DeliveredStep(parse, w.hist, w.got, n);
    if n > 0 {
      ConsumedIsDelivered(parse, w, n - 1);
      assert w.hist[..n] == w.hist[..n - 1] + [w.hist[n - 1]];
      ConsumedConcat(parse, w.hist[..n - 1], [w.hist[n - 1]], w.off);
      assert [w.hist[n - 1]][1..] == [];
      IntactHasNoTails(parse, w, n - 1);
      SegmentConsumed(parse, w, n - 1);
    }
  }

  lemma IntactHasNoTails(parse: Parser, w: World<Entry>, i: nat)
    requires Intact(parse, w) && i < |w.hist|
    ensures w.gone == 0 && Tail(parse, w, i) == []
  {
  }

  lemma ExactBounds(parse: Parser, w: World<Entry>)
    requires Exact(parse, w)
    ensures w.gone <= |w.hist| == |w.got|
    ensures forall i :: 0 <= i < |w.hist| ==> w.got[i] <= |Lines(w.hist[i].data)|
    ensures w.out == Delivered(parse, w.hist, w.got, |w.hist|)
  {
  }

  lemma {:induction false} NothingDelivered(parse: Parser, w: World<Entry>, n: nat)
    requires Exact(parse, w) && w.off.segment.None? && n <= |w.hist|
    ensures Delivered(parse, w.hist, w.got, n) == []
  {
    hide Lines, Entries, Delivered;
    DeliveredStep(parse, w.hist, w.got, n);
    if n > 0 {
      NothingDelivered(parse, w, n - 1);
      NoEntries(parse, Lines(w.hist[n - 1].data));
    }
  }

  /** The scan before the offset finds the families of everything consumed. */
  lemma SeedIsFull(parse: Parser, w: World<Entry>, batch: seq<Entry>)
    requires Exact(parse, w) && Intact(parse, w)
    requires forall e :: e in batch ==> e.session != ""
    ensures SameSeeds(Seed(parse, Alive(w), w.off, batch), w.out, batch)
  {
    hide Lines, Entries, Delivered, Consumed, Families;
    assert Alive(w) == w.hist && w.hist[..|w.hist|] == w.hist;
    if w.off.segment.None? {
      NothingDelivered(parse, w, |w.hist|);
      assert Families(map[], []) == map[] by { NoRecalls(); }
    } else {
      ConsumedIsDelivered(parse, w, |w.hist|);
      var full := Families(map[], w.out);
      forall e | e in batch
        ensures SameSeed(Restrict(full, Sessions(batch)), full, e.session)
      {
        assert e.session in Sessions(batch);
      }
    }
  }

  lemma NoRecalls()
    ensures Families(map[], []) == map[]
  {
  }

  // --- every step keeps the property ---

  lemma LogKeepsOnePass(parse: Parser, s: State, ev: Event, flagExists: FlagProbe)
    requires OnePass(parse, s, flagExists) && CanHappen(s, Log(ev))
    ensures OnePass(parse, Perform(parse, s, Log(ev), flagExists), flagExists)
  {
    hide Lines, Entries, Delivered, Unread, CorrectionsBut, Accounted, GivenUp, Exact, Intact, Unfiled, Recorded,
         Subsequence;
    ExactBounds(parse, s.w);
    StepKeepsExact(parse, s.w, ev);
    if Intact(parse, Next(parse, s.w, ev)) { IntactBefore(parse, s.w, ev); }
  }

  /** Deletion and torn records left behind are never undone. */
  lemma IntactBefore(parse: Parser, w: World<Entry>, ev: Event)
    requires Exact(parse, w) && Intact(parse, Next(parse, w, ev)) && Possible(w, ev)
    ensures Intact(parse, w)
  {
    hide Lines, Entries, Delivered, Complete, Decode;
    var w' := Next(parse, w, ev);
    match ev {
      case Append(day, line) => WriteKeepsLines(w, day, line + [NEWLINE]);
      case Tear(day, part) => WriteKeepsLines(w, day, part);
      case Clean(_) =>
      case Read =>
    }
    forall i | 0 <= i < w.cur && i < |w.hist|
      ensures Decode(parse, w.hist[i].data[Complete(w.hist[i].data)..]) == []
    {
      assert w'.hist[i] == w.hist[i] && i < w'.cur;
    }
  }

  lemma PassKeepsOnePass(parse: Parser, s: State, now: int, refused: Option<nat>, flagExists: FlagProbe)
    requires OnePass(parse, s, flagExists)
    ensures OnePass(parse, Advance(parse, s, now, refused, flagExists), flagExists)
  {
    hide Lines, Entries, Delivered, Unread, Corrections, CorrectionsBut, Exact, Intact, IsPending, Seed, Advanced,
         Unfiled, Undecideds, Recorded, Subsequence, Named, Accounted, GivenUp, SameSeeds;
    ExactBounds(parse, s.w);
    var batch := Unconsumed(parse, s.w);
    var seed := Seed(parse, Alive(s.w), s.w.off, batch);
    var pairs := Corrections(batch, seed, 0, |batch|, flagExists);
    var kept := CorrectionsBut(s.w.out, 0, |s.w.out|, s.abandoned.Keys, flagExists);
    if Holds(parse, s.w, now, flagExists) {
    } else if refused.Some? && refused.value < |pairs| {
      var some := pairs[..refused.value];
      UnfiledConcat(s.emitted, some);
      RecordedBatch(Unfiled(kept), Unfiled(s.emitted), s.clean, Unfiled(some));
      if s.filed { RecordedBatch(kept, s.emitted, s.clean, some); }
    } else {
      CommitKeepsOnePass(parse, s, now, flagExists);
    }
  }

  lemma CommitKeepsOnePass(parse: Parser, s: State, now: int, flagExists: FlagProbe)
    requires OnePass(parse, s, flagExists) && !Holds(parse, s.w, now, flagExists)
    ensures OnePass(parse, Advance(parse, s, now, None, flagExists), flagExists)
  {
    hide Lines, Entries, Delivered, Unread, Corrections, CorrectionsBut, Exact, Intact, IsPending, Seed, Advanced,
         Unfiled, Undecideds, Recorded, Subsequence, Named, Accounted, GivenUp, SameSeeds;
    ExactBounds(parse, s.w);
    var batch := Unconsumed(parse, s.w);
    var seed := Seed(parse, Alive(s.w), s.w.off, batch);
    var pairs := Corrections(batch, seed, 0, |batch|, flagExists);
    var kept := CorrectionsBut(s.w.out, 0, |s.w.out|, s.abandoned.Keys, flagExists);
    var s' := Advance(parse, s, now, None, flagExists);
    StepKeepsExact(parse, s.w, Read);
    CommitReads(parse, s.w, batch);
    AbandonedKeys(s, batch, now, flagExists);
    BatchCompletes(s.w.out, batch, seed, s.abandoned.Keys, flagExists);
    BatchGivesUp(s.w.out, batch, s.abandoned.Keys, flagExists);
    UnfiledConcat(s.emitted, pairs);
    RecordedBatch(Unfiled(kept), Unfiled(s.emitted), s.clean, Unfiled(pairs));
    if s'.filed { RecordedBatch(kept, s.emitted, s.clean, pairs); }
    if Intact(parse, s'.w) && Named(s'.w.out) {
      IntactBeforeRead(parse, s.w);
      NamedParts(s.w.out, batch);
      SeedIsFull(parse, s.w, batch);
    }
    forall i | i in s'.abandoned
      ensures GivenUp(s'.w.out, i, s'.abandoned[i], flagExists)
    {
      if i in Abandons(batch, |s.w.out|, now, flagExists) {
        NewlyGivenUp(s.w.out, batch, i, now, flagExists);
      } else {
        StillGivenUp(s.w.out, batch, i, s.abandoned[i], flagExists);
      }
    }
  }

  lemma NamedParts(x: seq<Entry>, y: seq<Entry>)
    requires Named(x + y)
    ensures Named(x) && Named(y)
  {
    forall e | e in x
      ensures e in x + y
    {
    }
    forall e | e in y
      ensures e in x + y
    {
    }
  }

  lemma AbandonedKeys(s: State, batch: seq<Entry>, now: int, flagExists: FlagProbe)
    requires forall i :: i in s.abandoned ==> GivenUp(s.w.out, i, s.abandoned[i], flagExists)
    ensures forall i :: i in s.abandoned.Keys ==> i < |s.w.out|
    ensures (s.abandoned + Abandons(batch, |s.w.out|, now, flagExists)).Keys ==
            s.abandoned.Keys + Undecideds(batch, |s.w.out|, flagExists)
  {
    hide Judge;
  }

  lemma StillGivenUp(x: seq<Entry>, y: seq<Entry>, i: nat, a: Abandoned, flagExists: FlagProbe)
    requires GivenUp(x, i, a, flagExists)
    ensures GivenUp(x + y, i, a, flagExists)
  {
    hide Judge;
    assert (x + y)[..a.upto] == x[..a.upto];
  }

  lemma NewlyGivenUp(x: seq<Entry>, y: seq<Entry>, i: nat, now: int, flagExists: FlagProbe)
    requires i in Undecideds(y, |x|, flagExists)
    requires forall k :: 0 <= k < |y| ==> !IsPending(y, k, now, flagExists)
    ensures GivenUp(x + y, i, Abandoned(now, |x| + |y|), flagExists)
  {
    hide Judge;
    var k := i - |x|;
    assert !IsPending(y, k, now, flagExists);
    JudgeInSuffix(x, y, k, flagExists);
    JudgeInPrefix(y, [], k, flagExists);
    assert (x + y)[..|x| + |y|] == x + y;
  }

  lemma IntactBeforeRead(parse: Parser, w: World<Entry>)
    requires Exact(parse, w)
    ensures Intact(parse, ReadStep(parse, w)) ==> Intact(parse, w)
  {
    hide Lines, Entries, Delivered, Exact, Intact, Unread, Advanced;
    ExactBounds(parse, w);
    if Intact(parse, ReadStep(parse, w)) { IntactBefore(parse, w, Read); }
  }

  lemma CommitReads(parse: Parser, w: World<Entry>, batch: seq<Entry>)
    requires Exact(parse, w) && batch == Unconsumed(parse, w)
    ensures ReadStep(parse, w).out == w.out + batch
    ensures Unconsumed(parse, ReadStep(parse, w)) == []
  {
    hide Lines, Entries, Delivered, Advanced;
    if w.hist == [] {
      assert Alive(w) == [] && Alive(ReadStep(parse, w)) == [];
    } else {
      ReadLeavesNothing(parse, w);
    }
  }

  /** The failure may still be corrected: it failed on an unknown flag at most fifteen minutes ago, and
      its command has not been invoked again. */
  ghost predicate MayStillPair(batch: seq<Entry>, i: nat, now: int, flagExists: FlagProbe)
    requires i < |batch|
  {
    && FailedOnUnknownFlag(batch[i], flagExists) && now - batch[i].ts.value <= 900_000_000_000
    && forall j: nat :: !Decides(batch, i, j)
  }

  lemma PendingExactlyWhen(batch: seq<Entry>, i: nat, now: int, flagExists: FlagProbe)
    requires i < |batch|
    ensures IsPending(batch, i, now, flagExists) <==> MayStillPair(batch, i, now, flagExists)
  {
    hide Judge, Decides;
    UndecidedExactlyWhen(batch, i, flagExists);
  }

  /** A pass waits exactly as long as some failure of the batch may still be corrected.  Otherwise it
      records the corrections of the batch, and nothing is left unread. */
  lemma PassWaitsExactlyWhen(parse: Parser, s: State, now: int, flagExists: FlagProbe)
    requires Bounded(s) && Exact(parse, s.w)
    ensures var batch := Unconsumed(parse, s.w); var s' := Advance(parse, s, now, None, flagExists);
            if exists i :: 0 <= i < |batch| && MayStillPair(batch, i, now, flagExists) then s' == s
            else
              && s'.w.out == s.w.out + batch && Unconsumed(parse, s'.w) == []
              && s'.emitted ==
                 s.emitted + Corrections(batch, Seed(parse, Alive(s.w), s.w.off, batch), 0, |batch|, flagExists)
  {
    hide Exact, Unread, Corrections, Seed, IsPending, MayStillPair, Undecideds, SameSeeds, Advanced;
    var batch := Unconsumed(parse, s.w);
    forall i: nat | i < |batch|
      ensures IsPending(batch, i, now, flagExists) <==> MayStillPair(batch, i, now, flagExists)
    {
      PendingExactlyWhen(batch, i, now, flagExists);
    }
    if batch == [] { NoCorrections(Seed(parse, Alive(s.w), s.w.off, batch), flagExists); }
    if !Holds(parse, s.w, now, flagExists) { CommitReads(parse, s.w, batch); }
  }

  lemma NoCorrections(seed: map<string, string>, flagExists: FlagProbe)
    ensures Corrections([], seed, 0, 0, flagExists) == []
  {
  }

  const START: State := State(Initial(), [], true, true, map[])

  lemma StartsOnePass(parse: Parser, flagExists: FlagProbe)
    ensures OnePass(parse, START, flagExists)
  {
  }

  ghost function RunFrom(parse: Parser, s: State, steps: seq<Step>, flagExists: FlagProbe): (s': State)
    requires Bounded(s)
    ensures Bounded(s')
    decreases |steps|
  {
    if steps == [] then s
    else
      var next := if CanHappen(s, steps[0]) then Perform(parse, s, steps[0], flagExists) else s;
      RunFrom(parse, next, steps[1..], flagExists)
  }

  lemma {:induction false} RunKeepsOnePass(parse: Parser, s: State, steps: seq<Step>, flagExists: FlagProbe)
    requires OnePass(parse, s, flagExists)
    ensures Bounded(s) && OnePass(parse, RunFrom(parse, s, steps, flagExists), flagExists)
    decreases |steps|
  {
    hide Lines, Entries, Delivered, Unread, CorrectionsBut, Accounted, GivenUp, Intact, Named, Unfiled, Recorded,
         Advance, CanHappen;
    if steps != [] {
      var next := s;
      if CanHappen(s, steps[0]) {
        match steps[0] {
          case Log(ev) => LogKeepsOnePass(parse, s, ev, flagExists);
          case Pass(now, refused) => PassKeepsOnePass(parse, s, now, refused, flagExists);
        }
        next := Perform(parse, s, steps[0], flagExists);
      }
      RunKeepsOnePass(parse, next, steps[1..], flagExists);
    }
  }

  /** The whole log of a run: everything consumed and everything still unread. */
  ghost function WholeLog(parse: Parser, s: State): seq<Entry>
    requires Bounded(s)
  {
    s.w.out + Unconsumed(parse, s.w)
  }

  /** What one pass over the whole log finds for the failures consumed so far. */
  ghost function OnePassOver(parse: Parser, s: State, flagExists: FlagProbe): seq<Correction>
    requires Bounded(s)
  {
    Corrections(WholeLog(parse, s), map[], 0, |s.w.out|, flagExists)
  }

  /** The same without the failures given up. */
  ghost function OnePassBut(parse: Parser, s: State, flagExists: FlagProbe): seq<Correction>
    requires Bounded(s)
  {
    CorrectionsBut(WholeLog(parse, s), 0, |s.w.out|, s.abandoned.Keys, flagExists)
  }

  /** Main result, for every run.  Everything one pass over the whole log finds for failures not given
      up was recorded, in order; without store errors exactly that was recorded, so that the
      recorded corrections are those of one pass if and only if no failure given up has a correction
      in the whole log.  The recall families agree too if every pass started from the right ones, as
      it does as long as the log is intact. */
  lemma DerivationIsOnePass(parse: Parser, steps: seq<Step>, flagExists: FlagProbe)
    ensures var s := RunFrom(parse, START, steps, flagExists);
            var but, whole := OnePassBut(parse, s, flagExists), OnePassOver(parse, s, flagExists);
            && Recorded(Unfiled(but), Unfiled(s.emitted), s.clean)
            && (s.filed ==> Recorded(but, s.emitted, s.clean))
            && (Intact(parse, s.w) && Named(s.w.out) ==> s.filed)
            && (s.clean ==>
                  (Unfiled(s.emitted) == Unfiled(whole) <==>
                     forall i :: i in s.abandoned ==>
                       i < |s.w.out| && !Judge(WholeLog(parse, s), i, flagExists).Paired?))
            && (but == whole <==>
                  forall i :: i in s.abandoned ==> i < |s.w.out| && !Judge(WholeLog(parse, s), i, flagExists).Paired?)
  {
    hide Lines, Entries, Delivered, Unread, Corrections, CorrectionsBut, GivenUp, Intact, Named, Accounted, Exact,
         Judge, Recorded;
    StartsOnePass(parse, flagExists);
    RunKeepsOnePass(parse, START, steps, flagExists);
    var s := RunFrom(parse, START, steps, flagExists);
    ExactBounds(parse, s.w);
    CorrectionsInPrefix(s.w.out, Unconsumed(parse, s.w), |s.w.out|, s.abandoned.Keys, flagExists);
    SkippingLoses(WholeLog(parse, s), |s.w.out|, s.abandoned.Keys, flagExists);
    forall i | i in s.abandoned
      ensures i < |s.w.out|
    {
      AbandonedIsConsumed(s.w.out, i, s.abandoned[i], flagExists);
    }
    if s.clean { Equal(Unfiled(OnePassBut(parse, s, flagExists)), Unfiled(s.emitted)); }
  }

  lemma Equal(wanted: seq<Correction>, emitted: seq<Correction>)
    requires Recorded(wanted, emitted, true)
    ensures wanted == emitted
  {
  }

  lemma AbandonedIsConsumed(out: seq<Entry>, i: nat, a: Abandoned, flagExists: FlagProbe)
    requires GivenUp(out, i, a, flagExists)
    ensures i < |out|
  {
  }

  /** A correction is lost only to a retry that became readable after the failure was given up, with
      a stamp from before the pass that gave it up. */
  lemma LostOnlyToEarlyStamps(parse: Parser, steps: seq<Step>, i: nat, flagExists: FlagProbe)
    requires var s := RunFrom(parse, START, steps, flagExists);
             i in s.abandoned && i < |s.w.out| && Judge(WholeLog(parse, s), i, flagExists).Paired?
    ensures var s := RunFrom(parse, START, steps, flagExists);
            var log, a := WholeLog(parse, s), s.abandoned[i];
            && log[i].ts.Some?
            && exists j: nat :: a.upto <= j < |log| && Decides(log, i, j) && log[j].ts.Some?
                                && log[j].ts.value <= log[i].ts.value + WINDOW < a.at
  {
    hide Lines, Entries, Delivered, Unread, CorrectionsBut, Intact, Named, Accounted, Exact, Judge, Recorded, RunFrom;
    StartsOnePass(parse, flagExists);
    RunKeepsOnePass(parse, START, steps, flagExists);
    var s := RunFrom(parse, START, steps, flagExists);
    LostAt(s.w.out, Unconsumed(parse, s.w), i, s.abandoned[i], flagExists);
  }

  lemma LostAt(out: seq<Entry>, unread: seq<Entry>, i: nat, a: Abandoned, flagExists: FlagProbe)
    requires GivenUp(out, i, a, flagExists) && Judge(out + unread, i, flagExists).Paired?
    ensures var log := out + unread;
            && log[i].ts.Some?
            && exists j: nat :: a.upto <= j < |log| && Decides(log, i, j) && log[j].ts.Some?
                                && log[j].ts.value <= log[i].ts.value + WINDOW < a.at
  {
    hide Judge, NextFrom, Corrected, Example;
    var log := out + unread;
    var x, y := out[..a.upto], out[a.upto..] + unread;
    assert log == x + y && x[i] == log[i];
    JudgeInPrefix(x, y, i, flagExists);
    var j := NextFrom(log, log[i], i + 1);
    assert Decides(log, i, j);
  }

  /** What becomes readable after a pass is stamped no earlier than the second of that pass. */
  ghost predicate OnTime(log: seq<Entry>, abandoned: map<nat, Abandoned>) {
    forall i, j: nat :: i in abandoned && abandoned[i].upto <= j < |log| && log[j].ts.Some? ==>
      log[j].ts.value >= Stamp(abandoned[i].at)
  }

  /** With stamps in order nothing is lost but at the edge: in a run without store errors in which no
      pass gives up a failure at its edge second, the passes record exactly what one pass finds. */
  lemma OnTimeRunsAreOnePass(parse: Parser, steps: seq<Step>, flagExists: FlagProbe)
    requires var s := RunFrom(parse, START, steps, flagExists);
             var log := WholeLog(parse, s);
             && s.clean && WholeSeconds(log) && OnTime(log, s.abandoned)
             && forall i :: i in s.abandoned && i < |log| ==> !AtEdge(log[i], s.abandoned[i].at)
    ensures var s := RunFrom(parse, START, steps, flagExists);
            && Unfiled(s.emitted) == Unfiled(OnePassOver(parse, s, flagExists))
            && (s.filed ==> s.emitted == OnePassOver(parse, s, flagExists))
  {
    hide Lines, Entries, Delivered, Unread, Corrections, CorrectionsBut, Intact, Named, Exact, Judge, RunFrom,
         Correctable, Stamp, WholeSeconds, OnTime, Subsequence, Unfiled, AtEdge;
    DerivationIsOnePass(parse, steps, flagExists);
    var s := RunFrom(parse, START, steps, flagExists);
    var log := WholeLog(parse, s);
    StartsOnePass(parse, flagExists);
    RunKeepsOnePass(parse, START, steps, flagExists);
    forall i | i in s.abandoned
      ensures i < |s.w.out| && !Judge(log, i, flagExists).Paired?
    {
      AbandonedIsConsumed(s.w.out, i, s.abandoned[i], flagExists);
      if Judge(log, i, flagExists).Paired? {
        LostAt(s.w.out, Unconsumed(parse, s.w), i, s.abandoned[i], flagExists);
        LostAtEdge(log, i, s.abandoned, flagExists);
      }
    }
  }

  // ----- runs in which every pass starts from the right families -----

  /** No record was torn. */
  ghost predicate Untorn(w: World<Entry>) {
    forall i :: 0 <= i < |w.hist| ==> AtBoundary(w.hist[i].data)
  }

  predicate Tears(step: Step) { step.Log? && step.ev.Tear? }

  lemma StepKeepsUntorn(parse: Parser, s: State, step: Step, flagExists: FlagProbe)
    requires Bounded(s) && Untorn(s.w) && !Tears(step)
    ensures Untorn(Perform(parse, s, step, flagExists).w)
  {
    hide Unread, Advanced, Seed, Corrections, Undecideds, SameSeeds, IsPending, Repaired, Dropped;
  }

  lemma {:induction false} RunKeepsUntorn(parse: Parser, s: State, steps: seq<Step>, flagExists: FlagProbe)
    requires Bounded(s) && Untorn(s.w) && forall i :: 0 <= i < |steps| ==> !Tears(steps[i])
    ensures Untorn(RunFrom(parse, s, steps, flagExists).w)
    decreases |steps|
  {
    hide Untorn, Perform, CanHappen, Tears;
    if steps != [] {
      if CanHappen(s, steps[0]) { StepKeepsUntorn(parse, s, steps[0], flagExists); }
      RunKeepsUntorn(parse, if CanHappen(s, steps[0]) then Perform(parse, s, steps[0], flagExists) else s, steps[1..],
                     flagExists);
    }
  }

  lemma NoTail(parse: Parser, data: Bytes)
    requires AtBoundary(data)
    ensures Decode(parse, data[Complete(data)..]) == []
  {
    LinesSplit(data, []);
    assert data + [] == data;
  }

  /** In a run in which no record is torn and no segment deleted, every pass starts from the right
      families: without store errors the passes record exactly what one pass finds, families included,
      unless a failure given up is corrected later. */
  lemma UntornRunsAreFiled(parse: Parser, steps: seq<Step>, flagExists: FlagProbe)
    requires forall i :: 0 <= i < |steps| ==> !Tears(steps[i])
    requires var s := RunFrom(parse, START, steps, flagExists); s.w.gone == 0 && Named(s.w.out)
    ensures var s := RunFrom(parse, START, steps, flagExists);
            && s.filed
            && (s.clean ==> s.emitted == OnePassBut(parse, s, flagExists))
  {
    hide RunFrom, CorrectionsBut, Decode, Complete, Exact, Accounted, GivenUp, Named, Tears, AtBoundary, Subsequence,
         Unread;
    RunKeepsUntorn(parse, START, steps, flagExists);
    var s := RunFrom(parse, START, steps, flagExists);
    forall i | 0 <= i < |s.w.hist|
      ensures Decode(parse, s.w.hist[i].data[Complete(s.w.hist[i].data)..]) == []
    {
      NoTail(parse, s.w.hist[i].data);
    }
    DerivationIsOnePass(parse, steps, flagExists);
    if s.clean { Equal(OnePassBut(parse, s, flagExists), s.emitted); }
  }

  lemma NamedIsNormal(e: Entry, flagExists: FlagProbe)
    requires FailedOnUnknownFlag(e, flagExists)
    ensures NormalizeFlag(e.failedFlag) == "--" + FlagName(e.failedFlag)
  {
    HealableExactlyWhen(e, flagExists);
  }

  lemma LostAtEdge(log: seq<Entry>, i: nat, abandoned: map<nat, Abandoned>, flagExists: FlagProbe)
    requires i in abandoned && i < |log| && Judge(log, i, flagExists).Paired? && log[i].ts.Some?
    requires WholeSeconds(log) && OnTime(log, abandoned)
    requires exists j: nat :: abandoned[i].upto <= j < |log| && Decides(log, i, j) && log[j].ts.Some?
                              && log[j].ts.value <= log[i].ts.value + WINDOW < abandoned[i].at
    ensures AtEdge(log[i], abandoned[i].at)
  {
    hide Judge, Correctable, Stamp, Corrected, CorrectedTo, FlagName, NormalizeFlag;
    var verdict := Judge(log, i, flagExists);
    PairingRule(log, i, flagExists, verdict.corrected, verdict.example);
    var j: nat :| Decides(log, i, j) && Corrects(log[i], log[j], verdict.corrected);
    CorrectedExactlyWhen(log[i], log[j], verdict.corrected);
    NamedIsNormal(log[i], flagExists);
    assert ShowsCorrection(log[i], log[j]);
    CorrectableExactlyWhen(log[i]);
    WholeSum(log[i].ts.value);
    StampOrder(log[i].ts.value + WINDOW, abandoned[i].at);
  }
}
