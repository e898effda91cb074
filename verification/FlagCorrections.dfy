/** Pairing failed flags with their corrected retries (internal/learn/derive.go:
    `pairFlagCorrections`, `correctedFlagForPair`, `inferCorrectedFlagFromNewSuccessFlag`).

    Times are integers in nanoseconds; an unparsable timestamp is `None`. */
module FlagCorrections {
  import opened Wrappers
  import opened Strings
  import EditDistance

  const WINDOW: int := 15 * 60 * 1_000_000_000

  datatype Entry = Entry(
    ts: Option<int>, session: string, cmd: seq<string>, shape: map<string, string>,
    exitCode: int, failedFlag: string, suggestedFlag: string, queryFamily: string)

  datatype Correction = Correction(
    commandPath: string, failedFlag: string, correctedFlag: string, example: string, queryFamily: string)

  type FlagProbe = string -> bool

  /** `normalizeFlagToken`. */
  function NormalizeFlag(tok: string): string {
    var name := TrimDashes(TrimSpace(tok));
    if name == "" then "" else "--" + name
  }

  /** The bare name of a flag reference, empty when there is none. */
  function FlagName(tok: string): string {
    TrimDashes(NormalizeFlag(tok))
  }

  /** However a flag is spelled -- bare, with any number of dashes, surrounded by space -- its normal
      form is two dashes and the name. */
  lemma NormalForm(left: string, dashes: string, name: string, right: string)
    requires Spaces(left) && Spaces(right) && Dashes(dashes)
    requires name != "" && name[0] != '-' && !IsSpace(name[|name| - 1]) && (dashes == "" ==> !IsSpace(name[0]))
    ensures NormalizeFlag(left + dashes + name + right) == "--" + name
    ensures FlagName(left + dashes + name + right) == name
  {
    hide TrimSpace, TrimDashes;
    var core := dashes + name;
    assert core[0] == if dashes == "" then name[0] else '-';
    assert core[|core| - 1] == name[|name| - 1];
    assert left + dashes + name + right == left + core + right;
    TrimPadding(left, core, right);
    TrimLeadingDashes(dashes, name);
    TrimLeadingDashes("--", name);
  }

  /** A token of nothing but space and dashes names no flag. */
  lemma NoName(left: string, dashes: string, right: string)
    requires Spaces(left) && Spaces(right) && Dashes(dashes)
    ensures NormalizeFlag(left + dashes + right) == "" && FlagName(left + dashes + right) == ""
  {
    hide TrimSpace, TrimDashes;
    if dashes == "" {
      assert Spaces(left + right) && left + dashes + right == (left + right) + "";
      TrimAllSpace(left + right);
    } else {
      TrimPadding(left, dashes, right);
    }
    TrimLeadingDashes(dashes, "");
    assert dashes + "" == dashes;
    TrimLeadingDashes("", "");
  }

  lemma TrimAllSpace(s: string)
    requires Spaces(s)
    ensures TrimSpace(s + "") == ""
  {
    TrimLeftPadding(s, "");
  }

  /** A reference already in double-dash form is its own normal form. */
  lemma DoubleDashForm(name: string)
    requires name != "" && name[0] != '-' && !IsSpace(name[|name| - 1])
    ensures NormalizeFlag("--" + name) == "--" + name && FlagName("--" + name) == name
  {
    NormalForm("", "--", name, "");
    assert "" + "--" + name + "" == "--" + name;
  }

  /** `sanitizedInvocationExample`: verbs, then the flag names in order, no values. */
  ghost function Example(e: Entry): string {
    Join(e.cmd + Dashed(SortedKeys(e.shape.Keys)), " ")
  }

  function Dashed(names: seq<string>): seq<string> {
    seq(|names|, i requires 0 <= i < |names| => "--" + names[i])
  }

  method SanitizedInvocationExample(e: Entry) returns (r: string)
    ensures r == Example(e)
  {
    var names := SortKeys(e.shape.Keys);
    var parts := e.cmd;
    for i := 0 to |names|
      invariant parts == e.cmd + Dashed(names)[..i]
    {
      parts := parts + ["--" + names[i]];
    }
    assert Dashed(names)[..|names|] == Dashed(names);
    r := Join(parts, " ");
  }

  /** The example is the verbs and then, in ascending order, each flag of the entry with two dashes;
      neither values nor positionals appear. */
  lemma ExampleIs(e: Entry, names: seq<string>)
    requires StrictlyAscending(names) && forall n :: n in names <==> n in e.shape
    ensures Example(e) == Join(e.cmd + seq(|names|, i requires 0 <= i < |names| => "--" + names[i]), " ")
  {
    SortedKeysCorrect(e.shape.Keys);
    AscendingUnique(names, SortedKeys(e.shape.Keys));
    assert Dashed(names) == seq(|names|, i requires 0 <= i < |names| => "--" + names[i]);
  }

  // ----- the correction of one pair -----

  /** The flag names the failed attempt already had. */
  function KnownNames(failed: Entry): set<string> {
    set k | k in failed.shape :: FlagName(k)
  }

  /** `k` is a flag the retry added. */
  predicate Added(failed: Entry, success: Entry, k: string) {
    k in success.shape && FlagName(k) != "" && FlagName(k) !in KnownNames(failed)
  }

  ghost function Distance(failed: Entry, k: string): nat {
    EditDistance.Dist(FlagName(failed.failedFlag), FlagName(k))
  }

  /** The added flag that is strictly closer to the failed name than every other added flag. */
  ghost predicate IsClosest(failed: Entry, success: Entry, k: string) {
    && Added(failed, success, k)
    && forall k' :: Added(failed, success, k') && k' != k ==> Distance(failed, k) < Distance(failed, k')
  }

  /** The distance allowed between two names: half the shorter one, at least one. */
  function MaxDistance(a: string, b: string): nat {
    var m := (if |a| < |b| then |a| else |b|) / 2;
    if m < 1 then 1 else m
  }

  /** An inferred correction is the unique closest added flag, if it is close enough.  Nothing here
      depends on the order in which the flags are looked at. */
  ghost function Inferred(failed: Entry, success: Entry): string {
    if FlagName(failed.failedFlag) != "" && exists k :: IsClosest(failed, success, k) then
      var k :| IsClosest(failed, success, k);
      if Distance(failed, k) <= MaxDistance(FlagName(failed.failedFlag), FlagName(k)) then "--" + FlagName(k) else ""
    else ""
  }

  ghost function Corrected(failed: Entry, success: Entry): string {
    var suggested := NormalizeFlag(failed.suggestedFlag);
    if suggested != "" then (if TrimDashes(suggested) in success.shape then suggested else "")
    else Inferred(failed, success)
  }

  /** What the scan of `inferCorrectedFlagFromNewSuccessFlag` knows after the keys in `seen`. */
  ghost predicate Scanned(failed: Entry, success: Entry, seen: set<string>, bestName: string, bestDistance: nat,
                          ambiguous: bool)
  {
    && (bestName == "" ==> !ambiguous && forall k :: k in seen ==> !Added(failed, success, k))
    && (bestName != "" ==>
          && (forall k :: k in seen && Added(failed, success, k) ==> bestDistance <= Distance(failed, k))
          && exists k :: IsBest(failed, success, seen, bestName, bestDistance, ambiguous, k))
  }

  ghost predicate IsBest(failed: Entry, success: Entry, seen: set<string>, bestName: string, bestDistance: nat,
                         ambiguous: bool, k: string)
  {
    && k in seen && Added(failed, success, k) && FlagName(k) == bestName && Distance(failed, k) == bestDistance
    && (ambiguous <==>
          exists k' :: k' in seen && k' != k && Added(failed, success, k') && Distance(failed, k') == bestDistance)
  }

  lemma ScanStart(failed: Entry, success: Entry)
    ensures Scanned(failed, success, {}, "", 0, false)
  {
  }

  lemma ScanStep(failed: Entry, success: Entry, seen: set<string>, bestName: string, bestDistance: nat, ambiguous: bool,
                 name: string)
    requires Scanned(failed, success, seen, bestName, bestDistance, ambiguous)
    requires name in success.shape && name !in seen
    ensures !Added(failed, success, name) ==> Scanned(failed, success, seen + {name}, bestName, bestDistance, ambiguous)
    ensures Added(failed, success, name) ==>
              var d := Distance(failed, name);
              if bestName == "" || d < bestDistance then
                Scanned(failed, success, seen + {name}, FlagName(name), d, false)
              else
                Scanned(failed, success, seen + {name}, bestName, bestDistance, ambiguous || d == bestDistance)
  {
    hide Distance, FlagName, KnownNames;
    var seen' := seen + {name};
    if !Added(failed, success, name) {
      if bestName != "" {
        var k :| IsBest(failed, success, seen, bestName, bestDistance, ambiguous, k);
        assert IsBest(failed, success, seen', bestName, bestDistance, ambiguous, k);
      }
    } else {
      var d := Distance(failed, name);
      if bestName == "" || d < bestDistance {
        assert IsBest(failed, success, seen', FlagName(name), d, false, name);
      } else {
        var k :| IsBest(failed, success, seen, bestName, bestDistance, ambiguous, k);
        assert IsBest(failed, success, seen', bestName, bestDistance, ambiguous || d == bestDistance, k);
      }
    }
  }

  /** After the whole scan the candidate is the closest added flag, unless it is ambiguous. */
  lemma ScanResult(failed: Entry, success: Entry, bestName: string, bestDistance: nat, ambiguous: bool)
    requires Scanned(failed, success, success.shape.Keys, bestName, bestDistance, ambiguous)
    requires FlagName(failed.failedFlag) != ""
    ensures Inferred(failed, success) ==
            if bestName != "" && !ambiguous && bestDistance <= MaxDistance(FlagName(failed.failedFlag), bestName)
            then "--" + bestName else ""
  {
    hide Distance, FlagName, KnownNames;
    if bestName != "" {
      var k :| IsBest(failed, success, success.shape.Keys, bestName, bestDistance, ambiguous, k);
      if !ambiguous {
        assert IsClosest(failed, success, k);
      } else {
        var k' :| k' in success.shape.Keys && k' != k && Added(failed, success, k') &&
                  Distance(failed, k') == bestDistance;
        forall c
          ensures !IsClosest(failed, success, c)
        {
        }
      }
    }
  }

  method InferCorrectedFlag(failed: Entry, success: Entry) returns (r: string)
    ensures r == Inferred(failed, success)
  {
    hide Scanned, FlagName, EditDistance.Dist;
    var failedName := FlagName(failed.failedFlag);
    if failedName == "" {
      return "";
    }
    var failedShape := KnownNames(failed);
    var bestName: string, bestDistance: nat, ambiguous := "", 0, false;
    var rest := success.shape.Keys;
    ScanStart(failed, success);
    assert success.shape.Keys - rest == {};
    // a Go map is ranged over in no particular order
    while rest != {}
      invariant rest <= success.shape.Keys
      invariant Scanned(failed, success, success.shape.Keys - rest, bestName, bestDistance, ambiguous)
      decreases rest
    {
      var key :| key in rest;
      ghost var seen := success.shape.Keys - rest;
      ScanStep(failed, success, seen, bestName, bestDistance, ambiguous, key);
      rest := rest - {key};
      assert success.shape.Keys - rest == seen + {key};
      var name := FlagName(key);
      if name == "" {
        continue;
      }
      if name in failedShape {
        continue;
      }
      var distance := EditDistance.EditDistance(failedName, name);
      if bestName == "" || distance < bestDistance {
        bestName := name;
        bestDistance := distance;
        ambiguous := false;
        continue;
      }
      if distance == bestDistance {
        ambiguous := true;
      }
    }
    assert success.shape.Keys - rest == success.shape.Keys;
    ScanResult(failed, success, bestName, bestDistance, ambiguous);
    if bestName != "" {
      var maxDistance := (if |failedName| < |bestName| then |failedName| else |bestName|) / 2;
      if maxDistance < 1 {
        maxDistance := 1;
      }
      if bestDistance > maxDistance {
        return "";
      }
    }
    if bestName == "" || ambiguous {
      return "";
    }
    r := "--" + bestName;
  }

  /** The retry uses a flag that the failed attempt did not have. */
  predicate IsNew(failed: Entry, retry: Entry, k: string) {
    k in retry.shape && FlagName(k) != "" && forall j :: j in failed.shape ==> FlagName(j) != FlagName(k)
  }

  /** The rule for one pair, in terms of the two entries alone: a suggestion counts if the retry uses it;
      without one the single new flag closest to the failed name counts, at most one edit or half of
      either name away. */
  ghost predicate CorrectedTo(failed: Entry, retry: Entry, flag: string) {
    var name := FlagName(failed.failedFlag);
    if NormalizeFlag(failed.suggestedFlag) != "" then
      flag == NormalizeFlag(failed.suggestedFlag) && FlagName(failed.suggestedFlag) in retry.shape
    else
      name != "" && exists k :: IsNew(failed, retry, k) && flag == "--" + FlagName(k) && IsNearest(failed, retry, k)
  }

  ghost predicate IsNearest(failed: Entry, retry: Entry, k: string) {
    var name := FlagName(failed.failedFlag);
    var d := EditDistance.Dist(name, FlagName(k));
    && (forall k' :: IsNew(failed, retry, k') && k' != k ==> d < EditDistance.Dist(name, FlagName(k')))
    && (d <= 1 || (2 * d <= |name| && 2 * d <= |FlagName(k)|))
  }

  lemma AddedIsNew(failed: Entry, retry: Entry, k: string)
    ensures Added(failed, retry, k) <==> IsNew(failed, retry, k)
  {
    hide FlagName;
  }

  lemma NearestIsClosest(failed: Entry, retry: Entry, k: string)
    requires IsNew(failed, retry, k)
    ensures IsNearest(failed, retry, k) <==>
              && IsClosest(failed, retry, k)
              && Distance(failed, k) <= MaxDistance(FlagName(failed.failedFlag), FlagName(k))
  {
    hide FlagName, EditDistance.Dist, IsNew, Added;
    forall k'
      ensures Added(failed, retry, k') <==> IsNew(failed, retry, k')
    {
      AddedIsNew(failed, retry, k');
    }
  }

  /** The correction is the flag the rule names, and no correction means that it names none. */
  lemma CorrectedExactlyWhen(failed: Entry, retry: Entry, flag: string)
    requires flag != ""
    ensures Corrected(failed, retry) == flag <==> CorrectedTo(failed, retry, flag)
  {
    hide FlagName, NormalizeFlag, IsNew, Added, IsNearest, IsClosest, Distance;
    FlagNameIs(failed.suggestedFlag);
    if NormalizeFlag(failed.suggestedFlag) == "" {
      InferredExactlyWhen(failed, retry, flag);
    }
  }

  lemma FlagNameIs(tok: string)
    ensures FlagName(tok) == TrimDashes(NormalizeFlag(tok))
  {
  }

  lemma InferredExactlyWhen(failed: Entry, retry: Entry, flag: string)
    requires flag != ""
    ensures Inferred(failed, retry) == flag <==>
              && FlagName(failed.failedFlag) != ""
              && exists k :: IsNew(failed, retry, k) && flag == "--" + FlagName(k) && IsNearest(failed, retry, k)
  {
    hide FlagName, IsNew, Added, IsNearest, Distance, MaxDistance;
    forall k
      ensures IsClosest(failed, retry, k) ==> IsNew(failed, retry, k)
      ensures IsNew(failed, retry, k) ==>
                (IsNearest(failed, retry, k) <==>
                   && IsClosest(failed, retry, k)
                   && Distance(failed, k) <= MaxDistance(FlagName(failed.failedFlag), FlagName(k)))
    {
      AddedIsNew(failed, retry, k);
      if IsNew(failed, retry, k) { NearestIsClosest(failed, retry, k); }
    }
    forall k, k' | IsClosest(failed, retry, k) && IsClosest(failed, retry, k')
      ensures k == k'
    {
    }
  }

  /** A correction always names a flag the retry used. */
  lemma CorrectionWasUsed(failed: Entry, retry: Entry)
    requires Corrected(failed, retry) != ""
    ensures exists k :: k in retry.shape && Corrected(failed, retry) in {"--" + k, "--" + FlagName(k)}
  {
    CorrectedExactlyWhen(failed, retry, Corrected(failed, retry));
    hide Corrected, FlagName, Inferred;
    if NormalizeFlag(failed.suggestedFlag) != "" {
      var k := FlagName(failed.suggestedFlag);
      assert NormalizeFlag(failed.suggestedFlag) == "--" + k by { NormalIsName(failed.suggestedFlag); }
      assert k in retry.shape;
    }
  }

  lemma NormalIsName(tok: string)
    requires NormalizeFlag(tok) != ""
    ensures NormalizeFlag(tok) == "--" + FlagName(tok)
  {
    hide TrimSpace, TrimDashes;
    var name := TrimDashes(TrimSpace(tok));
    TrimLeadingDashes("--", name);
  }

  /** `retry` shows a correction of the failed flag. */
  ghost predicate ShowsCorrection(failed: Entry, retry: Entry) {
    Corrected(failed, retry) != "" && Corrected(failed, retry) != NormalizeFlag(failed.failedFlag)
  }

  /** A flag the failed attempt did not have, with another name, close enough to be inferred. */
  ghost predicate CloseName(failed: Entry, k: string) {
    && FlagName(k) != "" && FlagName(k) !in KnownNames(failed)
    && Distance(failed, k) <= MaxDistance(FlagName(failed.failedFlag), FlagName(k))
    && "--" + FlagName(k) != NormalizeFlag(failed.failedFlag)
  }

  /** Some retry could show a correction: a suggestion that differs from the failed flag or, without
      a suggestion, a close new name. */
  ghost predicate Correctable(failed: Entry) {
    var suggested := NormalizeFlag(failed.suggestedFlag);
    if suggested != "" then suggested != NormalizeFlag(failed.failedFlag)
    else FlagName(failed.failedFlag) != "" && exists k: string :: CloseName(failed, k)
  }

  /** The successful retry at `t` that corrects a correctable failure. */
  lemma CorrectingRetry(failed: Entry, t: int) returns (retry: Entry)
    requires Correctable(failed)
    ensures retry == Entry(Some(t), failed.session, failed.cmd, retry.shape, 0, "", "", "")
    ensures ShowsCorrection(failed, retry)
  {
    hide Distance, FlagName, KnownNames, NormalizeFlag;
    var suggested := NormalizeFlag(failed.suggestedFlag);
    if suggested != "" {
      retry := Entry(Some(t), failed.session, failed.cmd, map[TrimDashes(suggested) := "str"], 0, "", "", "");
    } else {
      var k: string :| CloseName(failed, k);
      retry := Entry(Some(t), failed.session, failed.cmd, map[k := "str"], 0, "", "", "");
      assert forall k' :: Added(failed, retry, k') <==> k' == k;
      assert IsClosest(failed, retry, k);
    }
  }

  /** Exactly the correctable failures have a retry that corrects them. */
  lemma CorrectableExactlyWhen(failed: Entry)
    ensures Correctable(failed) <==> exists retry: Entry :: ShowsCorrection(failed, retry)
  {
    if Correctable(failed) {
      var retry := CorrectingRetry(failed, 0);
    }
    forall retry: Entry | ShowsCorrection(failed, retry)
      ensures Correctable(failed)
    {
      hide Distance, FlagName, KnownNames, NormalizeFlag;
      if NormalizeFlag(failed.suggestedFlag) == "" {
        var k :| IsClosest(failed, retry, k) && "--" + FlagName(k) == Inferred(failed, retry)
                 && Distance(failed, k) <= MaxDistance(FlagName(failed.failedFlag), FlagName(k));
        assert CloseName(failed, k);
      }
    }
  }

  // ----- pairing within a journal -----

  predicate IsRecall(e: Entry) {
    |e.cmd| > 0 && e.cmd[0] == "recall" && e.queryFamily != ""
  }

  /** The query family of the last recall of every session, over `seed`. */
  function Families(seed: map<string, string>, entries: seq<Entry>): map<string, string> {
    if entries == [] then seed
    else
      var e, before := entries[|entries| - 1], Families(seed, entries[..|entries| - 1]);
      if IsRecall(e) then before[e.session := e.queryFamily] else before
  }

  function Lookup(families: map<string, string>, session: string): string {
    if session in families then families[session] else ""
  }

  predicate SameInvocation(a: Entry, b: Entry) {
    a.session == b.session && a.cmd == b.cmd
  }

  /** The first entry from `j` on that repeats the command of `e` in its session, or the length. */
  function NextFrom(entries: seq<Entry>, e: Entry, j: nat): (k: nat)
    requires j <= |entries|
    ensures j <= k <= |entries|
    ensures k < |entries| ==> SameInvocation(entries[k], e)
    ensures forall m :: j <= m < k ==> !SameInvocation(entries[m], e)
    decreases |entries| - j
  {
    if j == |entries| || SameInvocation(entries[j], e) then j else NextFrom(entries, e, j + 1)
  }

  datatype Verdict =
    | Ignored                                    // not a healable failure
    | Undecided                                  // the next invocation is not in the journal yet
    | Unpaired                                   // decided: no correction
    | Paired(corrected: string, example: string)

  predicate Healable(e: Entry, flagExists: FlagProbe) {
    && e.exitCode != 0 && e.failedFlag != "" && NormalizeFlag(e.failedFlag) != ""
    && !flagExists(FlagName(e.failedFlag))
    && e.ts.Some?
  }

  ghost function Match(e: Entry, success: Entry): Verdict
    requires e.ts.Some?
  {
    if success.exitCode != 0 || success.ts.None? || success.ts.value < e.ts.value
       || success.ts.value - e.ts.value > WINDOW
    then Unpaired
    else
      var corrected := Corrected(e, success);
      if corrected == "" || corrected == NormalizeFlag(e.failedFlag) then Unpaired
      else Paired(corrected, Example(success))
  }

  ghost function Judge(entries: seq<Entry>, i: nat, flagExists: FlagProbe): Verdict
    requires i < |entries|
  {
    if !Healable(entries[i], flagExists) then Ignored
    else
      var j := NextFrom(entries, entries[i], i + 1);
      if j == |entries| then Undecided else Match(entries[i], entries[j])
  }

  /** A paired failure becomes one correction, filed under the session's recall family. */
  function File(e: Entry, verdict: Verdict, family: string): seq<Correction> {
    match verdict
    case Paired(corrected, example) =>
      [Correction(Join(e.cmd, " "), NormalizeFlag(e.failedFlag), corrected, example, family)]
    case _ => []
  }

  ghost function CorrectionAt(entries: seq<Entry>, seed: map<string, string>, i: nat,
                              flagExists: FlagProbe): seq<Correction>
    requires i < |entries|
  {
    File(entries[i], Judge(entries, i, flagExists), Lookup(Families(seed, entries[..i + 1]), entries[i].session))
  }

  /** The corrections of the failures at positions `lo` to `hi`, each judged against all of `entries`. */
  ghost function Corrections(entries: seq<Entry>, seed: map<string, string>, lo: nat, hi: nat,
                             flagExists: FlagProbe): seq<Correction>
    requires lo <= hi <= |entries|
  {
    if lo == hi then []
    else Corrections(entries, seed, lo, hi - 1, flagExists) + CorrectionAt(entries, seed, hi - 1, flagExists)
  }

  /** A failure whose next invocation is missing but may still come. */
  ghost predicate IsPending(entries: seq<Entry>, i: nat, now: int, flagExists: FlagProbe)
    requires i < |entries|
  {
    Judge(entries, i, flagExists) == Undecided && now - entries[i].ts.value <= WINDOW
  }

  /** `j` is the next invocation of the command of `i` in its session. */
  ghost predicate Decides(entries: seq<Entry>, i: nat, j: nat) {
    && i < j < |entries| && entries[j].session == entries[i].session && entries[j].cmd == entries[i].cmd
    && forall m :: i < m < j ==> entries[m].session != entries[i].session || entries[m].cmd != entries[i].cmd
  }

  /** The invocation failed on a flag that exists nowhere, at a known time. */
  predicate FailedOnUnknownFlag(e: Entry, flagExists: FlagProbe) {
    e.exitCode != 0 && FlagName(e.failedFlag) != "" && !flagExists(FlagName(e.failedFlag)) && e.ts.Some?
  }

  /** The retry succeeds no earlier and at most fifteen minutes later, and corrects the failed flag to
      another one. */
  ghost predicate Corrects(e: Entry, retry: Entry, flag: string) {
    && e.ts.Some? && retry.ts.Some? && retry.exitCode == 0
    && 0 <= retry.ts.value - e.ts.value <= 900_000_000_000
    && CorrectedTo(e, retry, flag) && flag != "" && flag != "--" + FlagName(e.failedFlag)
  }

  lemma HealableExactlyWhen(e: Entry, flagExists: FlagProbe)
    ensures Healable(e, flagExists) <==> FailedOnUnknownFlag(e, flagExists)
    ensures Healable(e, flagExists) ==> e.ts.Some? && NormalizeFlag(e.failedFlag) == "--" + FlagName(e.failedFlag)
  {
    if NormalizeFlag(e.failedFlag) != "" {
      NormalIsName(e.failedFlag);
      assert FlagName(e.failedFlag) != "" by { NameIsNonEmpty(e.failedFlag); }
    }
    if e.failedFlag == "" { NoName("", "", ""); }
  }

  lemma NameIsNonEmpty(tok: string)
    requires NormalizeFlag(tok) != ""
    ensures FlagName(tok) != ""
  {
    hide TrimSpace, TrimDashes;
    TrimLeadingDashes("--", TrimDashes(TrimSpace(tok)));
  }

  /** The pairing rule: a failure is corrected to a flag exactly when it failed on an unknown flag and its
      next invocation corrects it to that flag, and the example is taken from that invocation. */
  lemma PairingRule(entries: seq<Entry>, i: nat, flagExists: FlagProbe, flag: string, example: string)
    requires i < |entries|
    ensures Judge(entries, i, flagExists) == Paired(flag, example) <==>
              && FailedOnUnknownFlag(entries[i], flagExists)
              && exists j: nat :: Decides(entries, i, j) && Corrects(entries[i], entries[j], flag)
                                  && example == Example(entries[j])
  {
    hide Corrected, Example, NormalizeFlag, Healable, FlagName, CorrectedTo;
    var e := entries[i];
    var next := NextFrom(entries, e, i + 1);
    HealableExactlyWhen(e, flagExists);
    assert next < |entries| ==> Decides(entries, i, next);
    forall j: nat | Decides(entries, i, j)
      ensures j == next
    {
    }
    if next < |entries| && Healable(e, flagExists) {
      if flag != "" { CorrectedExactlyWhen(e, entries[next], flag); }
    }
  }

  /** A failure is left open exactly when it failed on an unknown flag and its command was not invoked
      again in its session. */
  lemma UndecidedExactlyWhen(entries: seq<Entry>, i: nat, flagExists: FlagProbe)
    requires i < |entries|
    ensures Judge(entries, i, flagExists) == Undecided <==>
              FailedOnUnknownFlag(entries[i], flagExists) && forall j: nat :: !Decides(entries, i, j)
  {
    hide Corrected, Example, NormalizeFlag, Healable, FlagName;
    var next := NextFrom(entries, entries[i], i + 1);
    HealableExactlyWhen(entries[i], flagExists);
    assert next < |entries| ==> Decides(entries, i, next);
  }

  /** What is recorded for a paired failure. */
  lemma CorrectionSays(entries: seq<Entry>, seed: map<string, string>, i: nat, flagExists: FlagProbe, flag: string,
                       example: string)
    requires i < |entries| && Judge(entries, i, flagExists) == Paired(flag, example)
    ensures var families := Families(seed, entries[..i + 1]); var session := entries[i].session;
            CorrectionAt(entries, seed, i, flagExists) ==
            [Correction(Join(entries[i].cmd, " "), "--" + FlagName(entries[i].failedFlag), flag, example,
                        if session in families then families[session] else "")]
  {
    hide Corrected, Example, NormalizeFlag, Healable, FlagName, Families, Join;
    HealableExactlyWhen(entries[i], flagExists);
  }

  /** The entry is a recall of the session with a query family. */
  predicate RecallOf(e: Entry, session: string, family: string) {
    e.session == session && family != "" && e.queryFamily == family && e.cmd != [] && e.cmd[0] == "recall"
  }

  /** The family of a session is that of its last recall, and the seeded one if there is none. */
  lemma {:induction false} FamilyIsLastRecall(seed: map<string, string>, entries: seq<Entry>, session: string,
                                              family: string)
    ensures session in Families(seed, entries) && Families(seed, entries)[session] == family <==>
              || (exists i :: 0 <= i < |entries| && RecallOf(entries[i], session, family)
                              && forall j, g :: i < j < |entries| ==> !RecallOf(entries[j], session, g))
              || ((forall i, g :: 0 <= i < |entries| ==> !RecallOf(entries[i], session, g))
                  && session in seed && seed[session] == family)
  {
    if entries != [] {
      var n := |entries| - 1;
      var before, e := entries[..n], entries[n];
      FamilyIsLastRecall(seed, before, session, family);
      assert forall i :: 0 <= i < n ==> before[i] == entries[i];
      if IsRecall(e) && e.session == session {
        assert RecallOf(e, session, e.queryFamily);
      } else {
        assert forall g :: !RecallOf(e, session, g);
      }
    }
  }

  lemma HealableHasTime(e: Entry, flagExists: FlagProbe)
    ensures Healable(e, flagExists) ==> e.ts.Some?
  {
  }

  lemma WalkStep(entries: seq<Entry>, seed: map<string, string>, i: nat, flagExists: FlagProbe)
    requires i < |entries|
    ensures Corrections(entries, seed, 0, i + 1, flagExists) ==
            Corrections(entries, seed, 0, i, flagExists) + CorrectionAt(entries, seed, i, flagExists)
    ensures Families(seed, entries[..i + 1]) ==
            if IsRecall(entries[i]) then Families(seed, entries[..i])[entries[i].session := entries[i].queryFamily]
            else Families(seed, entries[..i])
  {
    assert entries[..i + 1][..i] == entries[..i];
  }

  lemma WalkStart(entries: seq<Entry>, seed: map<string, string>, flagExists: FlagProbe)
    ensures Corrections(entries, seed, 0, 0, flagExists) == []
    ensures Families(seed, entries[..0]) == seed
  {
  }

  method CorrectedFlagForPair(failed: Entry, success: Entry) returns (r: string)
    ensures r == Corrected(failed, success)
  {
    var suggested := NormalizeFlag(failed.suggestedFlag);
    if suggested != "" {
      if TrimDashes(suggested) in success.shape {
        return suggested;
      }
      return "";
    }
    r := InferCorrectedFlag(failed, success);
  }

  /** The inner loop of `pairFlagCorrections`. */
  method NextInvocation(entries: seq<Entry>, e: Entry, from: nat) returns (j: nat)
    requires from <= |entries|
    ensures j == NextFrom(entries, e, from)
  {
    j := from;
    while j < |entries| && !(entries[j].session == e.session && entries[j].cmd == e.cmd)
      invariant from <= j <= |entries|
      invariant NextFrom(entries, e, from) == NextFrom(entries, e, j)
    {
      j := j + 1;
    }
  }

  method PairFlagCorrections(entries: seq<Entry>, recallSeed: map<string, string>, now: int, flagExists: FlagProbe)
    returns (pairs: seq<Correction>, pending: bool)
    ensures pairs == Corrections(entries, recallSeed, 0, |entries|, flagExists)
    ensures pending <==> exists i :: 0 <= i < |entries| && IsPending(entries, i, now, flagExists)
  {
    hide Corrected, Example, NormalizeFlag, FlagName, TrimDashes, Join, Families, Corrections, Lookup, NextFrom;
    WalkStart(entries, recallSeed, flagExists);
    pairs := [];
    pending := false;
    var lastRecallFamily := recallSeed;
    for i := 0 to |entries|
      invariant lastRecallFamily == Families(recallSeed, entries[..i])
      invariant pairs == Corrections(entries, recallSeed, 0, i, flagExists)
      invariant pending <==> exists k :: 0 <= k < i && IsPending(entries, k, now, flagExists)
    {
      var e := entries[i];
      WalkStep(entries, recallSeed, i, flagExists);
      if |e.cmd| > 0 && e.cmd[0] == "recall" && e.queryFamily != "" {
        lastRecallFamily := lastRecallFamily[e.session := e.queryFamily];
      }
      if e.exitCode == 0 || e.failedFlag == "" {
        continue;
      }
      var failed := NormalizeFlag(e.failedFlag);
      if failed == "" {
        continue;
      }
      if flagExists(FlagName(e.failedFlag)) {
        continue;
      }
      if e.ts.None? {
        continue;
      }
      var failedAt := e.ts.value;
      var j := NextInvocation(entries, e, i + 1);
      if j == |entries| {
        if now - failedAt <= WINDOW {
          assert IsPending(entries, i, now, flagExists);
          pending := true;
        }
        continue;
      }
      var success := entries[j];
      if success.exitCode != 0 {
        continue;
      }
      if success.ts.None? || success.ts.value < failedAt || success.ts.value - failedAt > WINDOW {
        continue;
      }
      var corrected := CorrectedFlagForPair(e, success);
      if corrected == "" || corrected == failed {
        continue;
      }
      var example := SanitizedInvocationExample(success);
      pairs := pairs + [Correction(Join(e.cmd, " "), failed, corrected, example, Lookup(lastRecallFamily, e.session))];
    }
  }
}
