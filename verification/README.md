# Proofs about the CLI runtime

The command-line tool in this repository is a thin layer of commands over a runtime that keeps an
invocation journal, learns flag corrections from it, paces and retries HTTP requests, caches
responses, walks paginated endpoints, fans work out over a worker pool and trims JSON output. This
project models those algorithms and protocols in Dafny and proves what they are for.

| file | models | central result |
|---|---|---|
| `Journal.dfy` | the segmented append-only log with tail repair, retention and a `(segment, byte)` cursor | over every run of appends, torn appends, retention and reads, each complete record is returned at most once and in log order, and is missed only if its segment was deleted; an appended record always becomes readable |
| `FlagCorrections.dfy` | pairing a failed flag with its corrected retry | a failure is paired exactly when its next invocation corrects it, to a flag this invocation uses: the suggested one or, without a suggestion, the unique closest new one |
| `RecallSeed.dfy` | the newest-first, early-exit scan for recall families | it equals a forward last-write-wins pass over everything consumed |
| `Derivation.dfy` | the derivation pass and its stored offset | for every run, incremental batched passes record what one pass over the whole log finds, in order, except for failures given up too early; exactly when that happens |
| `RecallFiling.dfy` | which recall family a correction is filed under | exactly when the scan before the offset names another family than one pass would, with a run for either case |
| `EditDistance.dfy` | the two edit-distance programs | both return the length of a shortest edit script, a metric |
| `TokenBucket.dfy` | the cross-process token bucket with reservations | it tracks the exact bucket to within a nanosecond per reservation; any stretch of calls stays within the budget, and no call waits longer than the budget forces it to |
| `Fanout.dfy` | feeder, workers, bounded queue, cancellation and panics | no schedule deadlocks or runs forever, and for every source the caller is told the one value, error, panic or cancellation that became of it |
| `Pagination.dfy` | the `--all` loop | bounded and never silently truncated against any server; complete against a faithful one exactly when a hundred pages of the caller's size reach the end |
| `FieldFilter.dfy` | `--select` on JSON trees | idempotent on every tree and selection; exactly what the paths lead to is kept; exactly which selections match in all data whatever one of their paths matches |
| `AdaptivePacing.dfy` | the adaptive pacer | what each event does to the rate; bounds, high-water mark and spacing over every sequence of events |
| `RetryLoop.dfy` | the HTTP retry loop | bounds on sends and back-offs, and exactly when a call backs off and succeeds |
| `ResponseCache.dfy` | the response cache in front of the retry loop | the caching client refines the uncached one throughout a run exactly when no torn acceptance changes what is cached |
| `SqlGate.dfy` | the read-only gate of the SQL tool | the six-flag scanner agrees with a recursive tokenizer, whose tokens are pinned one by one; a second statement is always refused |
| `Encodings.dfy` | the credential fingerprint stream and the cache-key form of a map | both are injective and can be read back |
| `ArgvShape.dfy` | reducing a command line to flag shapes | non-interference for everything that does not start with a dash, and exactly which values are taken for flags and recorded |

`Strings.dfy` holds the few standard-library string operations the code relies on, `Wrappers.dfy` the
option type. Code that changes state is modelled by methods and classes over arrays and fields, each
tied to a specification function; the properties are lemmas about those functions and about whole
runs.

## How the model reads the code

- Times are unbounded integers: nanoseconds, or seconds and day numbers for journal retention.
  Floating-point quantities (tokens, rates) are reals, so rounding and 64-bit overflow are not
  modelled, except for `Retry-After` in seconds, which is remote input.
- A journal segment is a byte sequence; the JSON decoder is an arbitrary function from a line to an
  optional record. A pass, an append and a locked ledger update are single steps.
- The clock does not run backwards between ledger updates, nor over a date between appends. Nothing
  is assumed about the stamps of records or the clock of a pass: the theorem about derivation holds
  for every run, and says what depends on them.
- Servers, responses, the caller's function in the pool, case folding, the boolean-flag registry and
  the credential-name pattern are arbitrary functions. The response cache assumes that request keys
  do not collide and that only this client changes the server, by requests answered below 400.
- Characters in `Encodings.dfy` stand for bytes.

## What the proofs brought to light

- **Stamps and the pass clock.** Records are stamped in whole seconds while a pass reads a finer
  clock. A pass can give up a failure and a retry journaled right after it can still carry a stamp
  within the pairing window; its correction is then lost, although one pass over the whole log finds
  it (`Derivation.TruncatedStampLosesACorrection`). This is possible exactly for correctable failures
  whose window closes in the very second of the pass
  (`Derivation.BatchingIsHarmlessExactlyWhen`), and in a run only for a retry that became readable
  after the pass with a stamp from before it (`Derivation.LostOnlyToEarlyStamps`) -- also a record
  torn before its newline and completed by tail repair after the pass.
- **Recall families.** A pass files the corrections of a session under another family than one pass
  would exactly when the session's last recall was deleted and none before the offset survives, or
  when the newest one is a record left behind complete but for its newline and names another family
  than the last recall that was read: the reverse scan decodes such a record, no read returns it
  (`RecallFiling.SeedDiffersExactlyWhen`, with a run for either case).
- **Cancelled pools.** The comment on `FanoutRun` says that workers stop pulling jobs on cancellation.
  The code keeps draining the queue, and the feeder's `select` may even hand over further sources
  after the cancellation, which are pulled too: the workers pull exactly what was queued and what is
  still fed (`Fanout.CancelledPoolDrains`). They stop pulling under every schedule exactly when
  nothing is queued and the feeder is through (`Fanout.PullingStopsExactlyWhen`); the cancellation
  makes no difference to that. Each source pulled after it is recorded as cancelled without a call.
- **Values that start with a dash.** The shape of a command line is meant to hold flag names and value
  classes, never values. A separate value, or a positional behind `--`, that starts with a dash is
  taken for a flag, and its text is recorded as a key: `--token -hunter2` records `hunter2`
  (`ArgvShape.DashedValueIsRecorded`). The keys are exactly the names of the dash tokens of the line,
  so nothing but flag names is recorded exactly when every value or positional taken for a flag
  repeats the name of one (`ArgvShape.ShapeHoldsOnlyFlagsExactlyWhen`).
- **Combined selections.** A combined `--select` that matches contains a path that matches alone, but
  not the other way round: `a.z,b` matches nothing in `{"a":1,"items":[{"b":2}]}` and
  `orderdate.x,order-date` matches nothing in `{"orderDate":1}`, while `b` and `order-date` do. The
  selections without this defect are exactly those in which no path can match at all, or every head
  is also selected whole, or all paths share one head and have the property below it; paths with an
  empty head play no part (`FieldFilter.CombiningKeepsMatchesExactlyWhen`).
- **Kebab-case selectors.** A field named by its kebab-case form is kept whole exactly when no other
  path claims the lower-case form of the same key, or one claims it whole
  (`FieldFilter.KebabIsKeptExactlyWhen`): with `orderdate.x,order-date` nothing of
  `{"orderDate":{"y":1}}` is kept.
- **Torn acceptances.** A mutation the server accepts but whose response body breaks off leaves the
  cache in place, and a later GET serves the stale body. The caching client refines the uncached one
  throughout a run exactly when no such call changes a representation that is cached at that moment
  (`ResponseCache.CachedRefinesUncached`).
- **Huge `Retry-After` values.** Seconds times a second is not guarded against 64-bit overflow. Up to
  9223372036 seconds the header is honoured up to a minute; `Retry-After: 10000000000` yields a
  negative delay, and so no back-off (`RetryLoop.HugeRetryAfterIsNegative`). Such a header also
  defeats the retry budget: the call is retried although the budget has run out
  (`RetryLoop.HugeRetryAfterDefeatsBudget`). A back-off is scheduled after the budget has run out
  exactly when a 429 carries a number of seconds that wraps to a delay of at most the budget minus the
  time elapsed (`RetryLoop.BacksOffLateExactlyWhen`); without overflow the budget bounds the start of
  every back-off (`RetryLoop.BudgetHoldsWithoutOverflow`).
- **Single pages.** A one-page cursor listing of an endpoint that declares neither a next cursor nor a
  has-more field is marked as truncated (`Pagination.CursorPagesAreComplete`).
- **TRACE** is idempotent by section 4.2.2 of RFC 7231 but is not retried.

## Model

| member | source | states |
|---|---|---|
| `EditDistance.ShortScript` | internal/learn/derive.go:393-422 | a script of exactly `Dist(a, b)` single insertions, deletions and substitutions turns `a` into `b` |
| `EditDistance.NoShorterScript` | internal/learn/derive.go:393-422 | no script that turns `a` into `b` is shorter |
| `EditDistance.EditDistanceIsDist` | internal/learn/derive.go:393-422 | a number is the length of a shortest script if and only if it is `Dist(a, b)` |
| `EditDistance.OneEdit` | internal/learn/derive.go:393-422 | one edit anywhere in a word moves it by at most one |
| `EditDistance.DistSymmetric` | internal/learn/derive.go:393-422 | the distance is symmetric |
| `EditDistance.DistTriangle` | internal/learn/derive.go:393-422 | the distance satisfies the triangle inequality |
| `EditDistance.EditDistance` | internal/learn/derive.go:393-422 | the program over freshly allocated rows returns the distance |
| `EditDistance.FillFreshRows` | internal/learn/derive.go:396-421 | its loops fill the last cell of the table of prefix distances |
| `EditDistance.LevenshteinDistance` | internal/cli/helpers.go:1543-1580 | the argument-swapping two-row program returns the same distance |
| `EditDistance.FillTwoRows` | internal/cli/helpers.go:1553-1579 | its loops over two swapped rows fill the last cell of the same table |
| `Journal.LinesSplit` | internal/learn/journal.go:387-404 | reading up to a line boundary and then on is reading once |
| `Journal.LinesGrow` | internal/learn/journal.go:217-254 | an append never changes the lines that are already complete |
| `Journal.CompleteEnds` | internal/learn/journal.go:387-404 | what a read consumes ends in a newline and what it leaves is a torn line without one |
| `Journal.DroppedIsLeast` | internal/learn/journal.go:325-349 | retention removes the shortest prefix of segments after which the age and size caps hold, and never the newest segment |
| `Journal.JournalDir.RepairTail` | internal/learn/journal.go:256-287 | terminates a torn last line of the segment and changes nothing else; what that is for is stated by `Journal.AppendedIsLastLine` |
| `Journal.JournalDir.Append` | internal/learn/journal.go:217-254 | the record goes behind the repaired newest segment, or into a new one, and then retention applies |
| `Journal.AppendedIsLastLine` | internal/learn/journal.go:217-287 | behind whatever a crash left in the segment, the appended record is a complete line of its own, and all earlier lines stay |
| `Journal.WrittenIsLastLine` | internal/learn/journal.go:217-254 | after an append the newest segment is that of the day and its last complete line is the record |
| `Journal.LinesAfterAppend` | internal/learn/journal.go:217-287 | an append adds to the lines behind any boundary the torn record it closes off, if there is one, and the new record |
| `Journal.LinesReadBack` | internal/learn/journal.go:387-404 | the lines are the data cut at its newlines, up to the last one |
| `Journal.DecodesExactlyWhen` | internal/learn/journal.go:387-404 | a line yields an entry if and only if it opens an object and decodes |
| `Journal.ReadsFromOffset` | internal/learn/journal.go:359-386 | a segment is read from the offset if it is the one named, from the front if it is later, and not at all if it is earlier or ends before the offset |
| `Journal.RetentionIsRight` | internal/learn/journal.go:325-349 | retention leaves the newest segment alone, or nothing older than fourteen days and at most five mebibytes, and removes no segment that it could have left |
| `Journal.JournalDir.Cleanup` | internal/learn/journal.go:325-349 | the running-total loop removes exactly the prefix of `Dropped` |
| `Journal.JournalDir.ReadSegment` | internal/learn/journal.go:387-404 | returns the decodable complete lines from the start position and stops behind the last of them |
| `Journal.JournalDir.ReadFrom` | internal/learn/journal.go:359-409 | returns the entries at or after the offset in log order, and the offset behind the last complete line |
| `Journal.WriteKeepsExact` | internal/learn/journal.go:217-287 | an append, complete or torn, keeps the reader's guarantee |
| `Journal.CleanKeepsExact` | internal/learn/journal.go:325-349 | retention keeps the reader's guarantee |
| `Journal.ReadDelivers` | internal/learn/journal.go:359-409 | one read delivers exactly the lines between the old and the new cursor |
| `Journal.ReadKeepsExact` | internal/learn/journal.go:359-409 | a read resumed from the stored offset keeps the reader's guarantee |
| `Journal.RunIsExact` | internal/learn/journal.go:217-409 | over any run, complete entries are returned at most once and in log order, nothing ahead of the cursor was returned, and behind it only entries of deleted segments are missing |
| `Journal.AppendIsWriteThenClean` | internal/learn/journal.go:217-254 | on the surviving segments an append of the directory is the events append and retention of a run over all segments |
| `Journal.ReadsAddUp` | internal/learn/journal.go:359-409 | while nothing was deleted, all entries returned so far followed by the unread ones are one read of everything |
| `FlagCorrections.NormalForm` | internal/learn/derive.go:384-391 | bare, with any number of dashes, or surrounded by space: the normal form of a flag reference is two dashes and the name |
| `FlagCorrections.NoName` | internal/learn/derive.go:384-391 | a token of nothing but space and dashes names no flag |
| `FlagCorrections.DoubleDashForm` | internal/learn/derive.go:384-391 | a reference in double-dash form is its own normal form |
| `FlagCorrections.SanitizedInvocationExample` | internal/learn/derive.go:368-379 | the example is the verbs followed by the flag names in ascending order |
| `FlagCorrections.ExampleIs` | internal/learn/derive.go:368-379 | the example is the verbs and each flag of the entry once, with two dashes and in ascending order, whatever way they are listed |
| `FlagCorrections.ScanStep` | internal/learn/derive.go:262-282 | one key of the map, in any order, keeps best name, best distance and the ambiguity flag right for the keys seen |
| `FlagCorrections.ScanResult` | internal/learn/derive.go:283-297 | after all keys the loop variables give the unique closest added flag, if it is close enough |
| `FlagCorrections.InferCorrectedFlag` | internal/learn/derive.go:247-298 | the inferred flag is the added flag strictly closer than every other added one, within half the shorter name, whatever the iteration order |
| `FlagCorrections.CorrectedFlagForPair` | internal/learn/derive.go:236-245 | returns the flag of `Corrected`, which `FlagCorrections.CorrectedExactlyWhen` pins down by the two entries alone |
| `FlagCorrections.CorrectedExactlyWhen` | internal/learn/derive.go:236-298 | a pair is corrected to a flag if and only if it is the suggestion and the retry uses it or, without a suggestion, the new flag of the retry strictly closest to the failed name, one edit or half of either name away at most |
| `FlagCorrections.CorrectionWasUsed` | internal/learn/derive.go:236-245 | a correction names a flag the retry used |
| `FlagCorrections.InferredExactlyWhen` | internal/learn/derive.go:247-298 | without a suggestion, the same in terms of the new flags of the retry |
| `FlagCorrections.CorrectableExactlyWhen` | internal/learn/derive.go:236-298 | some retry can correct a failure if and only if its suggestion differs from the failed flag or, without a suggestion, a close flag name exists that the failed attempt did not have |
| `FlagCorrections.CorrectingRetry` | internal/learn/derive.go:236-298 | such a retry, successful and at any given time |
| `FlagCorrections.PairingRule` | internal/learn/derive.go:65-96 | a failure is corrected to a flag, with an example, if and only if it failed on a flag that exists nowhere, its next invocation in the session succeeds within fifteen minutes and corrects it to that other flag, and the example is that of this invocation |
| `FlagCorrections.UndecidedExactlyWhen` | internal/learn/derive.go:160-229 | a failure stays open if and only if it failed on a flag that exists nowhere and its command was not invoked again in its session |
| `FlagCorrections.CorrectionSays` | internal/learn/derive.go:216-226 | the recorded correction holds the verbs, the failed flag in normal form, the corrected flag, the example and the family of the session |
| `FlagCorrections.FamilyIsLastRecall` | internal/learn/derive.go:160-180 | the family of a session is that of its last recall that names one, and otherwise the seeded one |
| `FlagCorrections.NextInvocation` | internal/learn/derive.go:195-201 | finds the first later entry with the same verbs in the same session |
| `FlagCorrections.PairFlagCorrections` | internal/learn/derive.go:160-229 | returns the corrections of all failures of the batch in order, and reports pending exactly when some undecided failure is within the window |
| `RecallSeed.FamiliesConcat` | internal/learn/derive.go:303-340 | a later recall of a session overrides an earlier one |
| `RecallSeed.AllFound` | internal/learn/derive.go:319-319 | the early-exit test stops holding exactly when every wanted session has a family |
| `RecallSeed.ScanRecallFamiliesReverse` | internal/learn/derive.go:342-363 | the reverse scan of a segment equals a forward pass over it under the families already found |
| `RecallSeed.EnoughScanned` | internal/learn/derive.go:303-340 | once every session has a family, older segments change nothing |
| `RecallSeed.SessionRecallFamiliesBeforeBatch` | internal/learn/derive.go:303-340 | the seed is the last-write-wins family of each batch session over everything before the offset, for any segment split |
| `Derivation.JudgeInPrefix` | internal/learn/derive.go:160-229 | later entries never change what was decided about a failure; an undecided one is decided by the first matching entry among them |
| `Derivation.JudgeInSuffix` | internal/learn/derive.go:160-229 | a failure of the batch is judged the same with and without the log before it |
| `Derivation.BatchCompletes` | internal/learn/derive.go:97-147 | the corrections of a batch on its own complete those of the prefix to those of both, without the failures given up |
| `Derivation.BatchGivesUp` | internal/learn/derive.go:65-96 | every failure a pass leaves undecided is accounted for as given up |
| `Derivation.Deriver.constructor` | internal/learn/journal.go:413-431 | derivation starts at the zero offset with no candidates |
| `Derivation.Deriver.Derive` | internal/learn/derive.go:97-147 | a pending or empty pass changes nothing; a successful one records the corrections of the batch in order and advances the offset; a store error leaves the offset and the observations recorded before it; every pass is the step `Advance` of a run |
| `Derivation.PassWaitsExactlyWhen` | internal/learn/derive.go:97-147 | a pass leaves everything as it is if and only if some failure of the batch may still be corrected; otherwise it records the corrections of the batch and leaves nothing unread |
| `Derivation.WriteExtendsUnread` | internal/learn/journal.go:217-287 | an append only adds entries behind those already unread |
| `Derivation.AppendIsUnread` | internal/learn/journal.go:217-287 | an appended record becomes the last unread entry, preceded by what was unread and by the torn record it closes off, if there is one |
| `Derivation.ReadLeavesNothing` | internal/learn/journal.go:359-409 | after a read has been committed nothing complete is unread |
| `Derivation.ConsumedIsDelivered` | internal/learn/derive.go:303-363 | what the scan before the offset decodes is what reads have returned |
| `Derivation.SeedIsFull` | internal/learn/derive.go:303-363 | the seed names the family a pass over everything consumed would have |
| `Derivation.LogKeepsOnePass` | internal/learn/journal.go:217-349 | appends, torn appends and retention keep the one-pass property, whatever the stamps |
| `Derivation.PassKeepsOnePass` | internal/learn/derive.go:97-147 | a pass at any time, with or without a store error, keeps the one-pass property |
| `Derivation.RunKeepsOnePass` | internal/learn/derive.go:65-147 | every run keeps the one-pass property |
| `Derivation.DerivationIsOnePass` | internal/learn/derive.go:65-147 | after any run everything one pass over the whole log finds for failures not given up was recorded in order, and without store errors exactly that; it equals one pass if and only if no failure given up has a correction in the whole log |
| `Derivation.UntornRunsAreFiled` | internal/learn/derive.go:65-147 | in a run in which no record is torn and no segment deleted every pass starts from the right families, so that without store errors the corrections recorded are, families included, those of one pass for the failures not given up |
| `Derivation.SubsequenceExactlyWhen` | internal/learn/derive.go:97-147 | a list was recorded in order within another if and only if its elements stand at ascending positions of it |
| `Derivation.LostOnlyToEarlyStamps` | internal/learn/derive.go:160-229 | a correction is lost only to a retry that became readable after the pass that gave the failure up, with a stamp from before that pass |
| `Derivation.OnTimeRunsAreOnePass` | internal/learn/derive.go:65-147 | without store errors, with whole-second stamps no earlier than the second of the passes before them, and with no failure given up in the second its window closes, the passes record exactly what one pass finds |
| `Derivation.SkippingLoses` | internal/learn/derive.go:160-229 | leaving failures out changes the corrections exactly when one of them has a correction |
| `Derivation.CorrectionsAreFinal` | internal/learn/derive.go:160-229 | entries stamped from a time on leave the corrections as they are, whatever they are, if and only if no undecided correctable failure has its window open at that time |
| `Derivation.OpenCanBeCorrected` | internal/learn/derive.go:160-229 | each such failure is corrected by a retry stamped within that window |
| `Derivation.BatchingIsHarmlessExactlyWhen` | internal/learn/derive.go:97-147 | giving up at a pass is harmless, whatever is stamped in its second or later, if and only if no undecided correctable failure has its window close in that very second |
| `Derivation.TruncatedStampLosesACorrection` | internal/learn/derive.go:97-147 | one such failure and retry: the correction one pass finds is lost by batching |
| `RecallFiling.TornNewestWins` | internal/learn/derive.go:342-363 | a torn record that is the newest recall of a session decides its seed |
| `RecallFiling.ScanFindsSurviving` | internal/learn/derive.go:303-363 | without one the scan finds what reads have returned of the surviving segments |
| `RecallFiling.SeedDiffersExactlyWhen` | internal/learn/derive.go:303-340 | the seed and one pass over everything consumed name different families for a session if and only if its recall was deleted with none surviving, or a torn record misleads the scan |
| `RecallFiling.PassStaysFiledExactlyWhen` | internal/learn/derive.go:97-147 | a committed pass starts from the right families if and only if no session of its batch is forgotten or misled |
| `RecallFiling.DeletedRecallIsForgotten` | internal/learn/journal.go:325-349 | a run with retention in which a correction is filed under no family instead of the recalled one |
| `RecallFiling.TornRecallMisleads` | internal/learn/derive.go:342-363 | a run with a torn record in which a correction is filed under its family instead of none |
| `TokenBucket.EndpointLimiter.constructor` | internal/platform/ratelimit.go:68-102 | a limiter takes over the ledger an earlier process left, if any |
| `TokenBucket.EndpointLimiter.Wait` | internal/platform/ratelimit.go:93-144 | a call refills, then takes a token or reserves the next free slot, and sleeps until its grant |
| `TokenBucket.RefillIsExact` | internal/platform/ratelimit.go:103-114 | refilling moves the virtual time exactly as the exact bucket does |
| `TokenBucket.TakeIsNearlyExact` | internal/platform/ratelimit.go:115-131 | a call moves the virtual time by one period; only a reservation rounds, up and by less than a nanosecond |
| `TokenBucket.LedgerStaysConsistent` | internal/platform/ratelimit.go:103-131 | from no ledger or a consistent one, tokens stay between zero and burst, and a ledger stamped in the future holds none |
| `TokenBucket.LedgerTracksExact` | internal/platform/ratelimit.go:103-131 | the ledger is never behind the exact bucket, and ahead by less than a nanosecond per reservation |
| `TokenBucket.GrantTracksExact` | internal/platform/ratelimit.go:93-144 | no grant is earlier than the exact one, and none is later by a nanosecond or more per reservation made |
| `TokenBucket.ExactIsLatestDue` | internal/platform/ratelimit.go:103-131 | the exact bucket grants a call the latest of the times at which the calls since some earlier one, or the ledger it started from, leave it a token |
| `TokenBucket.WaitIsForced` | internal/platform/ratelimit.go:93-144 | a call is granted no earlier than each of those times and than it came, and no later than one of them, but for less than a nanosecond per reservation |
| `TokenBucket.BurstIsImmediate` | internal/platform/ratelimit.go:93-144 | from a fresh bucket the first `burst` calls are let through at once |
| `TokenBucket.VirtualGrows` | internal/platform/ratelimit.go:103-131 | every further call moves the virtual time by at least a period |
| `TokenBucket.BurstBound` | internal/platform/ratelimit.go:93-144 | calls `i` to `j` number at most burst plus what accrues between their grants |
| `TokenBucket.GrantsAscend` | internal/platform/ratelimit.go:93-144 | grants are handed out in call order |
| `Fanout.StartInv` | internal/cliutil/fanout.go:86-103 | the invariant holds before the first step |
| `Fanout.StepPlaced` | internal/cliutil/fanout.go:103-158 | every step keeps each source in exactly one place: unfed, queued, with one worker, or done |
| `Fanout.StepSettled` | internal/cliutil/fanout.go:103-158 | every step keeps slots filled exactly for the sources that are done, by their one call or by cancellation |
| `Fanout.StepInv` | internal/cliutil/fanout.go:103-158 | every step keeps the whole invariant |
| `Fanout.NoDeadlock` | internal/cliutil/fanout.go:103-160 | until the pool has finished, the feeder or a worker can move without any cancellation |
| `Fanout.StepsRunOut` | internal/cliutil/fanout.go:103-160 | every step decreases a non-negative measure |
| `Fanout.SchedulesAreBounded` | internal/cliutil/fanout.go:103-160 | a schedule is no longer than the measure at its start and keeps the invariant |
| `Fanout.ScheduleLength` | internal/cliutil/fanout.go:103-160 | a whole run takes at most four moves a source, one a worker and two more |
| `Fanout.FinishedIsComplete` | internal/cliutil/fanout.go:52-78 | at the end each source holds exactly one of result and error, from its single call, or a cancellation of a source never called |
| `Fanout.ResultsPartition` | internal/cliutil/fanout.go:162-172 | results and errors partition the sources and each keeps source order |
| `Fanout.FinishedIsReported` | internal/cliutil/fanout.go:52-78 | at the end a returned value is the only result of its source, a failure, a panic or a cancellation without a call its only error |
| `Fanout.FanoutRun` | internal/cliutil/fanout.go:78-173 | for every interleaving, cancellation and outcome the pool finishes, every call's outcome is what the caller's function answered for that source, and each source is reported: a value it returned as its only result, an error or a panic as its only error, and one never called as cancelled |
| `Fanout.NoCallsOnceCancelled` | internal/cliutil/fanout.go:124-130 | once the context is cancelled the function is never called again |
| `Fanout.PullsAreExact` | internal/cliutil/fanout.go:103-158 | until the pool finishes the workers pull exactly as many sources as were queued and are still fed |
| `Fanout.QueueIsBounded` | internal/cliutil/fanout.go:86-103 | the queue never holds more than two sources a worker |
| `Fanout.FeederWaitsExactlyWhen` | internal/cliutil/fanout.go:143-158 | the feeder waits if and only if the queue is full and the context is not cancelled |
| `Fanout.CancelledPoolDrains` | internal/cliutil/fanout.go:103-158 | the same from a cancelled state, and none of what is pulled is passed to the function |
| `Fanout.FinishingSchedule` | internal/cliutil/fanout.go:103-160 | from every reachable state some schedule finishes the pool |
| `Fanout.PullingStopsExactlyWhen` | internal/cliutil/fanout.go:48-78 | the workers pull nothing more, under every schedule, if and only if nothing is queued and the feeder is through |
| `Fanout.FeedsAfterCancel` | internal/cliutil/fanout.go:143-158 | a pool cancelled with nothing queued can still feed a source, which a worker can pull |
| `Fanout.PullsAfterCancel` | internal/cliutil/fanout.go:103-158 | a pool with a source reaches a cancelled state in which a worker can pull it |
| `Fanout.FeederStep` | internal/cliutil/fanout.go:143-158 | a step of the feeder feeds the next source, marks the rest as cancelled or closes the channel, and nothing else |
| `Fanout.WorkerStep` | internal/cliutil/fanout.go:103-141 | a step of a worker pulls a job, looks at the context, fills its slot or leaves, and nothing else |
| `Fanout.CheckContext` | internal/cliutil/fanout.go:124-130 | a cancelled context fills the slot instead of the call |
| `Fanout.FillSlot` | internal/cliutil/fanout.go:112-138 | value, error or panic of the call fills exactly its slot; what the caller is told of it is `Fanout.FinishedIsReported` |
| `Fanout.MarkCancelled` | internal/cliutil/fanout.go:148-154 | marks exactly the sources not yet fed as cancelled |
| `Fanout.Collect` | internal/cliutil/fanout.go:162-172 | the collection loop lists results and errors in source order |
| `Pagination.PaginatedGet` | internal/cli/helpers.go:276-441 | the loop returns the items, truncation marks, requests and cursors of the recursive description of the fetches |
| `Pagination.NextAfterObject` | internal/cli/helpers.go:344-425 | behind an object body the loop goes on with the body cursor, the client-side cursor or not at all, and records why it stops |
| `Pagination.SinglePage` | internal/cli/helpers.go:294-301 | one request, and a truncation is recorded exactly when the response advertises more |
| `Pagination.FetchIsBounded` | internal/cli/helpers.go:321-429 | at least one and at most a hundred requests, whatever the server answers |
| `Pagination.NothingIsDropped` | internal/cli/helpers.go:321-440 | whatever the server does, every item of every response is returned, once and in order, unless a request fails, and then nothing is |
| `Pagination.TokensAreDistinct` | internal/cli/helpers.go:353-379 | body cursors are non-empty, never followed twice, and each is what the next request carries |
| `Pagination.SentCursorsAreDistinct` | internal/cli/helpers.go:313-379 | a cursor endpoint never receives the same cursor twice, the starting one included |
| `Pagination.TruncationIsRecorded` | internal/cli/helpers.go:321-440 | if the last response advertised more, a truncation reason was recorded |
| `Pagination.ReasonsAreTrue` | internal/cli/helpers.go:321-440 | the reasons recorded are true: the page cap means a hundred requests, a repeated cursor one that was sent before, a missing cursor a response that said there was more, a missing signal a single page of an endpoint that declares none |
| `Pagination.NextPosition` | internal/cli/helpers.go:453-484 | the next client-side cursor points exactly one page further |
| `Pagination.FirstRequestAsks` | internal/cli/helpers.go:281-312 | the first request asks for pages of the size the loop counts with, from the caller's position |
| `Pagination.PageSizeIs` | internal/cli/helpers.go:303-317 | the page size is the caller's limit if that is a positive number, otherwise the endpoint's positive default, otherwise a hundred |
| `Pagination.RequestsCarryTheParameters` | internal/cli/helpers.go:281-312 | every request carries exactly the caller's parameters that are neither empty nor `0` nor `false`, apart from the cursor and, on numeric endpoints, the page size, which it always carries |
| `Pagination.GoesOnExactlyWhen` | internal/cli/helpers.go:321-440 | another page is fetched if and only if fewer than a hundred were and the body holds a new cursor or, without one, the position can be counted on and the response says that there is more or, with no signal declared, was a full page |
| `Pagination.FaithfulFetch` | internal/cli/helpers.go:321-440 | from any turn on, the items are the covered part of the list and the mark is set exactly when the end is not reached |
| `Pagination.NumericPagesAreComplete` | internal/cli/helpers.go:276-451 | against a faithful offset or page server, with pages of the caller's positive limit, otherwise the endpoint's positive default, otherwise a hundred, the list from the caller's position is returned once each and in order as far as a hundred pages reach, unmarked if and only if they reach its end |
| `Pagination.ChainFetch` | internal/cli/helpers.go:353-379 | from any page of a cursor chain on, the items are the following pages |
| `Pagination.CursorPagesAreComplete` | internal/cli/helpers.go:276-441 | against a faithful cursor server the chain is returned up to a hundred pages, and exactly a longer chain, or an undeclared single page, is marked |
| `FieldFilter.ProjectIdempotent` | internal/cli/helpers.go:1000-1073 | projecting twice is projecting once |
| `FieldFilter.SelectionIdempotent` | internal/cli/helpers.go:1019-1046 | the same for an object with a matching key |
| `FieldFilter.EnvelopeIdempotent` | internal/cli/helpers.go:1075-1116 | the same for the list-envelope and `_embedded` fallbacks, which also stay envelopes |
| `FieldFilter.FilterFieldsIdempotent` | internal/cli/helpers.go:916-954 | a selection applied to its own output changes nothing |
| `FieldFilter.SelectedIsKept` | internal/cli/helpers.go:916-918 | what a selector leads to, by lower-case or kebab-case names, is kept whole and in place, whatever is selected with it, unless the selection also wants the lower-case form of a kebab-case name |
| `FieldFilter.AddressSurvivesExactlyWhen` | internal/cli/helpers.go:1000-1130 | the result holds exactly the addresses along which some path leads: through selected keys at objects that have one, through every element of lists, and through the lists of list envelopes |
| `FieldFilter.ScalarSurvivesExactlyWhen` | internal/cli/helpers.go:1000-1130 | the numbers, strings and booleans of the result are exactly those of the data at such addresses, in place |
| `FieldFilter.OnlySelectedKeys` | internal/cli/helpers.go:1019-1046 | an object with a selected key keeps exactly its selected keys |
| `FieldFilter.KebabIsKeptExactlyWhen` | internal/cli/helpers.go:1120-1130 | a field named in kebab case is kept whole in every object if and only if no path claims its lower-case form, or one claims it whole |
| `FieldFilter.KebabCanBeShadowed` | internal/cli/helpers.go:1120-1130 | one such field is lost |
| `FieldFilter.ProjectWithin` | internal/cli/helpers.go:1000-1073 | a projection only leaves fields out: nothing is invented, renamed or moved, and lists keep their length |
| `FieldFilter.EnvelopeWithin` | internal/cli/helpers.go:1075-1116 | the same for the envelope fallbacks |
| `FieldFilter.ReportedIsMatchedOrOpen` | internal/cli/helpers.go:1000-1073 | a selection reports exactly its matches and the nulls and empty lists it reaches before it is satisfied |
| `FieldFilter.FilterFieldsWhenSelected` | internal/cli/helpers.go:930-954 | a selection projects if it matches or leaves such a null or empty list open, and otherwise leaves the data alone, as no selection does; without them matching alone decides |
| `FieldFilter.MatchedByOnePath` | internal/cli/helpers.go:930-954 | a combined selection that matches contains a path that matches on its own |
| `FieldFilter.SameSegment` | internal/cli/helpers.go:1120-1130 | a key matches the same segment in the whole selection and in the path responsible |
| `FieldFilter.MatchedExactlyWhenRouted` | internal/cli/helpers.go:1000-1116 | a selection matches if and only if one of its paths has a route under it: at every object the segment taken for some key is the one the path wants, or none is taken and the route leads through a list |
| `FieldFilter.RoutedMatchesAlone` | internal/cli/helpers.go:930-954 | a path with a route under the selection matches on its own |
| `FieldFilter.SafeKeepsMatch` | internal/cli/helpers.go:1000-1116 | a selection in which no path can match, or every head is selected whole, or all paths share one head and are safe below it, matches whatever one of its paths matches |
| `FieldFilter.MatchedIsLive` | internal/cli/helpers.go:1000-1130 | a path that matches has no empty segment |
| `FieldFilter.UnsafeLosesMatch` | internal/cli/helpers.go:1000-1116 | any other selection, with empty segments or without, loses a match in some data |
| `FieldFilter.CombiningKeepsMatchesExactlyWhen` | internal/cli/helpers.go:1000-1116 | of all selections exactly the safe ones match, in all data and under every case conversion, whatever one of their paths matches |
| `FieldFilter.CombiningCanLoseAMatch` | internal/cli/helpers.go:1047-1065 | one unsafe selection: a sibling of the list hides the match inside the list |
| `AdaptivePacing.AdaptiveLimiter.constructor` | internal/cliutil/ratelimit.go:54-68 | starts at the start rate with the floor at half a request or the start rate |
| `AdaptivePacing.StartsFresh` | internal/cliutil/ratelimit.go:54-68 | a limiter starts at the rate asked for, with a floor of half a request a second or that rate if it is less, and knows nothing of the server |
| `AdaptivePacing.AdaptiveLimiter.New` | internal/cliutil/ratelimit.go:54-68 | no limiter exactly when the rate is not positive |
| `AdaptivePacing.AdaptiveLimiter.ObserveHeaders` | internal/cliutil/ratelimit.go:95-128 | the new state follows the advertised budget: high-water mark, brake, clamp |
| `AdaptivePacing.AdaptiveLimiter.Wait` | internal/cliutil/ratelimit.go:130-146 | the caller goes on at the recorded slot |
| `AdaptivePacing.AdaptiveLimiter.OnSuccess` | internal/cliutil/ratelimit.go:148-180 | ten successes without headers ramp the rate, below nine tenths of the ceiling and the cap |
| `AdaptivePacing.AdaptiveLimiter.OnRateLimit` | internal/cliutil/ratelimit.go:182-205 | a 429 records the ceiling and halves the rate down to the floor |
| `AdaptivePacing.NextKeepsInv` | internal/cliutil/ratelimit.go:95-205 | every event keeps the bounds; a header-free ceiling never rises; after headers twice the rate is within the remaining allowance or the floor |
| `AdaptivePacing.HeadersSetThePace` | internal/cliutil/ratelimit.go:95-128 | headers set the pace to the largest allowance per second advertised so far, or to half of what remains if that is less, within floor and cap |
| `AdaptivePacing.HighWaterIsLargest` | internal/cliutil/ratelimit.go:95-128 | that allowance was advertised, and none larger |
| `AdaptivePacing.UselessHeaders` | internal/cliutil/ratelimit.go:95-100 | headers without a positive time or with a negative count change nothing |
| `AdaptivePacing.TenthSuccessRamps` | internal/cliutil/ratelimit.go:148-180 | without headers nine successes in a row leave the pace alone and the tenth raises it by a quarter, to nine tenths of the ceiling at most, within floor and cap |
| `AdaptivePacing.HeadersOutrankSuccesses` | internal/cliutil/ratelimit.go:148-156 | once headers drive the pace, any number of successes leaves it alone |
| `AdaptivePacing.RateLimitHalves` | internal/cliutil/ratelimit.go:182-205 | a 429 halves the pace, down to the floor, and the pace it came at becomes the ceiling |
| `AdaptivePacing.PaceStaysInBounds` | internal/cliutil/ratelimit.go:54-205 | over every sequence of events the rate stays between floor and cap and the inferred refill rate is the largest one advertised |
| `AdaptivePacing.CeilingsFall` | internal/cliutil/ratelimit.go:148-205 | without headers, the ceilings recorded at successive 429s never rise |
| `AdaptivePacing.RequestsAreSpaced` | internal/cliutil/ratelimit.go:130-146 | under a cap, slots `i` and `j` are at least `j - i` delays at the cap rate apart |
| `AdaptivePacing.DelayIsPeriod` | internal/cliutil/ratelimit.go:130-146 | the delay at a rate is a second over the rate, in whole nanoseconds |
| `AdaptivePacing.WaitsJustLongEnough` | internal/cliutil/ratelimit.go:130-146 | a request goes out one delay after the slot before it or, if that has passed or there is none, at once |
| `AdaptivePacing.RequestsKeepTheCap` | internal/cliutil/ratelimit.go:130-146 | from slot `i` to slot `j` pass as many seconds as `j - i` requests take at the cap, but for a nanosecond each |
| `RetryLoop.RetryAfterDelay` | internal/platform/ratelimit.go:263-288 | the delay is never above a minute, and negative exactly when a header that parses as seconds overflows 64 bits to a negative product |
| `RetryLoop.RetryAfterIsHonoured` | internal/platform/ratelimit.go:263-267 | a header in seconds is honoured up to a minute whenever the product fits 64 bits, and otherwise exactly when the wrapped product is still at least a minute |
| `RetryLoop.WrapsAround` | internal/platform/ratelimit.go:263-267 | wrapping changes a number by a multiple of 2^64, and a number of 64 bits not at all |
| `RetryLoop.DateIsHonoured` | internal/platform/ratelimit.go:268-272 | a header that names a time ahead is honoured up to a minute |
| `RetryLoop.DelayIsDrawn` | internal/platform/ratelimit.go:273-280 | without a usable header the delay is drawn from zero up to a second doubled with each attempt, to a minute at most, and can be any of these |
| `RetryLoop.BackoffsDouble` | internal/client/client.go:1044-1044 | the doubling starts at one and multiplies: powers of two |
| `RetryLoop.HugeRetryAfterIsNegative` | internal/platform/ratelimit.go:263-267 | ten thousand million seconds yield a negative delay |
| `RetryLoop.DoInternal` | internal/client/client.go:944-1150 | the loop ends in the verdict of the first attempt that does not go on, with the sends and back-offs up to it; the return behind the loop is unreachable |
| `RetryLoop.BacksOffExactlyWhen` | internal/client/client.go:1032-1145 | a back-off is scheduled if and only if the request may be replayed, attempts are left under both limits, the answer was a network error, a 429 or a server error, and the time so far and the delay fit a budget that is there |
| `RetryLoop.BackoffsFollowSends` | internal/client/client.go:962-1150 | each send but perhaps the last is followed by one back-off: of one, two, four seconds and so on, or for a 429 of what the server asks for |
| `RetryLoop.ResultIsLastAnswer` | internal/client/client.go:962-1150 | the caller is told the last answer, a 429 as a rate limit with the number of sends and the delay, unless pacing, the context or a body that broke off ended the call |
| `RetryLoop.SendsAreBounded` | internal/client/client.go:944-1150 | at most `min(clientMaxRetries, MaxAttempts - 1) + 1` sends, one when the request may not be replayed, and a rate-limit error reports the sends made |
| `RetryLoop.OnlyReplayableRequestsAreResent` | internal/platform/ratelimit.go:290-299 | a second send happens only for declared reads, idempotent methods (section 4.2.2 of RFC 7231) and keyed POST or PATCH; all idempotent methods but TRACE, and POST and PATCH with a key that is not blank, are replayable |
| `RetryLoop.BackoffsFitTheBudget` | internal/client/client.go:957-960 | no back-off is scheduled to end after the retry budget, and one with a delay that is not negative starts within it |
| `RetryLoop.BacksOffLateExactlyWhen` | internal/client/client.go:957-960 | a back-off is scheduled after the budget has run out if and only if a 429 carries seconds that wrap to a delay of at most the budget minus the time elapsed |
| `RetryLoop.HeaderDefeatsBudgetExactlyWhen` | internal/platform/ratelimit.go:263-267 | a header in seconds can defeat a budget at some time if and only if its product wraps to a negative number |
| `RetryLoop.BudgetHoldsWithoutOverflow` | internal/client/client.go:957-960 | as long as headers fit 64 bits of nanoseconds, every back-off starts within the budget |
| `RetryLoop.HugeRetryAfterDefeatsBudget` | internal/client/client.go:1105-1117 | with a budget of a second a call is retried after a hundred |
| `RetryLoop.SucceedsExactlyWhen` | internal/client/client.go:962-1150 | a call succeeds if and only if some attempt is answered below 400 after attempts that were all transient, replayable, within budget and uninterrupted |
| `ResponseCache.CachingClient.constructor` | internal/client/client.go:580-595 | a client takes over the cache on disk |
| `ResponseCache.CachingClient.Send` | internal/client/client.go:388-388 | a GET over the wire returns the current representation exactly when the retry loop succeeds |
| `ResponseCache.CachingClient.Get` | internal/client/client.go:375-393 | a live entry answers; otherwise the reply is fetched and, if cacheable, stored |
| `ResponseCache.CachingClient.GetNoCache` | internal/client/client.go:415-422 | skips the cache read and still stores a cacheable reply |
| `ResponseCache.AnsweredExactlyWhen` | internal/client/client.go:375-422 | a GET that finds a live entry it may use is answered with it whatever the network does; any other is answered, with the current representation, if and only if some attempt succeeds |
| `ResponseCache.GetStoresAnswer` | internal/client/client.go:375-422 | a cacheable GET that is answered leaves its answer in the cache; no other entry and nothing on the server changes |
| `ResponseCache.CachingClient.Mutate` | internal/client/client.go:914-1077 | verify mode touches nothing; a successful mutation drops every entry, a failed one none |
| `ResponseCache.MutationDropsExactlyWhen` | internal/client/client.go:1057-1077 | a mutation drops the whole cache if it succeeds outside verify mode and otherwise nothing |
| `ResponseCache.EntryStaysExactlyWhen` | internal/client/client.go:580-611 | over any run an entry is in the cache until a mutation succeeds; only another GET of it changes it or puts it back |
| `ResponseCache.RetriesHaveNoEffect` | internal/client/client.go:962-1150 | retries never repeat an accepted request |
| `ResponseCache.MutationEffect` | internal/client/client.go:962-1150 | a mutating call takes effect at most once, and exactly when it succeeds for the caller or its response breaks off behind a status below 400 |
| `ResponseCache.StepKeepsCoherent` | internal/client/client.go:375-422 | a call keeps each entry equal to what a fresh GET returns if and only if it is not a torn acceptance that changes a cached representation |
| `ResponseCache.RunStaysCoherent` | internal/client/client.go:375-422 | from any coherent cache a run stays coherent throughout if and only if none of its calls is one at the moment it is made |
| `ResponseCache.RefinesExactlyWhenCoherent` | internal/client/client.go:375-422 | the caching client answers every GET as the uncached one would, and only with current representations, if and only if its cache is coherent |
| `ResponseCache.CachedRefinesUncached` | internal/client/client.go:375-422 | over any run from a coherent cache the caching client refines the uncached one at every point if and only if no torn acceptance changes a representation cached at that moment |
| `ResponseCache.TornAcceptanceServesStale` | internal/client/client.go:1057-1077 | in any coherent state a torn acceptance that changes a cached representation makes the next cacheable GET of it serve the stale one |
| `SqlGate.TokensCover` | internal/mcp/tools.go:548-632 | the reference tokenizer loses nothing |
| `SqlGate.LineToken` | internal/mcp/tools.go:548-632 | two dashes open a comment that ends at the first newline, or with the text |
| `SqlGate.BlockToken` | internal/mcp/tools.go:548-632 | a block comment ends at the first end mark, or with the text, and does not nest |
| `SqlGate.QuoteToken` | internal/mcp/tools.go:548-632 | a text between quotes with its quotes doubled is one token, whatever it holds; without the closing quote it runs to the end |
| `SqlGate.BracketToken` | internal/mcp/tools.go:548-632 | a bracketed name ends at the first closing bracket |
| `SqlGate.CodeToken` | internal/mcp/tools.go:548-632 | any character that is not blank, ends no statement and opens nothing is code |
| `SqlGate.StrippedDropsNoise` | internal/mcp/tools.go:521-541 | stripping drops exactly the leading noise tokens, returns a suffix and is idempotent |
| `SqlGate.NoiseIsStripped` | internal/mcp/tools.go:521-541 | each blank, semicolon and comment is stripped from the front, and an unclosed comment with all that follows |
| `SqlGate.StrippedStartsWithCode` | internal/mcp/tools.go:521-541 | stripping stops at the end or at a character that is not blank, ends no statement and opens no comment, and changes nothing if and only if it starts there |
| `SqlGate.StripLeadingSqlNoise` | internal/mcp/tools.go:521-541 | the loop terminates and computes that suffix |
| `SqlGate.HasTrailingSqlStatement` | internal/mcp/tools.go:548-632 | the six-flag scanner, with at most one flag set, reports exactly whether the tokens behind the first semicolon hold more than whitespace, comments and semicolons |
| `SqlGate.TrailingIsSecondStatement` | internal/mcp/tools.go:543-547 | code trails the first semicolon if and only if a later statement is not empty |
| `SqlGate.StatementsAddUp` | internal/mcp/tools.go:504-547 | the statements before a semicolon and those behind it add up, and tokens without one are a statement if and only if they hold code or a quoted text |
| `SqlGate.DropNoiseKeepsStatements` | internal/mcp/tools.go:516-520 | leading noise does not change the number of statements |
| `SqlGate.StrippedStatements` | internal/mcp/tools.go:504-547 | a stripped query has code behind its first top-level semicolon if and only if the query holds two non-empty statements separated by top-level semicolons, or more |
| `SqlGate.ValidateReadOnlyQuery` | internal/mcp/tools.go:504-514 | a query of two or more statements separated by top-level semicolons is always refused, and a query passes if and only if it holds at most one and starts with SELECT or WITH behind the noise |
| `Encodings.ItemInjective` | internal/platform/profile.go:531-534 | a length-prefixed item is read back unambiguously whatever follows |
| `Encodings.StreamInjective` | internal/platform/profile.go:520-536 | equal streams hold equal items |
| `Encodings.CredentialStreamInjective` | internal/platform/profile.go:520-536 | equal fingerprint streams come from equal credential maps, whatever bytes they hold |
| `Encodings.StreamReadsBack` | internal/platform/profile.go:520-536 | a reader that takes each field by its length prefix recovers the names and values of the stream in turn |
| `Encodings.CredentialsInOrder` | internal/platform/profile.go:526-534 | the stream of a map starts with the entry whose name is least, and goes on with the stream of the others |
| `Encodings.WriteCredentials` | internal/platform/profile.go:520-536 | the loop writes that stream |
| `Encodings.EscapedIsPlain` | internal/client/client.go:521-522 | query escaping emits neither `=` nor `&` |
| `Encodings.EscapeInjective` | internal/client/client.go:521-522 | query escaping is injective on byte strings |
| `Encodings.EscapeReadsBack` | internal/client/client.go:521-522 | a reader of plus signs and of percent signs with two hexadecimal digits recovers the escaped bytes |
| `Encodings.EscapedExactlyWhen` | internal/client/client.go:521-522 | a text is its own escaped form if and only if it holds only letters, digits, dashes, underscores, dots and tildes; a space becomes a plus sign |
| `Encodings.JoinInjective` | internal/client/client.go:524-524 | a list of non-empty parts without the separator is determined by its joined form |
| `Encodings.CanonicalFormInjective` | internal/client/client.go:514-525 | distinct maps have distinct canonical forms |
| `Encodings.CanonicalInOrder` | internal/client/client.go:514-525 | the canonical form starts with the least key and its value, both escaped, with an equals sign between, and goes on behind an ampersand with that of the others |
| `Encodings.CanonicalStringMap` | internal/client/client.go:514-525 | the loop computes the canonical form |
| `Encodings.PairsDetermineMap` | internal/platform/profile.go:526-530 | the entries in ascending key order determine the map |
| `ArgvShape.JournalArgvShape` | internal/learn/journal.go:458-499 | the index loop computes the shape, and nothing for an empty one |
| `ArgvShape.OneFlagIsRecorded` | internal/learn/journal.go:458-499 | one flag is recorded as redacted if its name is credential-like, otherwise as a boolean without a value and as an integer or a string with one; a separate value is its own unless the flag takes none or the value starts with a dash |
| `ArgvShape.IntExactlyWhen` | internal/learn/journal.go:486-492 | a value counts as an integer if and only if, without the space around it, it spells a number of 64 bits |
| `ArgvShape.FlagIsTakenApart` | internal/learn/journal.go:461-472 | a flag token is taken apart into the name behind its dashes and the value behind its first equals sign |
| `ArgvShape.ShapesConcatenate` | internal/learn/journal.go:458-499 | the shape of a line is that of a first part overridden by that of the rest, if the rest starts with a dash token |
| `ArgvShape.KeysAreDashTokens` | internal/learn/journal.go:458-499 | the keys of a shape are exactly the non-empty names of the dash tokens of the line, wherever they stand |
| `ArgvShape.ShapeHoldsOnlyFlagsExactlyWhen` | internal/learn/journal.go:449-499 | of a line of flags, separate values and positionals the shape holds nothing but the names of its flags if and only if every value or positional taken for a flag repeats one of them |
| `ArgvShape.ValueIsRecordedExactlyWhen` | internal/learn/journal.go:458-499 | the separate value of a flag adds a key if and only if it is a dash token with a name other than that of the flag |
| `ArgvShape.DashedValueIsRecorded` | internal/learn/journal.go:449-499 | such a value: a credential that starts with a dash |
| `ArgvShape.ShapeRevealsOnlySkeleton` | internal/learn/journal.go:449-457 | command lines with the same dash tokens in the same places, arbitrary other positionals and other values of the same class give equal shapes |
| `ArgvShape.ShapeHoldsNoValues` | internal/learn/journal.go:449-457 | every recorded class is one of four words, and exactly the credential-like names are redacted; the keys are the subject of `KeysAreDashTokens` |
| `Strings.AtoiInvertsItoa` | internal/cli/helpers.go:453-484 | parsing a formatted integer gives it back |
| `Strings.AtoiExactlyWhen` | internal/cli/helpers.go:453-484 | a string parses as a number if and only if it spells it: a sign or none and the decimal digits behind any zeros |
| `Strings.LessExactlyWhen` | internal/learn/derive.go:370-374 | one string comes before another if and only if it is a proper prefix of it or has the smaller character where they first differ |
| `Strings.SortKeys` | internal/learn/derive.go:370-374 | taking least keys one by one sorts the keys of a map |
| `Strings.SortedKeysCorrect` | internal/learn/derive.go:370-374 | the sorted keys are exactly the keys, strictly ascending |
| `Strings.AscendingUnique` | internal/learn/derive.go:370-374 | there is only one way to list keys in strictly ascending order |
| `Strings.JoinSplits` | internal/learn/derive.go:376-379 | joining two lists is joining each, with the separator between |

## Left out

- Derivation.DerivationIsOnePass: after store errors it promises that nothing is missing, not that nothing is recorded twice, because the pass replays its batch.
- Derivation.Deriver.Derive: what the store does with an observation (signatures, merging, sightings) is only whether it accepts it.
- Journal.JournalDir.Append: the capture switch, marshalling and file errors are not modelled; a crash in mid-write is the event `Tear` of a run.
- Journal.JournalDir.ReadFrom: file read errors and segments that vanish during the read are not modelled.
- TokenBucket.LedgerStaysConsistent: a ledger left under another budget for the same endpoint class, with more tokens than the burst, is not covered.
- TokenBucket.EndpointLimiter.Wait: ledger file errors, the lock file with its stale-lock removal, and cancellation of the sleep are not modelled; the ledger update is one step.
- Fanout.FanoutRun: source names and the texts of errors and panics are not modelled, and the caller's function always returns.
- Pagination.PaginatedGet: finding the item list in a body and reading cursor tokens out of JSON are not modelled, a response is given by what they extract.
- FieldFilter.FilterFieldsWhenSelected: the distinction between anchored and fallback open questions only steers warnings and is not modelled.
- FieldFilter.MatchedByOnePath: the case conversions are arbitrary functions that turn no proper name into an empty one.
- FieldFilter.AddressSurvivesExactlyWhen: the same is assumed of the case conversions.
- Derivation.UntornRunsAreFiled: that the records read name their session is a premise, because the decoder is arbitrary.
- SqlGate.ValidateReadOnlyQuery: statements are what top-level semicolons separate; the semicolons in the body of a CREATE TRIGGER, one statement for SQLite, separate too.
- RetryLoop.DoInternal: building the request, authentication, dry runs, the calls into the adaptive limiter and the counters of the session are not modelled.
- ResponseCache.CachingClient.Get: the authentication check before a cached answer, cache file errors, content types and session metadata beyond "entry usable or not" are not modelled.
- Encodings.WriteCredentials: HMAC and SHA-256 over the stream are not modelled, nor resolving credential references and zeroing them.
- Encodings.CanonicalStringMap: the other parts of the cache key and its hash are not modelled.
- Cache keys, table names and file names are assumed not to collide.
- A corrupt offset file, which makes reading start over, is not modelled.
- Parsing of rate-limit and `Retry-After` headers: their values are inputs; a number of seconds beyond 64 bits does not parse and counts as absent.
- HTML and regular-expression extraction, command and tool registration, output formatting, configuration, profiles and receipts.
- File system, database, network and HTTP behaviour, environment switches and warning texts.
- Calendar and time-zone arithmetic: the date of a segment is a day number.
