/** Which recall family a correction is filed under (internal/learn/derive.go:
    `sessionRecallFamiliesBeforeBatch`): exactly when the scan before the offset and one pass over
    everything consumed name different families for a session, with a run for either case. */
module RecallFiling {
  import opened Wrappers
  import opened Journal
  import opened FlagCorrections
  import opened RecallSeed
  import opened Derivation

  /** What reads have returned of the surviving segments before the n-th. */
  ghost function Surviving(parse: Parser, w: World<Entry>, n: nat): seq<Entry>
    requires w.gone <= n <= |w.hist| == |w.got|
    requires forall i :: 0 <= i < |w.hist| ==> w.got[i] <= |Lines(w.hist[i].data)|
  {
    if n == w.gone then []
    else Surviving(parse, w, n - 1) + Entries(parse, Lines(w.hist[n - 1].data)[..w.got[n - 1]])
  }

  /** What reads have returned of the deleted segments. */
  ghost function Deleted(parse: Parser, w: World<Entry>): seq<Entry>
    requires Exact(parse, w)
  {
    Delivered(parse, w.hist, w.got, w.gone)
  }

  lemma {:induction false} DeletedAndSurviving(parse: Parser, w: World<Entry>, n: nat)
    requires Exact(parse, w) && w.gone <= n <= |w.hist|
    ensures Delivered(parse, w.hist, w.got, n) == Deleted(parse, w) + Surviving(parse, w, n)
  {
    hide Lines, Entries, Delivered, Exact;
    ExactBounds(parse, w);
    if n > w.gone {
      DeletedAndSurviving(parse, w, n - 1);
      DeliveredStep(parse, w.hist, w.got, n);
    }
  }

  /** What the scan decodes of the surviving segments from the i-th to the n-th. */
  ghost function Scanned(parse: Parser, w: World<Entry>, i: nat, n: nat): seq<Entry>
    requires i <= n <= |w.hist|
  {
    Consumed(parse, w.hist[i..n], w.off)
  }

  lemma ScannedStep(parse: Parser, w: World<Entry>, i: nat, n: nat)
    requires i < n <= |w.hist|
    ensures Scanned(parse, w, i, n) == Scanned(parse, w, i, n - 1) + ConsumedOf(parse, w.hist[n - 1], w.off)
  {
    hide ConsumedOf;
    assert w.hist[i..n] == w.hist[i..n - 1] + [w.hist[n - 1]];
    ConsumedConcat(parse, w.hist[i..n - 1], [w.hist[n - 1]], w.off);
    assert [w.hist[n - 1]][1..] == [];
  }

  lemma ScannedSplit(parse: Parser, w: World<Entry>, i: nat, m: nat, n: nat)
    requires i <= m <= n <= |w.hist|
    ensures Scanned(parse, w, i, n) == Scanned(parse, w, i, m) + Scanned(parse, w, m, n)
  {
    assert w.hist[i..n] == w.hist[i..m] + w.hist[m..n];
    ConsumedConcat(parse, w.hist[i..m], w.hist[m..n], w.off);
  }

  predicate Recalls(entries: seq<Entry>, session: string) {
    session in Families(map[], entries)
  }

  /** The newest recall of the session before the offset is a torn record that segment `i` was left
      behind with. */
  ghost predicate TornNewest(parse: Parser, w: World<Entry>, i: nat, n: nat, session: string)
    requires n <= |w.hist|
  {
    w.gone <= i < n && Recalls(Tail(parse, w, i), session) && !Recalls(Scanned(parse, w, i + 1, n), session)
  }

  ghost function TornFamily(parse: Parser, w: World<Entry>, i: nat, session: string): string
    requires i < |w.hist| && Recalls(Tail(parse, w, i), session)
  {
    Families(map[], Tail(parse, w, i))[session]
  }

  lemma Joined(x: seq<Entry>, y: seq<Entry>, session: string)
    ensures Recalls(x + y, session) <==> Recalls(x, session) || Recalls(y, session)
    ensures Recalls(y, session) ==> Families(map[], x + y)[session] == Families(map[], y)[session]
    ensures Recalls(x, session) && !Recalls(y, session) ==>
              Families(map[], x + y)[session] == Families(map[], x)[session]
  {
    hide Families;
    FamiliesConcat(map[], x, y);
  }

  /** A torn record that is the newest recall decides the seed. */
  lemma TornNewestWins(parse: Parser, w: World<Entry>, i: nat, n: nat, session: string)
    requires Exact(parse, w) && w.off.segment.Some? && n <= |w.hist| && TornNewest(parse, w, i, n, session)
    ensures Recalls(Scanned(parse, w, w.gone, n), session)
    ensures Families(map[], Scanned(parse, w, w.gone, n))[session] == TornFamily(parse, w, i, session)
  {
    hide Lines, Entries, Delivered, Families, Scanned, Exact, ConsumedOf, Tail;
    ExactBounds(parse, w);
    ScannedSplit(parse, w, w.gone, i + 1, n);
    ScannedStep(parse, w, w.gone, i + 1);
    SegmentConsumed(parse, w, i);
    var lines := Entries(parse, Lines(w.hist[i].data)[..w.got[i]]);
    Joined(lines, Tail(parse, w, i), session);
    Joined(Scanned(parse, w, w.gone, i), ConsumedOf(parse, w.hist[i], w.off), session);
    Joined(Scanned(parse, w, w.gone, i + 1), Scanned(parse, w, i + 1, n), session);
  }

  /** Without one the scan finds for the session what reads have returned of the surviving segments. */
  lemma {:induction false} ScanFindsSurviving(parse: Parser, w: World<Entry>, n: nat, session: string)
    requires Exact(parse, w) && w.off.segment.Some? && w.gone <= n <= |w.hist|
    requires forall i :: w.gone <= i < n ==> !TornNewest(parse, w, i, n, session)
    ensures Recalls(Scanned(parse, w, w.gone, n), session) <==> Recalls(Surviving(parse, w, n), session)
    ensures Recalls(Surviving(parse, w, n), session) ==>
              Families(map[], Scanned(parse, w, w.gone, n))[session] == Families(map[], Surviving(parse, w, n))[session]
  {
    hide Lines, Entries, Delivered, Families, Exact, ConsumedOf, Tail;
    ExactBounds(parse, w);
    if n == w.gone {
      assert w.hist[w.gone..n] == [];
    } else {
      hide Scanned;
      ScannedStep(parse, w, w.gone, n);
      SegmentConsumed(parse, w, n - 1);
      var lines, tail := Entries(parse, Lines(w.hist[n - 1].data)[..w.got[n - 1]]), Tail(parse, w, n - 1);
      NothingScanned(parse, w, n);
      assert !TornNewest(parse, w, n - 1, n, session);
      Joined(lines, tail, session);
      Joined(Scanned(parse, w, w.gone, n - 1), ConsumedOf(parse, w.hist[n - 1], w.off), session);
      Joined(Surviving(parse, w, n - 1), lines, session);
      if !Recalls(lines, session) {
        var m := n - 1;
        forall i | w.gone <= i < m
          ensures !TornNewest(parse, w, i, m, session)
        {
          assert !TornNewest(parse, w, i, n, session);
          ScannedStep(parse, w, i + 1, n);
          Joined(Scanned(parse, w, i + 1, n - 1), ConsumedOf(parse, w.hist[n - 1], w.off), session);
        }
        ScanFindsSurviving(parse, w, m, session);
      }
    }
  }

  lemma NothingScanned(parse: Parser, w: World<Entry>, n: nat)
    requires n <= |w.hist|
    ensures Scanned(parse, w, n, n) == [] && forall session :: !Recalls([], session)
  {
    assert w.hist[n..n] == [];
  }

  /** The last recall of the session was deleted, and none before the offset survives. */
  ghost predicate Forgotten(parse: Parser, w: World<Entry>, session: string)
    requires Exact(parse, w)
  {
    Recalls(Deleted(parse, w), session) && !Recalls(Scanned(parse, w, w.gone, |w.hist|), session)
  }

  /** A torn record left behind is the newest recall of the session and names another family than the
      last recall that was read, if any. */
  ghost predicate Misled(parse: Parser, w: World<Entry>, session: string)
    requires Exact(parse, w)
  {
    exists i: nat :: TornNewest(parse, w, i, |w.hist|, session)
                     && !(Recalls(w.out, session)
                          && Families(map[], w.out)[session] == TornFamily(parse, w, i, session))
  }

  /** A pass files the corrections of a session under another family than one pass over everything
      consumed would exactly when the session's recall is forgotten or a torn record misleads the
      scan. */
  lemma SeedDiffersExactlyWhen(parse: Parser, w: World<Entry>, batch: seq<Entry>, session: string)
    requires Exact(parse, w) && session in Sessions(batch)
    ensures SameSeed(Seed(parse, Alive(w), w.off, batch), Families(map[], w.out), session) <==>
              !Forgotten(parse, w, session) && !Misled(parse, w, session)
  {
    hide Lines, Entries, Delivered, Families, Exact, Consumed, Tail;
    ExactBounds(parse, w);
    var n := |w.hist|;
    if w.off.segment.None? {
      NoOffset(parse, w, session);
    } else {
      assert w.hist[w.gone..n] == Alive(w);
      DeletedAndSurviving(parse, w, n);
      hide Scanned, Deleted;
      var scanned, surviving := Scanned(parse, w, w.gone, n), Surviving(parse, w, n);
      assert Seed(parse, Alive(w), w.off, batch) == Restrict(Families(map[], scanned), Sessions(batch)) by {
        SeedIsScanned(parse, w, batch);
      }
      Joined(Deleted(parse, w), surviving, session);
      if i: nat :| TornNewest(parse, w, i, n, session) {
        TornNewestWins(parse, w, i, n, session);
        forall k: nat | TornNewest(parse, w, k, n, session)
          ensures TornFamily(parse, w, k, session) == TornFamily(parse, w, i, session)
        {
          TornNewestWins(parse, w, k, n, session);
        }
      } else {
        ScanFindsSurviving(parse, w, n, session);
      }
    }
  }

  lemma SeedIsScanned(parse: Parser, w: World<Entry>, batch: seq<Entry>)
    requires Exact(parse, w) && w.off.segment.Some?
    ensures Seed(parse, Alive(w), w.off, batch) ==
            Restrict(Families(map[], Scanned(parse, w, w.gone, |w.hist|)), Sessions(batch))
  {
    hide Lines, Entries, Delivered, Families, Consumed;
    assert w.hist[w.gone..|w.hist|] == Alive(w);
  }

  lemma NoOffset(parse: Parser, w: World<Entry>, session: string)
    requires Exact(parse, w) && w.off.segment.None?
    ensures w.out == [] && !Recalls(w.out, session)
    ensures !Forgotten(parse, w, session) && !Misled(parse, w, session)
    ensures forall batch :: Seed(parse, Alive(w), w.off, batch) == map[]
  {
    hide Lines, Entries, Delivered, Scanned;
    NothingDelivered(parse, w, |w.hist|);
    NothingDelivered(parse, w, w.gone);
    forall i: nat | i < |w.hist|
      ensures !Recalls(Tail(parse, w, i), session)
    {
      assert Tail(parse, w, i) == [];
    }
  }

  /** A committed pass keeps the run filed like one pass exactly when no session of its batch is
      forgotten or misled. */
  lemma PassStaysFiledExactlyWhen(parse: Parser, s: State, now: int, flagExists: FlagProbe)
    requires Bounded(s) && Exact(parse, s.w) && !Holds(parse, s.w, now, flagExists) && Named(Unconsumed(parse, s.w))
    ensures Advance(parse, s, now, None, flagExists).filed <==>
              s.filed && forall e :: e in Unconsumed(parse, s.w) ==>
                            !Forgotten(parse, s.w, e.session) && !Misled(parse, s.w, e.session)
  {
    hide Lines, Entries, Delivered, Families, Exact, Forgotten, Misled, Seed, Unread, Holds, SameSeed, Corrections,
         Undecideds, Advanced;
    var batch := Unconsumed(parse, s.w);
    forall e | e in batch
      ensures SameSeed(Seed(parse, Alive(s.w), s.w.off, batch), Families(map[], s.w.out), e.session) <==>
                !Forgotten(parse, s.w, e.session) && !Misled(parse, s.w, e.session)
    {
      assert e.session in Sessions(batch);
      SeedDiffersExactlyWhen(parse, s.w, batch, e.session);
    }
  }

  // ----- a run for either case -----

  const RECALL: Bytes := [BRACE, 1]
  const FAILURE: Bytes := [BRACE, 2]
  const RETRY: Bytes := [BRACE, 3]

  const RECALLED: Entry := Entry(Some(0), "s", ["recall"], map[], 0, "", "", "f")
  const FAILED: Entry := Entry(Some(0), "s", ["list"], map[], 1, "--limt", "--limit", "")
  const RETRIED: Entry := Entry(Some(0), "s", ["list"], map["limit" := "int"], 0, "", "", "")

  function ParseThree(line: Bytes): Option<Entry> {
    if line == RECALL then Some(RECALLED) else if line == FAILURE then Some(FAILED)
    else if line == RETRY then Some(RETRIED) else None
  }

  function NoSuchFlag(name: string): bool { false }

  /** The verdicts on the failure and its retry. */
  lemma Verdicts()
    ensures Judge([FAILED, RETRIED], 0, NoSuchFlag) == Paired("--limit", Example(RETRIED))
    ensures Judge([FAILED, RETRIED], 1, NoSuchFlag) == Ignored
    ensures NormalizeFlag("--limt") == "--limt" && Strings.Join(["list"], " ") == "list"
  {
    RetryRightBehind(FAILED, RETRIED, NoSuchFlag);
    LimitIsCorrected(FAILED, RETRIED);
    hide Judge, NormalizeFlag;
  }

  function Filed(family: string, example: string): Correction {
    Correction("list", "--limt", "--limit", example, family)
  }

  /** The correction of the pair on its own, filed by the seed. */
  lemma FiledBySeed(seed: map<string, string>)
    ensures Corrections([FAILED, RETRIED], seed, 0, 2, NoSuchFlag) == [Filed(Lookup(seed, "s"), Example(RETRIED))]
    ensures forall i :: 0 <= i < 2 ==> !IsPending([FAILED, RETRIED], i, 0, NoSuchFlag)
  {
    hide Example, Judge, NormalizeFlag;
    var pair := [FAILED, RETRIED];
    Verdicts();
    assert Families(seed, pair[..1]) == seed by { assert pair[..1] == [FAILED] && [FAILED][..0] == []; }
    hide Families;
    WalkStart(pair, seed, NoSuchFlag);
    WalkStep(pair, seed, 0, NoSuchFlag);
    WalkStep(pair, seed, 1, NoSuchFlag);
  }

  /** The same behind the recall, by one pass. */
  lemma FiledByOnePass()
    ensures Corrections([RECALLED, FAILED, RETRIED], map[], 0, 3, NoSuchFlag) == [Filed("f", Example(RETRIED))]
  {
    hide Example, Judge, NormalizeFlag;
    var log := [RECALLED, FAILED, RETRIED];
    Verdicts();
    assert Judge(log, 0, NoSuchFlag) == Ignored by { NoFailure(log, 0); }
    JudgeInSuffix([RECALLED], [FAILED, RETRIED], 0, NoSuchFlag);
    JudgeInSuffix([RECALLED], [FAILED, RETRIED], 1, NoSuchFlag);
    assert [RECALLED] + [FAILED, RETRIED] == log;
    hide Families, Corrections;
    WalkStart(log, map[], NoSuchFlag);
    WalkStep(log, map[], 0, NoSuchFlag);
    WalkStep(log, map[], 1, NoSuchFlag);
    WalkStep(log, map[], 2, NoSuchFlag);
  }

  lemma NoFailure(log: seq<Entry>, i: nat)
    requires i < |log| && log[i].exitCode == 0
    ensures Judge(log, i, NoSuchFlag) == Ignored
  {
  }

  // --- reading the few lines of the runs ---

  lemma TwoLines(a: Bytes, b: Bytes)
    requires NEWLINE !in a && NEWLINE !in b
    ensures Lines((a + [NEWLINE]) + (b + [NEWLINE])) == [a, b]
    ensures Complete((a + [NEWLINE]) + (b + [NEWLINE])) == |a| + |b| + 2
  {
    hide Lines, Complete;
    OneLine(a);
    OneLine(b);
    LinesSplit(a + [NEWLINE], b + [NEWLINE]);
  }

  lemma Decoded()
    ensures Entries(ParseThree, [RECALL]) == [RECALLED]
    ensures Entries(ParseThree, [FAILURE, RETRY]) == [FAILED, RETRIED]
    ensures Entries(ParseThree, [[0]]) == [] && Entries(ParseThree, [[0], []]) == []
  {
    assert [FAILURE, RETRY][1..] == [RETRY] && [RETRY][1..] == [] && [RECALL][1..] == [] && [[0]][1..] == [];
    assert Decode(ParseThree, FAILURE) == [FAILED] && Decode(ParseThree, RETRY) == [RETRIED];
  }

  const PAIR_LINES: Bytes := (FAILURE + [NEWLINE]) + (RETRY + [NEWLINE])

  lemma PairIsRead()
    ensures Entries(ParseThree, Lines(PAIR_LINES)) == [FAILED, RETRIED] && Complete(PAIR_LINES) == |PAIR_LINES|
  {
    hide Lines, Entries;
    TwoLines(FAILURE, RETRY);
    Decoded();
  }

  lemma RunStep(s: State, step: Step, rest: seq<Step>)
    requires Bounded(s) && CanHappen(s, step)
    ensures RunFrom(ParseThree, s, [step] + rest, NoSuchFlag) ==
            RunFrom(ParseThree, Perform(ParseThree, s, step, NoSuchFlag), rest, NoSuchFlag)
  {
    hide Perform, CanHappen;
    assert ([step] + rest)[1..] == rest;
  }

  lemma UnreadOne(seg: Segment, off: Offset)
    ensures Unread(ParseThree, [seg], off) == Fresh(ParseThree, seg, off)
  {
    hide Fresh;
    UnreadStep(ParseThree, [], seg, off);
    assert [] + [seg] == [seg];
  }

  /** The pass that consumes the pair, with the seed it starts from. */
  lemma PassOverPair(s: State, seed: map<string, string>)
    requires Bounded(s) && Unconsumed(ParseThree, s.w) == [FAILED, RETRIED] && s.w.hist != []
    requires Seed(ParseThree, Alive(s.w), s.w.off, [FAILED, RETRIED]) == seed
    ensures var s' := Perform(ParseThree, s, Pass(0, None), NoSuchFlag);
            && s'.w == ReadStep(ParseThree, s.w)
            && s'.emitted == s.emitted + [Filed(Lookup(seed, "s"), Example(RETRIED))]
  {
    hide Seed, Unread, Corrections, Example, Undecideds, Advanced;
    FiledBySeed(seed);
  }

  // --- the recall's segment is deleted ---

  const DELETING: seq<Step> := [
    Log(Append(0, RECALL)), Pass(0, None), Log(Append(20, FAILURE)), Log(Append(20, RETRY)),
    Log(Clean(20 * SECONDS_PER_DAY)), Pass(0, None)]

  const OLD: Segment := Segment(0, RECALL + [NEWLINE])
  const NEW: Segment := Segment(20, PAIR_LINES)

  ghost function BeforeDeleting(): State {
    State(World([OLD], 0, Offset(Some(0), 3), [RECALLED], 0, [1]), [], true, true, map[])
  }

  lemma RecallIsRead()
    ensures RunFrom(ParseThree, START, DELETING, NoSuchFlag) ==
            RunFrom(ParseThree, BeforeDeleting(), DELETING[2..], NoSuchFlag)
  {
    hide Lines, Entries, RunFrom;
    var s1 := Perform(ParseThree, START, DELETING[0], NoSuchFlag);
    assert s1.w == World([OLD], 0, ZERO_OFFSET, [], 0, [0]);
    assert DELETING == [DELETING[0]] + DELETING[1..] && DELETING[1..] == [DELETING[1]] + DELETING[2..];
    RunStep(START, DELETING[0], DELETING[1..]);
    RunStep(s1, DELETING[1], DELETING[2..]);
    FirstRecallRead(s1);
  }

  lemma FirstRecallRead(s: State)
    requires s == State(World([OLD], 0, ZERO_OFFSET, [], 0, [0]), [], true, true, map[])
    ensures Perform(ParseThree, s, Pass(0, None), NoSuchFlag) == BeforeDeleting()
  {
    hide Lines, Entries, Corrections, Seed, Undecideds, SameSeeds;
    OneLine(RECALL);
    Decoded();
    assert OLD.data[0..] == OLD.data && Alive(s.w) == [OLD];
    UnreadOne(OLD, ZERO_OFFSET);
    var batch := Unconsumed(ParseThree, s.w);
    assert batch == [RECALLED];
    OneRecall(Seed(ParseThree, Alive(s.w), s.w.off, batch));
    StartsFiled(s, batch);
    var w' := ReadStep(ParseThree, s.w);
    assert w'.got == [1];
  }

  lemma StartsFiled(s: State, batch: seq<Entry>)
    requires Bounded(s) && s.w.off == ZERO_OFFSET && s.w.out == []
    ensures SameSeeds(Seed(ParseThree, Alive(s.w), s.w.off, batch), s.w.out, batch)
  {
    assert Families(map[], []) == map[];
  }

  lemma OneRecall(seed: map<string, string>)
    ensures Corrections([RECALLED], seed, 0, 1, NoSuchFlag) == []
    ensures Undecideds([RECALLED], 0, NoSuchFlag) == {} && !IsPending([RECALLED], 0, 0, NoSuchFlag)
  {
    WalkStart([RECALLED], seed, NoSuchFlag);
    WalkStep([RECALLED], seed, 0, NoSuchFlag);
  }

  ghost function AfterDeleting(): State {
    State(World([OLD, NEW], 1, Offset(Some(0), 3), [RECALLED], 0, [1, 0]), [], true, true, map[])
  }

  lemma RecallIsDeleted()
    ensures RunFrom(ParseThree, BeforeDeleting(), DELETING[2..], NoSuchFlag) ==
            Perform(ParseThree, AfterDeleting(), Pass(0, None), NoSuchFlag)
  {
    hide RunFrom;
    var s2 := BeforeDeleting();
    var s3 := Perform(ParseThree, s2, DELETING[2], NoSuchFlag);
    var s4 := Perform(ParseThree, s3, DELETING[3], NoSuchFlag);
    assert s3.w.hist == [OLD, Segment(20, FAILURE + [NEWLINE])] && s3.w.got == [1, 0];
    assert s4.w.hist == [OLD, NEW];
    assert Alive(s4.w) == [OLD, NEW] && [OLD, NEW][1..] == [NEW];
    var s5 := Perform(ParseThree, s4, DELETING[4], NoSuchFlag);
    assert Dropped([NEW], 20 * SECONDS_PER_DAY) == 0 && TooOld(OLD, 20 * SECONDS_PER_DAY);
    assert Dropped([OLD, NEW], 20 * SECONDS_PER_DAY) == 1;
    assert s5 == AfterDeleting();
    assert DELETING[2..] == [DELETING[2]] + DELETING[3..] && DELETING[3..] == [DELETING[3]] + DELETING[4..]
           && DELETING[4..] == [DELETING[4]] + DELETING[5..] && DELETING[5..] == [DELETING[5]] + [];
    RunStep(s2, DELETING[2], DELETING[3..]);
    RunStep(s3, DELETING[3], DELETING[4..]);
    RunStep(s4, DELETING[4], DELETING[5..]);
    hide Perform;
    RunStep(s5, DELETING[5], []);
    RunEnd(Perform(ParseThree, s5, DELETING[5], NoSuchFlag));
  }

  lemma RunEnd(s: State)
    requires Bounded(s)
    ensures RunFrom(ParseThree, s, [], NoSuchFlag) == s
  {
  }

  lemma PairIsUnread()
    ensures Unconsumed(ParseThree, AfterDeleting().w) == [FAILED, RETRIED]
    ensures Seed(ParseThree, [NEW], Offset(Some(0), 3), [FAILED, RETRIED]) == map[]
    ensures Unconsumed(ParseThree, ReadStep(ParseThree, AfterDeleting().w)) == []
  {
    hide Lines, Entries, Complete, Seed;
    var w := AfterDeleting().w;
    PairIsRead();
    assert Alive(w) == [NEW] && Alive(ReadStep(ParseThree, w)) == [NEW] && NEW.data[0..] == NEW.data;
    UnreadOne(NEW, w.off);
    UnreadOne(NEW, Offset(Some(20), |PAIR_LINES|));
    NothingBehind(PAIR_LINES);
    NewIsNotScanned();
  }

  lemma NewIsNotScanned()
    ensures Seed(ParseThree, [NEW], Offset(Some(0), 3), [FAILED, RETRIED]) == map[]
  {
    assert [NEW][1..] == [];
    assert Consumed(ParseThree, [NEW], Offset(Some(0), 3)) == [];
    assert Families(map[], []) == map[];
  }

  lemma NothingBehind(data: Bytes)
    ensures Entries(ParseThree, Lines(data[|data|..])) == []
  {
    NoLines(data[|data|..]);
  }

  /** Retention removes the segment with the recall after it was consumed; the failure behind it is
      filed under no family, where one pass files it under the recalled one. */
  lemma DeletedRecallIsForgotten()
    ensures var s := RunFrom(ParseThree, START, DELETING, NoSuchFlag);
            && s.emitted == [Filed("", Example(RETRIED))]
            && OnePassOver(ParseThree, s, NoSuchFlag) == [Filed("f", Example(RETRIED))]
  {
    hide Lines, Entries, RunFrom, Corrections, Example, Seed, Unread, Advance;
    RecallIsRead();
    RecallIsDeleted();
    PairIsUnread();
    var s5 := AfterDeleting();
    assert Alive(s5.w) == [NEW];
    PassOverPair(s5, map[]);
    assert [RECALLED] + [FAILED, RETRIED] == [RECALLED, FAILED, RETRIED];
    assert [RECALLED, FAILED, RETRIED] + [] == [RECALLED, FAILED, RETRIED];
    FiledByOnePass();
  }

  // --- the recall is a torn record left behind ---

  const TEARING: seq<Step> := [
    Log(Tear(0, RECALL)), Log(Append(1, [0])), Pass(0, None),
    Log(Append(1, FAILURE)), Log(Append(1, RETRY)), Pass(0, None)]

  const GARBAGE: Segment := Segment(1, [0] + [NEWLINE])
  const TORN: Segment := Segment(0, RECALL)
  const LATER: Segment := Segment(1, ([0] + [NEWLINE]) + PAIR_LINES)

  ghost function BeforeTornPass(): State {
    State(World([TORN, LATER], 0, Offset(Some(1), 2), [], 1, [0, 1]), [], true, true, map[])
  }

  ghost function AfterGarbage(): State {
    State(World([TORN, GARBAGE], 0, Offset(Some(1), 2), [], 1, [0, 1]), [], true, true, map[])
  }

  lemma TornIsPassedBy()
    ensures RunFrom(ParseThree, START, TEARING, NoSuchFlag) ==
            RunFrom(ParseThree, AfterGarbage(), TEARING[3..], NoSuchFlag)
  {
    hide RunFrom, Advance;
    var s1 := Perform(ParseThree, START, TEARING[0], NoSuchFlag);
    assert s1.w == World([TORN], 0, ZERO_OFFSET, [], 0, [0]);
    var s2 := Perform(ParseThree, s1, TEARING[1], NoSuchFlag);
    assert s2.w == World([TORN, GARBAGE], 0, ZERO_OFFSET, [], 0, [0, 0]);
    TornSkipped(s2);
    assert TEARING == [TEARING[0]] + TEARING[1..] && TEARING[1..] == [TEARING[1]] + TEARING[2..]
           && TEARING[2..] == [TEARING[2]] + TEARING[3..];
    RunStep(START, TEARING[0], TEARING[1..]);
    RunStep(s1, TEARING[1], TEARING[2..]);
    RunStep(s2, TEARING[2], TEARING[3..]);
  }

  lemma TornIsLeftBehind()
    ensures RunFrom(ParseThree, AfterGarbage(), TEARING[3..], NoSuchFlag) ==
            Perform(ParseThree, BeforeTornPass(), Pass(0, None), NoSuchFlag)
  {
    hide RunFrom, Advance;
    var s3 := AfterGarbage();
    var s4 := Perform(ParseThree, s3, TEARING[3], NoSuchFlag);
    var s5 := Perform(ParseThree, s4, TEARING[4], NoSuchFlag);
    assert s4.w.hist == [TORN, Segment(1, GARBAGE.data + (FAILURE + [NEWLINE]))];
    Assoc(GARBAGE.data, FAILURE + [NEWLINE], RETRY + [NEWLINE]);
    assert s5.w.hist == [TORN, LATER];
    assert s5 == BeforeTornPass();
    assert TEARING[3..] == [TEARING[3]] + TEARING[4..] && TEARING[4..] == [TEARING[4]] + TEARING[5..]
           && TEARING[5..] == [TEARING[5]] + [];
    RunStep(s3, TEARING[3], TEARING[4..]);
    RunStep(s4, TEARING[4], TEARING[5..]);
    hide Perform;
    RunStep(s5, TEARING[5], []);
    RunEnd(Perform(ParseThree, s5, TEARING[5], NoSuchFlag));
  }

  lemma UnreadTwo(a: Segment, b: Segment, off: Offset)
    ensures Unread(ParseThree, [a, b], off) == Fresh(ParseThree, a, off) + Fresh(ParseThree, b, off)
  {
    hide Fresh;
    UnreadOne(a, off);
    UnreadStep(ParseThree, [a], b, off);
    assert [a] + [b] == [a, b];
  }

  /** The first pass reads nothing and moves the offset past the torn record. */
  lemma TornSkipped(s: State)
    requires s == State(World([TORN, GARBAGE], 0, ZERO_OFFSET, [], 0, [0, 0]), [], true, true, map[])
    ensures Perform(ParseThree, s, Pass(0, None), NoSuchFlag) ==
            State(World(s.w.hist, 0, Offset(Some(1), 2), [], 1, [0, 1]), [], true, true, map[])
  {
    hide Lines, Entries, Corrections, Seed, Undecideds, Complete;
    OneLine([0]);
    NoLines(RECALL);
    Decoded();
    assert TORN.data[0..] == TORN.data && GARBAGE.data[0..] == GARBAGE.data && Alive(s.w) == [TORN, GARBAGE];
    UnreadTwo(TORN, GARBAGE, ZERO_OFFSET);
    NoEntries(ParseThree, []);
    assert Unconsumed(ParseThree, s.w) == [];
    NothingUndecided(Seed(ParseThree, Alive(s.w), s.w.off, []));
    var w' := ReadStep(ParseThree, s.w);
    assert w'.got == [0, 1];
  }

  lemma NothingUndecided(seed: map<string, string>)
    ensures Corrections([], seed, 0, 0, NoSuchFlag) == [] && Undecideds([], 0, NoSuchFlag) == {}
  {
  }

  lemma PairIsUnreadBehindTorn()
    ensures var w := BeforeTornPass().w;
            && Unconsumed(ParseThree, w) == [FAILED, RETRIED]
            && Seed(ParseThree, [TORN, LATER], w.off, [FAILED, RETRIED]) == map["s" := "f"]
            && Unconsumed(ParseThree, ReadStep(ParseThree, w)) == []
  {
    hide Lines, Entries, Complete, Seed;
    var w := BeforeTornPass().w;
    var off' := Offset(Some(1), |LATER.data|);
    PairIsRead();
    assert Alive(w) == [TORN, LATER] && Alive(ReadStep(ParseThree, w)) == [TORN, LATER];
    assert LATER.data[2..] == PAIR_LINES;
    UnreadTwo(TORN, LATER, w.off);
    UnreadTwo(TORN, LATER, off');
    assert Advanced([TORN, LATER], w.off) == off';
    NothingBehind(LATER.data);
    TornIsScanned();
  }

  lemma TornLines()
    ensures SplitLines(RECALL) == [RECALL] && SplitLines([0] + [NEWLINE]) == [[0], []]
  {
    hide Lines, Complete;
    OneLine([0]);
    NoLines(RECALL);
    assert RECALL[0..] == RECALL && [] + [RECALL] == [RECALL];
    assert ([0] + [NEWLINE])[2..] == [] && [[0]] + [[]] == [[0], []];
  }

  lemma TornIsScanned()
    ensures Seed(ParseThree, [TORN, LATER], Offset(Some(1), 2), [FAILED, RETRIED]) == map["s" := "f"]
  {
    hide SplitLines, Entries;
    var off := Offset(Some(1), 2);
    assert Before(TORN, off) == RECALL && Before(LATER, off) == [0] + [NEWLINE];
    TornLines();
    Decoded();
    assert [TORN, LATER][1..] == [LATER] && [LATER][1..] == [];
    assert ConsumedOf(ParseThree, TORN, off) == [RECALLED] && ConsumedOf(ParseThree, LATER, off) == [];
    hide ConsumedOf;
    assert Consumed(ParseThree, [LATER], off) == [] by {
      assert Consumed(ParseThree, [LATER], off) == ConsumedOf(ParseThree, LATER, off) + Consumed(ParseThree, [], off);
    }
    assert Consumed(ParseThree, [TORN, LATER], off) == [RECALLED];
    assert Families(map[], [RECALLED]) == map["s" := "f"] by { assert [RECALLED][..0] == []; }
    assert "s" in Sessions([FAILED, RETRIED]) by { assert [FAILED, RETRIED][0] == FAILED; }
  }

  /** A record torn before its newline is left behind; no read returns it, but the scan decodes it, and
      the failure behind it is filed under its family, where one pass files it under none. */
  lemma TornRecallMisleads()
    ensures var s := RunFrom(ParseThree, START, TEARING, NoSuchFlag);
            && s.emitted == [Filed("f", Example(RETRIED))]
            && OnePassOver(ParseThree, s, NoSuchFlag) == [Filed("", Example(RETRIED))]
  {
    hide Lines, Entries, RunFrom, Corrections, Example, Seed, Unread, Advance;
    TornIsPassedBy();
    TornIsLeftBehind();
    PairIsUnreadBehindTorn();
    var s5 := BeforeTornPass();
    assert Alive(s5.w) == [TORN, LATER];
    PassOverPair(s5, map["s" := "f"]);
    assert [] + [FAILED, RETRIED] == [FAILED, RETRIED] && [FAILED, RETRIED] + [] == [FAILED, RETRIED];
    FiledBySeed(map[]);
  }
}
