/** The recall families a batch starts from (internal/learn/derive.go:
    `sessionRecallFamiliesBeforeBatch`, `scanRecallFamiliesReverse`): the consumed part of the
    journal is scanned newest first and the scan stops once every session of the batch has a
    family.  It is proved to give what a forward, last-write-wins pass over that part gives. */
module RecallSeed {
  import opened Wrappers
  import opened Journal
  import opened FlagCorrections

  type Parser = Bytes -> Option<Entry>

  /** `bytes.Split(data, "\n")`: the complete lines and whatever follows the last newline. */
  ghost function SplitLines(data: Bytes): seq<Bytes> {
    Lines(data) + [data[Complete(data)..]]
  }

  /** The part of a segment that lies before the offset. */
  function Before(s: Segment, off: Offset): Bytes {
    if off.segment == Some(s.day) && off.at < |s.data| then s.data[..off.at] else s.data
  }

  /** Every record before the offset, in log order. */
  ghost function Consumed(parse: Parser, segs: seq<Segment>, off: Offset): seq<Entry> {
    if segs == [] then []
    else ConsumedOf(parse, segs[0], off) + Consumed(parse, segs[1..], off)
  }

  ghost function ConsumedOf(parse: Parser, s: Segment, off: Offset): seq<Entry> {
    if off.segment.Some? && s.day > off.segment.value then []
    else Entries(parse, SplitLines(Before(s, off)))
  }

  function Restrict(m: map<string, string>, keys: set<string>): map<string, string> {
    map k | k in m && k in keys :: m[k]
  }

  function Sessions(batch: seq<Entry>): set<string> {
    set e | e in batch && e.session != "" :: e.session
  }

  /** The seed in terms of a forward pass. */
  ghost function Seed(parse: Parser, segs: seq<Segment>, off: Offset, batch: seq<Entry>): map<string, string> {
    if off == ZERO_OFFSET then map[]
    else Restrict(Families(map[], Consumed(parse, segs, off)), Sessions(batch))
  }

  /** A later recall overrides an earlier one. */
  lemma {:induction false} FamiliesConcat(seed: map<string, string>, x: seq<Entry>, y: seq<Entry>)
    ensures Families(seed, x + y) == Families(seed, x) + Families(map[], y)
    decreases |y|
  {
    if y == [] {
      assert x + y == x;
    } else {
      var y' := y[..|y| - 1];
      assert (x + y)[..|x + y| - 1] == x + y';
      FamiliesConcat(seed, x, y');
    }
  }

  /** The families of `entries` for the wanted sessions, under those already found later in the log. */
  ghost function Under(entries: seq<Entry>, active: set<string>, found: map<string, string>): map<string, string> {
    Restrict(Families(map[], entries), active) + found
  }

  lemma UnderConcat(x: seq<Entry>, y: seq<Entry>, active: set<string>, found: map<string, string>)
    ensures Under(x + y, active, found) == Under(x, active, Under(y, active, found))
  {
    FamiliesConcat(map[], x, y);
  }

  lemma UnderComplete(x: seq<Entry>, active: set<string>, found: map<string, string>)
    requires found.Keys == active
    ensures Under(x, active, found) == found
  {
  }

  /** `len(families) < len(active)` stops being true exactly when every session is found. */
  lemma AllFound(found: map<string, string>, active: set<string>)
    requires found.Keys <= active && |found| >= |active|
    ensures found.Keys == active
  {
    var missing := active - found.Keys;
    assert active == found.Keys + missing;
  }

  lemma UnderOne(parse: Parser, line: Bytes, active: set<string>, found: map<string, string>)
    ensures Under(Decode(parse, line), active, found) ==
            var es := Decode(parse, line);
            if es != [] && IsRecall(es[0]) && es[0].session in active && es[0].session !in found
            then found[es[0].session := es[0].queryFamily] else found
  {
    var es := Decode(parse, line);
    if es != [] {
      assert Families(map[], es[..0]) == map[];
      assert Families(map[], es) == if IsRecall(es[0]) then map[es[0].session := es[0].queryFamily] else map[];
    }
  }

  method Split(data: Bytes) returns (lines: seq<Bytes>)
    ensures lines == SplitLines(data)
  {
    hide Lines, Complete;
    lines := [];
    var at := 0;
    ghost var all, end := Lines(data), Complete(data);
    assert data[0..] == data;
    while true
      invariant at <= |data|
      invariant lines + Lines(data[at..]) == all
      invariant at + Complete(data[at..]) == end
      decreases |data| - at
    {
      var rest := data[at..];
      var idx := FindByte(rest, NEWLINE);
      if idx == |rest| {
        LastLine(rest);
        return lines + [rest];
      }
      LinesStep(rest, idx);
      assert rest[idx + 1..] == data[at + idx + 1..];
      Assoc(lines, [rest[..idx]], Lines(rest[idx + 1..]));
      lines := lines + [rest[..idx]];
      at := at + idx + 1;
    }
  }

  lemma LastLine(rest: Bytes)
    requires IndexByte(rest, NEWLINE) == |rest|
    ensures Lines(rest) == [] && Complete(rest) == 0 && rest[0..] == rest
  {
  }

  /** `scanRecallFamiliesReverse`. */
  method ScanRecallFamiliesReverse(parse: Parser, data: Bytes, active: set<string>, families0: map<string, string>)
    returns (families: map<string, string>)
    requires families0.Keys <= active
    ensures families == Under(Entries(parse, SplitLines(data)), active, families0)
    ensures families.Keys <= active
  {
    hide SplitLines, Entries, Under, Families, Decode;
    var lines := Split(data);
    families := families0;
    var i := |lines|;
    UnderNothing(parse, lines, active, families0);
    while i > 0 && |families| < |active|
      invariant 0 <= i <= |lines|
      invariant families.Keys <= active
      invariant families == Under(Entries(parse, lines[i..]), active, families0)
    {
      i := i - 1;
      var line := lines[i];
      UnderLine(parse, lines, i, active, families0);
      UnderOne(parse, line, active, families);
      DecodeCases(parse, line);
      if |line| == 0 || line[0] != BRACE {
        continue;
      }
      match parse(line)
      case None =>
        continue;
      case Some(e) =>
        if e.session !in active {
          continue;
        }
        if e.session in families {
          continue;
        }
        if |e.cmd| > 0 && e.cmd[0] == "recall" && e.queryFamily != "" {
          families := families[e.session := e.queryFamily];
        }
    }
    if i > 0 {
      AllFound(families, active);
      UnderComplete(Entries(parse, lines[..i]), active, families);
      UnderConcat(Entries(parse, lines[..i]), Entries(parse, lines[i..]), active, families0);
      EntriesSplit(parse, lines[..i], lines[i..]);
      assert lines[..i] + lines[i..] == lines;
    } else {
      assert lines[0..] == lines;
    }
  }

  lemma DecodeCases(parse: Parser, line: Bytes)
    ensures Decode(parse, line) ==
            if line == [] || line[0] != BRACE || parse(line).None? then [] else [parse(line).value]
  {
  }

  lemma UnderNothing(parse: Parser, lines: seq<Bytes>, active: set<string>, found: map<string, string>)
    ensures Under(Entries(parse, lines[|lines|..]), active, found) == found
  {
  }

  lemma UnderLine(parse: Parser, lines: seq<Bytes>, i: nat, active: set<string>, found: map<string, string>)
    requires i < |lines|
    ensures Under(Entries(parse, lines[i..]), active, found) ==
            Under(Decode(parse, lines[i]), active, Under(Entries(parse, lines[i + 1..]), active, found))
  {
    hide Families, Decode;
    assert lines[i..][1..] == lines[i + 1..];
    UnderConcat(Decode(parse, lines[i]), Entries(parse, lines[i + 1..]), active, found);
  }

  /** `sessionRecallFamiliesBeforeBatch`. */
  method SessionRecallFamiliesBeforeBatch(parse: Parser, segs: seq<Segment>, off: Offset, batch: seq<Entry>)
    returns (families: map<string, string>)
    ensures families == Seed(parse, segs, off, batch)
  {
    hide SplitLines, Entries, Families, Before, Under, Consumed, Restrict;
    if off.segment.None? && off.at == 0 {
      return map[];
    }
    var active := Sessions(batch);
    NoneScanned(parse, segs, off, active);
    UnderNone(Consumed(parse, segs, off), active);
    if |active| == 0 {
      UnderComplete(Consumed(parse, segs, off), active, map[]);
      return map[];
    }
    families := map[];
    var i := |segs|;
    while i > 0 && |families| < |active|
      invariant 0 <= i <= |segs|
      invariant families.Keys <= active
      invariant families == Under(Consumed(parse, segs[i..], off), active, map[])
    {
      i := i - 1;
      var seg := segs[i];
      OneMoreSegment(parse, segs, i, off, active);
      if off.segment.Some? && seg.day > off.segment.value {
        NoFamiliesUnder(active, families);
        continue;
      }
      families := ScanRecallFamiliesReverse(parse, Before(seg, off), active, families);
    }
    if i > 0 {
      AllFound(families, active);
      EnoughScanned(parse, segs, i, off, active);
    } else {
      assert segs[0..] == segs;
    }
  }

  lemma NoneScanned(parse: Parser, segs: seq<Segment>, off: Offset, active: set<string>)
    ensures Under(Consumed(parse, segs[|segs|..], off), active, map[]) == map[]
  {
  }

  lemma OneMoreSegment(parse: Parser, segs: seq<Segment>, i: nat, off: Offset, active: set<string>)
    requires i < |segs|
    ensures Under(Consumed(parse, segs[i..], off), active, map[]) ==
            Under(ConsumedOf(parse, segs[i], off), active, Under(Consumed(parse, segs[i + 1..], off), active, map[]))
  {
    hide Under, ConsumedOf;
    assert segs[i..][1..] == segs[i + 1..];
    UnderConcat(ConsumedOf(parse, segs[i], off), Consumed(parse, segs[i + 1..], off), active, map[]);
  }

  /** Once every session has a family, older segments cannot change any. */
  lemma EnoughScanned(parse: Parser, segs: seq<Segment>, i: nat, off: Offset, active: set<string>)
    requires i <= |segs|
    requires Under(Consumed(parse, segs[i..], off), active, map[]).Keys == active
    ensures Under(Consumed(parse, segs, off), active, map[]) == Under(Consumed(parse, segs[i..], off), active, map[])
  {
    hide Under, Consumed;
    var newer := Consumed(parse, segs[i..], off);
    UnderComplete(Consumed(parse, segs[..i], off), active, Under(newer, active, map[]));
    UnderConcat(Consumed(parse, segs[..i], off), newer, active, map[]);
    ConsumedConcat(parse, segs[..i], segs[i..], off);
    assert segs[..i] + segs[i..] == segs;
  }

  lemma NoFamiliesUnder(active: set<string>, found: map<string, string>)
    ensures Under([], active, found) == found
  {
  }

  lemma UnderNone(entries: seq<Entry>, active: set<string>)
    ensures Under(entries, active, map[]) == Restrict(Families(map[], entries), active)
  {
  }

  lemma {:induction false} ConsumedConcat(parse: Parser, x: seq<Segment>, y: seq<Segment>, off: Offset)
    ensures Consumed(parse, x + y, off) == Consumed(parse, x, off) + Consumed(parse, y, off)
  {
    hide ConsumedOf;
    if x == [] {
      assert x + y == y;
    } else {
      assert (x + y)[1..] == x[1..] + y;
      ConsumedConcat(parse, x[1..], y, off);
    }
  }
}
