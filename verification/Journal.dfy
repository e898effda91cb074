/** The invocation journal (internal/learn/journal.go): an append-only log split into dated
    segments, with torn-tail repair, whole-segment retention and a `(segment, byte)` cursor.

    A segment file is a byte sequence, its date a day number (file names sort as dates do), and
    the JSON decoder is an arbitrary function `parse` from a line to an optional entry. */
module Journal {
  import opened Wrappers

  newtype byte = x: int | 0 <= x < 256
  type Bytes = seq<byte>

  const NEWLINE: byte := 10
  const BRACE: byte := 123

  const MAX_AGE_DAYS := 14
  const MAX_TOTAL_BYTES := 5 * 1024 * 1024
  const SECONDS_PER_DAY := 86400

  datatype Segment = Segment(day: int, data: Bytes)

  /** The persisted cursor; `None` is the zero offset. */
  datatype Offset = Offset(segment: Option<int>, at: nat)

  const ZERO_OFFSET := Offset(None, 0)

  // ----- bytes to lines -----

  ghost predicate IsFirst(data: Bytes, b: byte, k: nat) {
    k < |data| && data[k] == b && b !in data[..k]
  }

  lemma {:induction false} FirstExists(data: Bytes, b: byte)
    requires b in data
    ensures exists k: nat :: IsFirst(data, b, k)
  {
    if data[0] == b {
      assert IsFirst(data, b, 0);
    } else {
      FirstExists(data[1..], b);
      var k: nat :| IsFirst(data[1..], b, k);
      assert data[..k + 1] == [data[0]] + data[1..][..k];
      assert IsFirst(data, b, k + 1);
    }
  }

  /** The position of the first `b`, or the length. */
  ghost function IndexByte(data: Bytes, b: byte): (k: nat)
    ensures k <= |data|
    ensures k < |data| ==> data[k] == b
    ensures b !in data[..k]
  {
    if b in data then
      FirstExists(data, b);
      var k: nat :| IsFirst(data, b, k);
      k
    else
      assert data[..|data|] == data;
      |data|
  }

  method FindByte(data: Bytes, b: byte) returns (k: nat)
    ensures k == IndexByte(data, b)
  {
    k := 0;
    while k < |data| && data[k] != b
      invariant k <= |data| && b !in data[..k]
    {
      assert data[..k + 1] == data[..k] + [data[k]];
      k := k + 1;
    }
    if k < |data| {
      FirstUnique(data, b, k);
    } else {
      assert data[..k] == data;
    }
  }

  lemma FirstUnique(data: Bytes, b: byte, k: nat)
    requires IsFirst(data, b, k)
    ensures IndexByte(data, b) == k
  {
  }

  /** The lines of `data` that are terminated by a newline. */
  ghost function Lines(data: Bytes): seq<Bytes>
    decreases |data|
  {
    var k := IndexByte(data, NEWLINE);
    if k == |data| then [] else [data[..k]] + Lines(data[k + 1..])
  }

  /** How many bytes those lines take, newlines included. */
  ghost function Complete(data: Bytes): (n: nat)
    ensures n <= |data|
    decreases |data|
  {
    var k := IndexByte(data, NEWLINE);
    if k == |data| then 0 else k + 1 + Complete(data[k + 1..])
  }

  predicate AtBoundary(data: Bytes) {
    data == [] || data[|data| - 1] == NEWLINE
  }

  /** Peeling off one line. */
  lemma LinesStep(data: Bytes, k: nat)
    requires IsFirst(data, NEWLINE, k)
    ensures Lines(data) == [data[..k]] + Lines(data[k + 1..])
    ensures Complete(data) == k + 1 + Complete(data[k + 1..])
  {
    FirstUnique(data, NEWLINE, k);
  }

  lemma Assoc<T>(a: seq<T>, b: seq<T>, c: seq<T>)
    ensures (a + b) + c == a + (b + c)
  {
  }

  lemma FirstLineOf(x: Bytes, y: Bytes)
    requires AtBoundary(x) && x != []
    ensures IndexByte(x, NEWLINE) < |x|
    ensures var k := IndexByte(x, NEWLINE); var rest := x[k + 1..];
            && AtBoundary(rest)
            && Lines(x) == [x[..k]] + Lines(rest)
            && Lines(x + y) == [x[..k]] + Lines(rest + y)
            && Complete(x + y) == k + 1 + Complete(rest + y)
  {
    hide Lines, Complete, IndexByte;
    assert x[..|x|] == x && x[|x| - 1] in x;
    var k := IndexByte(x, NEWLINE);
    assert (x + y)[..k] == x[..k] && (x + y)[k + 1..] == x[k + 1..] + y;
    LinesStep(x, k);
    FirstUnique(x + y, NEWLINE, k);
    LinesStep(x + y, k);
  }

  /** Reading up to a line boundary and then on is reading once. */
  lemma {:induction false} LinesSplit(x: Bytes, y: Bytes)
    requires AtBoundary(x)
    ensures Lines(x + y) == Lines(x) + Lines(y)
    ensures Complete(x + y) == |x| + Complete(y)
    decreases |x|
  {
    hide Lines, Complete, IndexByte;
    if x == [] {
      assert x + y == y;
      NoLines(x);
    } else {
      FirstLineOf(x, y);
      var k := IndexByte(x, NEWLINE);
      LinesSplit(x[k + 1..], y);
      Assoc([x[..k]], Lines(x[k + 1..]), Lines(y));
    }
  }

  /** What `Complete` cuts off ends in a newline, and what it leaves is a torn line. */
  lemma {:induction false} CompleteEnds(data: Bytes)
    ensures AtBoundary(data[..Complete(data)])
    ensures NEWLINE !in data[Complete(data)..]
    decreases |data|
  {
    hide Lines, Complete, IndexByte;
    var k := IndexByte(data, NEWLINE);
    if k == |data| {
      assert data[..k] == data && data[0..] == data;
      NoLines(data);
    } else {
      var rest := data[k + 1..];
      CompleteEnds(rest);
      LinesStep(data, k);
      var n := Complete(rest);
      assert rest[n..] == data[k + 1 + n..];
      assert n > 0 ==> rest[..n][n - 1] == data[..k + 1 + n][k + n];
    }
  }

  lemma NoLines(data: Bytes)
    requires NEWLINE !in data
    ensures Lines(data) == [] && Complete(data) == 0
  {
  }

  lemma TornIsNoLine(head: Bytes, torn: Bytes)
    requires AtBoundary(head) && NEWLINE !in torn
    ensures Lines(head + torn) == Lines(head)
  {
    hide Lines, Complete;
    LinesSplit(head, torn);
    NoLines(torn);
  }

  /** Appending never changes the lines already complete. */
  lemma LinesGrow(data: Bytes, more: Bytes)
    ensures Lines(data) <= Lines(data + more)
  {
    hide Lines, Complete, AtBoundary;
    CompleteEnds(data);
    var n := Complete(data);
    var head, torn := data[..n], data[n..];
    assert data == head + torn;
    Assoc(head, torn, more);
    TornIsNoLine(head, torn);
    LinesSplit(head, torn + more);
  }

  /** The lines with their newlines put back. */
  function Unlines(lines: seq<Bytes>): Bytes {
    if lines == [] then [] else lines[0] + [NEWLINE] + Unlines(lines[1..])
  }

  /** The lines are the complete part of the data cut at its newlines, and nothing is lost. */
  lemma {:induction false} LinesReadBack(data: Bytes)
    ensures Unlines(Lines(data)) == data[..Complete(data)]
    ensures forall i :: 0 <= i < |Lines(data)| ==> NEWLINE !in Lines(data)[i]
    decreases |data|
  {
    var k := IndexByte(data, NEWLINE);
    if k < |data| {
      var rest := data[k + 1..];
      LinesReadBack(rest);
      LinesStep(data, k);
      hide Lines, Complete, IndexByte;
      assert Lines(data)[0] == data[..k] && Lines(data)[1..] == Lines(rest);
      assert data[..Complete(data)] == data[..k] + [NEWLINE] + rest[..Complete(rest)];
    }
  }

  // ----- lines to entries -----

  /** Blank lines, lines that do not open an object and undecodable lines are skipped. */
  function Decode<E>(parse: Bytes -> Option<E>, line: Bytes): seq<E> {
    if line == [] || line[0] != BRACE then []
    else match parse(line) case None => [] case Some(e) => [e]
  }

  lemma DecodesExactlyWhen<E>(parse: Bytes -> Option<E>, line: Bytes, e: E)
    ensures Decode(parse, line) == [e] <==> line != [] && line[0] == '{' as int as byte && parse(line) == Some(e)
    ensures |Decode(parse, line)| <= 1
  {
  }

  function Entries<E>(parse: Bytes -> Option<E>, lines: seq<Bytes>): seq<E> {
    if lines == [] then [] else Decode(parse, lines[0]) + Entries(parse, lines[1..])
  }

  lemma {:induction false} EntriesSplit<E>(parse: Bytes -> Option<E>, x: seq<Bytes>, y: seq<Bytes>)
    ensures Entries(parse, x + y) == Entries(parse, x) + Entries(parse, y)
  {
    if x == [] {
      assert x + y == y;
    } else {
      assert (x + y)[1..] == x[1..] + y;
      EntriesSplit(parse, x[1..], y);
    }
  }

  lemma ReadLine<E>(parse: Bytes -> Option<E>, data: Bytes, at: nat, idx: nat)
    requires at <= |data| && idx == IndexByte(data[at..], NEWLINE) < |data| - at
    ensures Entries(parse, Lines(data[at..])) ==
            Decode(parse, data[at..at + idx]) + Entries(parse, Lines(data[at + idx + 1..]))
    ensures Complete(data[at..]) == idx + 1 + Complete(data[at + idx + 1..])
  {
    var rest := data[at..];
    assert rest[..idx] == data[at..at + idx] && rest[idx + 1..] == data[at + idx + 1..];
    LinesStep(rest, idx);
    assert Lines(rest)[0] == rest[..idx] && Lines(rest)[1..] == Lines(rest[idx + 1..]);
  }

  lemma NothingLeft<E>(parse: Bytes -> Option<E>, rest: Bytes)
    requires IndexByte(rest, NEWLINE) == |rest|
    ensures Entries(parse, Lines(rest)) == [] && Complete(rest) == 0
  {
  }

  // ----- what a read returns -----

  predicate Skipped(s: Segment, off: Offset) {
    off.segment.Some? && s.day < off.segment.value
  }

  function Start(s: Segment, off: Offset): (n: nat)
    ensures n <= |s.data|
  {
    if off.segment == Some(s.day) then (if off.at > |s.data| then |s.data| else off.at) else 0
  }

  /** The entries of one segment that lie at or after the offset. */
  ghost function Fresh<E>(parse: Bytes -> Option<E>, s: Segment, off: Offset): seq<E> {
    if Skipped(s, off) then [] else Entries(parse, Lines(s.data[Start(s, off)..]))
  }

  /** Where a read starts in a segment: at the offset in the segment it names, at the front of later
      ones; nothing is read of earlier segments, nor behind the end. */
  lemma ReadsFromOffset<E>(parse: Bytes -> Option<E>, s: Segment, off: Offset)
    ensures off.segment == Some(s.day) && off.at <= |s.data| ==>
              Fresh(parse, s, off) == Entries(parse, Lines(s.data[off.at..]))
    ensures off.segment.None? || off.segment.value < s.day ==> Fresh(parse, s, off) == Entries(parse, Lines(s.data))
    ensures off.segment.Some? && (off.segment.value > s.day || (off.segment.value == s.day && off.at > |s.data|)) ==>
              Fresh(parse, s, off) == []
  {
    hide Lines, Entries;
    assert s.data[0..] == s.data;
    if off.segment == Some(s.day) && off.at > |s.data| {
      assert s.data[|s.data|..] == [];
      NoLines([]);
      NoEntries(parse, []);
    }
  }

  ghost function Unread<E>(parse: Bytes -> Option<E>, segs: seq<Segment>, off: Offset): seq<E> {
    if segs == [] then []
    else Unread(parse, segs[..|segs| - 1], off) + Fresh(parse, segs[|segs| - 1], off)
  }

  /** The offset after a read: just behind the last complete line of the last segment looked at. */
  ghost function Advanced(segs: seq<Segment>, off: Offset): Offset {
    if segs == [] then off
    else
      var s := segs[|segs| - 1];
      if Skipped(s, off) then Advanced(segs[..|segs| - 1], off)
      else Offset(Some(s.day), Start(s, off) + Complete(s.data[Start(s, off)..]))
  }

  // ----- what an append and a cleanup do -----

  function Repaired(data: Bytes): Bytes {
    if AtBoundary(data) then data else data + [NEWLINE]
  }

  /** The segment list after `text` is written to the segment of `day`. */
  function Written(segs: seq<Segment>, day: int, text: Bytes): seq<Segment> {
    if segs != [] && segs[|segs| - 1].day == day then
      segs[|segs| - 1 := Segment(day, Repaired(segs[|segs| - 1].data) + text)]
    else
      segs + [Segment(day, text)]
  }

  function TotalSize(segs: seq<Segment>): nat {
    if segs == [] then 0 else |segs[0].data| + TotalSize(segs[1..])
  }

  predicate TooOld(s: Segment, now: int) {
    s.day * SECONDS_PER_DAY < now - MAX_AGE_DAYS * SECONDS_PER_DAY
  }

  /** Both retention caps hold. */
  ghost predicate WithinCaps(segs: seq<Segment>, now: int) {
    && (forall i :: 0 <= i < |segs| ==> !TooOld(segs[i], now))
    && TotalSize(segs) <= MAX_TOTAL_BYTES
  }

  predicate Ascending(segs: seq<Segment>) {
    forall i, j :: 0 <= i < j < |segs| ==> segs[i].day < segs[j].day
  }

  /** How many of the oldest segments cleanup removes. */
  function Dropped(segs: seq<Segment>, now: int): (k: nat)
    ensures k <= |segs|
  {
    if |segs| <= 1 || (!TooOld(segs[0], now) && TotalSize(segs) <= MAX_TOTAL_BYTES) then 0
    else 1 + Dropped(segs[1..], now)
  }

  /** Cleanup removes the shortest prefix after which both caps hold, and never the newest segment. */
  lemma {:induction false} DroppedIsLeast(segs: seq<Segment>, now: int)
    requires Ascending(segs)
    ensures segs != [] ==> Dropped(segs, now) < |segs|
    ensures |segs| - Dropped(segs, now) <= 1 || WithinCaps(segs[Dropped(segs, now)..], now)
    ensures forall k :: 0 <= k < Dropped(segs, now) ==> !WithinCaps(segs[k..], now)
  {
    if |segs| <= 1 {
    } else if !TooOld(segs[0], now) && TotalSize(segs) <= MAX_TOTAL_BYTES {
      assert segs[0..] == segs;
      assert forall i :: 0 < i < |segs| ==> segs[0].day < segs[i].day;
    } else {
      DroppedIsLeast(segs[1..], now);
      var d := Dropped(segs[1..], now);
      assert segs[1..][d..] == segs[d + 1..];
      forall k | 0 <= k < d + 1
        ensures !WithinCaps(segs[k..], now)
      {
        if k == 0 {
          assert segs[0..] == segs;
        } else {
          assert segs[k..] == segs[1..][k - 1..];
        }
      }
    }
  }

  function AllBytes(segs: seq<Segment>): Bytes {
    if segs == [] then [] else segs[0].data + AllBytes(segs[1..])
  }

  lemma {:induction false} TotalSizeIs(segs: seq<Segment>)
    ensures TotalSize(segs) == |AllBytes(segs)|
  {
    if segs != [] { TotalSizeIs(segs[1..]); }
  }

  /** What retention leaves: the newest segment alone, or nothing older than fourteen days and five
      mebibytes at most; and it would not do to remove less. */
  lemma RetentionIsRight(segs: seq<Segment>, now: int)
    requires Ascending(segs) && segs != []
    ensures var kept := segs[Dropped(segs, now)..];
            && kept != []
            && (|kept| == 1 || ((forall i :: 0 <= i < |kept| ==> now - kept[i].day * 86400 <= 14 * 86400)
                                && |AllBytes(kept)| <= 5_242_880))
    ensures forall k :: 0 <= k < Dropped(segs, now) ==>
              now - segs[k].day * 86400 > 14 * 86400 || |AllBytes(segs[k..])| > 5_242_880
  {
    DroppedIsLeast(segs, now);
    TotalSizeIs(segs[Dropped(segs, now)..]);
    forall k | 0 <= k < Dropped(segs, now)
      ensures now - segs[k].day * 86400 > 14 * 86400 || |AllBytes(segs[k..])| > 5_242_880
    {
      TotalSizeIs(segs[k..]);
      if TotalSize(segs[k..]) <= MAX_TOTAL_BYTES {
        var i :| 0 <= i < |segs[k..]| && TooOld(segs[k..][i], now);
        assert segs[k].day <= segs[k + i].day;
      }
    }
  }

  /** The journal directory. */
  class JournalDir<E> {
    const parse: Bytes -> Option<E>
    var segs: seq<Segment>

    constructor (parse: Bytes -> Option<E>)
      ensures this.parse == parse && segs == []
    {
      this.parse := parse;
      segs := [];
    }

    /** `repairJournalSegmentTail`: terminates a torn last line so that the next record starts afresh. */
    method RepairTail(i: nat)
      requires i < |segs|
      modifies this`segs
      ensures segs == old(segs)[i := Segment(old(segs)[i].day, Repaired(old(segs)[i].data))]
    {
      var s := segs[i];
      if |s.data| == 0 {
        return;
      }
      if s.data[|s.data| - 1] == NEWLINE {
        return;
      }
      segs := segs[i := Segment(s.day, s.data + [NEWLINE])];
    }

    /** `AppendJournalEntry`: repair the tail, write the record, then apply retention.  `today` is
        the date of `now` and not before the newest segment. */
    method Append(today: int, now: int, line: Bytes)
      requires segs != [] ==> segs[|segs| - 1].day <= today
      modifies this`segs
      ensures var written := Written(old(segs), today, line + [NEWLINE]);
              segs == written[Dropped(written, now)..]
    {
      var n := |segs|;
      if n > 0 && segs[n - 1].day == today {
        RepairTail(n - 1);
        segs := segs[n - 1 := Segment(today, segs[n - 1].data + (line + [NEWLINE]))];
      } else {
        segs := segs + [Segment(today, line + [NEWLINE])];
      }
      assert segs == Written(old(segs), today, line + [NEWLINE]);
      Cleanup(now);
    }

    /** `cleanupJournalSegments`. */
    method Cleanup(now: int)
      modifies this`segs
      ensures segs == old(segs)[Dropped(old(segs), now)..]
    {
      if |segs| <= 1 {
        return;
      }
      var all := segs;
      var total := 0;
      for i := 0 to |all|
        invariant segs == all
        invariant total + TotalSize(all[i..]) == TotalSize(all)
      {
        assert all[i..][1..] == all[i + 1..];
        total := total + |all[i].data|;
      }
      var i := 0;
      while i < |all| - 1
        invariant 0 <= i < |all| && segs == all[i..]
        invariant total == TotalSize(all[i..])
        invariant Dropped(all, now) == i + Dropped(all[i..], now)
      {
        var tooOld := TooOld(all[i], now);
        var tooBig := total > MAX_TOTAL_BYTES;
        if !tooOld && !tooBig {
          break;
        }
        assert all[i..][1..] == all[i + 1..];
        segs := segs[1..];
        total := total - |all[i].data|;
        i := i + 1;
      }
    }

    /** The line loop of `ReadJournalFrom`; a last line without its newline stays unconsumed. */
    method ReadSegment(data: Bytes, start: nat) returns (out: seq<E>, consumed: nat)
      requires start <= |data|
      ensures out == Entries(parse, Lines(data[start..]))
      ensures consumed == start + Complete(data[start..])
    {
      hide Lines, Complete, Entries;
      consumed := start;
      out := [];
      ghost var batch := Entries(parse, Lines(data[start..]));
      ghost var end := start + Complete(data[start..]);
      while true
        invariant start <= consumed <= |data|
        invariant batch == out + Entries(parse, Lines(data[consumed..]))
        invariant end == consumed + Complete(data[consumed..])
        decreases |data| - consumed
      {
        var rest := data[consumed..];
        var idx := FindByte(rest, NEWLINE);
        if idx == |rest| {
          NothingLeft(parse, rest);
          break;
        }
        var line := data[consumed..consumed + idx];
        ReadLine(parse, data, consumed, idx);
        Assoc(out, Decode(parse, line), Entries(parse, Lines(data[consumed + idx + 1..])));
        consumed := consumed + idx + 1;
        if |line| == 0 || line[0] != BRACE {
          continue;
        }
        match parse(line)
        case None =>
        case Some(e) =>
          out := out + [e];
      }
    }

    /** `ReadJournalFrom`. */
    method ReadFrom(off: Offset) returns (out: seq<E>, next: Offset)
      ensures out == Unread(parse, segs, off)
      ensures next == Advanced(segs, off)
    {
      next := off;
      out := [];
      for i := 0 to |segs|
        invariant out == Unread(parse, segs[..i], off)
        invariant next == Advanced(segs[..i], off)
      {
        var s := segs[i];
        assert segs[..i + 1][..i] == segs[..i];
        if off.segment.Some? && s.day < off.segment.value {
          continue;
        }
        var consumed := 0;
        if off.segment == Some(s.day) {
          consumed := off.at;
          if consumed > |s.data| {
            consumed := |s.data|;
          }
        }
        var batch;
        batch, consumed := ReadSegment(s.data, consumed);
        out := out + batch;
        next := Offset(Some(s.day), consumed);
      }
      assert segs[..|segs|] == segs;
    }
  }

  // ----- whole runs -----

  /** Everything that can happen to the journal: complete appends, appends torn by a crash before
      their newline, retention, and reads resumed from the stored offset. */
  datatype Event =
    | Append(day: int, line: Bytes)
    | Tear(day: int, part: Bytes)
    | Clean(now: int)
    | Read

  /** `hist` holds every segment ever written; cleanup has removed the first `gone` of them.
      `out` is everything reads have returned so far, `got[i]` how many lines of segment `i` that
      took, and `cur` the index of the segment the offset names. */
  datatype World<E> = World(hist: seq<Segment>, gone: nat, off: Offset, out: seq<E>, cur: nat, got: seq<nat>)

  function Initial<E>(): World<E> {
    World([], 0, ZERO_OFFSET, [], 0, [])
  }

  function Alive<E>(w: World<E>): seq<Segment>
    requires w.gone <= |w.hist|
  {
    w.hist[w.gone..]
  }

  /** Appends go to the newest segment, the clock does not run backwards over a date, and a JSON
      record holds no newline. */
  predicate Possible<E>(w: World<E>, ev: Event) {
    match ev
    case Append(day, text) => NEWLINE !in text && (w.hist != [] ==> w.hist[|w.hist| - 1].day <= day)
    case Tear(day, text) => NEWLINE !in text && (w.hist != [] ==> w.hist[|w.hist| - 1].day <= day)
    case Clean(_) => true
    case Read => true
  }

  function Write<E>(w: World<E>, day: int, text: Bytes): (w': World<E>)
    requires w.gone <= |w.hist| == |w.got|
    ensures w'.gone <= |w'.hist| == |w'.got|
  {
    var hist := Written(w.hist, day, text);
    w.(hist := hist, got := if |hist| > |w.got| then w.got + [0] else w.got)
  }

  ghost function ReadStep<E>(parse: Bytes -> Option<E>, w: World<E>): (w': World<E>)
    requires w.gone <= |w.hist| == |w.got|
    ensures w'.gone <= |w'.hist| == |w'.got|
  {
    var out := w.out + Unread(parse, Alive(w), w.off);
    if w.hist == [] then w.(out := out)
    else
      World(w.hist, w.gone, Advanced(Alive(w), w.off), out, |w.hist| - 1,
            seq(|w.hist|, i requires 0 <= i < |w.hist| =>
              if i < w.gone || i < w.cur then w.got[i] else |Lines(w.hist[i].data)|))
  }

  ghost function Next<E>(parse: Bytes -> Option<E>, w: World<E>, ev: Event): (w': World<E>)
    requires w.gone <= |w.hist| == |w.got|
    ensures w'.gone <= |w'.hist| == |w'.got|
  {
    match ev
    case Append(day, line) => Write(w, day, line + [NEWLINE])
    case Tear(day, part) => Write(w, day, part)
    case Clean(now) => w.(gone := w.gone + Dropped(Alive(w), now))
    case Read => ReadStep(parse, w)
  }

  /** What has been delivered: of every segment a prefix of its lines, in log order. */
  ghost function Delivered<E>(parse: Bytes -> Option<E>, hist: seq<Segment>, got: seq<nat>, n: nat): seq<E>
    requires n <= |hist| == |got|
    requires forall i :: 0 <= i < |hist| ==> got[i] <= |Lines(hist[i].data)|
  {
    if n == 0 then []
    else Delivered(parse, hist, got, n - 1) + Entries(parse, Lines(hist[n - 1].data)[..got[n - 1]])
  }

  /** The reader's guarantee. */
  ghost predicate Exact<E>(parse: Bytes -> Option<E>, w: World<E>) {
    && |w.got| == |w.hist|
    && Ascending(w.hist)
    && (if w.hist == [] then w.gone == 0 else w.gone < |w.hist|)
    && (forall i :: 0 <= i < |w.hist| ==> w.got[i] <= |Lines(w.hist[i].data)|)
    // at most once and in log order
    && w.out == Delivered(parse, w.hist, w.got, |w.hist|)
    // behind the cursor only lines of deleted segments are missing
    && (forall i :: w.gone <= i < w.cur && i < |w.hist| ==> w.got[i] == |Lines(w.hist[i].data)|)
    // nothing ahead of the cursor has been delivered
    && (forall i :: w.cur < i < |w.hist| ==> w.got[i] == 0)
    && (if w.off.segment.None? then w.off.at == 0 && w.cur == 0 && (w.hist != [] ==> w.got[0] == 0)
        else
          && w.cur < |w.hist| && w.hist[w.cur].day == w.off.segment.value
          && w.off.at <= |w.hist[w.cur].data|
          && AtBoundary(w.hist[w.cur].data[..w.off.at])
          && w.got[w.cur] == |Lines(w.hist[w.cur].data[..w.off.at])|)
  }

  /** Delivery depends only on the lines already taken. */
  lemma {:induction false} DeliveredSame<E>(parse: Bytes -> Option<E>, hist: seq<Segment>, hist': seq<Segment>,
                                            got: seq<nat>, got': seq<nat>, n: nat)
    requires n <= |hist| == |got| && n <= |hist'| == |got'|
    requires forall i :: 0 <= i < |hist| ==> got[i] <= |Lines(hist[i].data)|
    requires forall i :: 0 <= i < |hist'| ==> got'[i] <= |Lines(hist'[i].data)|
    requires forall i :: 0 <= i < n ==> got'[i] == got[i] && Lines(hist[i].data) <= Lines(hist'[i].data)
    ensures Delivered(parse, hist', got', n) == Delivered(parse, hist, got, n)
  {
    hide Lines, Entries;
    if n > 0 {
      DeliveredSame(parse, hist, hist', got, got', n - 1);
      assert Lines(hist'[n - 1].data)[..got[n - 1]] == Lines(hist[n - 1].data)[..got[n - 1]];
    }
  }

  lemma WriteKeepsLines<E>(w: World<E>, day: int, text: Bytes)
    requires w.gone <= |w.hist| == |w.got|
    ensures var hist := Write(w, day, text).hist;
            && |w.hist| <= |hist| <= |w.hist| + 1 && hist != []
            && (forall i :: 0 <= i < |w.hist| ==>
                  && hist[i].day == w.hist[i].day
                  && w.hist[i].data <= hist[i].data
                  && Lines(w.hist[i].data) <= Lines(hist[i].data))
            && (forall i :: 0 <= i < |w.hist| - 1 ==> hist[i] == w.hist[i])
            && (|hist| > |w.hist| ==> hist[|w.hist|] == Segment(day, text))
            && (Ascending(w.hist) && (w.hist != [] ==> w.hist[|w.hist| - 1].day <= day) ==> Ascending(hist))
  {
    hide Lines;
    var hist := Write(w, day, text).hist;
    forall i | 0 <= i < |w.hist|
      ensures w.hist[i].data <= hist[i].data && Lines(w.hist[i].data) <= Lines(hist[i].data)
    {
      var more := hist[i].data[|w.hist[i].data|..];
      assert hist[i].data == w.hist[i].data + more;
      LinesGrow(w.hist[i].data, more);
    }
  }

  lemma WriteKeepsExact<E>(parse: Bytes -> Option<E>, w: World<E>, day: int, text: Bytes)
    requires Exact(parse, w) && (w.hist != [] ==> w.hist[|w.hist| - 1].day <= day)
    ensures Exact(parse, Write(w, day, text))
  {
    hide Lines, Entries, Delivered, Written, Ascending;
    var w' := Write(w, day, text);
    WriteKeepsLines(w, day, text);
    DeliveredSame(parse, w.hist, w'.hist, w.got, w'.got, |w.hist|);
    if |w'.hist| > |w.hist| {
      DeliveredNothing(parse, w'.hist, w'.got);
    }
    if w.off.segment.Some? {
      assert w'.hist[w.cur].data[..w.off.at] == w.hist[w.cur].data[..w.off.at];
    }
  }

  /** A torn tail is closed off first: the appended record is a line of its own, the last one. */
  lemma AppendedIsLastLine(data: Bytes, line: Bytes)
    requires NEWLINE !in line
    ensures Lines(Repaired(data) + (line + [NEWLINE])) == Lines(Repaired(data)) + [line]
    ensures Complete(Repaired(data) + (line + [NEWLINE])) == |Repaired(data)| + |line| + 1
    ensures data <= Repaired(data) <= data + [NEWLINE]
  {
    hide Lines, Complete, AtBoundary;
    RepairedSuffix(data, 0);
    LinesSplit(Repaired(data), line + [NEWLINE]);
    OneLine(line);
  }

  lemma OneLine(line: Bytes)
    requires NEWLINE !in line
    ensures Lines(line + [NEWLINE]) == [line] && Complete(line + [NEWLINE]) == |line| + 1
  {
    var data := line + [NEWLINE];
    assert data[..|line|] == line && data[|line| + 1..] == [];
    LinesStep(data, |line|);
    NoLines([]);
  }

  /** In the segment the record goes to, whatever was there before, it is the last complete line. */
  lemma WrittenIsLastLine(segs: seq<Segment>, day: int, line: Bytes)
    requires NEWLINE !in line
    ensures var after := Written(segs, day, line + [NEWLINE]);
            && after != [] && after[|after| - 1].day == day
            && var lines := Lines(after[|after| - 1].data); lines != [] && lines[|lines| - 1] == line
  {
    hide Lines, Complete;
    if segs != [] && segs[|segs| - 1].day == day {
      AppendedIsLastLine(segs[|segs| - 1].data, line);
    } else {
      OneLine(line);
    }
  }

  /** What an append adds to the lines behind a line boundary: the torn record it closes off, if any, and
      the new one. */
  lemma LinesAfterAppend(data: Bytes, start: nat, line: Bytes)
    requires start <= |data| && AtBoundary(data[..start]) && NEWLINE !in line
    ensures start <= |Repaired(data)|
    ensures Lines((Repaired(data) + (line + [NEWLINE]))[start..]) ==
            Lines(data[start..]) + (if AtBoundary(data) then [] else [data[Complete(data)..]]) + [line]
  {
    hide Lines, Complete, AtBoundary, Repaired;
    RepairedSuffix(data, start);
    var closed := Repaired(data)[start..];
    assert (Repaired(data) + (line + [NEWLINE]))[start..] == closed + (line + [NEWLINE]);
    ClosedOff(data, start);
    LinesSplit(closed, line + [NEWLINE]);
    OneLine(line);
  }

  /** Closing off a torn record makes it a line. */
  lemma ClosedLine(x: Bytes)
    ensures Lines(x + [NEWLINE]) == Lines(x) + [x[Complete(x)..]]
  {
    CompleteEnds(x);
    var head, torn := x[..Complete(x)], x[Complete(x)..];
    assert x == head + torn && x + [NEWLINE] == head + (torn + [NEWLINE]);
    hide Lines, Complete;
    LinesSplit(head, torn + [NEWLINE]);
    LinesSplit(head, torn);
    NoLines(torn);
    OneLine(torn);
  }

  lemma ClosedOff(data: Bytes, start: nat)
    requires start <= |data| && AtBoundary(data[..start])
    ensures AtBoundary(Repaired(data)[start..])
    ensures Lines(Repaired(data)[start..]) ==
            Lines(data[start..]) + if AtBoundary(data) then [] else [data[Complete(data)..]]
  {
    hide Lines, Complete, AtBoundary, Repaired;
    var x := data[start..];
    RepairedSuffix(data, start);
    if !AtBoundary(data) {
      TornTail(data, start);
      ClosedLine(x);
    } else {
      assert Lines(x) + [] == Lines(x);
    }
  }

  lemma RepairedSuffix(data: Bytes, start: nat)
    requires start <= |data|
    ensures AtBoundary(Repaired(data)) && start <= |Repaired(data)|
    ensures AtBoundary(Repaired(data)[start..])
    ensures Repaired(data)[start..] == if AtBoundary(data) then data[start..] else data[start..] + [NEWLINE]
  {
    var x := data[start..];
    assert x != [] ==> x[|x| - 1] == data[|data| - 1];
    assert !AtBoundary(data) ==> (data + [NEWLINE])[start..] == x + [NEWLINE];
  }

  lemma TornTail(data: Bytes, start: nat)
    requires start <= |data| && AtBoundary(data[..start])
    ensures Complete(data[start..]) <= |data[start..]|
    ensures data[start..][Complete(data[start..])..] == data[Complete(data)..]
  {
    hide Lines, Complete, AtBoundary;
    var x := data[start..];
    assert data == data[..start] + x;
    LinesSplit(data[..start], x);
  }

  lemma DeliveredNothing<E>(parse: Bytes -> Option<E>, hist: seq<Segment>, got: seq<nat>)
    requires 0 < |hist| == |got| && got[|got| - 1] == 0
    requires forall i :: 0 <= i < |hist| ==> got[i] <= |Lines(hist[i].data)|
    ensures Delivered(parse, hist, got, |hist|) == Delivered(parse, hist, got, |hist| - 1)
  {
  }

  lemma DropsLess(segs: seq<Segment>, now: int)
    ensures segs == [] ==> Dropped(segs, now) == 0
  {
  }

  /** Deleting oldest segments takes nothing back from the reader. */
  lemma FewerAlive<E>(parse: Bytes -> Option<E>, w: World<E>, k: nat)
    requires Exact(parse, w) && w.gone + k < |w.hist|
    ensures Exact(parse, w.(gone := w.gone + k))
  {
    hide Lines, Entries, Delivered, Ascending, AtBoundary;
  }

  lemma CleanKeepsExact<E>(parse: Bytes -> Option<E>, w: World<E>, now: int)
    requires Exact(parse, w)
    ensures Exact(parse, Next(parse, w, Clean(now)))
  {
    hide Lines, Entries, Delivered, Dropped, WithinCaps;
    if w.hist == [] {
      DropsLess(Alive(w), now);
    } else {
      DroppedIsLeast(Alive(w), now);
      FewerAlive(parse, w, Dropped(Alive(w), now));
    }
  }

  lemma CutAtLastLine(data: Bytes, start: nat)
    requires start <= |data| && AtBoundary(data[..start])
    ensures var at := start + Complete(data[start..]);
            at <= |data| && AtBoundary(data[..at]) && Lines(data[..at]) == Lines(data)
  {
    hide Lines, Complete;
    var rest := data[start..];
    var n := Complete(rest);
    CompleteEnds(rest);
    var torn := rest[n..];
    assert data[..start + n] == data[..start] + rest[..n];
    BoundaryJoin(data[..start], rest[..n]);
    assert data == data[..start + n] + torn;
    TornIsNoLine(data[..start + n], torn);
  }

  lemma BoundaryJoin(x: Bytes, y: Bytes)
    requires AtBoundary(x) && AtBoundary(y)
    ensures AtBoundary(x + y)
  {
  }

  /** The cursor after a read. */
  lemma ReadMovesCursor<E>(parse: Bytes -> Option<E>, w: World<E>)
    requires Exact(parse, w) && w.hist != []
    ensures var off := ReadStep(parse, w).off; var last := w.hist[|w.hist| - 1];
            && off.segment == Some(last.day) && off.at <= |last.data|
            && AtBoundary(last.data[..off.at])
            && |Lines(last.data[..off.at])| == |Lines(last.data)|
  {
    hide Delivered, Entries, Lines, Complete;
    var last := w.hist[|w.hist| - 1];
    var start := Start(last, w.off);
    assert Alive(w)[|Alive(w)| - 1] == last;
    assert AtBoundary(last.data[..start]) by {
      if w.off.segment == Some(last.day) { assert w.cur == |w.hist| - 1; }
    }
    CutAtLastLine(last.data, start);
  }

  lemma {:induction false} NothingBeforeCursor<E>(parse: Bytes -> Option<E>, segs: seq<Segment>, off: Offset)
    requires forall i :: 0 <= i < |segs| ==> Skipped(segs[i], off)
    ensures Unread(parse, segs, off) == []
  {
    if segs != [] { NothingBeforeCursor(parse, segs[..|segs| - 1], off); }
  }

  /** In one surviving segment a read continues where delivery stopped. */
  lemma ReadContinues<E>(parse: Bytes -> Option<E>, w: World<E>, i: nat)
    requires Exact(parse, w) && w.gone <= i < |w.hist|
    ensures var lines := Lines(w.hist[i].data);
            Entries(parse, lines[..ReadStep(parse, w).got[i]]) ==
            Entries(parse, lines[..w.got[i]]) + Fresh(parse, w.hist[i], w.off)
  {
    hide Lines, Entries, Delivered, Unread;
    var data, off := w.hist[i].data, w.off;
    var lines := Lines(data);
    assert lines[..|lines|] == lines;
    if i == w.cur && off.segment.Some? {
      var head, tail := data[..off.at], data[off.at..];
      assert data == head + tail;
      LinesSplit(head, tail);
      assert lines[..w.got[i]] == Lines(head);
      EntriesSplit(parse, Lines(head), Lines(tail));
    } else if i >= w.cur {
      assert data[0..] == data && lines[..0] == [];
      EntriesSplit(parse, [], lines);
      assert [] + lines == lines;
    } else {
      assert Skipped(w.hist[i], off);
    }
  }

  /** One read delivers exactly what lies between the old and the new cursor. */
  lemma {:induction false} ReadDelivers<E>(parse: Bytes -> Option<E>, w: World<E>, got': seq<nat>, n: nat)
    requires Exact(parse, w) && n <= |w.hist| == |got'|
    requires forall i :: 0 <= i < |w.hist| ==> got'[i] <= |Lines(w.hist[i].data)|
    requires forall i :: 0 <= i < w.gone ==> got'[i] == w.got[i]
    requires forall i :: w.gone <= i < |w.hist| ==>
               Entries(parse, Lines(w.hist[i].data)[..got'[i]]) ==
               Entries(parse, Lines(w.hist[i].data)[..w.got[i]]) + Fresh(parse, w.hist[i], w.off)
    ensures Delivered(parse, w.hist, got', n) ==
            Delivered(parse, w.hist, w.got, n) + Unread(parse, if n <= w.gone then [] else w.hist[w.gone..n], w.off)
  {
    hide Lines, Entries, Fresh, Unread, Delivered;
    if n == 0 {
      DeliveredStep(parse, w.hist, got', 0);
      DeliveredStep(parse, w.hist, w.got, 0);
      NothingBeforeCursor(parse, [], w.off);
    } else {
      var i := n - 1;
      NothingBeforeCursor(parse, [], w.off);
      ReadDelivers(parse, w, got', i);
      DeliveredStep(parse, w.hist, got', n);
      DeliveredStep(parse, w.hist, w.got, n);
      if i >= w.gone {
        var older := if i <= w.gone then [] else w.hist[w.gone..i];
        assert w.hist[w.gone..n] == older + [w.hist[i]];
        UnreadStep(parse, older, w.hist[i], w.off);
        var took := Entries(parse, Lines(w.hist[i].data)[..w.got[i]]);
        if i <= w.cur {
          NothingBeforeCursor(parse, older, w.off);
        } else {
          NoEntries(parse, Lines(w.hist[i].data));
        }
        Interleave(Delivered(parse, w.hist, w.got, i), Unread(parse, older, w.off), took,
                   Fresh(parse, w.hist[i], w.off));
      }
    }
  }

  lemma DeliveredStep<E>(parse: Bytes -> Option<E>, hist: seq<Segment>, got: seq<nat>, n: nat)
    requires n <= |hist| == |got|
    requires forall i :: 0 <= i < |hist| ==> got[i] <= |Lines(hist[i].data)|
    ensures Delivered(parse, hist, got, n) ==
            if n == 0 then []
            else Delivered(parse, hist, got, n - 1) + Entries(parse, Lines(hist[n - 1].data)[..got[n - 1]])
  {
  }

  lemma UnreadStep<E>(parse: Bytes -> Option<E>, segs: seq<Segment>, s: Segment, off: Offset)
    ensures Unread(parse, segs + [s], off) == Unread(parse, segs, off) + Fresh(parse, s, off)
  {
    assert (segs + [s])[..|segs|] == segs;
  }

  lemma Interleave<E>(before: seq<E>, unread: seq<E>, took: seq<E>, next: seq<E>)
    requires unread == [] || took == []
    ensures (before + unread) + (took + next) == (before + took) + (unread + next)
  {
  }

  lemma NoEntries<E>(parse: Bytes -> Option<E>, lines: seq<Bytes>)
    ensures Entries(parse, lines[..0]) == []
  {
  }

  lemma ReadKeepsExact<E>(parse: Bytes -> Option<E>, w: World<E>)
    requires Exact(parse, w)
    ensures Exact(parse, ReadStep(parse, w))
  {
    hide Lines, Entries, Delivered, Unread, Advanced, Fresh;
    if w.hist == [] {
      assert Alive(w) == [];
      NothingBeforeCursor(parse, Alive(w), w.off);
    } else {
      var got' := ReadStep(parse, w).got;
      forall i | w.gone <= i < |w.hist|
        ensures Entries(parse, Lines(w.hist[i].data)[..got'[i]]) ==
                Entries(parse, Lines(w.hist[i].data)[..w.got[i]]) + Fresh(parse, w.hist[i], w.off)
      {
        ReadContinues(parse, w, i);
      }
      ReadDelivers(parse, w, got', |w.hist|);
      assert w.hist[w.gone..|w.hist|] == Alive(w);
      ReadMovesCursor(parse, w);
    }
  }

  lemma StepKeepsExact<E>(parse: Bytes -> Option<E>, w: World<E>, ev: Event)
    requires Exact(parse, w) && Possible(w, ev)
    ensures Exact(parse, Next(parse, w, ev))
  {
    match ev
    case Append(day, line) => WriteKeepsExact(parse, w, day, line + [NEWLINE]);
    case Tear(day, part) => WriteKeepsExact(parse, w, day, part);
    case Clean(now) => CleanKeepsExact(parse, w, now);
    case Read => ReadKeepsExact(parse, w);
  }

  /** The world after a run; an event that is not possible does not happen. */
  ghost function Run<E>(parse: Bytes -> Option<E>, w: World<E>, events: seq<Event>): World<E>
    requires w.gone <= |w.hist| == |w.got|
    decreases |events|
  {
    if events == [] then w
    else Run(parse, if Possible(w, events[0]) then Next(parse, w, events[0]) else w, events[1..])
  }

  /** Over any run every complete entry is returned at most once and in log order, and behind the
      cursor an entry is missing only if its segment was deleted. */
  lemma {:induction false} RunIsExact<E>(parse: Bytes -> Option<E>, w: World<E>, events: seq<Event>)
    requires Exact(parse, w)
    ensures Exact(parse, Run(parse, w, events))
    decreases |events|
  {
    hide Lines, Entries, Delivered;
    if events != [] {
      if Possible(w, events[0]) { StepKeepsExact(parse, w, events[0]); }
      var w' := if Possible(w, events[0]) then Next(parse, w, events[0]) else w;
      RunIsExact(parse, w', events[1..]);
    }
  }

  /** What `JournalDir.Append` does to the surviving segments is what the run does to all of them. */
  lemma AppendSeesSurvivors(hist: seq<Segment>, gone: nat, day: int, text: Bytes)
    requires if hist == [] then gone == 0 else gone < |hist|
    ensures Written(hist[gone..], day, text) == Written(hist, day, text)[gone..]
  {
    if hist != [] { assert hist[gone..][|hist| - gone - 1] == hist[|hist| - 1]; }
  }

  /** `JournalDir.Append` is the two events `Append` and `Clean` of a run, seen on the surviving segments. */
  lemma AppendIsWriteThenClean<E>(parse: Bytes -> Option<E>, w: World<E>, day: int, now: int, line: Bytes)
    requires w.gone <= |w.hist| == |w.got| && (if w.hist == [] then w.gone == 0 else w.gone < |w.hist|)
    ensures var w' := Next(parse, Next(parse, w, Append(day, line)), Clean(now));
            var written := Written(Alive(w), day, line + [NEWLINE]);
            Alive(w') == written[Dropped(written, now)..]
  {
    hide Written, Dropped;
    AppendSeesSurvivors(w.hist, w.gone, day, line + [NEWLINE]);
  }

  /** As long as nothing was deleted, what reads have returned followed by what is still unread is
      one read of everything from the start. */
  lemma ReadsAddUp<E>(parse: Bytes -> Option<E>, w: World<E>)
    requires Exact(parse, w) && w.gone == 0
    ensures Unread(parse, w.hist, ZERO_OFFSET) == w.out + Unread(parse, w.hist, w.off)
  {
    hide Lines, Entries, Delivered, Unread, Fresh, Advanced;
    if w.hist == [] {
      DeliveredStep(parse, w.hist, w.got, 0);
      NothingBeforeCursor(parse, [], w.off);
      NothingBeforeCursor(parse, [], ZERO_OFFSET);
    } else {
      var got' := ReadStep(parse, w).got;
      forall i | 0 <= i < |w.hist|
        ensures Entries(parse, Lines(w.hist[i].data)[..got'[i]]) ==
                Entries(parse, Lines(w.hist[i].data)[..w.got[i]]) + Fresh(parse, w.hist[i], w.off)
      {
        ReadContinues(parse, w, i);
      }
      ReadDelivers(parse, w, got', |w.hist|);
      assert w.hist[0..|w.hist|] == w.hist && w.hist[..|w.hist|] == w.hist;
      EverythingDelivered(parse, w.hist, got', |w.hist|);
    }
  }

  lemma {:induction false} EverythingDelivered<E>(parse: Bytes -> Option<E>, hist: seq<Segment>, got: seq<nat>, n: nat)
    requires n <= |hist| == |got|
    requires forall i :: 0 <= i < |hist| ==> got[i] == |Lines(hist[i].data)|
    ensures Delivered(parse, hist, got, n) == Unread(parse, hist[..n], ZERO_OFFSET)
  {
    hide Lines, Entries, Delivered, Unread;
    DeliveredStep(parse, hist, got, n);
    if n == 0 {
      NothingBeforeCursor(parse, hist[..0], ZERO_OFFSET);
    } else {
      EverythingDelivered(parse, hist, got, n - 1);
      assert hist[..n] == hist[..n - 1] + [hist[n - 1]];
      UnreadStep(parse, hist[..n - 1], hist[n - 1], ZERO_OFFSET);
      var lines := Lines(hist[n - 1].data);
      assert lines[..|lines|] == lines && hist[n - 1].data[0..] == hist[n - 1].data;
    }
  }
}
