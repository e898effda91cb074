/** Field selection on JSON trees (internal/cli/helpers.go: `filterFields`, `filterFieldsRec`,
    `filterListEnvelopeFields`, `filterNestedListEnvelopeFields`, `matchSelectSegment`).

    The recursion returns a projected tree and a match report; both are given here as functions of
    the same arguments.  Case folding and the camelCase-to-kebab-case conversion are arbitrary
    functions on field names. */
module FieldFilter {
  import opened Wrappers

  datatype Json =
    | Null
    | Scalar(text: string)               // number, string or boolean
    | Arr(items: seq<Json>)
    | Obj(fields: map<string, Json>)

  type Path = seq<string>

  datatype Folding = Folding(lower: string -> string, kebab: string -> string) {
    /** Neither conversion turns a proper name into an empty one. */
    ghost predicate Proper() {
      forall k :: lower(k) == "" ==> kebab(k) == ""
    }
  }

  /** `envelopeMetadataArrayKeys`. */
  predicate IsMetadata(key: string) {
    key == "errors" || key == "Errors" || key == "warnings" || key == "Warnings"
  }

  // ----- matching one field name -----

  /** `keepWhole[head]`. */
  predicate Whole(paths: seq<Path>, head: string) {
    exists i :: 0 <= i < |paths| && paths[i] == [head]
  }

  /** `subPaths[head]`. */
  function Subs(paths: seq<Path>, head: string): seq<Path> {
    if paths == [] then []
    else (if |paths[0]| > 1 && paths[0][0] == head then [paths[0][1..]] else []) + Subs(paths[1..], head)
  }

  predicate Wanted(paths: seq<Path>, head: string) {
    Whole(paths, head) || Subs(paths, head) != []
  }

  /** `matchSelectSegment`; the empty string means no match. */
  function Segment(f: Folding, key: string, paths: seq<Path>): string {
    var lower := f.lower(key);
    var kebab := f.kebab(key);
    if Wanted(paths, lower) then lower
    else if kebab != lower && Wanted(paths, kebab) then kebab
    else ""
  }

  predicate Matches(f: Folding, key: string, paths: seq<Path>) {
    Segment(f, key, paths) != ""
  }

  predicate HeadMatched(f: Folding, fields: map<string, Json>, paths: seq<Path>) {
    exists k :: k in fields && Matches(f, k, paths)
  }

  // ----- the projected tree -----

  /** The tree `filterFieldsRec` returns. */
  function Project(f: Folding, data: Json, paths: seq<Path>): Json
    decreases data, 1
  {
    match data
    case Null => Arr([])     // null decodes into an array of no elements
    case Scalar(_) => data
    case Arr(items) => Arr(seq(|items|, i requires 0 <= i < |items| => Project(f, items[i], paths)))
    case Obj(fields) =>
      if HeadMatched(f, fields, paths) then
        Obj(map k | k in fields && Matches(f, k, paths) ::
              if Whole(paths, Segment(f, k, paths)) then fields[k]
              else Project(f, fields[k], Subs(paths, Segment(f, k, paths))))
      else if FoundArray(data) then Envelope(f, data, paths)
      else Obj(map[])
  }

  /** `foundArray`: the object, or what it embeds, holds a list outside its metadata. */
  predicate FoundArray(data: Json) {
    data.Obj? && exists k :: k in data.fields && !IsMetadata(k) &&
                             (data.fields[k].Arr? || (k == "_embedded" && FoundArray(data.fields[k])))
  }

  /** `filterListEnvelopeFields`: lists are projected, everything else is kept. */
  function Envelope(f: Folding, data: Json, paths: seq<Path>): Json
    requires data.Obj?
    decreases data, 0
  {
    Obj(map k | k in data.fields ::
          if IsMetadata(k) then data.fields[k]
          else if data.fields[k].Arr? then Project(f, data.fields[k], paths)
          else if k == "_embedded" && FoundArray(data.fields[k]) then Envelope(f, data.fields[k], paths)
          else data.fields[k])
  }

  // ----- the match report -----

  /** Does the recursion report `matched`? */
  predicate Matched(f: Folding, data: Json, paths: seq<Path>)
    decreases data, 1
  {
    match data
    case Null => false
    case Scalar(_) => false
    case Arr(items) => exists i :: 0 <= i < |items| && Matched(f, items[i], paths)
    case Obj(fields) =>
      if HeadMatched(f, fields, paths) then
        exists k :: k in fields && Matches(f, k, paths) && FieldMatched(f, data, k, paths)
      else MatchedInside(f, data, paths)
  }

  predicate FieldMatched(f: Folding, data: Json, k: string, paths: seq<Path>)
    requires data.Obj? && k in data.fields
    decreases data, 0
  {
    Whole(paths, Segment(f, k, paths)) || Matched(f, data.fields[k], Subs(paths, Segment(f, k, paths)))
  }

  /** Does the list-envelope fallback report `matched`? */
  predicate MatchedInside(f: Folding, data: Json, paths: seq<Path>)
    requires data.Obj?
    decreases data, 0
  {
    exists k :: k in data.fields && !IsMetadata(k) && ListMatched(f, data, k, paths)
  }

  predicate ListMatched(f: Folding, data: Json, k: string, paths: seq<Path>)
    requires data.Obj? && k in data.fields
    decreases data, 0, 0
  {
    if data.fields[k].Arr? then Matched(f, data.fields[k], paths)
    else k == "_embedded" && FoundArray(data.fields[k]) && MatchedInside(f, data.fields[k], paths)
  }

  /** Does it report anything: a match, or an empty list (or null) that leaves the question open? */
  predicate Reported(f: Folding, data: Json, paths: seq<Path>)
    decreases data, 1
  {
    match data
    case Null => true
    case Scalar(_) => false
    case Arr(items) => items == [] || exists i :: 0 <= i < |items| && Reported(f, items[i], paths)
    case Obj(fields) =>
      if HeadMatched(f, fields, paths) then
        exists k :: k in fields && Matches(f, k, paths) && FieldReported(f, data, k, paths)
      else ReportedInside(f, data, paths)
  }

  predicate FieldReported(f: Folding, data: Json, k: string, paths: seq<Path>)
    requires data.Obj? && k in data.fields
    decreases data, 0
  {
    Whole(paths, Segment(f, k, paths)) || Reported(f, data.fields[k], Subs(paths, Segment(f, k, paths)))
  }

  predicate ReportedInside(f: Folding, data: Json, paths: seq<Path>)
    requires data.Obj?
    decreases data, 0
  {
    exists k :: k in data.fields && !IsMetadata(k) && ListReported(f, data, k, paths)
  }

  predicate ListReported(f: Folding, data: Json, k: string, paths: seq<Path>)
    requires data.Obj? && k in data.fields
    decreases data, 0, 0
  {
    if data.fields[k].Arr? then Reported(f, data.fields[k], paths)
    else k == "_embedded" && FoundArray(data.fields[k]) && ReportedInside(f, data.fields[k], paths)
  }

  /** `filterFields`: a selection that reports nothing leaves the data alone. */
  function FilterFields(f: Folding, data: Json, paths: seq<Path>): Json {
    if paths == [] || !Reported(f, data, paths) then data else Project(f, data, paths)
  }

  // ----- projecting twice is projecting once -----

  lemma {:induction false} ProjectIdempotent(f: Folding, data: Json, paths: seq<Path>)
    ensures Project(f, Project(f, data, paths), paths) == Project(f, data, paths)
    decreases data, 1
  {
    match data
    case Null =>
    case Scalar(_) =>
    case Arr(items) =>
      forall i | 0 <= i < |items|
        ensures Project(f, Project(f, items[i], paths), paths) == Project(f, items[i], paths)
      {
        ProjectIdempotent(f, items[i], paths);
      }
    case Obj(fields) =>
      if HeadMatched(f, fields, paths) {
        SelectionIdempotent(f, data, paths);
      } else if FoundArray(data) {
        EnvelopeIdempotent(f, data, paths);
        var kept := Envelope(f, data, paths).fields;
        assert kept.Keys == fields.Keys;
        assert !HeadMatched(f, kept, paths);
      }
  }

  lemma {:induction false} SelectionIdempotent(f: Folding, data: Json, paths: seq<Path>)
    requires data.Obj? && HeadMatched(f, data.fields, paths)
    ensures Project(f, Project(f, data, paths), paths) == Project(f, data, paths)
    decreases data, 0
  {
    var kept := Project(f, data, paths).fields;
    var again := Project(f, Obj(kept), paths).fields;
    var k0 :| k0 in data.fields && Matches(f, k0, paths);
    assert k0 in kept;
    assert HeadMatched(f, kept, paths);
    forall k | k in kept
      ensures k in again && again[k] == kept[k]
    {
      if !Whole(paths, Segment(f, k, paths)) {
        ProjectIdempotent(f, data.fields[k], Subs(paths, Segment(f, k, paths)));
      }
    }
    assert again == kept;
  }

  lemma {:induction false} EnvelopeIdempotent(f: Folding, data: Json, paths: seq<Path>)
    requires FoundArray(data)
    ensures FoundArray(Envelope(f, data, paths))
    ensures Envelope(f, Envelope(f, data, paths), paths) == Envelope(f, data, paths)
    decreases data, 0
  {
    var kept := Envelope(f, data, paths).fields;
    var again := Envelope(f, Obj(kept), paths).fields;
    forall k | k in kept
      ensures again[k] == kept[k]
      ensures data.fields[k].Arr? && !IsMetadata(k) ==> kept[k].Arr?
      ensures k == "_embedded" && FoundArray(data.fields[k]) ==> FoundArray(kept[k])
    {
      if !IsMetadata(k) {
        if data.fields[k].Arr? {
          ProjectIdempotent(f, data.fields[k], paths);
        } else if k == "_embedded" && FoundArray(data.fields[k]) {
          EnvelopeIdempotent(f, data.fields[k], paths);
        }
      }
    }
    assert again == kept;
    var k :| k in data.fields && !IsMetadata(k) &&
             (data.fields[k].Arr? || (k == "_embedded" && FoundArray(data.fields[k])));
    assert k in kept;
  }

  /** `--select` applied to its own output changes nothing, on every tree and every selection. */
  lemma FilterFieldsIdempotent(f: Folding, data: Json, paths: seq<Path>)
    ensures FilterFields(f, FilterFields(f, data, paths), paths) == FilterFields(f, data, paths)
  {
    ProjectIdempotent(f, data, paths);
  }

  // ----- what is kept -----

  datatype Place = Field(key: string) | Index(i: nat)

  /** The subtree at an address. */
  function At(data: Json, a: seq<Place>): Option<Json> {
    if a == [] then Some(data)
    else match data
      case Arr(items) => if a[0].Index? && a[0].i < |items| then At(items[a[0].i], a[1..]) else None
      case Obj(fields) => if a[0].Field? && a[0].key in fields then At(fields[a[0].key], a[1..]) else None
      case _ => None
  }

  /** The key is spelled by `seg`: folded to lower case, or in kebab case unless the selection also wants
      the lower-case form. */
  predicate Spells(f: Folding, key: string, paths: seq<Path>, seg: string) {
    seg != "" && (f.lower(key) == seg || (f.kebab(key) == seg && !Wanted(paths, f.lower(key))))
  }

  /** The address leads along the selector `p` of the selection, list indices being free, and may go on
      below its end. */
  predicate Follows(f: Folding, a: seq<Place>, paths: seq<Path>, p: Path) {
    a != [] && p != [] &&
    match a[0]
    case Index(_) => Follows(f, a[1..], paths, p)
    case Field(key) =>
      Spells(f, key, paths, p[0]) && (|p| == 1 || Whole(paths, p[0]) || Follows(f, a[1..], Subs(paths, p[0]), p[1..]))
  }

  lemma {:induction false} SubsInclude(paths: seq<Path>, n: nat) returns (m: nat)
    requires n < |paths| && |paths[n]| > 1
    ensures m < |Subs(paths, paths[n][0])| && Subs(paths, paths[n][0])[m] == paths[n][1..]
  {
    if n == 0 {
      m := 0;
    } else {
      m := SubsInclude(paths[1..], n - 1);
      m := m + |Subs(paths, paths[n][0])| - |Subs(paths[1..], paths[n][0])|;
    }
  }

  lemma {:induction false} SubsHave(paths: seq<Path>, head: string, n: nat)
    requires n < |paths| && |paths[n]| > 1 && paths[n][0] == head
    ensures Subs(paths, head) != []
  {
    if n > 0 { SubsHave(paths[1..], head, n - 1); }
  }

  /** The selection wants the head of each of its paths. */
  lemma HeadsAreWanted(paths: seq<Path>, n: nat)
    requires n < |paths| && paths[n] != []
    ensures Wanted(paths, paths[n][0])
  {
    if |paths[n]| == 1 {
      assert paths[n] == [paths[n][0]];
    } else {
      SubsHave(paths, paths[n][0], n);
    }
  }

  /** Whatever a selector leads to is kept whole and in place, whatever else is selected with it. */
  lemma {:induction false} SelectedIsKept(f: Folding, data: Json, paths: seq<Path>, n: nat, a: seq<Place>)
    requires n < |paths| && Follows(f, a, paths, paths[n]) && At(data, a).Some?
    ensures At(Project(f, data, paths), a) == At(data, a)
    ensures At(FilterFields(f, data, paths), a) == At(data, a)
    decreases data
  {
    var p := paths[n];
    match data
    case Arr(items) => SelectedIsKept(f, items[a[0].i], paths, n, a[1..]);
    case Obj(fields) =>
      var k := a[0].key;
      HeadsAreWanted(paths, n);
      assert Segment(f, k, paths) == p[0] && Matches(f, k, paths);
      if |p| == 1 {
        assert paths[n] == [p[0]] && Whole(paths, p[0]);
      } else if !Whole(paths, p[0]) {
        var m := SubsInclude(paths, n);
        SelectedIsKept(f, fields[k], Subs(paths, p[0]), m, a[1..]);
      }
  }

  /** What becomes of a field the selection wants. */
  function Kept(f: Folding, value: Json, paths: seq<Path>, seg: string): Json {
    if Whole(paths, seg) then value else Project(f, value, Subs(paths, seg))
  }

  lemma FieldAt(f: Folding, fields: map<string, Json>, key: string, paths: seq<Path>)
    requires key in fields && Matches(f, key, paths)
    ensures At(Project(f, Obj(fields), paths), [Field(key)]) ==
            Some(Kept(f, fields[key], paths, Segment(f, key, paths)))
  {
    hide Segment, Whole, Subs;
    assert HeadMatched(f, fields, paths);
    var kept := Project(f, Obj(fields), paths);
    assert At(kept, [Field(key)]) == At(kept.fields[key], []);
  }

  lemma KebabSegment(f: Folding, key: string, paths: seq<Path>)
    requires f.Proper() && f.kebab(key) != "" && Whole(paths, f.kebab(key))
    ensures Matches(f, key, paths)
    ensures Segment(f, key, paths) == if Wanted(paths, f.lower(key)) then f.lower(key) else f.kebab(key)
  {
  }

  lemma NullIsNotKept(f: Folding, paths: seq<Path>, seg: string)
    requires !Whole(paths, seg)
    ensures Kept(f, Null, paths, seg) == Arr([])
  {
  }

  /** The condition on a kebab-case selector is exact: a field it names is kept whole in every object if
      and only if no other path claims the lower-case form, or one claims it whole. */
  lemma KebabIsKeptExactlyWhen(f: Folding, key: string, paths: seq<Path>)
    requires f.Proper() && f.kebab(key) != "" && Whole(paths, f.kebab(key))
    ensures (forall fields: map<string, Json> :: key in fields ==>
               At(Project(f, Obj(fields), paths), [Field(key)]) == Some(fields[key]))
            <==> (Wanted(paths, f.lower(key)) ==> Whole(paths, f.lower(key)))
  {
    hide At, Project, Segment, Subs, Folding.Proper;
    KebabSegment(f, key, paths);
    var seg := Segment(f, key, paths);
    if Wanted(paths, f.lower(key)) && !Whole(paths, f.lower(key)) {
      var fields := map[key := Null];
      FieldAt(f, fields, key, paths);
      NullIsNotKept(f, paths, seg);
      assert key in fields && At(Project(f, Obj(fields), paths), [Field(key)]) != Some(fields[key]);
    } else {
      forall fields: map<string, Json> | key in fields
        ensures At(Project(f, Obj(fields), paths), [Field(key)]) == Some(fields[key])
      {
        FieldAt(f, fields, key, paths);
      }
    }
  }

  /** The projection of an object with a single, matching field. */
  lemma OneField(f: Folding, key: string, value: Json, paths: seq<Path>)
    requires Matches(f, key, paths)
    ensures Project(f, Obj(map[key := value]), paths) ==
            Obj(map[key := Kept(f, value, paths, Segment(f, key, paths))])
  {
    var fields := map[key := value];
    assert HeadMatched(f, fields, paths) by { assert key in fields; }
    var kept := Project(f, Obj(fields), paths).fields;
    assert kept.Keys == {key};
  }

  /** `orderDate` has the two spellings `orderdate` and `order-date`; every other key is itself. */
  const DATES: Folding := Folding(
    (k: string) => if k == "orderDate" then "orderdate" else k,
    (k: string) => if k == "orderDate" then "order-date" else k)

  const LONG: Path := ["orderdate", "x"]
  const SHORT: Path := ["order-date"]

  lemma DatesAreProper()
    ensures DATES.Proper() && DATES.kebab("orderDate") == "order-date"
  {
  }

  lemma DateSegments()
    ensures Segment(DATES, "orderDate", [SHORT]) == "order-date" && Whole([SHORT], "order-date")
    ensures Segment(DATES, "orderDate", [LONG, SHORT]) == "orderdate" && !Whole([LONG, SHORT], "orderdate")
    ensures Subs([LONG, SHORT], "orderdate") == [["x"]]
  {
    OnePath("orderdate", SHORT);
    OnePath("order-date", SHORT);
    assert [LONG, SHORT][1..] == [SHORT] && LONG[1..] == ["x"];
    assert Subs([LONG, SHORT], "orderdate") == [["x"]] + Subs([SHORT], "orderdate");
  }

  lemma DatesKept(value: Json)
    ensures Project(DATES, Obj(map["orderDate" := value]), [SHORT]) == Obj(map["orderDate" := value])
    ensures Project(DATES, Obj(map["orderDate" := value]), [LONG, SHORT]) ==
            Obj(map["orderDate" := Project(DATES, value, [["x"]])])
  {
    hide Project, Segment, Subs, Whole, Wanted, DATES, LONG, SHORT;
    DateSegments();
    OneField(DATES, "orderDate", value, [SHORT]);
    OneField(DATES, "orderDate", value, [LONG, SHORT]);
  }

  const DATE: Json := Obj(map["y" := Scalar("1")])

  lemma DateHasNoX()
    ensures Project(DATES, DATE, [["x"]]) == Obj(map[]) && DATE != Obj(map[])
  {
    hide Project;
    NothingWanted(DATES, "y", Scalar("1"), "x");
    assert "y" in DATE.fields;
  }

  /** Such a field: with `orderdate.x` beside it `order-date` keeps nothing of `orderDate`. */
  lemma KebabCanBeShadowed()
    ensures DATES.Proper() && DATE != Obj(map[])
    ensures Project(DATES, Obj(map["orderDate" := DATE]), [SHORT]) == Obj(map["orderDate" := DATE])
    ensures Project(DATES, Obj(map["orderDate" := DATE]), [LONG, SHORT]) == Obj(map["orderDate" := Obj(map[])])
  {
    hide Project, Folding.Proper, DATE, DATES, LONG, SHORT;
    DatesAreProper();
    DatesKept(DATE);
    DateHasNoX();
  }

  lemma NothingWanted(f: Folding, key: string, value: Json, other: string)
    requires f.lower(key) != other && f.kebab(key) != other && !FoundArray(Obj(map[key := value]))
    ensures Project(f, Obj(map[key := value]), [[other]]) == Obj(map[])
  {
    OnePath(f.lower(key), [other]);
    OnePath(f.kebab(key), [other]);
    assert !HeadMatched(f, map[key := value], [[other]]);
  }

  lemma OnePath(head: string, p: Path)
    ensures Whole([p], head) <==> p == [head]
    ensures Subs([p], head) == if |p| > 1 && p[0] == head then [p[1..]] else []
  {
    assert Subs([p][1..], head) == [];
    if p == [head] { assert [p][0] == [head]; }
  }

  /** `r` is `d` with fields left out; nothing is invented, renamed or moved, lists keep their length. */
  predicate Within(r: Json, d: Json)
    decreases d
  {
    || r == d
    || (r == Arr([]) && d == Null)
    || (r.Arr? && d.Arr? && |r.items| == |d.items| && forall i :: 0 <= i < |d.items| ==> Within(r.items[i], d.items[i]))
    || (r.Obj? && d.Obj? && forall k :: k in r.fields ==> k in d.fields && Within(r.fields[k], d.fields[k]))
  }

  lemma {:induction false} ProjectWithin(f: Folding, data: Json, paths: seq<Path>)
    ensures Within(Project(f, data, paths), data)
    decreases data, 1
  {
    match data
    case Null =>
    case Scalar(_) =>
    case Arr(items) =>
      forall i | 0 <= i < |items|
        ensures Within(Project(f, items[i], paths), items[i])
      {
        ProjectWithin(f, items[i], paths);
      }
    case Obj(fields) =>
      if HeadMatched(f, fields, paths) {
        forall k | k in fields && Matches(f, k, paths)
          ensures Within(Project(f, fields[k], Subs(paths, Segment(f, k, paths))), fields[k])
        {
          ProjectWithin(f, fields[k], Subs(paths, Segment(f, k, paths)));
        }
      } else if FoundArray(data) {
        EnvelopeWithin(f, data, paths);
      }
  }

  lemma {:induction false} EnvelopeWithin(f: Folding, data: Json, paths: seq<Path>)
    requires data.Obj?
    ensures Within(Envelope(f, data, paths), data)
    decreases data, 0
  {
    var kept := Envelope(f, data, paths).fields;
    forall k | k in kept
      ensures Within(kept[k], data.fields[k])
    {
      if data.fields[k].Arr? {
        ProjectWithin(f, data.fields[k], paths);
      } else if k == "_embedded" && FoundArray(data.fields[k]) {
        EnvelopeWithin(f, data.fields[k], paths);
      }
    }
  }

  // ----- nothing else is kept -----

  /** Some path of the selection names the key, in lower case or in kebab case. */
  predicate Named(f: Folding, key: string, paths: seq<Path>) {
    exists n :: 0 <= n < |paths| && paths[n] != [] && paths[n][0] != "" && paths[n][0] in {f.lower(key), f.kebab(key)}
  }

  /** The object holds a list besides its errors and warnings, or embeds such an object. */
  predicate IsEnvelope(data: Json) {
    data.Obj? && exists k :: k in data.fields && k !in {"errors", "Errors", "warnings", "Warnings"}
                             && (data.fields[k].Arr? || (k == "_embedded" && IsEnvelope(data.fields[k])))
  }

  /** Some path leads along the address `a`: at an object with a selected key it spells the field and,
      unless that is selected whole, goes on below it; in a list it goes into every element; in a list
      envelope it goes into the lists while everything else is kept; anywhere else nothing is kept. */
  predicate Along(f: Folding, data: Json, paths: seq<Path>, a: seq<Place>)
    decreases data, 1
  {
    a == [] ||
    match data
    case Null => false
    case Scalar(_) => false
    case Arr(items) => a[0].Index? && a[0].i < |items| && Along(f, items[a[0].i], paths, a[1..])
    case Obj(fields) =>
      a[0].Field? && a[0].key in fields &&
      if exists k :: k in fields && Named(f, k, paths) then
        exists n :: 0 <= n < |paths| && AlongPath(f, data, paths, paths[n], a)
      else IsEnvelope(data) && AlongEnvelope(f, data, paths, a)
  }

  predicate AlongPath(f: Folding, data: Json, paths: seq<Path>, p: Path, a: seq<Place>)
    requires data.Obj? && a != [] && a[0].Field? && a[0].key in data.fields
    decreases data, 0
  {
    && p != [] && Spells(f, a[0].key, paths, p[0])
    && if [p[0]] in paths then At(data.fields[a[0].key], a[1..]).Some?
       else Along(f, data.fields[a[0].key], Subs(paths, p[0]), a[1..])
  }

  predicate AlongEnvelope(f: Folding, data: Json, paths: seq<Path>, a: seq<Place>)
    requires data.Obj? && a != [] && a[0].Field? && a[0].key in data.fields
    decreases data, 0
  {
    var key, value := a[0].key, data.fields[a[0].key];
    if key in {"errors", "Errors", "warnings", "Warnings"} then At(value, a[1..]).Some?
    else if value.Arr? then Along(f, value, paths, a[1..])
    else if key == "_embedded" && IsEnvelope(value) then
      a[1..] == [] || (a[1].Field? && a[1].key in value.fields && AlongEnvelope(f, value, paths, a[1..]))
    else At(value, a[1..]).Some?
  }

  lemma {:induction false} EnvelopeIsFound(data: Json)
    ensures IsEnvelope(data) <==> FoundArray(data)
    decreases data
  {
    if data.Obj? {
      forall k | k in data.fields
        ensures IsEnvelope(data.fields[k]) <==> FoundArray(data.fields[k])
      {
        EnvelopeIsFound(data.fields[k]);
      }
    }
  }

  lemma NamedMatches(f: Folding, key: string, paths: seq<Path>)
    requires f.Proper()
    ensures Named(f, key, paths) <==> Matches(f, key, paths)
  {
    if n :| 0 <= n < |paths| && paths[n] != [] && paths[n][0] != "" && paths[n][0] in {f.lower(key), f.kebab(key)} {
      HeadsAreWanted(paths, n);
    }
    if Matches(f, key, paths) {
      var n := WantedIsHead(paths, Segment(f, key, paths));
      assert paths[n][0] in {f.lower(key), f.kebab(key)};
    }
  }

  lemma SpellsSegment(f: Folding, key: string, paths: seq<Path>, n: nat)
    requires n < |paths| && paths[n] != []
    ensures Spells(f, key, paths, paths[n][0]) ==> Segment(f, key, paths) == paths[n][0] != ""
    ensures Segment(f, key, paths) == paths[n][0] != "" ==> Spells(f, key, paths, paths[n][0])
  {
    HeadsAreWanted(paths, n);
  }

  lemma WholeIsListed(paths: seq<Path>, head: string)
    ensures Whole(paths, head) <==> [head] in paths
  {
  }

  /** The result holds exactly the addresses along which some path leads: what is selected, and nothing
      else. */
  lemma {:induction false} AddressSurvivesExactlyWhen(f: Folding, data: Json, paths: seq<Path>, a: seq<Place>)
    requires f.Proper()
    ensures At(Project(f, data, paths), a).Some? <==> Along(f, data, paths, a)
    decreases data, 1
  {
    if a != [] {
      match data
      case Null =>
      case Scalar(_) =>
      case Arr(items) =>
        if a[0].Index? && a[0].i < |items| { AddressSurvivesExactlyWhen(f, items[a[0].i], paths, a[1..]); }
      case Obj(fields) =>
        forall k
          ensures Named(f, k, paths) <==> Matches(f, k, paths)
        {
          NamedMatches(f, k, paths);
        }
        EnvelopeIsFound(data);
        if a[0].Field? && a[0].key in fields {
          if HeadMatched(f, fields, paths) {
            FieldSurvives(f, data, paths, a);
          } else if FoundArray(data) {
            EnvelopeSurvives(f, data, paths, a);
          }
        }
    }
  }

  lemma {:induction false} FieldSurvives(f: Folding, data: Json, paths: seq<Path>, a: seq<Place>)
    requires f.Proper() && data.Obj? && HeadMatched(f, data.fields, paths)
    requires a != [] && a[0].Field? && a[0].key in data.fields
    ensures At(Project(f, data, paths), a).Some? <==>
            exists n :: 0 <= n < |paths| && AlongPath(f, data, paths, paths[n], a)
    decreases data, 0
  {
    var key := a[0].key;
    var value, seg := data.fields[key], Segment(f, key, paths);
    WholeIsListed(paths, seg);
    if Matches(f, key, paths) {
      FieldAt(f, data.fields, key, paths);
      var kept := Project(f, data, paths);
      assert At(kept, a) == At(kept.fields[key], a[1..]) && At(kept, [Field(key)]) == Some(kept.fields[key]);
      if !Whole(paths, seg) { AddressSurvivesExactlyWhen(f, value, Subs(paths, seg), a[1..]); }
      var n := WantedIsHead(paths, seg);
      SpellsSegment(f, key, paths, n);
      assert AlongPath(f, data, paths, paths[n], a) <==> At(kept, a).Some?;
    }
    forall n | 0 <= n < |paths| && AlongPath(f, data, paths, paths[n], a)
      ensures Matches(f, key, paths) && paths[n][0] == seg
    {
      SpellsSegment(f, key, paths, n);
    }
  }

  lemma {:induction false} EnvelopeSurvives(f: Folding, data: Json, paths: seq<Path>, a: seq<Place>)
    requires f.Proper() && data.Obj? && a != [] && a[0].Field? && a[0].key in data.fields
    ensures At(Envelope(f, data, paths), a).Some? <==> AlongEnvelope(f, data, paths, a)
    decreases data, 0
  {
    var key := a[0].key;
    var value := data.fields[key];
    EnvelopeIsFound(value);
    if !IsMetadata(key) {
      if value.Arr? {
        AddressSurvivesExactlyWhen(f, value, paths, a[1..]);
      } else if key == "_embedded" && FoundArray(value) && a[1..] != [] {
        if a[1].Field? && a[1].key in value.fields { EnvelopeSurvives(f, value, paths, a[1..]); }
      }
    }
  }

  lemma {:induction false} WithinAt(r: Json, d: Json, a: seq<Place>)
    requires Within(r, d) && At(r, a).Some?
    ensures At(d, a).Some? && Within(At(r, a).value, At(d, a).value)
    decreases |a|
  {
    if a != [] && r != d {
      if r.Arr? {
        WithinAt(r.items[a[0].i], d.items[a[0].i], a[1..]);
      } else {
        WithinAt(r.fields[a[0].key], d.fields[a[0].key], a[1..]);
      }
    }
  }

  /** So the scalars of the result are exactly the scalars of the data along the paths, in place. */
  lemma ScalarSurvivesExactlyWhen(f: Folding, data: Json, paths: seq<Path>, a: seq<Place>, text: string)
    requires f.Proper()
    ensures At(Project(f, data, paths), a) == Some(Scalar(text)) <==>
              Along(f, data, paths, a) && At(data, a) == Some(Scalar(text))
  {
    hide Project, Along, At, Within;
    AddressSurvivesExactlyWhen(f, data, paths, a);
    if At(Project(f, data, paths), a).Some? {
      ProjectWithin(f, data, paths);
      WithinAt(Project(f, data, paths), data, a);
      ScalarWithin(At(Project(f, data, paths), a).value, At(data, a).value);
    }
  }

  lemma ScalarWithin(r: Json, d: Json)
    requires Within(r, d)
    ensures r.Scalar? || d.Scalar? ==> r == d
  {
  }

  /** At an object with a selected key only selected keys are kept. */
  lemma OnlySelectedKeys(f: Folding, fields: map<string, Json>, paths: seq<Path>, key: string)
    requires f.Proper() && exists k :: k in fields && Named(f, k, paths)
    ensures Project(f, Obj(fields), paths).Obj?
    ensures key in Project(f, Obj(fields), paths).fields <==> key in fields && Named(f, key, paths)
  {
    hide Named;
    forall k
      ensures Named(f, k, paths) <==> Matches(f, k, paths)
    {
      NamedMatches(f, k, paths);
    }
  }

  // ----- when the data is left alone -----

  /** A null or an empty list that the selection reaches before it is satisfied: nothing tells whether
      it fits. */
  predicate Unsettled(f: Folding, data: Json, paths: seq<Path>)
    decreases data, 1
  {
    match data
    case Null => true
    case Scalar(_) => false
    case Arr(items) => items == [] || exists i :: 0 <= i < |items| && Unsettled(f, items[i], paths)
    case Obj(fields) =>
      if HeadMatched(f, fields, paths) then
        exists k :: k in fields && Matches(f, k, paths) && !Whole(paths, Segment(f, k, paths)) &&
                    Unsettled(f, fields[k], Subs(paths, Segment(f, k, paths)))
      else UnsettledInside(f, data, paths)
  }

  predicate UnsettledInside(f: Folding, data: Json, paths: seq<Path>)
    requires data.Obj?
    decreases data, 0
  {
    exists k :: k in data.fields && !IsMetadata(k) && ListUnsettled(f, data, k, paths)
  }

  predicate ListUnsettled(f: Folding, data: Json, k: string, paths: seq<Path>)
    requires data.Obj? && k in data.fields
    decreases data, 0, 0
  {
    if data.fields[k].Arr? then Unsettled(f, data.fields[k], paths)
    else k == "_embedded" && FoundArray(data.fields[k]) && UnsettledInside(f, data.fields[k], paths)
  }

  /** A null or an empty list anywhere. */
  predicate HasGap(data: Json) {
    match data
    case Null => true
    case Scalar(_) => false
    case Arr(items) => items == [] || exists i :: 0 <= i < |items| && HasGap(items[i])
    case Obj(fields) => exists k :: k in fields && HasGap(fields[k])
  }

  /** A selection reports exactly its matches and what it leaves unsettled, and without nulls and empty
      lists nothing is unsettled. */
  lemma {:induction false} ReportedIsMatchedOrOpen(f: Folding, data: Json, paths: seq<Path>)
    ensures Reported(f, data, paths) <==> Matched(f, data, paths) || Unsettled(f, data, paths)
    ensures Unsettled(f, data, paths) ==> HasGap(data)
    decreases data, 1
  {
    match data
    case Null =>
    case Scalar(_) =>
    case Arr(items) =>
      forall i | 0 <= i < |items|
        ensures Reported(f, items[i], paths) <==> Matched(f, items[i], paths) || Unsettled(f, items[i], paths)
        ensures Unsettled(f, items[i], paths) ==> HasGap(items[i])
      {
        ReportedIsMatchedOrOpen(f, items[i], paths);
      }
    case Obj(fields) =>
      if HeadMatched(f, fields, paths) {
        forall k | k in fields && Matches(f, k, paths)
          ensures var subs := Subs(paths, Segment(f, k, paths));
                  && (FieldReported(f, data, k, paths) <==>
                        || FieldMatched(f, data, k, paths)
                        || (!Whole(paths, Segment(f, k, paths)) && Unsettled(f, fields[k], subs)))
                  && (Unsettled(f, fields[k], subs) ==> HasGap(fields[k]))
        {
          ReportedIsMatchedOrOpen(f, fields[k], Subs(paths, Segment(f, k, paths)));
        }
      } else {
        InsideIsMatchedOrOpen(f, data, paths);
      }
  }

  lemma {:induction false} InsideIsMatchedOrOpen(f: Folding, data: Json, paths: seq<Path>)
    requires data.Obj?
    ensures ReportedInside(f, data, paths) <==> MatchedInside(f, data, paths) || UnsettledInside(f, data, paths)
    ensures UnsettledInside(f, data, paths) ==> HasGap(data)
    decreases data, 0
  {
    forall k | k in data.fields
      ensures ListReported(f, data, k, paths) <==> ListMatched(f, data, k, paths) || ListUnsettled(f, data, k, paths)
      ensures ListUnsettled(f, data, k, paths) ==> HasGap(data.fields[k])
    {
      if data.fields[k].Arr? {
        ReportedIsMatchedOrOpen(f, data.fields[k], paths);
      } else if k == "_embedded" && FoundArray(data.fields[k]) {
        InsideIsMatchedOrOpen(f, data.fields[k], paths);
      }
    }
  }

  /** A selection projects when it matches or leaves something unsettled, and otherwise leaves the data
      alone, as no selection does; on data without nulls and empty lists matching alone decides. */
  lemma FilterFieldsWhenSelected(f: Folding, data: Json, paths: seq<Path>)
    ensures paths == [] ==> FilterFields(f, data, paths) == data
    ensures paths != [] ==>
              FilterFields(f, data, paths) ==
              if Matched(f, data, paths) || Unsettled(f, data, paths) then Project(f, data, paths) else data
    ensures paths != [] && !HasGap(data) ==>
              FilterFields(f, data, paths) == if Matched(f, data, paths) then Project(f, data, paths) else data
  {
    ReportedIsMatchedOrOpen(f, data, paths);
  }

  // ----- combined and single selections -----

  /** The path `p` still has a route when the whole selection is in force: at every object the selection
      takes for some key the segment `p` wants, or takes none and the route leads through a list. */
  predicate Route(f: Folding, data: Json, paths: seq<Path>, p: Path)
    decreases data, 1
  {
    match data
    case Null => false
    case Scalar(_) => false
    case Arr(items) => exists i :: 0 <= i < |items| && Route(f, items[i], paths, p)
    case Obj(fields) =>
      if HeadMatched(f, fields, paths) then
        exists k :: k in fields && Matches(f, k, paths) && FieldRoute(f, data, k, paths, p)
      else RouteInside(f, data, paths, p)
  }

  predicate FieldRoute(f: Folding, data: Json, k: string, paths: seq<Path>, p: Path)
    requires data.Obj? && k in data.fields
    decreases data, 0
  {
    p != [] && p[0] == Segment(f, k, paths) && (|p| == 1 || Route(f, data.fields[k], Subs(paths, p[0]), p[1..]))
  }

  predicate RouteInside(f: Folding, data: Json, paths: seq<Path>, p: Path)
    requires data.Obj?
    decreases data, 0
  {
    exists k :: k in data.fields && !IsMetadata(k) && ListRoute(f, data, k, paths, p)
  }

  predicate ListRoute(f: Folding, data: Json, k: string, paths: seq<Path>, p: Path)
    requires data.Obj? && k in data.fields
    decreases data, 0, 0
  {
    if data.fields[k].Arr? then Route(f, data.fields[k], paths, p)
    else k == "_embedded" && FoundArray(data.fields[k]) && RouteInside(f, data.fields[k], paths, p)
  }

  lemma {:induction false} SubsOf(paths: seq<Path>, head: string, m: nat) returns (n: nat)
    requires m < |Subs(paths, head)|
    ensures n < |paths| && |paths[n]| > 1 && paths[n][0] == head && paths[n][1..] == Subs(paths, head)[m]
  {
    var first := if |paths[0]| > 1 && paths[0][0] == head then 1 else 0;
    if m < first {
      n := 0;
    } else {
      n := SubsOf(paths[1..], head, m - first);
      n := n + 1;
    }
  }

  lemma {:induction false} RouteMatches(f: Folding, data: Json, paths: seq<Path>, n: nat)
    requires n < |paths| && Route(f, data, paths, paths[n])
    ensures Matched(f, data, paths)
    decreases data, 1
  {
    var p := paths[n];
    match data
    case Arr(items) =>
      var i :| 0 <= i < |items| && Route(f, items[i], paths, p);
      RouteMatches(f, items[i], paths, n);
    case Obj(fields) =>
      if HeadMatched(f, fields, paths) {
        var k :| k in fields && Matches(f, k, paths) && FieldRoute(f, data, k, paths, p);
        if |p| == 1 {
          assert paths[n] == [p[0]];
        } else {
          var m := SubsInclude(paths, n);
          RouteMatches(f, fields[k], Subs(paths, p[0]), m);
        }
        assert FieldMatched(f, data, k, paths);
      } else {
        RouteInsideMatches(f, data, paths, n);
      }
  }

  lemma {:induction false} RouteInsideMatches(f: Folding, data: Json, paths: seq<Path>, n: nat)
    requires data.Obj? && n < |paths| && RouteInside(f, data, paths, paths[n])
    ensures MatchedInside(f, data, paths)
    decreases data, 0
  {
    var k :| k in data.fields && !IsMetadata(k) && ListRoute(f, data, k, paths, paths[n]);
    if data.fields[k].Arr? {
      RouteMatches(f, data.fields[k], paths, n);
    } else {
      RouteInsideMatches(f, data.fields[k], paths, n);
    }
    assert ListMatched(f, data, k, paths);
  }

  lemma {:induction false} MatchedHasRoute(f: Folding, data: Json, paths: seq<Path>) returns (n: nat)
    requires Matched(f, data, paths)
    ensures n < |paths| && Route(f, data, paths, paths[n])
    decreases data, 1
  {
    match data
    case Arr(items) =>
      var i :| 0 <= i < |items| && Matched(f, items[i], paths);
      n := MatchedHasRoute(f, items[i], paths);
    case Obj(fields) =>
      if HeadMatched(f, fields, paths) {
        var k :| k in fields && Matches(f, k, paths) && FieldMatched(f, data, k, paths);
        var head := Segment(f, k, paths);
        if Whole(paths, head) {
          n :| 0 <= n < |paths| && paths[n] == [head];
        } else {
          var m := MatchedHasRoute(f, fields[k], Subs(paths, head));
          n := SubsOf(paths, head, m);
        }
        assert FieldRoute(f, data, k, paths, paths[n]);
      } else {
        n := MatchedInsideHasRoute(f, data, paths);
      }
  }

  lemma {:induction false} MatchedInsideHasRoute(f: Folding, data: Json, paths: seq<Path>) returns (n: nat)
    requires data.Obj? && MatchedInside(f, data, paths)
    ensures n < |paths| && RouteInside(f, data, paths, paths[n])
    decreases data, 0
  {
    var k :| k in data.fields && !IsMetadata(k) && ListMatched(f, data, k, paths);
    if data.fields[k].Arr? {
      n := MatchedHasRoute(f, data.fields[k], paths);
    } else {
      n := MatchedInsideHasRoute(f, data.fields[k], paths);
    }
    assert ListRoute(f, data, k, paths, paths[n]);
  }

  /** A selection matches exactly when one of its paths has a route under it. */
  lemma MatchedExactlyWhenRouted(f: Folding, data: Json, paths: seq<Path>)
    ensures Matched(f, data, paths) <==> exists n :: 0 <= n < |paths| && Route(f, data, paths, paths[n])
  {
    if Matched(f, data, paths) { var n := MatchedHasRoute(f, data, paths); }
    if n :| 0 <= n < |paths| && Route(f, data, paths, paths[n]) { RouteMatches(f, data, paths, n); }
  }

  /** What one path wants, the selection wants. */
  lemma WantedByAll(paths: seq<Path>, n: nat, head: string)
    requires n < |paths|
    ensures Wanted([paths[n]], head) ==> Wanted(paths, head) && paths[n] != [] && paths[n][0] == head
  {
    OnePath(head, paths[n]);
    if Wanted([paths[n]], head) { HeadsAreWanted(paths, n); }
  }

  lemma OnePathMatchesNoMore(f: Folding, fields: map<string, Json>, paths: seq<Path>, n: nat)
    requires f.Proper() && n < |paths| && !HeadMatched(f, fields, paths)
    ensures !HeadMatched(f, fields, [paths[n]])
  {
    forall k | k in fields
      ensures !Matches(f, k, [paths[n]])
    {
      assert !Matches(f, k, paths);
      WantedByAll(paths, n, f.lower(k));
      WantedByAll(paths, n, f.kebab(k));
    }
  }

  /** The segment a key matches in the selection is the one it matches in the path responsible. */
  lemma SameSegment(f: Folding, k: string, paths: seq<Path>, n: nat)
    requires n < |paths| && Matches(f, k, paths) && Wanted([paths[n]], Segment(f, k, paths))
    ensures Segment(f, k, [paths[n]]) == Segment(f, k, paths)
  {
    WantedByAll(paths, n, f.lower(k));
  }

  /** A path with a route under the selection matches on its own. */
  lemma {:induction false} RoutedMatchesAlone(f: Folding, data: Json, paths: seq<Path>, n: nat)
    requires f.Proper() && n < |paths| && Route(f, data, paths, paths[n])
    ensures Matched(f, data, [paths[n]])
    decreases data, 1
  {
    var p := paths[n];
    match data
    case Arr(items) =>
      var i :| 0 <= i < |items| && Route(f, items[i], paths, p);
      RoutedMatchesAlone(f, items[i], paths, n);
    case Obj(fields) =>
      if HeadMatched(f, fields, paths) {
        var k :| k in fields && Matches(f, k, paths) && FieldRoute(f, data, k, paths, p);
        OnePath(p[0], p);
        SameSegment(f, k, paths, n);
        if |p| > 1 {
          var m := SubsInclude(paths, n);
          RoutedMatchesAlone(f, fields[k], Subs(paths, p[0]), m);
        }
        assert FieldMatched(f, data, k, [p]);
      } else {
        OnePathMatchesNoMore(f, fields, paths, n);
        RoutedInsideMatchesAlone(f, data, paths, n);
      }
  }

  lemma {:induction false} RoutedInsideMatchesAlone(f: Folding, data: Json, paths: seq<Path>, n: nat)
    requires f.Proper() && data.Obj? && n < |paths| && RouteInside(f, data, paths, paths[n])
    ensures MatchedInside(f, data, [paths[n]])
    decreases data, 0
  {
    var k :| k in data.fields && !IsMetadata(k) && ListRoute(f, data, k, paths, paths[n]);
    if data.fields[k].Arr? {
      RoutedMatchesAlone(f, data.fields[k], paths, n);
    } else {
      RoutedInsideMatchesAlone(f, data.fields[k], paths, n);
    }
    assert ListMatched(f, data, k, [paths[n]]);
  }

  /** A combined selection that matches contains a path that matches on its own. */
  lemma MatchedByOnePath(f: Folding, data: Json, paths: seq<Path>) returns (n: nat)
    requires f.Proper() && Matched(f, data, paths)
    ensures n < |paths| && Matched(f, data, [paths[n]])
  {
    n := MatchedHasRoute(f, data, paths);
    RoutedMatchesAlone(f, data, paths, n);
  }

  // ----- when combining paths never loses a match -----

  /** The path can match a key at all; one with an empty head never does. */
  predicate Active(p: Path) {
    p != [] && p[0] != ""
  }

  /** The path matches in some data: it has no empty segment. */
  predicate Live(p: Path) {
    p != [] && forall i :: 0 <= i < |p| ==> p[i] != ""
  }

  predicate NoneLive(paths: seq<Path>) {
    forall n :: 0 <= n < |paths| ==> !Live(paths[n])
  }

  /** Every head is also selected whole. */
  predicate AllWhole(paths: seq<Path>) {
    forall n :: 0 <= n < |paths| && Active(paths[n]) ==> Whole(paths, paths[n][0])
  }

  function FirstHead(paths: seq<Path>): string {
    if paths == [] then "" else if Active(paths[0]) then paths[0][0] else FirstHead(paths[1..])
  }

  predicate OneHead(paths: seq<Path>) {
    forall n :: 0 <= n < |paths| && Active(paths[n]) ==> paths[n][0] == FirstHead(paths)
  }

  lemma {:induction false} FirstHeadIsHead(paths: seq<Path>, n: nat) returns (m: nat)
    requires n < |paths| && Active(paths[n])
    ensures m < |paths| && Active(paths[m]) && paths[m][0] == FirstHead(paths)
  {
    if Active(paths[0]) {
      m := 0;
    } else {
      m := FirstHeadIsHead(paths[1..], n - 1);
      m := m + 1;
    }
  }

  function MaxLength(paths: seq<Path>): nat {
    if paths == [] then 0
    else
      var rest := MaxLength(paths[1..]);
      if |paths[0]| > rest then |paths[0]| else rest
  }

  lemma {:induction false} SubsAreShorter(paths: seq<Path>, head: string)
    ensures MaxLength(Subs(paths, head)) < MaxLength(paths) || Subs(paths, head) == []
  {
    if paths != [] {
      SubsAreShorter(paths[1..], head);
      if |paths[0]| > 1 && paths[0][0] == head {
        var rest := Subs(paths[1..], head);
        assert ([paths[0][1..]] + rest)[1..] == rest;
      } else {
        assert [] + Subs(paths[1..], head) == Subs(paths[1..], head);
      }
    }
  }

  /** No path can match at all, or every head is selected whole, or all paths share one head and are safe
      below it.  Paths with an empty head play no part. */
  predicate Safe(paths: seq<Path>)
    decreases MaxLength(paths)
  {
    NoneLive(paths) || AllWhole(paths) ||
    (OneHead(paths) &&
     (SubsAreShorter(paths, FirstHead(paths));
      Subs(paths, FirstHead(paths)) == [] || Safe(Subs(paths, FirstHead(paths)))))
  }

  lemma WantedIsHead(paths: seq<Path>, head: string) returns (n: nat)
    requires Wanted(paths, head)
    ensures n < |paths| && paths[n] != [] && paths[n][0] == head
  {
    if Whole(paths, head) {
      n :| 0 <= n < |paths| && paths[n] == [head];
    } else {
      n := SubsOf(paths, head, 0);
    }
  }

  lemma OneHeadWanted(paths: seq<Path>, n: nat, x: string)
    requires OneHead(paths) && n < |paths| && Active(paths[n]) && x != ""
    ensures Wanted(paths, x) <==> Wanted([paths[n]], x)
  {
    WantedByAll(paths, n, x);
    if Wanted(paths, x) {
      var m := WantedIsHead(paths, x);
      OnePath(x, paths[n]);
    }
  }

  lemma OneHeadSegment(f: Folding, paths: seq<Path>, n: nat, k: string)
    requires f.Proper() && OneHead(paths) && n < |paths| && Active(paths[n])
    ensures Segment(f, k, paths) == Segment(f, k, [paths[n]])
  {
    if f.lower(k) != "" { OneHeadWanted(paths, n, f.lower(k)); }
    if f.kebab(k) != "" { OneHeadWanted(paths, n, f.kebab(k)); }
    OnePath("", paths[n]);
  }

  /** A path that matches has no empty segment. */
  lemma {:induction false} MatchedIsLive(f: Folding, data: Json, p: Path)
    requires Matched(f, data, [p])
    ensures Live(p)
    decreases data, 1
  {
    match data
    case Arr(items) =>
      var i :| 0 <= i < |items| && Matched(f, items[i], [p]);
      MatchedIsLive(f, items[i], p);
    case Obj(fields) =>
      if HeadMatched(f, fields, [p]) {
        var k :| k in fields && Matches(f, k, [p]) && FieldMatched(f, data, k, [p]);
        var seg := Segment(f, k, [p]);
        OnePath(seg, p);
        if p != [seg] {
          MatchedIsLive(f, fields[k], p[1..]);
          assert forall i :: 1 <= i < |p| ==> p[i] == p[1..][i - 1];
        }
      } else {
        MatchedInsideIsLive(f, data, p);
      }
  }

  lemma {:induction false} MatchedInsideIsLive(f: Folding, data: Json, p: Path)
    requires data.Obj? && MatchedInside(f, data, [p])
    ensures Live(p)
    decreases data, 0
  {
    var k :| k in data.fields && !IsMetadata(k) && ListMatched(f, data, k, [p]);
    if data.fields[k].Arr? {
      MatchedIsLive(f, data.fields[k], p);
    } else {
      MatchedInsideIsLive(f, data.fields[k], p);
    }
  }

  /** A safe selection matches whatever one of its paths matches, in all data. */
  lemma {:induction false} SafeKeepsMatch(f: Folding, data: Json, paths: seq<Path>, n: nat)
    requires f.Proper() && Safe(paths) && n < |paths| && Matched(f, data, [paths[n]])
    ensures Matched(f, data, paths)
    decreases data, 1
  {
    var p := paths[n];
    MatchedIsLive(f, data, p);
    match data
    case Arr(items) =>
      var i :| 0 <= i < |items| && Matched(f, items[i], [p]);
      SafeKeepsMatch(f, items[i], paths, n);
    case Obj(fields) =>
      if !HeadMatched(f, fields, paths) {
        OnePathMatchesNoMore(f, fields, paths, n);
        SafeKeepsMatchInside(f, data, paths, n);
      } else if AllWhole(paths) {
        var k :| k in fields && Matches(f, k, paths);
        var m := WantedIsHead(paths, Segment(f, k, paths));
        assert FieldMatched(f, data, k, paths);
      } else {
        OneHeadKeepsMatch(f, data, paths, n);
      }
  }

  lemma {:induction false} OneHeadKeepsMatch(f: Folding, data: Json, paths: seq<Path>, n: nat)
    requires f.Proper() && Safe(paths) && !NoneLive(paths) && !AllWhole(paths) && n < |paths| && Live(paths[n])
    requires data.Obj? && HeadMatched(f, data.fields, paths) && Matched(f, data, [paths[n]])
    ensures Matched(f, data, paths)
    decreases data, 0
  {
    var p, h := paths[n], FirstHead(paths);
    forall k: string
      ensures Segment(f, k, paths) == Segment(f, k, [p])
    {
      OneHeadSegment(f, paths, n, k);
    }
    var k0 :| k0 in data.fields && Matches(f, k0, paths);
    assert HeadMatched(f, data.fields, [p]) by { assert Matches(f, k0, [p]); }
    var k :| k in data.fields && Matches(f, k, [p]) && FieldMatched(f, data, k, [p]);
    WantedByAll(paths, n, Segment(f, k, [p]));
    OnePath(h, p);
    assert p != [h];
    var m := SubsInclude(paths, n);
    SafeKeepsMatch(f, data.fields[k], Subs(paths, h), m);
    assert FieldMatched(f, data, k, paths);
  }

  lemma {:induction false} SafeKeepsMatchInside(f: Folding, data: Json, paths: seq<Path>, n: nat)
    requires f.Proper() && Safe(paths) && n < |paths| && data.Obj? && MatchedInside(f, data, [paths[n]])
    ensures MatchedInside(f, data, paths)
    decreases data, 0
  {
    var k :| k in data.fields && !IsMetadata(k) && ListMatched(f, data, k, [paths[n]]);
    if data.fields[k].Arr? {
      SafeKeepsMatch(f, data.fields[k], paths, n);
    } else {
      SafeKeepsMatchInside(f, data.fields[k], paths, n);
    }
    assert ListMatched(f, data, k, paths);
  }

  const PLAIN: Folding := Folding((k: string) => k, (k: string) => k)

  /** Data that holds just what the path selects. */
  function Nest(p: Path): Json {
    if p == [] then Scalar("") else Obj(map[p[0] := Nest(p[1..])])
  }

  lemma {:induction false} NestMatches(p: Path)
    requires Live(p)
    ensures Matched(PLAIN, Nest(p), [p])
  {
    var data := Nest(p);
    OnePath(p[0], p);
    assert Matches(PLAIN, p[0], [p]) && HeadMatched(PLAIN, data.fields, [p]);
    if |p| > 1 {
      NestMatches(p[1..]);
    } else {
      assert p == [p[0]];
    }
    assert FieldMatched(PLAIN, data, p[0], [p]);
  }

  /** A key no path selects. */
  function FreshKey(paths: seq<Path>): string {
    if paths == [] then "x" else FreshKey(paths[1..]) + (if paths[0] == [] then "" else paths[0][0])
  }

  lemma {:induction false} FreshKeyIsUnwanted(paths: seq<Path>, n: nat)
    requires n < |paths| && paths[n] != []
    ensures FreshKey(paths) != paths[n][0]
    ensures FreshKey(paths) != "" && FreshKey(paths)[0] == 'x' && |FreshKey(paths)| > |paths[n][0]|
  {
    FreshKeyStarts(paths[1..]);
    if n > 0 { FreshKeyIsUnwanted(paths[1..], n - 1); }
  }

  lemma {:induction false} FreshKeyStarts(paths: seq<Path>)
    ensures FreshKey(paths) != "" && FreshKey(paths)[0] == 'x'
  {
    if paths != [] { FreshKeyStarts(paths[1..]); }
  }

  /** A scalar under the head `h` next to a list `x` of what the path selects. */
  function Beside(h: string, x: string, p: Path): map<string, Json> {
    map[h := Scalar(""), x := Arr([Nest(p)])]
  }

  lemma BesideMatchesAlone(h: string, x: string, p: Path)
    requires Live(p) && h != p[0] && x != p[0] && !IsMetadata(x)
    ensures Matched(PLAIN, Obj(Beside(h, x, p)), [p])
  {
    hide Nest, Subs, Whole;
    var fields := Beside(h, x, p);
    NestMatches(p);
    var list := Arr([Nest(p)]);
    assert list.items[0] == Nest(p) && Matched(PLAIN, list, [p]);
    forall k | k in fields
      ensures !Matches(PLAIN, k, [p])
    {
      OnePath(k, p);
    }
    assert x in fields && fields[x] == list && ListMatched(PLAIN, Obj(fields), x, [p]);
  }

  lemma BesideIsLost(h: string, x: string, p: Path, paths: seq<Path>)
    requires h != "" && Wanted(paths, h) && !Whole(paths, h) && !Wanted(paths, x)
    ensures !Matched(PLAIN, Obj(Beside(h, x, p)), paths)
  {
    hide Nest, Subs, Whole;
    var fields := Beside(h, x, p);
    assert h in fields && Matches(PLAIN, h, paths) && HeadMatched(PLAIN, fields, paths);
    assert !FieldMatched(PLAIN, Obj(fields), h, paths);
    assert forall k :: k in fields ==> k == h || k == x;
    assert !Matches(PLAIN, x, paths);
  }

  lemma FreshKeyUnwanted(paths: seq<Path>)
    ensures !Wanted(paths, FreshKey(paths)) && !IsMetadata(FreshKey(paths))
  {
    FreshKeyStarts(paths);
    if Wanted(paths, FreshKey(paths)) {
      var i := WantedIsHead(paths, FreshKey(paths));
      FreshKeyIsUnwanted(paths, i);
    }
  }

  /** A path beside another head that is not selected whole can be lost. */
  lemma OtherHeadLoses(paths: seq<Path>, m: nat, n: nat) returns (data: Json)
    requires m < |paths| && Active(paths[m]) && n < |paths| && Live(paths[n])
    requires paths[n][0] != paths[m][0] && !Whole(paths, paths[m][0])
    ensures Matched(PLAIN, data, [paths[n]]) && !Matched(PLAIN, data, paths)
  {
    hide Matched, FreshKey, Beside, Whole, Wanted, IsMetadata;
    var p, h, x := paths[n], paths[m][0], FreshKey(paths);
    data := Obj(Beside(h, x, p));
    FreshKeyIsUnwanted(paths, m);
    FreshKeyIsUnwanted(paths, n);
    FreshKeyUnwanted(paths);
    HeadsAreWanted(paths, m);
    BesideMatchesAlone(h, x, p);
    BesideIsLost(h, x, p, paths);
  }

  /** An unsafe selection loses a match in some data. */
  lemma {:induction false} UnsafeLosesMatch(paths: seq<Path>) returns (data: Json, n: nat)
    requires !Safe(paths)
    ensures n < |paths| && Matched(PLAIN, data, [paths[n]]) && !Matched(PLAIN, data, paths)
    decreases MaxLength(paths)
  {
    var m :| 0 <= m < |paths| && Active(paths[m]) && !Whole(paths, paths[m][0]);
    var h := paths[m][0];
    n :| 0 <= n < |paths| && Live(paths[n]);
    if i :| 0 <= i < |paths| && Live(paths[i]) && paths[i][0] != h {
      n := i;
      data := OtherHeadLoses(paths, m, i);
    } else if j :| 0 <= j < |paths| && Active(paths[j]) && paths[j][0] != h {
      assert !Whole(paths, paths[j][0]);
      data := OtherHeadLoses(paths, j, n);
    } else {
      var _ := FirstHeadIsHead(paths, m);
      SubsAreShorter(paths, h);
      var inner, k := UnsafeLosesMatch(Subs(paths, h));
      n := SubsOf(paths, h, k);
      data := Obj(map[h := inner]);
      BelowHead(paths, n, h, inner);
    }
  }

  lemma BelowHead(paths: seq<Path>, n: nat, h: string, inner: Json)
    requires n < |paths| && |paths[n]| > 1 && paths[n][0] == h && h != "" && !Whole(paths, h)
    ensures Matched(PLAIN, Obj(map[h := inner]), [paths[n]]) <==> Matched(PLAIN, inner, [paths[n][1..]])
    ensures Matched(PLAIN, Obj(map[h := inner]), paths) <==> Matched(PLAIN, inner, Subs(paths, h))
  {
    var data := Obj(map[h := inner]);
    OnePath(h, paths[n]);
    HeadsAreWanted(paths, n);
    assert Matches(PLAIN, h, paths) && HeadMatched(PLAIN, data.fields, paths);
    assert Matches(PLAIN, h, [paths[n]]) && HeadMatched(PLAIN, data.fields, [paths[n]]);
    assert FieldMatched(PLAIN, data, h, paths) <==> Matched(PLAIN, inner, Subs(paths, h));
    assert FieldMatched(PLAIN, data, h, [paths[n]]) <==> Matched(PLAIN, inner, [paths[n][1..]]);
  }

  /** Exactly the safe selections match, in all data and under every folding, whatever one of their
      paths matches. */
  lemma CombiningKeepsMatchesExactlyWhen(paths: seq<Path>)
    ensures Safe(paths) <==>
            forall f: Folding, data: Json, n: nat ::
              f.Proper() && n < |paths| && Matched(f, data, [paths[n]]) ==> Matched(f, data, paths)
  {
    if Safe(paths) {
      forall f: Folding, data: Json, n: nat | f.Proper() && n < |paths| && Matched(f, data, [paths[n]])
        ensures Matched(f, data, paths)
      {
        SafeKeepsMatch(f, data, paths, n);
      }
    } else {
      var data, n := UnsafeLosesMatch(paths);
      assert PLAIN.Proper();
    }
  }

  /** Such a selection: a path that matches only inside the list envelope stops matching beside a path
      whose head names a sibling of the list. */
  lemma CombiningCanLoseAMatch() returns (f: Folding, data: Json, p: Path, q: Path)
    ensures f.Proper() && Matched(f, data, [q]) && !Matched(f, data, [p, q])
  {
    f := Folding((k: string) => k, (k: string) => k);
    p, q := ["a", "z"], ["b"];
    var item := Obj(map["b" := Scalar("2")]);
    var fields := map["a" := Scalar("1"), "items" := Arr([item])];
    data := Obj(fields);
    OnePath("a", q);
    OnePath("b", q);
    OnePath("items", q);
    assert Matches(f, "b", [q]) && HeadMatched(f, item.fields, [q]) && FieldMatched(f, item, "b", [q]);
    assert Matched(f, item, [q]);
    var list := [item];
    assert list[0] == item && Matched(f, Arr(list), [q]);
    assert forall k :: k in fields ==> k == "a" || k == "items";
    assert !HeadMatched(f, fields, [q]);
    assert ListMatched(f, data, "items", [q]);
    assert Matched(f, data, [q]);
    assert [p, q][1..] == [q] && p[1..] == ["z"];
    assert Subs([p, q], "a") == [p[1..]] + Subs([q], "a") && Subs([p, q], "items") == [] + Subs([q], "items");
    assert HeadMatched(f, fields, [p, q]) by { assert Matches(f, "a", [p, q]); }
    assert !Whole([p, q], "a") && !Whole([p, q], "items");
    assert !FieldMatched(f, data, "a", [p, q]);
  }
}
