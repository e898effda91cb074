/** Reducing command lines to flag shapes (internal/learn/journal.go `JournalArgvShape`): flag names
    map to a value class.  The text of a value is not recorded unless it is taken for a flag itself,
    which happens exactly to values and positionals that start with a dash; when that adds to the shape
    is stated below.  The registry of boolean flags and the pattern of credential-like names are
    arbitrary predicates. */
module ArgvShape {
  import opened Wrappers
  import opened Strings

  type Shape = map<string, string>

  datatype Rules = Rules(isBoolFlag: string -> bool, redacted: string -> bool)

  predicate Dashed(tok: string) { tok != "" && tok[0] == '-' }

  predicate IsFlag(tok: string) {
    Dashed(tok) && tok != "-" && tok != "--"
  }

  /** The flag name and the value given behind `=`, if any. */
  function NameOf(tok: string): string {
    var t := TrimDashes(tok);
    t[..IndexOf(t, '=')]
  }

  function InlineOf(tok: string): Option<string> {
    var t := TrimDashes(tok);
    var k := IndexOf(t, '=');
    if k < |t| then Some(t[k + 1..]) else None
  }

  predicate IsInt(value: string) {
    var n := Atoi(TrimSpace(value));
    n.Some? && -0x8000_0000_0000_0000 <= n.value < 0x8000_0000_0000_0000
  }

  function Class(r: Rules, name: string, value: Option<string>): string {
    if r.redacted(name) then "redacted"
    else if value.None? then "bool"
    else if IsInt(value.value) then "int"
    else "str"
  }

  /** The flag at the head takes the next token as its value. */
  predicate TakesNext(r: Rules, args: seq<string>)
    requires args != []
  {
    InlineOf(args[0]).None? && !r.isBoolFlag(NameOf(args[0])) && |args| > 1 && !Dashed(args[1])
  }

  function HeadValue(r: Rules, args: seq<string>): Option<string>
    requires args != []
  {
    if TakesNext(r, args) then Some(args[1]) else InlineOf(args[0])
  }

  function HeadLength(r: Rules, args: seq<string>): (n: nat)
    requires args != []
    ensures 1 <= n <= |args|
  {
    if IsFlag(args[0]) && TakesNext(r, args) then 2 else 1
  }

  function HeadShape(r: Rules, args: seq<string>): Shape
    requires args != []
  {
    var name := NameOf(args[0]);
    if !IsFlag(args[0]) || name == "" then map[] else map[name := Class(r, name, HeadValue(r, args))]
  }

  /** The shape of a command line; a later use of a flag overrides an earlier one. */
  function ShapeOf(r: Rules, args: seq<string>): Shape
    decreases |args|
  {
    if args == [] then map[] else HeadShape(r, args) + ShapeOf(r, args[HeadLength(r, args)..])
  }

  method JournalArgvShape(r: Rules, args: seq<string>) returns (result: Option<Shape>)
    ensures result == if |ShapeOf(r, args)| == 0 then None else Some(ShapeOf(r, args))
  {
    hide NameOf, InlineOf, Class, ShapeOf, IsFlag, Dashed;
    var shape: Shape := map[];
    var i := 0;
    assert args[0..] == args && map[] + ShapeOf(r, args) == ShapeOf(r, args);
    while i < |args|
      invariant 0 <= i <= |args|
      invariant shape + ShapeOf(r, args[i..]) == ShapeOf(r, args)
      decreases |args| - i
    {
      var tok := args[i];
      ShapeStep(r, args, i, shape);
      if !IsFlag(tok) {
        i := i + 1;
        continue;
      }
      var name := NameOf(tok);
      var value := InlineOf(tok);
      if value.Some? {
      } else if r.isBoolFlag(name) {
      } else if i + 1 < |args| && !Dashed(args[i + 1]) {
        value := Some(args[i + 1]);
        i := i + 1;
      }
      i := i + 1;
      if name == "" {
        continue;
      }
      shape := shape[name := Class(r, name, value)];
    }
    ShapeEnd(r, args, shape);
    if |shape| == 0 {
      return None;
    }
    return Some(shape);
  }

  lemma ShapeEnd(r: Rules, args: seq<string>, shape: Shape)
    ensures shape + ShapeOf(r, args[|args|..]) == shape
  {
  }

  /** What the tokens at `i` add to the shape. */
  lemma ShapeStep(r: Rules, args: seq<string>, i: nat, shape: Shape)
    requires i < |args|
    ensures !IsFlag(args[i]) ==> shape + ShapeOf(r, args[i..]) == shape + ShapeOf(r, args[i + 1..])
    ensures IsFlag(args[i]) ==>
              var name := NameOf(args[i]);
              var takes := InlineOf(args[i]).None? && !r.isBoolFlag(name) && i + 1 < |args| && !Dashed(args[i + 1]);
              var value := if takes then Some(args[i + 1]) else InlineOf(args[i]);
              shape + ShapeOf(r, args[i..]) ==
              (if name == "" then shape else shape[name := Class(r, name, value)])
              + ShapeOf(r, args[if takes then i + 2 else i + 1..])
  {
    hide NameOf, InlineOf, Class;
    var rest := args[i..];
    var n := HeadLength(r, rest);
    assert rest[0] == args[i] && (|rest| > 1 ==> rest[1] == args[i + 1]);
    assert rest[n..] == args[i + n..];
    MapAssoc(shape, HeadShape(r, rest), ShapeOf(r, rest[n..]));
  }

  lemma MapAssoc(x: Shape, y: Shape, z: Shape)
    ensures x + (y + z) == (x + y) + z
    ensures x + map[] == x
    ensures forall k, v :: x + map[k := v] == x[k := v]
  {
  }

  // ----- what is recorded as a flag -----

  /** Only a token that starts with a dash can be recorded, and each one is: no token of this kind is ever
      consumed as a value. */
  predicate Recorded(tok: string) {
    IsFlag(tok) && NameOf(tok) != ""
  }

  /** The keys of a shape are exactly the names of the dash tokens of the line, wherever they stand. */
  lemma {:induction false} KeysAreDashTokens(r: Rules, args: seq<string>, k: string)
    ensures k in ShapeOf(r, args) <==> exists i :: 0 <= i < |args| && Recorded(args[i]) && NameOf(args[i]) == k
    decreases |args|
  {
    hide NameOf, InlineOf, Class;
    if args != [] {
      var n := HeadLength(r, args);
      var rest := args[n..];
      KeysAreDashTokens(r, rest, k);
      assert forall i :: 0 <= i < |rest| ==> rest[i] == args[i + n];
      assert forall i :: n <= i < |args| ==> args[i] == rest[i - n];
      assert n == 2 ==> !Recorded(args[1]);
      assert k in HeadShape(r, args) <==> Recorded(args[0]) && NameOf(args[0]) == k;
    }
  }

  /** A command line as its author meant it: flags that take no separate value, flags with one, and
      positionals. */
  datatype Part = Switch(tok: string) | Valued(tok: string, value: string) | Positional(text: string)

  function Tokens(p: Part): seq<string> {
    match p
    case Switch(tok) => [tok]
    case Valued(tok, value) => [tok, value]
    case Positional(text) => [text]
  }

  function Argv(parts: seq<Part>): seq<string> {
    if parts == [] then [] else Tokens(parts[0]) + Argv(parts[1..])
  }

  /** `k` is the name of a flag of the line. */
  predicate MeantAsFlag(parts: seq<Part>, k: string) {
    exists i :: 0 <= i < |parts| && !parts[i].Positional? && Recorded(parts[i].tok) && NameOf(parts[i].tok) == k
  }

  /** A separate value or a positional that is taken for a flag named `k`. */
  predicate TakenForFlag(parts: seq<Part>, k: string) {
    exists i :: 0 <= i < |parts| && !parts[i].Switch? && Recorded(Content(parts[i])) && NameOf(Content(parts[i])) == k
  }

  function Content(p: Part): string
    requires !p.Switch?
  {
    match p
    case Valued(_, value) => value
    case Positional(text) => text
  }

  predicate NamedIn(args: seq<string>, k: string) {
    exists i :: 0 <= i < |args| && Recorded(args[i]) && NameOf(args[i]) == k
  }

  lemma NamedInConcat(a: seq<string>, b: seq<string>, k: string)
    ensures NamedIn(a + b, k) <==> NamedIn(a, k) || NamedIn(b, k)
  {
    hide Recorded, NameOf;
    if NamedIn(a, k) {
      var i :| 0 <= i < |a| && Recorded(a[i]) && NameOf(a[i]) == k;
      assert (a + b)[i] == a[i];
    }
    if NamedIn(b, k) {
      var i :| 0 <= i < |b| && Recorded(b[i]) && NameOf(b[i]) == k;
      assert (a + b)[|a| + i] == b[i];
    }
  }

  lemma PartNames(p: Part, k: string)
    ensures NamedIn(Tokens(p), k) <==> MeantAsFlag([p], k) || TakenForFlag([p], k)
  {
    hide Recorded, NameOf;
    assert [p][0] == p;
    match p {
      case Switch(tok) => assert Tokens(p)[0] == tok;
      case Valued(tok, value) => assert Tokens(p)[0] == tok && Tokens(p)[1] == value;
      case Positional(text) => assert Tokens(p)[0] == text;
    }
  }

  lemma FirstPart(parts: seq<Part>, k: string)
    requires parts != []
    ensures MeantAsFlag(parts, k) <==> MeantAsFlag([parts[0]], k) || MeantAsFlag(parts[1..], k)
    ensures TakenForFlag(parts, k) <==> TakenForFlag([parts[0]], k) || TakenForFlag(parts[1..], k)
  {
    hide Recorded, NameOf;
    var rest := parts[1..];
    assert forall i :: 0 <= i < |rest| ==> rest[i] == parts[i + 1];
    assert forall i :: 1 <= i < |parts| ==> parts[i] == rest[i - 1];
    assert [parts[0]][0] == parts[0];
  }

  lemma {:induction false} LineNames(parts: seq<Part>, k: string)
    ensures NamedIn(Argv(parts), k) <==> MeantAsFlag(parts, k) || TakenForFlag(parts, k)
  {
    hide NamedIn, MeantAsFlag, TakenForFlag, Tokens;
    if parts == [] {
      NothingNamed(k);
    } else {
      LineNames(parts[1..], k);
      NamedInConcat(Tokens(parts[0]), Argv(parts[1..]), k);
      PartNames(parts[0], k);
      FirstPart(parts, k);
    }
  }

  lemma NothingNamed(k: string)
    ensures !NamedIn([], k) && !MeantAsFlag([], k) && !TakenForFlag([], k)
  {
  }

  /** A shape holds the names of the flags and, beyond them, exactly the values and positionals that are
      taken for flags; it holds nothing else if and only if each of those repeats the name of a flag. */
  lemma ShapeHoldsOnlyFlagsExactlyWhen(r: Rules, parts: seq<Part>)
    ensures forall k :: k in ShapeOf(r, Argv(parts)) <==> MeantAsFlag(parts, k) || TakenForFlag(parts, k)
    ensures (forall k :: k in ShapeOf(r, Argv(parts)) ==> MeantAsFlag(parts, k)) <==>
            (forall k :: TakenForFlag(parts, k) ==> MeantAsFlag(parts, k))
  {
    hide ShapeOf, NamedIn, MeantAsFlag, TakenForFlag;
    forall k
      ensures k in ShapeOf(r, Argv(parts)) <==> MeantAsFlag(parts, k) || TakenForFlag(parts, k)
    {
      KeysAreDashTokens(r, Argv(parts), k);
      assert NamedIn(Argv(parts), k) <==> k in ShapeOf(r, Argv(parts)) by { NamedInMeans(Argv(parts), k); }
      LineNames(parts, k);
    }
  }

  lemma NamedInMeans(args: seq<string>, k: string)
    ensures NamedIn(args, k) <==> exists i :: 0 <= i < |args| && Recorded(args[i]) && NameOf(args[i]) == k
  {
  }

  /** For one flag and its separate value. */
  lemma ValueIsRecordedExactlyWhen(r: Rules, tok: string, value: string)
    requires Recorded(tok)
    ensures ShapeOf(r, [tok, value]).Keys != {NameOf(tok)} <==> Recorded(value) && NameOf(value) != NameOf(tok)
  {
    hide NameOf, ShapeOf, Recorded;
    var args := [tok, value];
    forall k
      ensures k in ShapeOf(r, args) <==> k == NameOf(tok) || (Recorded(value) && k == NameOf(value))
    {
      KeysAreDashTokens(r, args, k);
      assert args[0] == tok && args[1] == value;
    }
    if Recorded(value) && NameOf(value) != NameOf(tok) {
      assert NameOf(value) in ShapeOf(r, args);
    } else {
      assert ShapeOf(r, args).Keys == {NameOf(tok)};
    }
  }

  /** Such a value: a credential that starts with a dash, behind a redacted flag. */
  lemma DashedValueIsRecorded(r: Rules)
    ensures "hunter2" in ShapeOf(r, ["--token", "-hunter2"])
  {
    var args := ["--token", "-hunter2"];
    assert args[1][1..] == "hunter2";
    assert IndexOf("hunter2", '=') == 7;
    assert NameOf(args[1]) == "hunter2";
    KeysAreDashTokens(r, args, "hunter2");
  }

  // ----- what a shape reveals -----

  /** The two values look the same to the classifier. */
  predicate SameClass(v: string, w: string) { IsInt(v) == IsInt(w) }

  /** Both command lines have the same flags in the same places.  Positionals and separate values that
      are not taken for flags are arbitrary, except that values of flags that are not redacted agree in
      being an integer or not. */
  predicate SameSkeleton(r: Rules, a: seq<string>, b: seq<string>)
    decreases |a|
  {
    if a == [] || b == [] then a == b
    else if !IsFlag(a[0]) then !IsFlag(b[0]) && SameSkeleton(r, a[1..], b[1..])
    else
      && IsFlag(b[0]) && NameOf(a[0]) == NameOf(b[0])
      && InlineOf(a[0]).Some? == InlineOf(b[0]).Some?
      && TakesNext(r, a) == TakesNext(r, b)
      && (HeadValue(r, a).Some? && !r.redacted(NameOf(a[0])) ==>
         SameClass(HeadValue(r, a).value, HeadValue(r, b).value))
      && SameSkeleton(r, a[HeadLength(r, a)..], b[HeadLength(r, b)..])
  }

  /** Non-interference: nothing but the skeleton -- the dash tokens and the value classes -- reaches the
      journal. */
  lemma {:induction false} ShapeRevealsOnlySkeleton(r: Rules, a: seq<string>, b: seq<string>)
    requires SameSkeleton(r, a, b)
    ensures ShapeOf(r, a) == ShapeOf(r, b)
    decreases |a|
  {
    hide NameOf, InlineOf, IsInt, IsFlag, Dashed;
    if a != [] && b != [] {
      ShapeRevealsOnlySkeleton(r, a[HeadLength(r, a)..], b[HeadLength(r, b)..]);
    }
  }

  /** Every class is one of four words, and a credential-like flag is always redacted. */
  lemma {:induction false} ShapeHoldsNoValues(r: Rules, args: seq<string>)
    ensures forall k :: k in ShapeOf(r, args) ==>
              && ShapeOf(r, args)[k] in {"int", "str", "bool", "redacted"}
              && (ShapeOf(r, args)[k] == "redacted" <==> r.redacted(k))
    decreases |args|
  {
    hide NameOf, InlineOf, IsInt;
    if args != [] { ShapeHoldsNoValues(r, args[HeadLength(r, args)..]); }
  }

  // ----- the class of a value -----

  /** A value counts as an integer exactly when, without the space around it, it spells a number of 64
      bits. */
  lemma IntExactlyWhen(value: string)
    ensures IsInt(value) <==>
            exists n :: -0x8000_0000_0000_0000 <= n < 0x8000_0000_0000_0000 && Spells(TrimSpace(value), n)
  {
    hide Atoi, Spells, TrimSpace;
    var t := TrimSpace(value);
    forall n
      ensures Atoi(t) == Some(n) <==> Spells(t, n)
    {
      AtoiExactlyWhen(t, n);
    }
    if IsInt(value) { assert Spells(t, Atoi(t).value); }
  }

  /** A flag as typed: dashes and a name that neither starts with one nor holds an equals sign. */
  predicate FlagToken(dashes: string, name: string) {
    dashes != "" && Dashes(dashes) && name != "" && name[0] != '-' && '=' !in name
  }

  /** A flag token is taken apart into its name and the value behind its first equals sign. */
  lemma FlagIsTakenApart(dashes: string, name: string, value: string)
    requires FlagToken(dashes, name)
    ensures NameOf(dashes + name) == name && InlineOf(dashes + name) == None
    ensures NameOf(dashes + name + "=" + value) == name && InlineOf(dashes + name + "=" + value) == Some(value)
    ensures Recorded(dashes + name) && Recorded(dashes + name + "=" + value)
  {
    var joined := name + "=" + value;
    assert dashes + name + "=" + value == dashes + joined;
    TrimLeadingDashes(dashes, name);
    TrimLeadingDashes(dashes, joined);
    FirstIndex(name, '=', value);
    assert joined == name + ['='] + value;
    assert joined[..|name|] == name && joined[|name| + 1..] == value;
    assert (dashes + name)[|dashes|] == name[0] && (dashes + joined)[|dashes|] == name[0];
  }

  /** What one flag is recorded as: redacted if its name is credential-like, otherwise a boolean without a
      value and with one an integer or a string.  A separate value belongs to it unless the flag is known
      to take none or the value starts with a dash. */
  lemma OneFlagIsRecorded(r: Rules, dashes: string, name: string, value: string)
    requires FlagToken(dashes, name)
    ensures var bare := if r.redacted(name) then "redacted" else "bool";
            var given := if r.redacted(name) then "redacted" else if IsInt(value) then "int" else "str";
            && ShapeOf(r, [dashes + name]) == map[name := bare]
            && ShapeOf(r, [dashes + name + "=" + value]) == map[name := given]
            && (value == "" || value[0] != '-' ==>
                  ShapeOf(r, [dashes + name, value]) == map[name := if r.isBoolFlag(name) then bare else given])
  {
    hide NameOf, InlineOf, IsInt, FlagToken;
    FlagIsTakenApart(dashes, name, value);
    OneToken(r, dashes + name);
    OneToken(r, dashes + name + "=" + value);
    if value == "" || value[0] != '-' { TokenAndValue(r, dashes + name, value); }
  }

  lemma OneToken(r: Rules, tok: string)
    requires Recorded(tok)
    ensures ShapeOf(r, [tok]) == map[NameOf(tok) := Class(r, NameOf(tok), InlineOf(tok))]
  {
    hide NameOf, InlineOf, Class;
    assert [tok][1..] == [];
  }

  lemma TokenAndValue(r: Rules, tok: string, value: string)
    requires Recorded(tok) && !Dashed(value) && InlineOf(tok).None?
    ensures ShapeOf(r, [tok, value]) ==
            map[NameOf(tok) := Class(r, NameOf(tok), if r.isBoolFlag(NameOf(tok)) then None else Some(value))]
  {
    hide NameOf, InlineOf, Class;
    var args := [tok, value];
    assert args[1..] == [value] && args[2..] == [] && [value][1..] == [];
    assert ShapeOf(r, [value]) == map[];
    assert TakesNext(r, args) == !r.isBoolFlag(NameOf(tok));
    assert HeadShape(r, args).Keys == {NameOf(tok)};
  }

  /** The shape of a line is put together from its parts, if the second part starts with a dash token; of
      two uses of a flag the later one is recorded. */
  lemma {:induction false} ShapesConcatenate(r: Rules, a: seq<string>, b: seq<string>)
    requires b == [] || Dashed(b[0])
    ensures ShapeOf(r, a + b) == ShapeOf(r, a) + ShapeOf(r, b)
    decreases |a|
  {
    hide NameOf, InlineOf, Class;
    if a == [] {
      assert a + b == b;
    } else {
      var n := HeadLength(r, a);
      assert (a + b)[0] == a[0] && (|a| > 1 ==> (a + b)[1] == a[1]) && (|a| == 1 && b != [] ==> (a + b)[1] == b[0]);
      assert HeadLength(r, a + b) == n && HeadShape(r, a + b) == HeadShape(r, a);
      assert (a + b)[n..] == a[n..] + b;
      ShapesConcatenate(r, a[n..], b);
      MapAssoc(HeadShape(r, a), ShapeOf(r, a[n..]), ShapeOf(r, b));
    }
  }
}
