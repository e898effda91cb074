/** The string operations of Go's standard library that the modelled code relies on: trimming,
    joining, decimal conversion and sorting of distinct keys. */
module Strings {
  import opened Wrappers

  // ----- trimming and joining -----

  /** `unicode.IsSpace`. */
  predicate IsSpace(c: char) {
    || '\t' <= c <= '\r'
    || c == ' ' || c == '\U{85}' || c == '\U{A0}' || c == '\U{1680}'
    || '\U{2000}' <= c <= '\U{200A}'
    || c == '\U{2028}' || c == '\U{2029}' || c == '\U{202F}' || c == '\U{205F}' || c == '\U{3000}'
  }

  function TrimLeftSpace(s: string): string {
    if s != "" && IsSpace(s[0]) then TrimLeftSpace(s[1..]) else s
  }

  function TrimRightSpace(s: string): string {
    if s != "" && IsSpace(s[|s| - 1]) then TrimRightSpace(s[..|s| - 1]) else s
  }

  function TrimSpace(s: string): string {
    TrimRightSpace(TrimLeftSpace(s))
  }

  function TrimDashes(s: string): (r: string)
    ensures |r| <= |s|
    ensures r != "" ==> r[0] != '-'
  {
    if s != "" && s[0] == '-' then TrimDashes(s[1..]) else s
  }

  predicate Spaces(s: string) {
    forall i :: 0 <= i < |s| ==> IsSpace(s[i])
  }

  predicate Dashes(s: string) {
    forall i :: 0 <= i < |s| ==> s[i] == '-'
  }

  lemma {:induction false} TrimLeftPadding(left: string, core: string)
    requires Spaces(left) && (core == "" || !IsSpace(core[0]))
    ensures TrimLeftSpace(left + core) == core
  {
    if left == "" {
      assert left + core == core;
    } else {
      assert (left + core)[1..] == left[1..] + core;
      TrimLeftPadding(left[1..], core);
    }
  }

  lemma {:induction false} TrimRightPadding(core: string, right: string)
    requires Spaces(right) && (core == "" || !IsSpace(core[|core| - 1]))
    ensures TrimRightSpace(core + right) == core
  {
    if right == "" {
      assert core + right == core;
    } else {
      assert (core + right)[..|core + right| - 1] == core + right[..|right| - 1];
      TrimRightPadding(core, right[..|right| - 1]);
    }
  }

  /** Trimming removes exactly the surrounding space. */
  lemma TrimPadding(left: string, core: string, right: string)
    requires Spaces(left) && Spaces(right) && core != "" && !IsSpace(core[0]) && !IsSpace(core[|core| - 1])
    ensures TrimSpace(left + core + right) == core
  {
    assert left + core + right == left + (core + right);
    TrimLeftPadding(left, core + right);
    TrimRightPadding(core, right);
  }

  lemma {:induction false} TrimLeadingDashes(dashes: string, name: string)
    requires Dashes(dashes) && (name == "" || name[0] != '-')
    ensures TrimDashes(dashes + name) == name
  {
    if dashes == "" {
      assert dashes + name == name;
    } else {
      assert (dashes + name)[1..] == dashes[1..] + name;
      TrimLeadingDashes(dashes[1..], name);
    }
  }

  function Join(parts: seq<string>, sep: string): string {
    if parts == [] then ""
    else if |parts| == 1 then parts[0]
    else parts[0] + sep + Join(parts[1..], sep)
  }

  /** Joining puts the separator between any two parts and nothing else. */
  lemma {:induction false} JoinSplits(x: seq<string>, y: seq<string>, sep: string)
    ensures x != [] && y != [] ==> Join(x + y, sep) == Join(x, sep) + sep + Join(y, sep)
    ensures Join([], sep) == "" && (|x| == 1 ==> Join(x, sep) == x[0])
  {
    if |x| > 1 && y != [] {
      assert (x + y)[1..] == x[1..] + y;
      JoinSplits(x[1..], y, sep);
      assert x[0] + sep + (Join(x[1..], sep) + sep + Join(y, sep)) ==
             (x[0] + sep + Join(x[1..], sep)) + sep + Join(y, sep);
    } else if |x| == 1 && y != [] {
      assert (x + y)[1..] == y;
    }
  }

  /** `strings.Index` of a single character, and the length if it does not occur. */
  function IndexOf(s: string, c: char): (k: nat)
    ensures k <= |s|
    ensures k < |s| ==> s[k] == c
  {
    if s == "" || s[0] == c then 0 else 1 + IndexOf(s[1..], c)
  }

  lemma {:induction false} FirstIndex(s: string, c: char, rest: string)
    requires c !in s
    ensures IndexOf(s, c) == |s|
    ensures IndexOf(s + [c] + rest, c) == |s|
  {
    var t := s + [c] + rest;
    if s != "" {
      assert t[0] == s[0] && t[1..] == s[1..] + [c] + rest;
      FirstIndex(s[1..], c, rest);
    }
  }

  // ----- decimal numbers -----

  function Digit(d: nat): char
    requires d < 10
  {
    ((d + '0' as int) as char)
  }

  predicate IsDigit(c: char) { '0' <= c <= '9' }

  /** `%d` of a non-negative number. */
  function Decimal(n: nat): (s: string)
    ensures s != "" && forall i :: 0 <= i < |s| ==> IsDigit(s[i])
  {
    if n < 10 then [Digit(n)] else Decimal(n / 10) + [Digit(n % 10)]
  }

  function ParseDecimal(s: string): (r: Option<int>)
    ensures r.Some? ==> r.value >= 0
  {
    if s == "" || !IsDigit(s[|s| - 1]) then None
    else
      var d := s[|s| - 1] as int - '0' as int;
      if |s| == 1 then Some(d)
      else match ParseDecimal(s[..|s| - 1]) case None => None case Some(n) => Some(10 * n + d)
  }

  /** `strconv.Itoa`. */
  function Itoa(n: int): string {
    if n < 0 then "-" + Decimal(-n) else Decimal(n)
  }

  /** `strconv.Atoi`, without the 64-bit range check. */
  function Atoi(s: string): Option<int> {
    if s == "" then None
    else if s[0] == '-' then
      match ParseDecimal(s[1..]) case None => None case Some(n) => Some(-n)
    else if s[0] == '+' then
      match ParseDecimal(s[1..]) case None => None case Some(n) => Some(n)
    else
      match ParseDecimal(s) case None => None case Some(n) => Some(n)
  }

  lemma {:induction false} ParseDecimalInverts(n: nat)
    ensures ParseDecimal(Decimal(n)) == Some(n)
  {
    if n >= 10 {
      ParseDecimalInverts(n / 10);
      var s := Decimal(n);
      assert s[..|s| - 1] == Decimal(n / 10);
    }
  }

  lemma AtoiInvertsItoa(n: int)
    ensures Atoi(Itoa(n)) == Some(n) && Itoa(n) != ""
  {
    hide Decimal, ParseDecimal;
    if n < 0 {
      assert Itoa(n)[1..] == Decimal(-n);
      ParseDecimalInverts(-n);
    } else {
      ParseDecimalInverts(n);
    }
  }

  /** Digits count by powers of ten: appending one multiplies by ten and adds it. */
  lemma DecimalDigits(n: nat, d: nat)
    requires d < 10
    ensures n > 0 ==> Decimal(10 * n + d) == Decimal(n) + ["0123456789"[d]]
    ensures Decimal(d) == ["0123456789"[d]]
  {
    assert (10 * n + d) / 10 == n && (10 * n + d) % 10 == d;
  }

  /** `s` is the number in decimal, behind `z` zeros. */
  predicate Padded(s: string, z: nat, n: nat) {
    z <= |s| && (forall i :: 0 <= i < z ==> s[i] == '0') && s[z..] == Decimal(n)
  }

  ghost predicate Numeral(s: string, n: nat) {
    exists z: nat :: Padded(s, z, n)
  }

  /** What parses as a number: its decimal form, behind any number of zeros, and nothing else. */
  lemma ParsesExactlyWhen(s: string, n: nat)
    ensures ParseDecimal(s) == Some(n) <==> Numeral(s, n)
  {
    if ParseDecimal(s) == Some(n) { ParsedIsPadded(s); }
    if Numeral(s, n) {
      var z: nat :| Padded(s, z, n);
      assert s == s[..z] + Decimal(n);
      ZerosDoNotCount(s[..z], Decimal(n));
      ParseDecimalInverts(n);
    }
  }

  lemma {:induction false} ParsedIsPadded(s: string)
    requires ParseDecimal(s).Some?
    ensures Numeral(s, ParseDecimal(s).value)
  {
    hide Padded, Decimal;
    var k := |s| - 1;
    var front, d := s[..k], s[k] as int - '0' as int;
    assert s == front + [Digit(d)];
    if k == 0 {
      assert front == "";
      DigitIsPadded("", d);
    } else {
      var m := ParseDecimal(front).value;
      ParsedIsPadded(front);
      var z: nat :| Padded(front, z, m);
      if m == 0 {
        ZeroIsZeros(front, z);
        DigitIsPadded(front, d);
      } else {
        MoreDigits(front, z, m, d);
      }
    }
  }

  lemma DigitIsPadded(zeros: string, d: nat)
    requires d < 10 && forall i :: 0 <= i < |zeros| ==> zeros[i] == '0'
    ensures Padded(zeros + [Digit(d)], |zeros|, d)
  {
  }

  lemma ZeroIsZeros(s: string, z: nat)
    requires Padded(s, z, 0)
    ensures forall i :: 0 <= i < |s| ==> s[i] == '0'
  {
    assert s[z..] == "0";
    assert s == s[..z] + "0";
  }

  lemma MoreDigits(s: string, z: nat, m: nat, d: nat)
    requires m > 0 && d < 10 && Padded(s, z, m)
    ensures Padded(s + [Digit(d)], z, 10 * m + d)
  {
    assert (10 * m + d) / 10 == m && (10 * m + d) % 10 == d;
    assert (s + [Digit(d)])[z..] == s[z..] + [Digit(d)];
  }

  lemma {:induction false} ZerosDoNotCount(zeros: string, s: string)
    requires s != "" && forall i :: 0 <= i < |zeros| ==> zeros[i] == '0'
    ensures ParseDecimal(zeros + s) == ParseDecimal(s)
  {
    var t := zeros + s;
    var front := t[..|t| - 1];
    if |s| > 1 {
      assert front == zeros + s[..|s| - 1];
      ZerosDoNotCount(zeros, s[..|s| - 1]);
    } else if zeros != "" {
      assert front == zeros;
      ZerosAreZero(zeros);
    } else {
      assert t == s;
    }
  }

  lemma {:induction false} ZerosAreZero(zeros: string)
    requires zeros != "" && forall i :: 0 <= i < |zeros| ==> zeros[i] == '0'
    ensures ParseDecimal(zeros) == Some(0)
  {
    if |zeros| > 1 { ZerosAreZero(zeros[..|zeros| - 1]); }
  }

  /** `s` spells `n`: a sign or none, and the number behind any zeros. */
  ghost predicate Spells(s: string, n: int) {
    if s == "" then false
    else if s[0] == '-' then n <= 0 && Numeral(s[1..], -n)
    else if s[0] == '+' then n >= 0 && Numeral(s[1..], n)
    else n >= 0 && Numeral(s, n)
  }

  /** A string parses as the number it spells. */
  lemma AtoiExactlyWhen(s: string, n: int)
    ensures Atoi(s) == Some(n) <==> Spells(s, n)
  {
    hide Numeral, ParseDecimal;
    if s != "" && s[0] == '-' {
      if n <= 0 { ParsesExactlyWhen(s[1..], -n); }
    } else if n >= 0 {
      if s != "" && s[0] == '+' { ParsesExactlyWhen(s[1..], n); } else { ParsesExactlyWhen(s, n); }
    }
  }

  lemma DecimalInjective(m: nat, n: nat)
    requires Decimal(m) == Decimal(n)
    ensures m == n
  {
    ParseDecimalInverts(m);
    ParseDecimalInverts(n);
  }

  // ----- sorting distinct strings -----

  /** `<` on Go strings. */
  predicate Less(a: string, b: string) {
    b != "" && (a == "" || a[0] < b[0] || (a[0] == b[0] && Less(a[1..], b[1..])))
  }

  lemma {:induction false} LessTotal(a: string, b: string)
    ensures a == b || Less(a, b) || Less(b, a)
    ensures !(Less(a, b) && Less(b, a))
  {
    if a != "" && b != "" && a[0] == b[0] {
      LessTotal(a[1..], b[1..]);
      assert a == [a[0]] + a[1..] && b == [b[0]] + b[1..];
    }
  }

  lemma {:induction false} LessTransitive(a: string, b: string, c: string)
    requires Less(a, b) && Less(b, c)
    ensures Less(a, c)
  {
    if a != "" && a[0] == b[0] && b[0] == c[0] {
      LessTransitive(a[1..], b[1..], c[1..]);
    }
  }

  /** The order is the lexicographic one: at the first difference the smaller character decides, and a
      proper prefix comes first. */
  lemma {:induction false} LessExactlyWhen(a: string, b: string)
    ensures Less(a, b) <==>
            exists k: nat :: k <= |a| && k < |b| && a[..k] == b[..k] && (k == |a| || a[k] < b[k])
  {
    if a != "" && b != "" && a[0] == b[0] {
      LessExactlyWhen(a[1..], b[1..]);
      if Less(a, b) {
        var k: nat :| k <= |a| - 1 && k < |b| - 1 && a[1..][..k] == b[1..][..k] &&
                      (k == |a| - 1 || a[1..][k] < b[1..][k]);
        assert a[..k + 1] == [a[0]] + a[1..][..k] && b[..k + 1] == [b[0]] + b[1..][..k];
        assert k + 1 == |a| || a[k + 1] < b[k + 1];
      }
      if k: nat :| k <= |a| && k < |b| && a[..k] == b[..k] && (k == |a| || a[k] < b[k]) {
        assert a[1..][..k - 1] == a[..k][1..] && b[1..][..k - 1] == b[..k][1..];
        assert k - 1 == |a| - 1 || a[1..][k - 1] < b[1..][k - 1];
      }
    } else if b != "" {
      assert a[..0] == b[..0];
      forall k: nat | 0 < k <= |a| && k < |b|
        ensures a[..k] != b[..k]
      {
        assert a[..k][0] == a[0] && b[..k][0] == b[0];
      }
    }
  }

  predicate IsLeast(m: string, keys: set<string>) {
    m in keys && forall k :: k in keys && k != m ==> Less(m, k)
  }

  lemma {:induction false} LeastExists(keys: set<string>)
    requires keys != {}
    ensures exists m :: IsLeast(m, keys)
  {
    var x :| x in keys;
    var rest := keys - {x};
    if rest == {} {
      assert keys == {x} + rest;
      assert IsLeast(x, keys);
    } else {
      LeastExists(rest);
      var m :| IsLeast(m, rest);
      LessTotal(x, m);
      if Less(m, x) {
        assert IsLeast(m, keys);
      } else {
        forall k | k in keys && k != x
          ensures Less(x, k)
        {
          assert k in rest;
          if k != m { LessTransitive(x, m, k); }
        }
        assert IsLeast(x, keys);
      }
    }
  }

  /** The keys in ascending order: `sort.Strings` over the distinct keys of a map. */
  ghost function SortedKeys(keys: set<string>): seq<string> {
    if keys == {} then []
    else
      LeastExists(keys);
      var m :| IsLeast(m, keys);
      [m] + SortedKeys(keys - {m})
  }

  ghost predicate StrictlyAscending(s: seq<string>) {
    forall i, j :: 0 <= i < j < |s| ==> Less(s[i], s[j])
  }

  lemma {:induction false} SortedKeysCorrect(keys: set<string>)
    ensures forall k :: k in SortedKeys(keys) <==> k in keys
    ensures StrictlyAscending(SortedKeys(keys))
  {
    if keys != {} {
      var s := SortedKeys(keys);
      SortedKeysCorrect(keys - {s[0]});
      assert s[1..] == SortedKeys(keys - {s[0]});
      forall i, j | 0 <= i < j < |s|
        ensures Less(s[i], s[j])
      {
        assert s[j] == s[1..][j - 1] && s[j] in s[1..];
        if i > 0 { assert s[i] == s[1..][i - 1]; }
      }
    }
  }

  /** There is only one way to list keys in ascending order. */
  lemma {:induction false} AscendingUnique(a: seq<string>, b: seq<string>)
    requires StrictlyAscending(a) && StrictlyAscending(b)
    requires forall k :: k in a <==> k in b
    ensures a == b
  {
    assert (a != [] ==> a[0] in a) && (b != [] ==> b[0] in b);
    if a != [] && b != [] {
      LessTotal(a[0], b[0]);
      assert a[0] == b[0];
      LessTotal(a[0], a[0]);
      forall k
        ensures k in a[1..] <==> k in b[1..]
      {
        assert k in a <==> k == a[0] || k in a[1..];
        assert k in b <==> k == b[0] || k in b[1..];
        assert a[0] !in a[1..] && b[0] !in b[1..];
      }
      AscendingUnique(a[1..], b[1..]);
    }
  }

  /** A key with every other one behind it comes first. */
  lemma LeastIsFirst(m: string, keys: set<string>)
    requires m in keys && forall k :: k in keys && k != m ==> Less(m, k)
    ensures SortedKeys(keys) == [m] + SortedKeys(keys - {m})
  {
    hide Less;
    assert IsLeast(m, keys);
    LeastUnique(m, SortedKeys(keys)[0], keys);
  }

  lemma LeastUnique(m: string, n: string, keys: set<string>)
    requires IsLeast(m, keys) && IsLeast(n, keys)
    ensures m == n
  {
    LessTotal(m, n);
  }

  /** The sorting the code does before it formats a map, one least key at a time. */
  method SortKeys(keys: set<string>) returns (sorted: seq<string>)
    ensures sorted == SortedKeys(keys)
  {
    sorted := [];
    var rest := keys;
    while rest != {}
      invariant sorted + SortedKeys(rest) == SortedKeys(keys)
      decreases rest
    {
      LeastExists(rest);
      var m :| m in rest && IsLeast(m, rest);
      LeastUnique(m, SortedKeys(rest)[0], rest);
      sorted := sorted + [m];
      rest := rest - {m};
    }
  }
}
