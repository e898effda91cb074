/** Edit distance (internal/learn/derive.go `editDistance`, internal/cli/helpers.go
    `levenshteinDistance`).

    The meaning of the number is given by edit scripts: sequences of single insertions, deletions
    and substitutions, each at an arbitrary position of the current word.  The two dynamic
    programs of the repository are methods over arrays, proved to return the length of a
    shortest script. */
module EditDistance {

  // ----- meaning: scripts of single edits -----

  datatype Edit<T> = Insert(at: nat, sym: T) | Delete(at: nat) | Substitute(at: nat, sym: T)

  predicate Applies<T>(e: Edit<T>, s: seq<T>) {
    match e
    case Insert(at, _) => at <= |s|
    case Delete(at) => at < |s|
    case Substitute(at, _) => at < |s|
  }

  function Apply<T>(e: Edit<T>, s: seq<T>): seq<T>
    requires Applies(e, s)
  {
    match e
    case Insert(at, c) => s[..at] + [c] + s[at..]
    case Delete(at) => s[..at] + s[at + 1..]
    case Substitute(at, c) => s[at := c]
  }

  /** `script` turns `a` into `b`. */
  ghost predicate Transforms<T>(script: seq<Edit<T>>, a: seq<T>, b: seq<T>) {
    if script == [] then a == b
    else Applies(script[0], a) && Transforms(script[1..], Apply(script[0], a), b)
  }

  // ----- the recurrence behind the dynamic programs -----

  function Min(x: nat, y: nat): nat { if x <= y then x else y }

  function Cost<T(==)>(x: T, y: T): nat { if x == y then 0 else 1 }

  function Dist<T(==)>(a: seq<T>, b: seq<T>): nat
    decreases |a| + |b|
  {
    if a == [] then |b|
    else if b == [] then |a|
    else
      var a', b' := a[..|a| - 1], b[..|b| - 1];
      Min(Min(Dist(a', b) + 1, Dist(a, b') + 1), Dist(a', b') + Cost(a[|a| - 1], b[|b| - 1]))
  }

  // ----- Dist is a metric -----

  lemma {:induction false} DistSelf<T>(a: seq<T>)
    ensures Dist(a, a) == 0
    decreases |a|
  {
    if a != [] { DistSelf(a[..|a| - 1]); }
  }

  lemma {:induction false} DistSymmetric<T>(a: seq<T>, b: seq<T>)
    ensures Dist(a, b) == Dist(b, a)
    decreases |a| + |b|
  {
    if a != [] && b != [] {
      var a', b' := a[..|a| - 1], b[..|b| - 1];
      DistSymmetric(a', b);
      DistSymmetric(a, b');
      DistSymmetric(a', b');
    }
  }

  /** A word is at most one step from the word without its last symbol. */
  lemma {:induction false} DistLengths<T>(a: seq<T>, b: seq<T>)
    ensures |a| <= Dist(a, b) + |b|
    ensures |b| <= Dist(a, b) + |a|
    decreases |a| + |b|
  {
    if a != [] && b != [] {
      var a', b' := a[..|a| - 1], b[..|b| - 1];
      DistLengths(a', b);
      DistLengths(a, b');
      DistLengths(a', b');
    }
  }

  lemma {:induction false} DistTriangle<T>(a: seq<T>, b: seq<T>, c: seq<T>)
    ensures Dist(a, c) <= Dist(a, b) + Dist(b, c)
    decreases |a| + |b| + |c|
  {
    if a == [] {
      DistLengths(b, c);
    } else if c == [] {
      DistLengths(a, b);
    } else if b == [] {
      DistLengths(a, c);
      DistDropLast(a, c);
    } else {
      var a', b', c' := a[..|a| - 1], b[..|b| - 1], c[..|c| - 1];
      DistTriangle(a', b, c);
      DistTriangle(a, b, c');
      DistTriangle(a, b', c);
      DistTriangle(a, b', c');
      DistTriangle(a', b', c);
      DistTriangle(a', b', c');
    }
  }

  /** Nothing is farther apart than deleting everything and inserting everything. */
  lemma {:induction false} DistDropLast<T>(a: seq<T>, c: seq<T>)
    ensures Dist(a, c) <= |a| + |c|
    decreases |a| + |c|
  {
    if a != [] && c != [] { DistDropLast(a[..|a| - 1], c); }
  }

  // ----- Dist is the length of a shortest script -----

  lemma {:induction false} TransformsInContext<T>(script: seq<Edit<T>>, a: seq<T>, b: seq<T>, x: T)
    requires Transforms(script, a, b)
    ensures Transforms(script, a + [x], b + [x])
    decreases |script|
  {
    if script != [] {
      var e := script[0];
      assert Apply(e, a + [x]) == Apply(e, a) + [x];
      TransformsInContext(script[1..], Apply(e, a), b, x);
    }
  }

  lemma {:induction false} TransformsThen<T>(s: seq<Edit<T>>, t: seq<Edit<T>>, a: seq<T>, b: seq<T>, c: seq<T>)
    requires Transforms(s, a, b) && Transforms(t, b, c)
    ensures Transforms(s + t, a, c)
    decreases |s|
  {
    if s == [] {
      assert s + t == t;
    } else {
      assert (s + t)[1..] == s[1..] + t;
      TransformsThen(s[1..], t, Apply(s[0], a), b, c);
    }
  }

  /** A script of exactly `Dist(a, b)` single edits exists. */
  lemma {:induction false} ShortScript<T>(a: seq<T>, b: seq<T>) returns (script: seq<Edit<T>>)
    ensures Transforms(script, a, b) && |script| == Dist(a, b)
    decreases |a| + |b|
  {
    if a == [] && b == [] {
      script := [];
    } else if b == [] || (a != [] && Dist(a, b) == Dist(a[..|a| - 1], b) + 1) {
      var a' := a[..|a| - 1];
      var rest := ShortScript(a', b);
      script := [Delete(|a| - 1)] + rest;
      assert Apply(script[0], a) == a' && script[1..] == rest;
    } else {
      var b', y := b[..|b| - 1], b[|b| - 1];
      assert b == b' + [y];
      if a == [] || Dist(a, b) == Dist(a, b') + 1 {
        var rest := ShortScript(a, b');
        assert Transforms([Insert(|b'|, y)], b', b) by { assert Apply(Insert(|b'|, y), b') == b; }
        TransformsThen(rest, [Insert(|b'|, y)], a, b', b);
        script := rest + [Insert(|b'|, y)];
      } else {
        var a', x := a[..|a| - 1], a[|a| - 1];
        assert a == a' + [x];
        var rest := ShortScript(a', b');
        TransformsInContext(rest, a', b', x);
        if x == y {
          script := rest;
        } else {
          var sub := [Substitute(|b'|, y)];
          assert Transforms(sub, b' + [x], b) by { assert Apply(sub[0], b' + [x]) == b; }
          TransformsThen(rest, sub, a, b' + [x], b);
          script := rest + sub;
        }
      }
    }
  }

  /** Words with a common last symbol are no farther apart than what comes before it. */
  lemma DistSameLast<T>(a: seq<T>, b: seq<T>, x: T)
    ensures Dist(a + [x], b + [x]) <= Dist(a, b)
  {
    assert (a + [x])[..|a|] == a && (b + [x])[..|b|] == b;
  }

  /** A word and the same word with one more, or another, last symbol. */
  lemma DistLastEdited<T>(a: seq<T>, x: T, y: T)
    ensures Dist(a, a + [x]) <= 1 && Dist(a + [x], a) <= 1 && Dist(a + [x], a + [y]) <= 1
  {
    assert (a + [x])[..|a|] == a && (a + [y])[..|a|] == a;
    DistSelf(a);
  }

  /** One edit, anywhere in the word, moves it by at most one. */
  lemma {:induction false} OneEdit<T>(e: Edit<T>, a: seq<T>)
    requires Applies(e, a)
    ensures Dist(a, Apply(e, a)) <= 1
    decreases |a|
  {
    hide Dist;
    var b := Apply(e, a);
    if e.Insert? && e.at == |a| {
      assert b == a + [e.sym];
      DistLastEdited(a, e.sym, e.sym);
    } else {
      var a', x := a[..|a| - 1], a[|a| - 1];
      assert a == a' + [x];
      if e.at < |a| - 1 || e.Insert? {
        assert b == Apply(e, a') + [x];
        OneEdit(e, a');
        DistSameLast(a', Apply(e, a'), x);
      } else {
        assert b == if e.Delete? then a' else a' + [e.sym];
        DistLastEdited(a', x, if e.Delete? then x else e.sym);
      }
    }
  }

  /** No script is shorter: `Dist` is the minimum over all scripts. */
  lemma {:induction false} NoShorterScript<T>(script: seq<Edit<T>>, a: seq<T>, b: seq<T>)
    requires Transforms(script, a, b)
    ensures Dist(a, b) <= |script|
    decreases |script|
  {
    if script == [] {
      DistSelf(a);
    } else {
      var a' := Apply(script[0], a);
      OneEdit(script[0], a);
      NoShorterScript(script[1..], a', b);
      DistTriangle(a, a', b);
    }
  }

  /** `d` is the length of a shortest script from `a` to `b`. */
  ghost predicate IsEditDistance<T(!new)>(d: nat, a: seq<T>, b: seq<T>) {
    && (exists script: seq<Edit<T>> :: Transforms(script, a, b) && |script| == d)
    && (forall script: seq<Edit<T>> :: Transforms(script, a, b) ==> d <= |script|)
  }

  lemma EditDistanceIsDist<T(!new)>(d: nat, a: seq<T>, b: seq<T>)
    ensures IsEditDistance(d, a, b) <==> d == Dist(a, b)
  {
    var best := ShortScript(a, b);
    forall script: seq<Edit<T>> | Transforms(script, a, b)
      ensures Dist(a, b) <= |script|
    {
      NoShorterScript(script, a, b);
    }
  }

  // ----- the two dynamic programs -----

  /** A table of distances between prefixes, known by its recurrence alone. */
  ghost predicate IsTable<T>(t: seq<seq<nat>>, a: seq<T>, b: seq<T>) {
    && |t| == |a| + 1
    && (forall i :: 0 <= i <= |a| ==> |t[i]| == |b| + 1 && t[i][0] == i)
    && (forall j :: 0 <= j <= |b| ==> t[0][j] == j)
    && (forall i, j :: 0 <= i < |a| && 0 <= j < |b| ==> Recurs(t[i], t[i + 1], a[i], b[j], j))
  }

  ghost predicate Recurs<T>(above: seq<nat>, row: seq<nat>, x: T, y: T, j: nat) {
    && j + 1 < |above| == |row|
    && row[j + 1] == Min(Min(above[j + 1] + 1, row[j] + 1), above[j] + Cost(x, y))
  }

  lemma DistTable<T>(a: seq<T>, b: seq<T>) returns (t: seq<seq<nat>>)
    ensures IsTable(t, a, b) && t[|a|][|b|] == Dist(a, b)
  {
    t := seq(|a| + 1, i requires 0 <= i <= |a| => seq(|b| + 1, j requires 0 <= j <= |b| => Dist(a[..i], b[..j])));
    forall i, j | 0 <= i < |a| && 0 <= j < |b|
      ensures Recurs(t[i], t[i + 1], a[i], b[j], j)
    {
      assert a[..i + 1][..i] == a[..i] && b[..j + 1][..j] == b[..j];
    }
    assert a[..|a|] == a && b[..|b|] == b;
  }

  /** `editDistance` of the derivation pass. */
  method EditDistance<T(==)>(a: seq<T>, b: seq<T>) returns (d: nat)
    ensures d == Dist(a, b)
  {
    ghost var t := DistTable(a, b);
    d := FillFreshRows(a, b, t);
  }

  /** The loops of `editDistance`: a fresh row is allocated for every symbol of `a`. */
  method FillFreshRows<T(==)>(a: seq<T>, b: seq<T>, ghost t: seq<seq<nat>>) returns (d: nat)
    requires IsTable(t, a, b)
    ensures d == t[|a|][|b|]
  {
    var prev := new nat[|b| + 1](j => j);
    for i := 0 to |a|
      invariant prev.Length == |b| + 1
      invariant forall k :: 0 <= k <= |b| ==> prev[k] == t[i][k]
    {
      var curr := new nat[|b| + 1];
      curr[0] := i + 1;
      for j := 0 to |b|
        invariant forall k :: 0 <= k <= |b| ==> prev[k] == t[i][k]
        invariant forall k :: 0 <= k <= j ==> curr[k] == t[i + 1][k]
      {
        assert Recurs(t[i], t[i + 1], a[i], b[j], j);
        var cost := 0;
        if a[i] != b[j] {
          cost := 1;
        }
        var del := prev[j + 1] + 1;
        var ins := curr[j] + 1;
        var sub := prev[j] + cost;
        curr[j + 1] := del;
        if ins < curr[j + 1] {
          curr[j + 1] := ins;
        }
        if sub < curr[j + 1] {
          curr[j + 1] := sub;
        }
        assert curr[j + 1] == t[i + 1][j + 1];
      }
      prev := curr;
    }
    d := prev[|b|];
  }

  /** `levenshteinDistance` of the flag suggestions: the arguments are swapped so that the shorter
      one indexes the rows. */
  method LevenshteinDistance<T(==)>(a0: seq<T>, b0: seq<T>) returns (d: nat)
    ensures d == Dist(a0, b0)
  {
    var a, b := a0, b0;
    if |a| == 0 {
      return |b|;
    }
    if |b| == 0 {
      return |a|;
    }
    if |a| < |b| {
      a, b := b, a;
    }
    DistSymmetric(a0, b0);
    ghost var t := DistTable(a, b);
    d := FillTwoRows(a, b, t);
  }

  /** The loops of `levenshteinDistance`: two rows, whose references are swapped after each round. */
  method FillTwoRows<T(==)>(a: seq<T>, b: seq<T>, ghost t: seq<seq<nat>>) returns (d: nat)
    requires IsTable(t, a, b)
    ensures d == t[|a|][|b|]
  {
    var prev := new nat[|b| + 1];
    var curr := new nat[|b| + 1];
    for j := 0 to |b| + 1
      invariant forall k :: 0 <= k < j ==> prev[k] == k
    {
      prev[j] := j;
    }
    for i := 1 to |a| + 1
      invariant prev.Length == curr.Length == |b| + 1 && prev != curr
      invariant forall k :: 0 <= k <= |b| ==> prev[k] == t[i - 1][k]
      invariant fresh(prev) && fresh(curr)
    {
      curr[0] := i;
      for j := 1 to |b| + 1
        invariant forall k :: 0 <= k <= |b| ==> prev[k] == t[i - 1][k]
        invariant forall k :: 0 <= k < j ==> curr[k] == t[i][k]
      {
        assert Recurs(t[i - 1], t[i - 1 + 1], a[i - 1], b[j - 1], j - 1);
        var cost := 1;
        if a[i - 1] == b[j - 1] {
          cost := 0;
        }
        var ins := curr[j - 1] + 1;
        var del := prev[j] + 1;
        var sub := prev[j - 1] + cost;
        var min := ins;
        if del < min {
          min := del;
        }
        if sub < min {
          min := sub;
        }
        curr[j] := min;
      }
      prev, curr := curr, prev;
    }
    return prev[|b|];
  }
}
