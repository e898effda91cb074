/** Canonical serialisations of string maps: the byte stream under the credential fingerprint
    (internal/platform/profile.go `credentialFingerprint`) and the query-style form used in cache
    keys (internal/client/client.go `canonicalStringMap`).  Both are proved injective: distinct
    maps never share a stream.  Characters stand for bytes. */
module Encodings {
  import opened Strings
  import opened Wrappers

  type Pairs = seq<(string, string)>

  /** The entries of a map in the order the code visits them. */
  ghost function PairsOf(m: map<string, string>): Pairs {
    SortedKeysCorrect(m.Keys);
    PairsFor(SortedKeys(m.Keys), m)
  }

  function PairsFor(keys: seq<string>, m: map<string, string>): Pairs
    requires forall k :: k in keys ==> k in m
  {
    seq(|keys|, i requires 0 <= i < |keys| => (keys[i], m[keys[i]]))
  }

  /** The sorted entries determine the map. */
  lemma PairsDetermineMap(m: map<string, string>, n: map<string, string>)
    requires PairsOf(m) == PairsOf(n)
    ensures m == n
  {
    SortedKeysCorrect(m.Keys);
    SortedKeysCorrect(n.Keys);
    var ps, ks, ls := PairsOf(m), SortedKeys(m.Keys), SortedKeys(n.Keys);
    assert |ks| == |ps| == |ls|;
    forall i | 0 <= i < |ks|
      ensures ks[i] == ls[i] && m[ks[i]] == n[ls[i]]
    {
      assert ps[i] == (ks[i], m[ks[i]]) && ps[i] == (ls[i], n[ls[i]]);
    }
    assert ks == ls;
    forall k | k in m.Keys
      ensures k in n && m[k] == n[k]
    {
      assert k in ks;
    }
    assert m.Keys == n.Keys;
  }

  /** The entry with the least key comes first. */
  lemma LeastEntryFirst(m: map<string, string>, k: string)
    requires k in m && forall other :: other in m && other != k ==> Less(k, other)
    ensures PairsOf(m) == [(k, m[k])] + PairsOf(m - {k})
  {
    hide Less, SortedKeys, PairsFor, StrictlyAscending;
    LeastIsFirst(k, m.Keys);
    assert (m - {k}).Keys == m.Keys - {k};
    SortedKeysCorrect(m.Keys - {k});
    PairsForCons(k, SortedKeys(m.Keys - {k}), m);
  }

  lemma PairsForCons(k: string, keys: seq<string>, m: map<string, string>)
    requires k in m && k !in keys && forall other :: other in keys ==> other in m
    ensures forall other :: other in [k] + keys ==> other in m
    ensures PairsFor([k] + keys, m) == [(k, m[k])] + PairsFor(keys, m - {k})
  {
    var ps, rest := PairsFor([k] + keys, m), PairsFor(keys, m - {k});
    forall i | 0 <= i < |rest|
      ensures rest[i] == ps[i + 1]
    {
      assert ([k] + keys)[i + 1] == keys[i];
    }
  }

  lemma NoEntries()
    ensures PairsOf(map[]) == []
  {
  }

  /** A separator that does not occur in what precedes it marks the cut. */
  lemma CutAt(c: char, x: string, u: string, y: string, v: string)
    requires c !in x && c !in y && x + [c] + u == y + [c] + v
    ensures x == y && u == v
  {
    var s, t := x + [c] + u, y + [c] + v;
    assert s[|x|] == c && forall i :: 0 <= i < |x| ==> s[i] == x[i] && x[i] in x;
    assert t[|y|] == c && forall i :: 0 <= i < |y| ==> t[i] == y[i] && y[i] in y;
    assert x == s[..|x|] && u == s[|x| + 1..];
    assert y == t[..|y|] && v == t[|y| + 1..];
  }

  // ----- length-prefixed credentials -----

  /** `"%d:%s:%d:"` and the value. */
  function Item(k: string, v: string): string {
    Decimal(|k|) + ":" + k + ":" + Decimal(|v|) + ":" + v
  }

  function Stream(ps: Pairs): string {
    if ps == [] then "" else Item(ps[0].0, ps[0].1) + Stream(ps[1..])
  }

  ghost function CredentialStream(credentials: map<string, string>): string {
    Stream(PairsOf(credentials))
  }

  /** A length prefix says how much to read. */
  lemma PrefixedInjective(x: string, u: string, y: string, v: string)
    requires Decimal(|x|) + ":" + (x + u) == Decimal(|y|) + ":" + (y + v)
    ensures x == y && u == v
  {
    CutAt(':', Decimal(|x|), x + u, Decimal(|y|), y + v);
    DecimalInjective(|x|, |y|);
    assert x == (x + u)[..|x|] && u == (x + u)[|x|..];
    assert y == (y + v)[..|y|] && v == (y + v)[|y|..];
  }

  lemma ItemInjective(k: string, v: string, u: string, k': string, v': string, u': string)
    requires Item(k, v) + u == Item(k', v') + u'
    ensures k == k' && v == v' && u == u'
  {
    var w, w' := ":" + (Decimal(|v|) + ":" + (v + u)), ":" + (Decimal(|v'|) + ":" + (v' + u'));
    assert Item(k, v) + u == Decimal(|k|) + ":" + (k + w);
    assert Item(k', v') + u' == Decimal(|k'|) + ":" + (k' + w');
    PrefixedInjective(k, w, k', w');
    assert w[1..] == Decimal(|v|) + ":" + (v + u) && w'[1..] == Decimal(|v'|) + ":" + (v' + u');
    PrefixedInjective(v, u, v', u');
  }

  lemma {:induction false} StreamInjective(ps: Pairs, qs: Pairs)
    requires Stream(ps) == Stream(qs)
    ensures ps == qs
    decreases |ps|
  {
    hide Item;
    if ps != [] && qs != [] {
      ItemInjective(ps[0].0, ps[0].1, Stream(ps[1..]), qs[0].0, qs[0].1, Stream(qs[1..]));
      StreamInjective(ps[1..], qs[1..]);
      assert ps == [ps[0]] + ps[1..] && qs == [qs[0]] + qs[1..];
    } else {
      if ps != [] { ItemNonEmpty(ps[0].0, ps[0].1); }
      if qs != [] { ItemNonEmpty(qs[0].0, qs[0].1); }
    }
  }

  lemma ItemNonEmpty(k: string, v: string)
    ensures Item(k, v) != ""
  {
  }

  /** Equal streams come from equal credentials, whatever bytes names and values hold. */
  lemma CredentialStreamInjective(m: map<string, string>, n: map<string, string>)
    requires CredentialStream(m) == CredentialStream(n)
    ensures m == n
  {
    StreamInjective(PairsOf(m), PairsOf(n));
    PairsDetermineMap(m, n);
  }

  /** A field of the stream is read by its length. */
  function ReadField(s: string): (r: Option<(string, string)>)
    ensures r.Some? ==> |r.value.1| < |s|
  {
    var k := IndexOf(s, ':');
    if k == |s| then None
    else
      var n := ParseDecimal(s[..k]);
      if n.None? || n.value > |s| - k - 1 then None
      else Some((s[k + 1..k + 1 + n.value], s[k + 1 + n.value..]))
  }

  /** A reader of the stream: names and values in turn, separated by colons. */
  function ReadStream(s: string): Option<Pairs>
    decreases |s|
  {
    if s == "" then Some([])
    else
      var name := ReadField(s);
      if name.None? || name.value.1 == "" || name.value.1[0] != ':' then None
      else
        var value := ReadField(name.value.1[1..]);
        if value.None? then None
        else
          var rest := ReadStream(value.value.1);
          if rest.None? then None else Some([(name.value.0, value.value.0)] + rest.value)
  }

  lemma FieldIsRead(field: string, rest: string)
    ensures ReadField(Decimal(|field|) + ":" + field + rest) == Some((field, rest))
  {
    hide Decimal, ParseDecimal;
    var d := Decimal(|field|);
    var s := d + [':'] + (field + rest);
    assert s == d + ":" + field + rest;
    assert ':' !in d;
    FirstIndex(d, ':', field + rest);
    assert s[..|d|] == d && s[|d| + 1..] == field + rest;
    ParseDecimalInverts(|field|);
    TakeField(s, |d| + 1, field, rest);
  }

  lemma TakeField(s: string, k: nat, field: string, rest: string)
    requires k <= |s| && s[k..] == field + rest
    ensures s[k..k + |field|] == field && s[k + |field|..] == rest
  {
    var n := |field|;
    assert s[k..k + n] == s[k..][..n] && s[k + n..] == s[k..][n..];
  }

  /** The stream can be read back: it holds the entries, and nothing else. */
  lemma {:induction false} StreamReadsBack(ps: Pairs)
    ensures ReadStream(Stream(ps)) == Some(ps)
  {
    hide ReadField, Decimal;
    if ps != [] {
      var k, v, rest := ps[0].0, ps[0].1, Stream(ps[1..]);
      var tail := Decimal(|v|) + ":" + v + rest;
      assert Stream(ps) == Decimal(|k|) + ":" + k + (":" + tail);
      FieldIsRead(k, ":" + tail);
      FieldIsRead(v, rest);
      assert (":" + tail)[1..] == tail;
      StreamReadsBack(ps[1..]);
      assert ps == [(k, v)] + ps[1..];
    }
  }

  /** The stream of a map starts with the entry whose name comes first. */
  lemma CredentialsInOrder(m: map<string, string>, k: string)
    requires k in m && forall other :: other in m && other != k ==> Less(k, other)
    ensures CredentialStream(map[]) == ""
    ensures CredentialStream(m) ==
            Itoa(|k|) + ":" + k + ":" + Itoa(|m[k]|) + ":" + m[k] + CredentialStream(m - {k})
  {
    hide Less, Decimal;
    LeastEntryFirst(m, k);
    NoEntries();
  }

  lemma StreamStep(ps: Pairs, i: nat, written: string)
    requires i < |ps|
    ensures written + Stream(ps[i..]) == (written + Item(ps[i].0, ps[i].1)) + Stream(ps[i + 1..])
  {
    hide Item;
    assert ps[i..][1..] == ps[i + 1..];
  }

  lemma StreamEnd(ps: Pairs)
    ensures Stream(ps[|ps|..]) == ""
  {
  }

  /** What `credentialFingerprint` writes into the MAC. */
  method WriteCredentials(credentials: map<string, string>) returns (written: string)
    ensures written == CredentialStream(credentials)
  {
    hide Stream, Decimal;
    var keys := SortKeys(credentials.Keys);
    SortedKeysCorrect(credentials.Keys);
    ghost var ps := PairsOf(credentials);
    written := "";
    assert ps[0..] == ps;
    for i := 0 to |keys|
      invariant written + Stream(ps[i..]) == Stream(ps)
    {
      var name := keys[i];
      assert ps[i] == (name, credentials[name]);
      StreamStep(ps, i, written);
      var value := credentials[name];
      written := written + (Decimal(|name|) + ":" + name + ":" + Decimal(|value|) + ":" + value);
    }
    StreamEnd(ps);
  }

  // ----- query-escaped maps -----

  predicate Unreserved(c: char) {
    'a' <= c <= 'z' || 'A' <= c <= 'Z' || '0' <= c <= '9' || c == '-' || c == '_' || c == '.' || c == '~'
  }

  function Hex(d: nat): char
    requires d < 16
  {
    "0123456789ABCDEF"[d]
  }

  predicate Bytes(s: string) {
    forall i :: 0 <= i < |s| ==> s[i] as int < 256
  }

  function EscapeByte(c: char): string {
    if Unreserved(c) then [c]
    else if c == ' ' then "+"
    else ['%', Hex(c as int / 16 % 16), Hex(c as int % 16)]
  }

  /** `url.QueryEscape`. */
  function QueryEscape(s: string): string {
    if s == "" then "" else EscapeByte(s[0]) + QueryEscape(s[1..])
  }

  predicate EscapeAlphabet(c: char) {
    Unreserved(c) || c == '+' || c == '%'
  }

  lemma {:induction false} EscapedIsPlain(s: string)
    ensures forall i :: 0 <= i < |QueryEscape(s)| ==> EscapeAlphabet(QueryEscape(s)[i])
    ensures '=' !in QueryEscape(s) && '&' !in QueryEscape(s)
  {
    if s != "" {
      EscapedIsPlain(s[1..]);
      assert forall d: nat :: d < 16 ==> Unreserved(Hex(d));
      assert forall i :: 0 <= i < |EscapeByte(s[0])| ==> EscapeAlphabet(EscapeByte(s[0])[i]);
    }
  }

  lemma HexInjective(a: nat, b: nat)
    requires a < 16 && b < 16 && Hex(a) == Hex(b)
    ensures a == b
  {
  }

  lemma EscapeByteInjective(c: char, u: string, d: char, v: string)
    requires c as int < 256 && d as int < 256
    requires EscapeByte(c) + u == EscapeByte(d) + v
    ensures c == d && u == v
  {
    hide Hex;
    var s, t := EscapeByte(c) + u, EscapeByte(d) + v;
    assert s[0] == EscapeByte(c)[0] && t[0] == EscapeByte(d)[0];
    assert |EscapeByte(c)| == |EscapeByte(d)|;
    assert u == s[|EscapeByte(c)|..] && v == t[|EscapeByte(d)|..];
    if !Unreserved(c) && c != ' ' {
      assert s[1] == Hex(c as int / 16 % 16) && s[2] == Hex(c as int % 16);
      assert t[1] == Hex(d as int / 16 % 16) && t[2] == Hex(d as int % 16);
      HexInjective(c as int / 16 % 16, d as int / 16 % 16);
      HexInjective(c as int % 16, d as int % 16);
      NibblesDetermineByte(c as int, d as int);
    }
  }

  lemma NibblesDetermineByte(a: nat, b: nat)
    requires a < 256 && b < 256 && a / 16 % 16 == b / 16 % 16 && a % 16 == b % 16
    ensures a == b
  {
    assert a == a / 16 * 16 + a % 16 && b == b / 16 * 16 + b % 16;
  }

  lemma {:induction false} EscapeInjective(a: string, b: string)
    requires Bytes(a) && Bytes(b) && QueryEscape(a) == QueryEscape(b)
    ensures a == b
    decreases |a|
  {
    hide EscapeByte;
    if a != "" { EscapeByteNonEmpty(a[0]); }
    if b != "" { EscapeByteNonEmpty(b[0]); }
    if a != "" && b != "" {
      EscapeByteInjective(a[0], QueryEscape(a[1..]), b[0], QueryEscape(b[1..]));
      EscapeInjective(a[1..], b[1..]);
      assert a == [a[0]] + a[1..] && b == [b[0]] + b[1..];
    }
  }

  lemma EscapeByteNonEmpty(c: char)
    ensures EscapeByte(c) != ""
  {
  }

  function HexValue(c: char): Option<nat> {
    if '0' <= c <= '9' then Some(c as int - '0' as int)
    else if 'A' <= c <= 'F' then Some(c as int - 'A' as int + 10)
    else None
  }

  /** A reader of query escapes: a plus sign is a space, and a percent sign stands before the two
      hexadecimal digits of a byte. */
  function Unescape(s: string): string {
    if s == "" then ""
    else if s[0] == '+' then " " + Unescape(s[1..])
    else if s[0] == '%' && |s| > 2 && HexValue(s[1]).Some? && HexValue(s[2]).Some? then
      [(16 * HexValue(s[1]).value + HexValue(s[2]).value) as char] + Unescape(s[3..])
    else [s[0]] + Unescape(s[1..])
  }

  /** Escapes can be read back. */
  lemma {:induction false} EscapeReadsBack(s: string)
    requires Bytes(s)
    ensures Unescape(QueryEscape(s)) == s
  {
    hide EscapeByte, Unescape;
    if s != "" {
      EscapeReadsBack(s[1..]);
      ByteReadsBack(s[0], QueryEscape(s[1..]));
      assert s == [s[0]] + s[1..];
    } else {
      NothingToUnescape();
    }
  }

  lemma NothingToUnescape()
    ensures Unescape("") == ""
  {
  }

  lemma ByteReadsBack(c: char, rest: string)
    requires c as int < 256
    ensures Unescape(EscapeByte(c) + rest) == [c] + Unescape(rest)
  {
    hide Hex, HexValue;
    var e := EscapeByte(c);
    assert (e + rest)[|e|..] == rest && (e + rest)[0] == e[0];
    if !Unreserved(c) && c != ' ' {
      var high, low := c as int / 16, c as int % 16;
      assert high % 16 == high && c as int == 16 * high + low;
      assert e == ['%', Hex(high), Hex(low)];
      PercentReadsBack(high, low, rest);
    }
  }

  lemma PercentReadsBack(high: nat, low: nat, rest: string)
    requires high < 16 && low < 16
    ensures Unescape(['%', Hex(high), Hex(low)] + rest) == [(16 * high + low) as char] + Unescape(rest)
  {
    hide Hex, HexValue;
    HexReadsBack(high);
    HexReadsBack(low);
    assert (['%', Hex(high), Hex(low)] + rest)[3..] == rest;
  }

  lemma HexReadsBack(d: nat)
    requires d < 16
    ensures HexValue(Hex(d)) == Some(d)
  {
  }

  /** Letters, digits and four other characters stand for themselves, and nothing else does: a space turns
      into a plus sign. */
  lemma {:induction false} EscapedExactlyWhen(s: string)
    ensures QueryEscape(s) == s <==>
            forall i :: 0 <= i < |s| ==>
              'a' <= s[i] <= 'z' || 'A' <= s[i] <= 'Z' || '0' <= s[i] <= '9' || s[i] in {'-', '_', '.', '~'}
    ensures |QueryEscape(s)| >= |s|
    ensures QueryEscape(" ") == "+"
  {
    if s != "" {
      var rest := s[1..];
      EscapedExactlyWhen(rest);
      assert forall i :: 0 <= i < |rest| ==> rest[i] == s[i + 1];
      var e := EscapeByte(s[0]);
      var t := e + QueryEscape(rest);
      assert t[0] == e[0];
      if |e| == 1 { assert t[1..] == QueryEscape(rest); } else { assert |t| > |s|; }
    }
  }

  function Part(p: (string, string)): string {
    QueryEscape(p.0) + "=" + QueryEscape(p.1)
  }

  function Parts(ps: Pairs): seq<string> {
    seq(|ps|, i requires 0 <= i < |ps| => Part(ps[i]))
  }

  ghost function CanonicalForm(m: map<string, string>): string {
    Join(Parts(PairsOf(m)), "&")
  }

  ghost predicate BytePairs(ps: Pairs) {
    forall i :: 0 <= i < |ps| ==> Bytes(ps[i].0) && Bytes(ps[i].1)
  }

  lemma PartInjective(p: (string, string), q: (string, string))
    requires Bytes(p.0) && Bytes(p.1) && Bytes(q.0) && Bytes(q.1)
    requires Part(p) == Part(q)
    ensures p == q
  {
    EscapedIsPlain(p.0);
    EscapedIsPlain(q.0);
    CutAt('=', QueryEscape(p.0), QueryEscape(p.1), QueryEscape(q.0), QueryEscape(q.1));
    EscapeInjective(p.0, q.0);
    EscapeInjective(p.1, q.1);
  }

  lemma PartIsPlain(p: (string, string))
    ensures Part(p) != "" && '&' !in Part(p)
  {
    EscapedIsPlain(p.0);
    EscapedIsPlain(p.1);
  }

  /** A list of non-empty parts without the separator is determined by its joined form. */
  lemma {:induction false} JoinInjective(x: seq<string>, y: seq<string>)
    requires forall i :: 0 <= i < |x| ==> x[i] != "" && '&' !in x[i]
    requires forall i :: 0 <= i < |y| ==> y[i] != "" && '&' !in y[i]
    requires Join(x, "&") == Join(y, "&")
    ensures x == y
    decreases |x|
  {
    if |x| > 1 && |y| > 1 {
      assert Join(x, "&") == x[0] + ['&'] + Join(x[1..], "&");
      assert Join(y, "&") == y[0] + ['&'] + Join(y[1..], "&");
      CutAt('&', x[0], Join(x[1..], "&"), y[0], Join(y[1..], "&"));
      JoinInjective(x[1..], y[1..]);
      assert x == [x[0]] + x[1..] && y == [y[0]] + y[1..];
    } else {
      JoinShape(x);
      JoinShape(y);
    }
  }

  lemma JoinShape(x: seq<string>)
    requires forall i :: 0 <= i < |x| ==> x[i] != "" && '&' !in x[i]
    ensures |x| == 0 ==> Join(x, "&") == ""
    ensures |x| == 1 ==> Join(x, "&") == x[0] && '&' !in Join(x, "&") && x == [x[0]]
    ensures |x| > 1 ==> '&' in Join(x, "&")
  {
    if |x| > 1 {
      assert Join(x, "&") == x[0] + ['&'] + Join(x[1..], "&");
      assert Join(x, "&")[|x[0]|] == '&';
    }
  }

  /** Distinct maps have distinct canonical forms. */
  lemma CanonicalFormInjective(m: map<string, string>, n: map<string, string>)
    requires BytePairs(PairsOf(m)) && BytePairs(PairsOf(n))
    requires CanonicalForm(m) == CanonicalForm(n)
    ensures m == n
  {
    hide Part, QueryEscape;
    var ps, qs := PairsOf(m), PairsOf(n);
    forall p: (string, string)
      ensures Part(p) != "" && '&' !in Part(p)
    {
      PartIsPlain(p);
    }
    JoinInjective(Parts(ps), Parts(qs));
    assert |Parts(ps)| == |Parts(qs)|;
    forall i | 0 <= i < |ps|
      ensures ps[i] == qs[i]
    {
      assert Parts(ps)[i] == Part(ps[i]) && Parts(qs)[i] == Part(qs[i]);
      PartInjective(ps[i], qs[i]);
    }
    assert ps == qs;
    PairsDetermineMap(m, n);
  }

  /** The canonical form starts with the least key, escaped, an equals sign and its value; an ampersand
      stands before the rest, if there is one. */
  lemma CanonicalInOrder(m: map<string, string>, k: string)
    requires k in m && forall other :: other in m && other != k ==> Less(k, other)
    ensures CanonicalForm(map[]) == ""
    ensures CanonicalForm(m) ==
            QueryEscape(k) + "=" + QueryEscape(m[k]) + if |m| == 1 then "" else "&" + CanonicalForm(m - {k})
  {
    hide Less, QueryEscape;
    LeastEntryFirst(m, k);
    NoEntries();
    var ps := PairsOf(m);
    assert Parts(ps)[1..] == Parts(PairsOf(m - {k}));
    SortedKeysLength(m.Keys);
  }

  lemma {:induction false} SortedKeysLength(keys: set<string>)
    ensures |SortedKeys(keys)| == |keys|
  {
    if keys != {} { SortedKeysLength(keys - {SortedKeys(keys)[0]}); }
  }

  /** `canonicalStringMap`. */
  method CanonicalStringMap(values: map<string, string>) returns (r: string)
    ensures r == CanonicalForm(values)
  {
    var keys := SortKeys(values.Keys);
    SortedKeysCorrect(values.Keys);
    ghost var all := Parts(PairsOf(values));
    var parts: seq<string> := [];
    for i := 0 to |keys|
      invariant parts == all[..i]
    {
      assert all[i] == Part((keys[i], values[keys[i]]));
      parts := parts + [QueryEscape(keys[i]) + "=" + QueryEscape(values[keys[i]])];
    }
    assert all[..|keys|] == all;
    r := Join(parts, "&");
  }
}
