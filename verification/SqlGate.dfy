/** The read-only gate of the SQL tool (internal/mcp/tools.go: `validateReadOnlyQuery`,
    `stripLeadingSQLNoise`, `hasTrailingSQLStatement`): a scanner with six flags, checked against
    a recursive tokenizer. */
module SqlGate {

  // ----- the reference tokenizer -----

  datatype Token =
    | Comment(text: string)    // line or block comment
    | Quoted(text: string)     // '…', "…", `…` with doubled quotes, or […]
    | Semicolon
    | Blank(c: char)
    | Code(c: char)
  {
    function Text(): string {
      match this
      case Comment(text) => text
      case Quoted(text) => text
      case Semicolon => ";"
      case Blank(c) => [c]
      case Code(c) => [c]
    }

    /** SQLite skips these between statements. */
    predicate Noise() {
      Comment? || Semicolon? || Blank?
    }
  }

  function AfterLine(s: string): (r: string)
    ensures |r| <= |s|
  {
    if s == "" then "" else if s[0] == '\n' then s[1..] else AfterLine(s[1..])
  }

  function AfterBlock(s: string): (r: string)
    ensures |r| <= |s|
  {
    if |s| <= 1 then "" else if s[0] == '*' && s[1] == '/' then s[2..] else AfterBlock(s[1..])
  }

  /** What follows the closing `q`; a doubled `q` stands for itself. */
  function AfterQuote(q: char, s: string): (r: string)
    ensures |r| <= |s|
  {
    if s == "" then ""
    else if s[0] != q then AfterQuote(q, s[1..])
    else if |s| > 1 && s[1] == q then AfterQuote(q, s[2..])
    else s[1..]
  }

  function AfterBracket(s: string): (r: string)
    ensures |r| <= |s|
  {
    if s == "" then "" else if s[0] == ']' then s[1..] else AfterBracket(s[1..])
  }

  predicate IsBlank(c: char) {
    c == ' ' || c == '\t' || c == '\r' || c == '\n'
  }

  predicate OpensLine(s: string) { |s| > 1 && s[0] == '-' && s[1] == '-' }

  predicate OpensBlock(s: string) { |s| > 1 && s[0] == '/' && s[1] == '*' }

  predicate IsQuote(c: char) { c == '\'' || c == '"' || c == '`' }

  /** What follows the first token. */
  function Rest(s: string): (r: string)
    requires s != ""
    ensures |r| < |s|
  {
    if OpensLine(s) then AfterLine(s[2..])
    else if OpensBlock(s) then AfterBlock(s[2..])
    else if IsQuote(s[0]) then AfterQuote(s[0], s[1..])
    else if s[0] == '[' then AfterBracket(s[1..])
    else s[1..]
  }

  function First(s: string): Token
    requires s != ""
  {
    var text := s[..|s| - |Rest(s)|];
    if OpensLine(s) || OpensBlock(s) then Comment(text)
    else if IsQuote(s[0]) || s[0] == '[' then Quoted(text)
    else if s[0] == ';' then Semicolon
    else if IsBlank(s[0]) then Blank(s[0])
    else Code(s[0])
  }

  function Tokens(s: string): seq<Token>
    decreases |s|
  {
    if s == "" then [] else [First(s)] + Tokens(Rest(s))
  }

  function Text(tokens: seq<Token>): string {
    if tokens == [] then "" else tokens[0].Text() + Text(tokens[1..])
  }

  predicate Suffix(r: string, s: string) {
    |r| <= |s| && r == s[|s| - |r|..]
  }

  lemma SuffixOfTail(r: string, s: string, k: nat)
    requires k <= |s| && Suffix(r, s[k..])
    ensures Suffix(r, s)
  {
    assert s[k..][|s| - k - |r|..] == s[|s| - |r|..];
  }

  lemma {:induction false} AfterLineSuffix(s: string)
    ensures Suffix(AfterLine(s), s)
  {
    if s != "" && s[0] != '\n' {
      AfterLineSuffix(s[1..]);
      SuffixOfTail(AfterLine(s), s, 1);
    }
  }

  lemma {:induction false} AfterBlockSuffix(s: string)
    ensures Suffix(AfterBlock(s), s)
  {
    if |s| > 1 && !(s[0] == '*' && s[1] == '/') {
      AfterBlockSuffix(s[1..]);
      SuffixOfTail(AfterBlock(s), s, 1);
    }
  }

  lemma {:induction false} AfterQuoteSuffix(q: char, s: string)
    ensures Suffix(AfterQuote(q, s), s)
    decreases |s|
  {
    if s != "" && s[0] != q {
      AfterQuoteSuffix(q, s[1..]);
      SuffixOfTail(AfterQuote(q, s), s, 1);
    } else if |s| > 1 && s[1] == q {
      AfterQuoteSuffix(q, s[2..]);
      SuffixOfTail(AfterQuote(q, s), s, 2);
    }
  }

  lemma {:induction false} AfterBracketSuffix(s: string)
    ensures Suffix(AfterBracket(s), s)
  {
    if s != "" && s[0] != ']' {
      AfterBracketSuffix(s[1..]);
      SuffixOfTail(AfterBracket(s), s, 1);
    }
  }

  lemma RestIsSuffix(s: string)
    requires s != ""
    ensures Suffix(Rest(s), s) && s == First(s).Text() + Rest(s)
  {
    hide AfterLine, AfterBlock, AfterQuote, AfterBracket;
    if OpensLine(s) {
      AfterLineSuffix(s[2..]);
      SuffixOfTail(Rest(s), s, 2);
    } else if OpensBlock(s) {
      AfterBlockSuffix(s[2..]);
      SuffixOfTail(Rest(s), s, 2);
    } else if IsQuote(s[0]) {
      AfterQuoteSuffix(s[0], s[1..]);
      SuffixOfTail(Rest(s), s, 1);
    } else if s[0] == '[' {
      AfterBracketSuffix(s[1..]);
      SuffixOfTail(Rest(s), s, 1);
    }
    var k := |s| - |Rest(s)|;
    assert s == s[..k] + s[k..];
  }

  /** Tokenizing loses nothing. */
  lemma {:induction false} TokensCover(s: string)
    ensures Text(Tokens(s)) == s
    decreases |s|
  {
    if s != "" {
      RestIsSuffix(s);
      TokensCover(Rest(s));
    }
  }

  // ----- statements -----

  predicate HasCode(tokens: seq<Token>) {
    exists i :: 0 <= i < |tokens| && !tokens[i].Noise()
  }

  /** The token runs between semicolons. */
  function Split(tokens: seq<Token>): (groups: seq<seq<Token>>)
    ensures groups != []
  {
    if tokens == [] then [[]]
    else
      var groups := Split(tokens[1..]);
      if tokens[0].Semicolon? then [[]] + groups else [[tokens[0]] + groups[0]] + groups[1..]
  }

  function CountCode(groups: seq<seq<Token>>): nat {
    if groups == [] then 0 else (if HasCode(groups[0]) then 1 else 0) + CountCode(groups[1..])
  }

  /** The non-empty statements separated by top-level semicolons.  The body of a `CREATE TRIGGER`, whose
      semicolons lie inside one statement for SQLite, counts as several. */
  function Statements(query: string): nat {
    CountCode(Split(Tokens(query)))
  }

  /** After its first semicolon the token stream holds more code. */
  predicate Trailing(tokens: seq<Token>) {
    tokens != [] &&
    if tokens[0].Semicolon? then HasCode(tokens[1..]) else Trailing(tokens[1..])
  }

  function DropNoise(tokens: seq<Token>): seq<Token> {
    if tokens != [] && tokens[0].Noise() then DropNoise(tokens[1..]) else tokens
  }

  // ----- the tokens, one by one -----

  /** The first token `s` of a longer text. */
  lemma FirstToken(s: string, rest: string)
    requires s != "" && Rest(s + rest) == rest
    ensures Tokens(s + rest) == [First(s + rest)] + Tokens(rest)
    ensures (s + rest)[..|s + rest| - |rest|] == s
  {
  }

  lemma BlankToken(c: char, s: string)
    requires c in {' ', '\t', '\r', '\n'}
    ensures Tokens([c] + s) == [Blank(c)] + Tokens(s)
  {
    FirstToken([c], s);
  }

  lemma SemicolonToken(s: string)
    ensures Tokens(";" + s) == [Semicolon] + Tokens(s)
  {
    FirstToken(";", s);
  }

  /** A line comment ends at the first newline, or with the text. */
  lemma LineToken(text: string, s: string)
    requires '\n' !in text
    ensures Tokens("--" + text + "\n" + s) == [Comment("--" + text + "\n")] + Tokens(s)
    ensures Tokens("--" + text) == [Comment("--" + text)]
  {
    var closed, open := "--" + text + "\n", "--" + text;
    assert (closed + s)[2..] == text + "\n" + s && open[2..] == text && open + "" == open;
    LineEnds(text, s);
    FirstToken(closed, s);
    FirstToken(open, "");
  }

  lemma {:induction false} LineEnds(text: string, s: string)
    requires '\n' !in text
    ensures AfterLine(text + "\n" + s) == s && AfterLine(text) == ""
  {
    var t := text + "\n" + s;
    if text != "" {
      assert t[0] == text[0] && t[1..] == text[1..] + "\n" + s;
      LineEnds(text[1..], s);
    }
  }

  predicate HoldsBlockEnd(text: string) {
    exists i :: 0 <= i < |text| - 1 && text[i] == '*' && text[i + 1] == '/'
  }

  /** A block comment ends at the first end mark, or with the text; it does not nest. */
  lemma BlockToken(text: string, s: string)
    requires !HoldsBlockEnd(text)
    ensures Tokens("/*" + text + "*/" + s) == [Comment("/*" + text + "*/")] + Tokens(s)
    ensures Tokens("/*" + text) == [Comment("/*" + text)]
  {
    var closed, open := "/*" + text + "*/", "/*" + text;
    assert (closed + s)[2..] == text + "*/" + s && open[2..] == text && open + "" == open;
    BlockEnds(text, s);
    FirstToken(closed, s);
    FirstToken(open, "");
  }

  lemma {:induction false} BlockEnds(text: string, s: string)
    requires !HoldsBlockEnd(text)
    ensures AfterBlock(text + "*/" + s) == s && AfterBlock(text) == ""
  {
    var t := text + "*/" + s;
    if text != "" {
      assert t[0] == text[0] && t[1..] == text[1..] + "*/" + s;
      assert t[1] == if |text| > 1 then text[1] else '*';
      BlockEnds(text[1..], s);
    }
  }

  /** A text as written between quotes: every quote in it is doubled. */
  function Doubled(q: char, text: string): string {
    if text == "" then "" else (if text[0] == q then [q, q] else [text[0]]) + Doubled(q, text[1..])
  }

  /** A quoted text ends at the first quote that is not doubled, or with the text; nothing in it opens a
      comment or ends a statement. */
  lemma QuoteToken(q: char, text: string, s: string)
    requires q in {'\'', '"', '`'} && (s == "" || s[0] != q)
    ensures Tokens([q] + Doubled(q, text) + [q] + s) == [Quoted([q] + Doubled(q, text) + [q])] + Tokens(s)
    ensures Tokens([q] + Doubled(q, text)) == [Quoted([q] + Doubled(q, text))]
  {
    hide AfterQuote, Doubled, Tokens, Rest, First;
    var d := Doubled(q, text);
    var closed, open := [q] + d + [q], [q] + d;
    assert (closed + s)[1..] == d + [q] + s && open[1..] == d && open + "" == open;
    QuoteEnds(q, text, s);
    QuoteOpens(q, closed + s);
    QuoteOpens(q, open);
    FirstToken(closed, s);
    FirstToken(open, "");
    NoText();
  }

  lemma NoText()
    ensures Tokens("") == []
  {
  }

  lemma QuoteOpens(q: char, s: string)
    requires q in {'\'', '"', '`'} && s != "" && s[0] == q
    ensures Rest(s) == AfterQuote(q, s[1..])
    ensures First(s) == Quoted(s[..|s| - |Rest(s)|])
  {
    hide AfterQuote;
  }

  lemma {:induction false} QuoteEnds(q: char, text: string, s: string)
    requires s == "" || s[0] != q
    ensures AfterQuote(q, Doubled(q, text) + [q] + s) == s && AfterQuote(q, Doubled(q, text)) == ""
    decreases |text|
  {
    var d := Doubled(q, text);
    var t := d + [q] + s;
    if text != "" {
      var rest := Doubled(q, text[1..]);
      var n := if text[0] == q then 2 else 1;
      assert t[0] == text[0] && t[1] == (d[1..] + [q] + s)[0];
      assert t[n..] == rest + [q] + s && d[n..] == rest;
      QuoteEnds(q, text[1..], s);
    }
  }

  lemma BracketToken(text: string, s: string)
    requires ']' !in text
    ensures Tokens("[" + text + "]" + s) == [Quoted("[" + text + "]")] + Tokens(s)
    ensures Tokens("[" + text) == [Quoted("[" + text)]
  {
    var closed, open := "[" + text + "]", "[" + text;
    assert (closed + s)[1..] == text + "]" + s && open[1..] == text && open + "" == open;
    BracketEnds(text, s);
    FirstToken(closed, s);
    FirstToken(open, "");
  }

  lemma {:induction false} BracketEnds(text: string, s: string)
    requires ']' !in text
    ensures AfterBracket(text + "]" + s) == s && AfterBracket(text) == ""
  {
    var t := text + "]" + s;
    if text != "" {
      assert t[0] == text[0] && t[1..] == text[1..] + "]" + s;
      BracketEnds(text[1..], s);
    }
  }

  /** Any other character is code. */
  lemma CodeToken(c: char, s: string)
    requires c !in {' ', '\t', '\r', '\n', ';', '\'', '"', '`', '['}
    requires c == '-' ==> s == "" || s[0] != '-'
    requires c == '/' ==> s == "" || s[0] != '*'
    ensures Tokens([c] + s) == [Code(c)] + Tokens(s)
  {
    FirstToken([c], s);
  }

  // ----- stripping leading noise -----

  function Stripped(s: string): string
    decreases |s|
  {
    if s != "" && First(s).Noise() then Stripped(Rest(s)) else s
  }

  lemma {:induction false} StrippedDropsNoise(s: string)
    ensures Tokens(Stripped(s)) == DropNoise(Tokens(s))
    ensures Stripped(s) == "" <==> !HasCode(Tokens(s))
    ensures Stripped(Stripped(s)) == Stripped(s)
    ensures Suffix(Stripped(s), s)
    decreases |s|
  {
    hide First, Rest, Suffix, DropNoise;
    if s == "" || !First(s).Noise() {
      NothingToDrop(s);
    } else {
      var t := Tokens(s);
      assert t[0] == First(s) && t[1..] == Tokens(Rest(s));
      StrippedDropsNoise(Rest(s));
      RestIsSuffix(s);
      SuffixOfSuffix(Stripped(s), Rest(s), s);
      NoiseHasNoCode(t);
    }
  }

  /** Where stripping stops: at the end, or at a character that is not blank, ends no statement and opens
      no comment. */
  predicate StartsWithCode(s: string) {
    && s != "" && s[0] !in {' ', '\t', '\r', '\n', ';'}
    && (|s| > 1 ==> s[..2] != "--" && s[..2] != "/*")
  }

  lemma {:induction false} StrippedStartsWithCode(s: string)
    ensures Stripped(s) == "" || StartsWithCode(Stripped(s))
    ensures Stripped(s) == s <==> s == "" || StartsWithCode(s)
    decreases |s|
  {
    hide First, Rest, StartsWithCode, Stripped;
    StrippedStep(s);
    if s != "" {
      NoiseExactlyWhen(s);
      if First(s).Noise() { StrippedStartsWithCode(Rest(s)); }
    }
  }

  lemma StrippedStep(s: string)
    ensures s != "" && First(s).Noise() ==> Stripped(s) == Stripped(Rest(s)) && |Stripped(s)| < |s|
    ensures s == "" || !First(s).Noise() ==> Stripped(s) == s
  {
    hide First, Rest, Suffix;
    if s != "" && First(s).Noise() { NoLonger(Stripped(Rest(s)), Rest(s)); }
  }

  lemma NoLonger(r: string, s: string)
    requires r == Stripped(s)
    ensures |r| <= |s|
  {
    hide Stripped;
    StrippedDropsNoise(s);
  }

  lemma NoiseExactlyWhen(s: string)
    requires s != ""
    ensures First(s).Noise() <==> !StartsWithCode(s)
  {
    hide AfterLine, AfterBlock, AfterQuote, AfterBracket, Rest;
    if |s| > 1 {
      assert s[..2] == [s[0], s[1]];
    }
  }

  /** Each kind of noise is stripped from the front. */
  lemma NoiseIsStripped(c: char, text: string, s: string)
    ensures c in {' ', '\t', '\r', '\n', ';'} ==> Stripped([c] + s) == Stripped(s)
    ensures '\n' !in text ==> Stripped("--" + text + "\n" + s) == Stripped(s) && Stripped("--" + text) == ""
    ensures !HoldsBlockEnd(text) ==> Stripped("/*" + text + "*/" + s) == Stripped(s) && Stripped("/*" + text) == ""
  {
    hide Tokens, First, Rest, Stripped, HoldsBlockEnd;
    if c in {' ', '\t', '\r', '\n'} {
      BlankToken(c, s);
      StripFirst([c] + s, s);
    }
    if c == ';' {
      SemicolonToken(s);
      StripFirst(";" + s, s);
    }
    NoText();
    if '\n' !in text {
      LineToken(text, s);
      StripFirst("--" + text + "\n" + s, s);
      StripFirst("--" + text, "");
    }
    if !HoldsBlockEnd(text) {
      BlockToken(text, s);
      StripFirst("/*" + text + "*/" + s, s);
      StripFirst("/*" + text, "");
    }
  }

  lemma StripFirst(t: string, s: string)
    requires t != "" && Tokens(t)[0].Noise() && Tokens(t)[1..] == Tokens(s)
    ensures Stripped(t) == Stripped(s)
    ensures s == "" ==> Stripped(t) == ""
  {
    hide First, Rest, Tokens;
    TokensCover(t);
    TokensCover(s);
    TokensCover(Rest(t));
    FirstAndRest(t);
  }

  lemma FirstAndRest(t: string)
    requires t != ""
    ensures Tokens(t)[0] == First(t) && Tokens(t)[1..] == Tokens(Rest(t))
  {
    hide First, Rest;
  }

  lemma NothingToDrop(s: string)
    requires s == "" || !First(s).Noise()
    ensures DropNoise(Tokens(s)) == Tokens(s) && (s == "" <==> !HasCode(Tokens(s))) && Suffix(s, s)
  {
    if s != "" { assert Tokens(s)[0] == First(s); }
  }

  lemma SuffixOfSuffix(x: string, y: string, z: string)
    requires Suffix(x, y) && Suffix(y, z)
    ensures Suffix(x, z)
  {
    SuffixOfTail(x, z, |z| - |y|);
  }

  lemma NoiseHasNoCode(t: seq<Token>)
    requires t != [] && t[0].Noise()
    ensures HasCode(t) == HasCode(t[1..]) && DropNoise(t) == DropNoise(t[1..])
  {
    if HasCode(t) {
      var i :| 0 <= i < |t| && !t[i].Noise();
      assert t[1..][i - 1] == t[i];
    }
  }

  method SkipLine(s: string) returns (r: string)
    ensures r == AfterLine(s)
  {
    r := s;
    while r != "" && r[0] != '\n'
      invariant AfterLine(r) == AfterLine(s)
      decreases |r|
    {
      r := r[1..];
    }
    if r != "" {
      r := r[1..];
    }
  }

  method SkipBlock(s: string) returns (r: string)
    ensures r == AfterBlock(s)
  {
    r := s;
    while |r| > 1 && !(r[0] == '*' && r[1] == '/')
      invariant AfterBlock(r) == AfterBlock(s)
      decreases |r|
    {
      r := r[1..];
    }
    r := if |r| > 1 then r[2..] else "";
  }

  /** `stripLeadingSQLNoise`. */
  method StripLeadingSqlNoise(query0: string) returns (query: string)
    ensures query == Stripped(query0)
  {
    query := query0;
    while true
      invariant Stripped(query) == Stripped(query0)
      decreases |query|
    {
      ghost var before := |query|;
      while query != "" && (IsBlank(query[0]) || query[0] == ';')
        invariant Stripped(query) == Stripped(query0)
        invariant |query| <= before
        decreases |query|
      {
        query := query[1..];
      }
      if OpensLine(query) {
        query := SkipLine(query[2..]);
      } else if OpensBlock(query) {
        query := SkipBlock(query[2..]);
      } else {
        return;
      }
    }
  }

  // ----- the scanner -----

  /** What is left once the token the scanner is inside of ends. */
  ghost function Remainder(inSingle: bool, inDouble: bool, inBacktick: bool, inBracket: bool, inLine: bool,
                           inBlock: bool, s: string): string
  {
    if inLine then AfterLine(s)
    else if inBlock then AfterBlock(s)
    else if inSingle then AfterQuote('\'', s)
    else if inDouble then AfterQuote('"', s)
    else if inBacktick then AfterQuote('`', s)
    else if inBracket then AfterBracket(s)
    else s
  }

  predicate AtMostOne(a: bool, b: bool, c: bool, d: bool, e: bool, f: bool) {
    (if a then 1 else 0) + (if b then 1 else 0) + (if c then 1 else 0)
    + (if d then 1 else 0) + (if e then 1 else 0) + (if f then 1 else 0) <= 1
  }

  /** `hasTrailingSQLStatement`. */
  method HasTrailingSqlStatement(query: string) returns (r: bool)
    ensures r == Trailing(Tokens(query))
  {
    hide Tokens, Trailing, Stripped;
    var inSingle, inDouble, inBacktick, inBracket := false, false, false, false;
    var inLineComment, inBlockComment := false, false;
    var i := 0;
    assert query[0..] == query;
    while i < |query|
      invariant 0 <= i <= |query|
      invariant AtMostOne(inSingle, inDouble, inBacktick, inBracket, inLineComment, inBlockComment)
      invariant Trailing(Tokens(query)) ==
                Trailing(Tokens(Remainder(inSingle, inDouble, inBacktick, inBracket, inLineComment, inBlockComment,
                                          query[i..])))
      decreases |query| - i
    {
      var ch := query[i];
      var next := '\0';
      if i + 1 < |query| {
        next := query[i + 1];
      }
      ghost var s := query[i..];
      assert s[0] == ch && s[1..] == query[i + 1..];
      assert i + 1 < |query| ==> s[1] == next && s[2..] == query[i + 2..];
      if inLineComment {
        if ch == '\n' {
          inLineComment := false;
        }
        i := i + 1;
        continue;
      } else if inBlockComment {
        if ch == '*' && next == '/' {
          inBlockComment := false;
          i := i + 1;
        }
        i := i + 1;
        continue;
      } else if inSingle {
        if ch == '\'' {
          if next == '\'' {
            i := i + 2;
            continue;
          }
          inSingle := false;
        }
        i := i + 1;
        continue;
      } else if inDouble {
        if ch == '"' {
          if next == '"' {
            i := i + 2;
            continue;
          }
          inDouble := false;
        }
        i := i + 1;
        continue;
      } else if inBacktick {
        if ch == '`' {
          if next == '`' {
            i := i + 2;
            continue;
          }
          inBacktick := false;
        }
        i := i + 1;
        continue;
      } else if inBracket {
        if ch == ']' {
          inBracket := false;
        }
        i := i + 1;
        continue;
      }

      OneToken(s);
      if ch == '-' && next == '-' {
        inLineComment := true;
        i := i + 1;
      } else if ch == '/' && next == '*' {
        inBlockComment := true;
        i := i + 1;
      } else if ch == '\'' {
        inSingle := true;
      } else if ch == '"' {
        inDouble := true;
      } else if ch == '`' {
        inBacktick := true;
      } else if ch == '[' {
        inBracket := true;
      } else if ch == ';' {
        var rest := StripLeadingSqlNoise(query[i + 1..]);
        StrippedDropsNoise(query[i + 1..]);
        if rest != "" {
          return true;
        }
        return false;
      }
      i := i + 1;
    }
    NoTokens();
    return false;
  }

  lemma OneToken(s: string)
    requires s != ""
    ensures Trailing(Tokens(s)) ==
            if First(s).Semicolon? then HasCode(Tokens(Rest(s))) else Trailing(Tokens(Rest(s)))
  {
    assert Tokens(s)[1..] == Tokens(Rest(s));
  }

  lemma NoTokens()
    ensures !Trailing(Tokens(""))
  {
  }

  // ----- the gate -----

  lemma HasCodeCons(t: Token, rest: seq<Token>)
    ensures HasCode([t] + rest) == (!t.Noise() || HasCode(rest))
  {
    if HasCode(rest) {
      var i :| 0 <= i < |rest| && !rest[i].Noise();
      assert ([t] + rest)[i + 1] == rest[i];
    }
    if !t.Noise() { assert ([t] + rest)[0] == t; }
  }

  lemma {:induction false} NoStatementNoCode(tokens: seq<Token>)
    ensures CountCode(Split(tokens)) == 0 <==> !HasCode(tokens)
  {
    if tokens != [] {
      NoStatementNoCode(tokens[1..]);
      var groups := Split(tokens[1..]);
      assert tokens == [tokens[0]] + tokens[1..];
      HasCodeCons(tokens[0], tokens[1..]);
      HasCodeCons(tokens[0], groups[0]);
    } else {
      assert CountCode([[]]) == CountCode([[]][1..]);
    }
  }

  /** Statements are counted between semicolons: those before one and those behind it add up, and tokens
      without one are a statement exactly when they hold code or a quoted text. */
  lemma StatementsAddUp(a: seq<Token>, b: seq<Token>)
    ensures CountCode(Split(a + [Semicolon] + b)) == CountCode(Split(a)) + CountCode(Split(b))
    ensures Semicolon !in a ==>
              CountCode(Split(a)) == if exists i :: 0 <= i < |a| && (a[i].Code? || a[i].Quoted?) then 1 else 0
  {
    SplitConcat(a, b);
    CountConcat(Split(a), Split(b));
    if Semicolon !in a {
      NoSemicolonOneGroup(a);
      assert CountCode([a]) == (if HasCode(a) then 1 else 0) + CountCode([]);
    }
  }

  lemma {:induction false} SplitConcat(a: seq<Token>, b: seq<Token>)
    ensures Split(a + [Semicolon] + b) == Split(a) + Split(b)
  {
    var t := a + [Semicolon] + b;
    if a == [] {
      assert t[1..] == b;
    } else {
      assert t[0] == a[0] && t[1..] == a[1..] + [Semicolon] + b;
      SplitConcat(a[1..], b);
    }
  }

  lemma {:induction false} CountConcat(x: seq<seq<Token>>, y: seq<seq<Token>>)
    ensures CountCode(x + y) == CountCode(x) + CountCode(y)
  {
    if x == [] {
      assert x + y == y;
    } else {
      assert (x + y)[1..] == x[1..] + y;
      CountConcat(x[1..], y);
    }
  }

  lemma {:induction false} NoSemicolonOneGroup(a: seq<Token>)
    requires Semicolon !in a
    ensures Split(a) == [a]
  {
    if a != [] {
      NoSemicolonOneGroup(a[1..]);
      assert [a[0]] + a[1..] == a && [a[1..]][1..] == [];
    }
  }

  /** The groups behind the first semicolon hold a statement exactly when code trails it. */
  lemma {:induction false} TrailingIsSecondStatement(tokens: seq<Token>)
    ensures CountCode(Split(tokens)[1..]) >= 1 <==> Trailing(tokens)
  {
    if tokens != [] {
      var groups := Split(tokens[1..]);
      if tokens[0].Semicolon? {
        assert ([[]] + groups)[1..] == groups;
        NoStatementNoCode(tokens[1..]);
      } else {
        assert ([[tokens[0]] + groups[0]] + groups[1..])[1..] == groups[1..];
        TrailingIsSecondStatement(tokens[1..]);
      }
    }
  }

  /** Leading noise does not change the number of statements. */
  lemma {:induction false} DropNoiseKeepsStatements(tokens: seq<Token>)
    ensures CountCode(Split(DropNoise(tokens))) == CountCode(Split(tokens))
  {
    if tokens != [] && tokens[0].Noise() {
      DropNoiseKeepsStatements(tokens[1..]);
      var groups := Split(tokens[1..]);
      HasCodeCons(tokens[0], groups[0]);
      if tokens[0].Semicolon? {
        assert ([[]] + groups)[1..] == groups;
      } else {
        assert ([[tokens[0]] + groups[0]] + groups[1..])[1..] == groups[1..];
      }
    }
  }

  /** A stripped query holds a second statement exactly when code trails its first semicolon. */
  lemma StrippedStatements(query: string)
    ensures Statements(query) >= 2 <==> Trailing(Tokens(Stripped(query)))
    ensures Statements(query) == 0 <==> Stripped(query) == ""
  {
    hide Tokens, Stripped, Trailing;
    var tokens := Tokens(query);
    var code := Tokens(Stripped(query));
    StrippedDropsNoise(query);
    DropNoiseKeepsStatements(tokens);
    TrailingIsSecondStatement(code);
    NoStatementNoCode(tokens);
    NoLeadingNoise(tokens);
    if code != [] {
      var groups := Split(code);
      assert !code[0].Noise();
      HasCodeCons(code[0], Split(code[1..])[0]);
      assert HasCode(groups[0]);
    } else {
      NoTokens();
      assert CountCode([[]]) == CountCode([[]][1..]);
    }
  }

  lemma {:induction false} NoLeadingNoise(tokens: seq<Token>)
    ensures var code := DropNoise(tokens); code != [] ==> !code[0].Noise()
  {
    if tokens != [] && tokens[0].Noise() { NoLeadingNoise(tokens[1..]); }
  }

  datatype Verdict = Accepted | MultipleStatements | NotASelect

  predicate HasPrefix(s: string, prefix: string) {
    |prefix| <= |s| && s[..|prefix|] == prefix
  }

  /** `validateReadOnlyQuery`: exactly the queries that hold a single statement starting with SELECT
      or WITH pass; a second statement is always refused.  `upper` is `strings.ToUpper`. */
  method ValidateReadOnlyQuery(query: string, upper: string -> string) returns (v: Verdict)
    ensures v == MultipleStatements <==> Statements(query) >= 2
    ensures v == Accepted <==>
              && Statements(query) <= 1
              && (HasPrefix(upper(Stripped(query)), "SELECT") || HasPrefix(upper(Stripped(query)), "WITH"))
    ensures v == Accepted && upper("") == "" ==> Statements(query) == 1
  {
    hide Statements, Stripped, Trailing, Tokens;
    StrippedStatements(query);
    var stripped := StripLeadingSqlNoise(query);
    var trailing := HasTrailingSqlStatement(stripped);
    if trailing {
      return MultipleStatements;
    }
    var u := upper(stripped);
    if !HasPrefix(u, "SELECT") && !HasPrefix(u, "WITH") {
      return NotASelect;
    }
    return Accepted;
  }
}
