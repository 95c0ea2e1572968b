// JSON text (RFC 8259) as lexemes, and how the scans of source/upnp_error_codes.c move over them.

module JsonLexemes {
  import opened CStrings
  import opened UpnpJson

  // ---- Lexemes ----

  /** A structural character or a string, whose body stands as written between its quotes. */
  datatype Token = Mark(c: char) | Str(raw: string)

  /** A token behind some blanks. */
  datatype Lexeme = Lexeme(blanks: nat, token: Token)

  /** A string body: a backslash escapes the next character, and a quote only occurs escaped. */
  predicate RawOk(raw: string) {
    raw == [] || (if raw[0] == '\\' then |raw| >= 2 && RawOk(raw[2..]) else raw[0] != '"' && RawOk(raw[1..]))
  }

  predicate IsMark(c: char) { c == '{' || c == '}' || c == ':' || c == ',' }

  /** The whitespace of RFC 8259, section 2. */
  predicate IsWhitespace(c: char) { c == ' ' || c == '\t' || c == '\n' || c == '\r' }

  predicate BlanksAt(text: string, p: nat, q: nat) {
    p <= q <= |text| && forall j :: p <= j < q ==> IsWhitespace(text[j])
  }

  /** The body of a string from `q` on, with its closing quote. */
  predicate RawAt(text: string, q: nat, raw: string) {
    && q + |raw| < |text| && RawOk(raw) && text[q + |raw|] == '"'
    && forall j :: q <= j < q + |raw| ==> text[j] == raw[j - q]
  }

  predicate TokenAt(text: string, q: nat, t: Token) {
    match t
    case Mark(c) => q < |text| && text[q] == c && IsMark(c)
    case Str(raw) => q < |text| && text[q] == '"' && RawAt(text, q + 1, raw)
  }

  function Size(t: Token): nat {
    match t case Mark(_) => 1 case Str(raw) => |raw| + 2
  }

  function Length(l: Lexeme): nat { l.blanks + Size(l.token) }

  predicate LexemeAt(text: string, pos: nat, l: Lexeme) {
    BlanksAt(text, pos, pos + l.blanks) && TokenAt(text, pos + l.blanks, l.token)
  }

  /** `pos .. end` holds exactly those lexemes, and blanks behind them. */
  predicate At(text: string, pos: nat, end: nat, ls: seq<Lexeme>)
    decreases ls
  {
    if ls == [] then BlanksAt(text, pos, end)
    else LexemeAt(text, pos, ls[0]) && At(text, pos + Length(ls[0]), end, ls[1..])
  }

  lemma {:induction false} AtBounds(text: string, pos: nat, end: nat, ls: seq<Lexeme>)
    requires At(text, pos, end, ls)
    ensures pos <= end <= |text| && (ls != [] ==> pos + Length(ls[0]) <= end)
    decreases ls
  {
    if ls != [] {
      AtBounds(text, pos + Length(ls[0]), end, ls[1..]);
    }
  }

  function Tokens(ls: seq<Lexeme>): (r: seq<Token>)
    ensures |r| == |ls|
  {
    seq(|ls|, i requires 0 <= i < |ls| => ls[i].token)
  }

  /** Where lexeme `n` starts, blanks included. */
  function Offset(ls: seq<Lexeme>, n: nat): nat
    requires n <= |ls|
  {
    if n == 0 then 0 else Length(ls[0]) + Offset(ls[1..], n - 1)
  }

  lemma {:induction false} OffsetMore(ls: seq<Lexeme>, n: nat)
    requires n < |ls|
    ensures Offset(ls, n + 1) == Offset(ls, n) + Length(ls[n])
  {
    if n > 0 {
      OffsetMore(ls[1..], n - 1);
    }
  }

  lemma {:induction false} AtOffset(text: string, pos: nat, end: nat, ls: seq<Lexeme>, n: nat)
    requires At(text, pos, end, ls) && n <= |ls|
    ensures At(text, pos + Offset(ls, n), end, ls[n..])
    decreases n
  {
    if n > 0 {
      AtOffset(text, pos + Length(ls[0]), end, ls[1..], n - 1);
      assert ls[1..][n - 1..] == ls[n..];
    } else {
      assert ls[0..] == ls;
    }
  }

  /** The lexemes before number `n`, up to that token. */
  lemma {:induction false} PrefixAt(text: string, pos: nat, end: nat, ls: seq<Lexeme>, n: nat)
    requires At(text, pos, end, ls) && n < |ls|
    ensures At(text, pos, pos + Offset(ls, n) + ls[n].blanks, ls[..n])
    decreases n
  {
    if n > 0 {
      PrefixAt(text, pos + Length(ls[0]), end, ls[1..], n - 1);
      assert ls[1..][..n - 1] == ls[..n][1..];
    }
  }

  lemma {:induction false} SkipBlanksIs(text: string, q: nat, r: nat, end: nat)
    requires BlanksAt(text, q, r) && r <= end <= |text| && (r < end ==> !IsBlank(text[r]))
    ensures SkipBlanks(text, q, end) == r
    decreases r - q
  {
    if q < r {
      SkipBlanksIs(text, q + 1, r, end);
    }
  }

  /** Skipping blanks reaches the first token, or the end. */
  lemma SkipBlanksToToken(text: string, pos: nat, end: nat, ls: seq<Lexeme>)
    requires At(text, pos, end, ls)
    ensures end <= |text|
    ensures ls == [] ==> SkipBlanks(text, pos, end) == end
    ensures ls != [] ==> SkipBlanks(text, pos, end) == pos + ls[0].blanks < end
  {
    AtBounds(text, pos, end, ls);
    SkipBlanksIs(text, pos, if ls == [] then end else pos + ls[0].blanks, end);
  }

  lemma ColonIs(text: string, pos: nat, end: nat, ls: seq<Lexeme>)
    requires At(text, pos, end, ls)
    ensures end <= |text|
    ensures Colon(text, pos, end) == if ls != [] && ls[0].token == Mark(':') then Some(pos + ls[0].blanks) else None
  {
    SkipBlanksToToken(text, pos, end, ls);
  }

  // ---- Where a key can match ----

  predicate IsWordChar(c: char) { '0' <= c <= '9' || 'a' <= c <= 'z' || 'A' <= c <= 'Z' }

  predicate IsWord(s: string) { s != [] && forall i :: 0 <= i < |s| ==> IsWordChar(s[i]) }

  lemma NoWordChar(text: string, pos: nat, end: nat, ls: seq<Lexeme>)
    requires At(text, pos, end, ls) && pos < end
    ensures pos < |text| && !IsWordChar(text[pos])
  {
    AtBounds(text, pos, end, ls);
  }

  lemma {:induction false} QuotesAreEscaped(raw: string, k: nat)
    requires RawOk(raw) && k < |raw| && raw[k] == '"'
    ensures k > 0 && raw[k - 1] == '\\'
  {
    if raw[0] == '\\' {
      if k >= 2 {
        QuotesAreEscaped(raw[2..], k - 2);
      }
    } else {
      QuotesAreEscaped(raw[1..], k - 1);
    }
  }

  lemma MatchChars(text: string, j: nat, key: string)
    requires Matches(text, j, Quoted(key))
    ensures j + 1 + |key| < |text| && text[j] == '"' && text[j + 1 + |key|] == '"'
    ensures forall i :: j < i <= j + |key| ==> text[i] == key[i - j - 1]
  {
    var s := text[j..j + |Quoted(key)|];
    assert s[0] == text[j] && s[1 + |key|] == text[j + 1 + |key|];
    forall i | j < i <= j + |key| ensures text[i] == key[i - j - 1] {
      assert s[i - j] == text[i];
    }
  }

  lemma QuoteBehindBackslash(text: string, open: nat, raw: string, i: nat)
    requires TokenAt(text, open, Str(raw)) && open < i <= open + |raw| && text[i] == '"'
    ensures i - 1 > open && text[i - 1] == '\\'
  {
    assert text[i] == raw[i - open - 1];
    QuotesAreEscaped(raw, i - open - 1);
    assert text[i - 1] == raw[i - open - 2];
  }

  /** A string that ends, quotes and all, in the quoted key: the text the search compares. */
  predicate Answers(raw: string, key: string) {
    && |raw| >= |key| && raw[|raw| - |key|..] == key
    && (|raw| > |key| ==> raw[|raw| - |key| - 1] == '"')
  }

  /** Without quotes inside it a string answers exactly the key it is. */
  lemma PlainAnswers(raw: string, key: string)
    requires '"' !in raw
    ensures Answers(raw, key) <==> raw == key
  {
    assert |raw| == |key| ==> raw[|raw| - |key|..] == raw;
    assert |raw| > |key| ==> raw[|raw| - |key| - 1] in raw;
  }

  /** A quoted word that begins inside a string's quotes ends at that string's closing quote. */
  lemma MatchEndsWithString(text: string, open: nat, raw: string, j: nat, key: string)
    requires TokenAt(text, open, Str(raw)) && IsWord(key)
    requires open <= j <= open + |raw| && Matches(text, j, Quoted(key))
    ensures j + 1 + |key| == open + 1 + |raw|
  {
    MatchChars(text, j, key);
    var close, last := open + 1 + |raw|, j + 1 + |key|;
    if last < close {
      QuoteBehindBackslash(text, open, raw, last);
      assert false;
    } else if last > close {
      assert false;
    }
  }

  /** Then the string answers the key. */
  lemma MatchIsAnswer(text: string, open: nat, raw: string, j: nat, key: string)
    requires TokenAt(text, open, Str(raw)) && j + 1 + |key| == open + 1 + |raw| && open <= j
    ensures Matches(text, j, Quoted(key)) <==> Answers(raw, key)
  {
    var k := j - open;
    if Matches(text, j, Quoted(key)) {
      MatchChars(text, j, key);
      assert forall i :: 0 <= i < |key| ==> raw[k + i] == text[j + 1 + i] == key[i];
      assert raw[k..] == key;
    }
    if Answers(raw, key) {
      QuotedMatches(text, open, raw, k, key);
    }
  }

  lemma QuotedMatches(text: string, open: nat, raw: string, k: nat, key: string)
    requires TokenAt(text, open, Str(raw)) && Answers(raw, key) && k == |raw| - |key|
    ensures Matches(text, open + k, Quoted(key))
  {
    var s := text[open + k..open + k + |Quoted(key)|];
    assert s[0] == text[open + k] == '"' && s[|key| + 1] == text[open + k + |key| + 1] == '"';
    assert forall i :: 0 < i <= |key| ==> s[i] == text[open + k + i] == raw[k + i - 1] == raw[k..][i - 1] == key[i - 1];
    assert s == Quoted(key);
  }

  predicate IsKeyToken(ts: seq<Token>, m: nat) {
    m + 1 < |ts| && ts[m].Str? && ts[m + 1] == Mark(':')
  }

  /** No key among the first `n` tokens is a hit. Values may hold anything. */
  predicate Avoids(ts: seq<Token>, n: nat, hit: string -> bool) {
    forall m :: 0 <= m < n && IsKeyToken(ts, m) ==> !hit(ts[m].raw)
  }

  function Answering(key: string): string -> bool { raw => Answers(raw, key) }

  lemma NoKeyInString(text: string, open: nat, raw: string, end: nat, rest: seq<Lexeme>, key: string, j: nat)
    requires TokenAt(text, open, Str(raw)) && At(text, open + |raw| + 2, end, rest) && IsWord(key)
    requires rest != [] && rest[0].token == Mark(':') ==> !Answers(raw, key)
    requires open <= j < open + |raw| + 2 && Matches(text, j, Quoted(key))
    ensures end <= |text| && Colon(text, j + |Quoted(key)|, end) == None
  {
    var next := open + |raw| + 2;
    AtBounds(text, next, end, rest);
    if j < next - 1 {
      MatchEndsWithString(text, open, raw, j, key);
      MatchIsAnswer(text, open, raw, j, key);
      ColonIs(text, next, end, rest);
    } else {
      MatchChars(text, j, key);
      assert text[j + 1] == key[0];
      if next < end {
        NoWordChar(text, next, end, rest);
      }
    }
  }

  lemma NoKeyInLexeme(text: string, pos: nat, end: nat, ls: seq<Lexeme>, key: string, j: nat)
    requires At(text, pos, end, ls) && ls != [] && IsWord(key) && end <= |text|
    requires |ls| > 1 && ls[0].token.Str? && ls[1].token == Mark(':') ==> !Answers(ls[0].token.raw, key)
    requires pos <= j < pos + Length(ls[0])
    ensures !KeyAt(text, j, end, Quoted(key))
  {
    if Matches(text, j, Quoted(key)) {
      MatchChars(text, j, key);
      var open := pos + ls[0].blanks;
      if j >= open && ls[0].token.Str? {
        NoKeyInString(text, open, ls[0].token.raw, end, ls[1..], key, j);
      }
    }
  }

  lemma AvoidsRest(ls: seq<Lexeme>, n: nat, hit: string -> bool)
    requires 0 < n <= |ls| && Avoids(Tokens(ls), n, hit)
    ensures Avoids(Tokens(ls[1..]), n - 1, hit)
    ensures |ls| > 1 && ls[0].token.Str? && ls[1].token == Mark(':') ==> !hit(ls[0].token.raw)
  {
    var ts, rest := Tokens(ls), Tokens(ls[1..]);
    assert IsKeyToken(ts, 0) <==> |ls| > 1 && ls[0].token.Str? && ls[1].token == Mark(':');
    forall m | 0 <= m < n - 1 && IsKeyToken(rest, m) ensures !hit(rest[m].raw) {
      assert IsKeyToken(ts, m + 1);
    }
  }

  /** No key match begins in `p .. q`. */
  predicate Clean(text: string, p: nat, q: nat, end: nat, key: string)
    requires end <= |text|
  {
    forall j :: p <= j < q && j < end ==> !KeyAt(text, j, end, Quoted(key))
  }

  lemma CleanJoins(text: string, p: nat, q: nat, r: nat, end: nat, key: string)
    requires end <= |text| && Clean(text, p, q, end, key) && Clean(text, q, r, end, key)
    ensures Clean(text, p, r, end, key)
  {
  }

  lemma CleanLexeme(text: string, pos: nat, end: nat, ls: seq<Lexeme>, key: string)
    requires At(text, pos, end, ls) && ls != [] && IsWord(key) && end <= |text|
    requires |ls| > 1 && ls[0].token.Str? && ls[1].token == Mark(':') ==> !Answers(ls[0].token.raw, key)
    ensures Clean(text, pos, pos + Length(ls[0]), end, key)
  {
    forall j | pos <= j < pos + Length(ls[0]) && j < end ensures !KeyAt(text, j, end, Quoted(key)) {
      NoKeyInLexeme(text, pos, end, ls, key, j);
    }
  }

  /** No match begins in lexemes that are not the key. */
  lemma {:induction false} CleanLexemes(text: string, pos: nat, end: nat, ls: seq<Lexeme>, key: string, n: nat)
    requires At(text, pos, end, ls) && IsWord(key) && n <= |ls| && Avoids(Tokens(ls), n, Answering(key))
             && end <= |text|
    ensures Clean(text, pos, pos + Offset(ls, n), end, key)
    decreases n
  {
    if n > 0 {
      var next := pos + Length(ls[0]);
      AvoidsRest(ls, n, Answering(key));
      CleanLexeme(text, pos, end, ls, key);
      CleanLexemes(text, next, end, ls[1..], key, n - 1);
      CleanJoins(text, pos, next, pos + Offset(ls, n), end, key);
    }
  }

  lemma CleanBlanks(text: string, p: nat, q: nat, end: nat, key: string)
    requires BlanksAt(text, p, q) && end <= |text|
    ensures Clean(text, p, q, end, key)
  {
    forall j | p <= j < q && j < end ensures !KeyAt(text, j, end, Quoted(key)) {
      if Matches(text, j, Quoted(key)) {
        MatchChars(text, j, key);
      }
    }
  }

  /** From `pos` on the first match is at `j`, with its colon behind blanks. */
  predicate FoundAt(text: string, pos: nat, end: nat, key: string, j: nat, colon: nat) {
    && pos <= j && colon < end <= |text| && Clean(text, pos, j, end, key)
    && Matches(text, j, Quoted(key))
    && BlanksAt(text, j + |key| + 2, colon) && text[colon] == ':'
  }

  /** That is what the search returns. */
  lemma FoundIsReturned(text: string, pos: nat, end: nat, key: string, j: nat, colon: nat)
    requires FoundAt(text, pos, end, key, j, colon)
    ensures KeyColon(text, pos, end, Quoted(key)) == Some(colon)
  {
    SkipBlanksIs(text, j + |key| + 2, colon, end);
    FirstKeyIs(text, pos, j, end, Quoted(key));
  }

  lemma FoundBehindClean(text: string, pos: nat, at: nat, end: nat, key: string, j: nat, colon: nat)
    requires pos <= at && FoundAt(text, at, end, key, j, colon) && Clean(text, pos, at, end, key)
    ensures FoundAt(text, pos, end, key, j, colon)
  {
  }

  /** Inside an answering string no match begins before the one that ends with the string. */
  lemma CleanBeforeAnswer(text: string, open: nat, raw: string, end: nat, key: string)
    requires TokenAt(text, open, Str(raw)) && end <= |text| && IsWord(key) && |key| <= |raw|
    ensures Clean(text, open, open + |raw| - |key|, end, key)
  {
    forall j | open <= j < open + |raw| - |key| && j < end ensures !KeyAt(text, j, end, Quoted(key)) {
      if Matches(text, j, Quoted(key)) {
        MatchEndsWithString(text, open, raw, j, key);
      }
    }
  }

  predicate IsKeyLexeme(ls: seq<Lexeme>, n: nat, key: string) {
    n + 1 < |ls| && ls[n].token.Str? && ls[n + 1].token == Mark(':') && Answers(ls[n].token.raw, key)
  }

  /** An answering string with a colon behind it is found. */
  lemma AnswerIsFound(text: string, pos: nat, open: nat, raw: string, colon: nat, end: nat, key: string)
    requires BlanksAt(text, pos, open) && TokenAt(text, open, Str(raw)) && IsWord(key) && Answers(raw, key)
    requires BlanksAt(text, open + |raw| + 2, colon) && colon < end <= |text| && text[colon] == ':'
    ensures FoundAt(text, pos, end, key, open + |raw| - |key|, colon)
  {
    var j := open + |raw| - |key|;
    QuotedMatches(text, open, raw, |raw| - |key|, key);
    CleanBlanks(text, pos, open, end, key);
    CleanBeforeAnswer(text, open, raw, end, key);
    CleanJoins(text, pos, open, j, end, key);
  }

  /** Where the colon of a key lexeme stands. */
  function ColonOf(at: nat, name: Lexeme, colon: Lexeme): nat {
    at + Length(name) + colon.blanks
  }

  lemma FirstTwo(text: string, at: nat, end: nat, ls: seq<Lexeme>)
    requires At(text, at, end, ls) && |ls| >= 2
    ensures LexemeAt(text, at, ls[0]) && LexemeAt(text, at + Length(ls[0]), ls[1])
    ensures At(text, at + Length(ls[0]) + Length(ls[1]), end, ls[2..])
    ensures at + Length(ls[0]) + Length(ls[1]) <= end <= |text|
  {
    AtBounds(text, at, end, ls);
    var rest := ls[1..];
    AtBounds(text, at + Length(ls[0]), end, rest);
    assert rest[0] == ls[1] && rest[1..] == ls[2..];
  }

  /** The lexemes begin with an answering key; the value's lexeme follows its colon. */
  lemma KeyIsFirst(text: string, at: nat, end: nat, ls: seq<Lexeme>, key: string) returns (j: nat, colon: nat)
    requires At(text, at, end, ls) && IsWord(key) && IsKeyLexeme(ls, 0, key)
    ensures FoundAt(text, at, end, key, j, colon) && At(text, colon + 1, end, ls[2..])
    ensures colon + 1 == at + Length(ls[0]) + Length(ls[1])
  {
    FirstTwo(text, at, end, ls);
    var open, raw := at + ls[0].blanks, ls[0].token.raw;
    j, colon := open + |raw| - |key|, ColonOf(at, ls[0], ls[1]);
    assert colon + 1 == at + Length(ls[0]) + Length(ls[1]);
    AnswerIsFound(text, at, open, raw, colon, end, key);
  }

  /** The first answering key is what the search finds; the value's lexeme follows its colon. */
  lemma SearchFinds(text: string, pos: nat, end: nat, ls: seq<Lexeme>, key: string, n: nat) returns (j: nat, colon: nat)
    requires At(text, pos, end, ls) && end <= |text| && IsWord(key) && IsKeyLexeme(ls, n, key)
    requires Clean(text, pos, pos + Offset(ls, n), end, key)
    ensures FoundAt(text, pos, end, key, j, colon) && At(text, colon + 1, end, ls[n + 2..])
    ensures colon + 1 == pos + Offset(ls, n + 2)
  {
    var rest := ls[n..];
    AtOffset(text, pos, end, ls, n);
    assert IsKeyLexeme(rest, 0, key) && rest[2..] == ls[n + 2..];
    j, colon := KeyIsFirst(text, pos + Offset(ls, n), end, rest, key);
    FoundBehindClean(text, pos, pos + Offset(ls, n), end, key, j, colon);
    OffsetMore(ls, n);
    OffsetMore(ls, n + 1);
  }

  lemma SearchFails(text: string, pos: nat, end: nat, ls: seq<Lexeme>, key: string)
    requires At(text, pos, end, ls) && IsWord(key) && Avoids(Tokens(ls), |ls|, Answering(key)) && end <= |text|
    ensures KeyColon(text, pos, end, Quoted(key)) == None
  {
    var at := pos + Offset(ls, |ls|);
    CleanLexemes(text, pos, end, ls, key, |ls|);
    AtOffset(text, pos, end, ls, |ls|);
    assert BlanksAt(text, at, end);
    CleanBlanks(text, at, end, end, key);
    CleanJoins(text, pos, at, end, end, key);
    NoFirstKey(text, pos, end, Quoted(key));
  }

  // ---- Values ----

  function Unescaped(raw: string): (v: string)
    ensures IsText(raw) ==> IsText(v)
  {
    if raw == [] then []
    else if raw[0] == '\\' && |raw| >= 2 then [Unescape(raw[1])] + Unescaped(raw[2..])
    else [raw[0]] + Unescaped(raw[1..])
  }

  function Fitting(v: string, size: nat): Option<string> {
    if |v| < size then Some(v) else None
  }

  /** How many characters the scans take at once: an escape is two. */
  function Step(raw: string): (n: nat)
    requires raw != [] && RawOk(raw)
    ensures 1 <= n <= |raw|
  {
    if raw[0] == '\\' then 2 else 1
  }

  lemma RawAtRest(text: string, q: nat, raw: string)
    requires RawAt(text, q, raw) && raw != []
    ensures RawAt(text, q + Step(raw), raw[Step(raw)..]) && text[q] == raw[0] && text[q] != '"'
    ensures Step(raw) == 2 ==> text[q + 1] == raw[1]
  {
    assert text[q] == raw[0];
    assert Step(raw) == 2 ==> text[q + 1] == raw[1];
  }

  lemma {:induction false} RawDecodes(text: string, q: nat, end: nat, raw: string, sofar: string, size: nat)
    requires IsText(text) && IsText(sofar) && |sofar| < size
    requires q + |raw| < end <= |text| && RawAt(text, q, raw)
    ensures DecodedFrom(text, q, end, sofar, size) == Fitting(sofar + Unescaped(raw), size)
    decreases |raw|
  {
    if raw == [] {
      assert sofar + [] == sofar;
    } else {
      RawAtRest(text, q, raw);
      var rest := raw[Step(raw)..];
      var c := if Step(raw) == 2 then Unescape(raw[1]) else raw[0];
      assert Unescaped(raw) == [c] + Unescaped(rest);
      assert sofar + Unescaped(raw) == (sofar + [c]) + Unescaped(rest);
      if |sofar| + 1 < size {
        RawDecodes(text, q + Step(raw), end, rest, sofar + [c], size);
      }
    }
  }

  lemma ValueIs(text: string, pos: nat, end: nat, ls: seq<Lexeme>, size: nat)
    requires IsText(text) && At(text, pos, end, ls) && ls != [] && ls[0].token.Str? && size > 0
    ensures end <= |text|
    ensures ValueBehind(text, pos, end, size) == Fitting(Unescaped(ls[0].token.raw), size)
  {
    AtBounds(text, pos, end, ls);
    SkipBlanksToToken(text, pos, end, ls);
    var raw := ls[0].token.raw;
    RawDecodes(text, pos + ls[0].blanks + 1, end, raw, [], size);
    assert [] + Unescaped(raw) == Unescaped(raw);
  }

  // ---- The end of an object ----

  predicate IsBrace(t: Token) { t == Mark('{') || t == Mark('}') }

  lemma {:induction false} EndSkipsBlanks(text: string, p: nat, q: nat, end: nat, depth: int)
    requires BlanksAt(text, p, q) && q <= end <= |text|
    ensures ObjectEnd(text, p, end, depth, false) == ObjectEnd(text, q, end, depth, false)
    decreases q - p
  {
    if p < q {
      EndSkipsBlanks(text, p + 1, q, end, depth);
    }
  }

  lemma {:induction false} EndSkipsString(text: string, q: nat, end: nat, raw: string, depth: int)
    requires q + |raw| < end <= |text| && RawAt(text, q, raw)
    ensures ObjectEnd(text, q, end, depth, true) == ObjectEnd(text, q + |raw| + 1, end, depth, false)
    decreases |raw|
  {
    if raw != [] {
      RawAtRest(text, q, raw);
      EndSkipsString(text, q + Step(raw), end, raw[Step(raw)..], depth);
    }
  }

  lemma EndSkipsLexeme(text: string, pos: nat, end: nat, l: Lexeme, depth: int)
    requires LexemeAt(text, pos, l) && pos + Length(l) <= end <= |text| && !IsBrace(l.token)
    ensures ObjectEnd(text, pos, end, depth, false) == ObjectEnd(text, pos + Length(l), end, depth, false)
  {
    var q := pos + l.blanks;
    EndSkipsBlanks(text, pos, q, end, depth);
    if l.token.Str? {
      EndSkipsString(text, q + 1, end, l.token.raw, depth);
    }
  }

  /** Strings cannot close an object: only brace tokens move the depth. */
  lemma {:induction false} EndSkips(text: string, pos: nat, end: nat, ls: seq<Lexeme>, n: nat, depth: int)
    requires At(text, pos, end, ls) && end <= |text| && n <= |ls| && forall i :: 0 <= i < n ==> !IsBrace(ls[i].token)
    ensures ObjectEnd(text, pos, end, depth, false) == ObjectEnd(text, pos + Offset(ls, n), end, depth, false)
    decreases n
  {
    if n > 0 {
      AtBounds(text, pos, end, ls);
      EndSkipsLexeme(text, pos, end, ls[0], depth);
      EndSkips(text, pos + Length(ls[0]), end, ls[1..], n - 1, depth);
    }
  }

  /** From behind an object's opening brace, the closing brace after `n` other tokens is its end. */
  lemma EndIs(text: string, pos: nat, end: nat, ls: seq<Lexeme>, n: nat)
    requires At(text, pos, end, ls) && end <= |text| && n < |ls| && ls[n].token == Mark('}')
    requires forall i :: 0 <= i < n ==> !IsBrace(ls[i].token)
    ensures ObjectEnd(text, pos, end, 1, false) == Some(pos + Offset(ls, n) + ls[n].blanks)
  {
    EndSkips(text, pos, end, ls, n, 1);
    AtOffset(text, pos, end, ls, n);
    BraceEnds(text, pos + Offset(ls, n), end, ls[n..]);
  }

  lemma BraceEnds(text: string, p: nat, end: nat, ls: seq<Lexeme>)
    requires At(text, p, end, ls) && end <= |text| && ls != [] && ls[0].token == Mark('}')
    ensures ObjectEnd(text, p, end, 1, false) == Some(p + ls[0].blanks)
  {
    AtBounds(text, p, end, ls);
    EndSkipsBlanks(text, p, p + ls[0].blanks, end, 1);
  }
}
