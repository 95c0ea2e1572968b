// What the scanning lookup finds in a registry written as JSON (RFC 8259), whatever its blanks and string contents.

module UpnpRegistry {
  import opened CStrings
  import opened UpnpJson
  import opened JsonLexemes
  import opened RegistryTokens
  import AsciiSafe
  import Versions

  /** Keys and values are any JSON strings. */
  predicate FieldOk(f: Field) {
    RawOk(f.key) && IsText(f.key) && RawOk(f.raw) && IsText(f.raw)
  }

  predicate FieldsOk(fs: seq<Field>) { forall i :: 0 <= i < |fs| ==> FieldOk(fs[i]) }

  predicate EntryOk(e: Entry) { RawOk(e.key) && IsText(e.key) && FieldsOk(e.fields) }

  predicate EntriesOk(es: seq<Entry>) { forall i :: 0 <= i < |es| ==> EntryOk(es[i]) }

  /** A text as the result shows it: unescaped, and transliterated if it fits its buffer. */
  function Shown(raw: Option<string>, size: nat): Option<string>
    requires raw.Some? ==> IsText(raw.value)
  {
    if raw.None? || |Unescaped(raw.value)| >= size then None
    else Some(AsciiSafe.Transliterated(Unescaped(raw.value), 0))
  }

  lemma ValueIsText(fs: seq<Field>, hit: string -> bool)
    requires FieldsOk(fs)
    ensures ValueOf(fs, hit).Some? ==> IsText(ValueOf(fs, hit).value)
  {
    if ValueOf(fs, hit).Some? {
      var i := ValueOfMember(fs, hit);
      assert FieldOk(fs[i]);
    }
  }

  lemma FieldsOfOk(es: seq<Entry>, hit: string -> bool)
    requires EntriesOk(es)
    ensures FieldsOf(es, hit).Some? ==> FieldsOk(FieldsOf(es, hit).value)
  {
    if FieldsOf(es, hit).Some? {
      var i := FieldsOfMember(es, hit);
      assert EntryOk(es[i]);
    }
  }

  /** Field texts as JSON has them, by exact key; as the scan has them, by answering key. */
  function FieldText(fs: seq<Field>, hit: string -> bool, size: nat): Option<string>
    requires FieldsOk(fs)
  {
    ValueIsText(fs, hit);
    Shown(ValueOf(fs, hit), size)
  }

  function InfoOf(name: Option<string>, description: Option<string>, solution: Option<string>, code: nat): Info {
    if name.None? || description.None? || solution.None? then Unknown(code)
    else Info(code, true, name.value, description.value, solution.value)
  }

  function Exactly(key: string): string -> bool { raw => raw == key }

  function ExpectedIn(fs: seq<Field>, code: nat): Info
    requires FieldsOk(fs)
  {
    InfoOf(FieldText(fs, Exactly("name"), NAME_SIZE), FieldText(fs, Exactly("description"), TEXT_SIZE),
           FieldText(fs, Exactly("solution"), TEXT_SIZE), code)
  }

  /** What the registry holds for a code: known when it is there with all three texts and they fit their buffers. */
  function Expected(es: seq<Entry>, code: nat): Info
    requires EntriesOk(es)
  {
    var fs := FieldsOf(es, Exactly(Versions.Decimal(code)));
    FieldsOfOk(es, Exactly(Versions.Decimal(code)));
    if fs.None? then Unknown(code) else ExpectedIn(fs.value, code)
  }

  // ---- When the scan reads keys as JSON does ----

  /** Only the key itself answers it among these: true of every key without an escaped quote in it. */
  predicate OnlyItself(fs: seq<Field>, key: string) {
    forall i :: 0 <= i < |fs| && Answers(fs[i].key, key) ==> fs[i].key == key
  }

  predicate OnlyItselfAmong(es: seq<Entry>, key: string) {
    forall i :: 0 <= i < |es| && Answers(es[i].key, key) ==> es[i].key == key
  }

  /** Nothing in the registry can be mistaken for the code, nor anything in an object for one of the three keys. */
  predicate Clear(es: seq<Entry>, code: nat) {
    && OnlyItselfAmong(es, Versions.Decimal(code)) && Unambiguous(es, Answering(Versions.Decimal(code)))
    && forall i :: 0 <= i < |es| ==> ThreeKeysClear(es[i].fields)
  }

  predicate ThreeKeysClear(fs: seq<Field>) {
    OnlyItself(fs, "name") && OnlyItself(fs, "description") && OnlyItself(fs, "solution")
  }

  lemma SelfAnswers(key: string)
    ensures Answers(key, key)
  {
    assert key[|key| - |key|..] == key;
  }

  lemma {:induction false} AnsweringIsExact(fs: seq<Field>, key: string)
    requires OnlyItself(fs, key)
    ensures ValueOf(fs, Answering(key)) == ValueOf(fs, Exactly(key))
  {
    if fs != [] {
      SelfAnswers(key);
      AnsweringIsExact(fs[1..], key);
    }
  }

  lemma {:induction false} AnsweringEntryIsExact(es: seq<Entry>, key: string)
    requires OnlyItselfAmong(es, key)
    ensures FieldsOf(es, Answering(key)) == FieldsOf(es, Exactly(key))
  {
    if es != [] {
      SelfAnswers(key);
      AnsweringEntryIsExact(es[1..], key);
    }
  }

  // ---- Reading a field ----

  /** The lexemes of an object from its opening brace up to its closing one. */
  predicate IsObject(obj: seq<Lexeme>, fs: seq<Field>) {
    Tokens(obj) == [Mark('{')] + FieldsTokens(fs)
  }

  lemma HitLexeme(ls: seq<Lexeme>, n: nat, key: string)
    requires IsHit(Tokens(ls), n, Answering(key))
    ensures IsKeyLexeme(ls, n, key)
  {
    assert Tokens(ls)[n] == ls[n].token && Tokens(ls)[n + 1] == ls[n + 1].token;
  }

  lemma ReadFieldOfKey(text: string, start: nat, end: nat, obj: seq<Lexeme>, key: string, n: nat, raw: string,
                       size: nat)
    requires At(text, start, end, obj) && end <= |text| && IsText(text) && size > 0 && IsWord(key)
    requires Avoids(Tokens(obj), n, Answering(key)) && IsKeyLexeme(obj, n, key) && n + 2 < |obj|
             && obj[n + 2].token == Str(raw)
    ensures ReadValue(text, start, end, key, size) == Fitting(Unescaped(raw), size)
  {
    CleanLexemes(text, start, end, obj, key, n);
    var j, colon := SearchFinds(text, start, end, obj, key, n);
    FoundIsReturned(text, start, end, key, j, colon);
    ReadBehindColon(text, start, end, colon, obj[n + 2..], key, size);
  }

  lemma ReadBehindColon(text: string, start: nat, end: nat, colon: nat, ls: seq<Lexeme>, key: string, size: nat)
    requires end <= |text| && IsText(text) && size > 0 && KeyColon(text, start, end, Quoted(key)) == Some(colon)
    requires At(text, colon + 1, end, ls) && ls != [] && ls[0].token.Str?
    ensures ReadValue(text, start, end, key, size) == Fitting(Unescaped(ls[0].token.raw), size)
  {
    ValueIs(text, colon + 1, end, ls, size);
    ReadsValueBehind(text, start, end, colon, key, size);
  }

  lemma ReadsValueBehind(text: string, start: nat, end: nat, colon: nat, key: string, size: nat)
    requires end <= |text| && IsText(text) && size > 0 && KeyColon(text, start, end, Quoted(key)) == Some(colon)
    ensures ReadValue(text, start, end, key, size) == ValueBehind(text, colon + 1, end, size)
  {
  }

  /** Where the value of the first answering field stands among an object's lexemes. */
  lemma FieldLexemes(obj: seq<Lexeme>, fs: seq<Field>, key: string, n: nat, raw: string)
    requires IsObject(obj, fs) && ValueOf(fs, Answering(key)) == Some(raw) && n == 1 + FieldIndex(fs, Answering(key))
    ensures Avoids(Tokens(obj), n, Answering(key)) && IsKeyLexeme(obj, n, key) && n + 2 < |obj|
            && obj[n + 2].token == Str(raw)
  {
    ObjectFound(fs, Answering(key));
    TokenHere(obj, n, key, raw);
  }

  lemma TokenHere(obj: seq<Lexeme>, n: nat, key: string, raw: string)
    requires IsHit(Tokens(obj), n, Answering(key)) && n + 2 < |obj| && Tokens(obj)[n + 2] == Str(raw)
    ensures IsKeyLexeme(obj, n, key) && obj[n + 2].token == Str(raw)
  {
    HitLexeme(obj, n, key);
  }

  lemma NoFieldLexeme(obj: seq<Lexeme>, fs: seq<Field>, hit: string -> bool)
    requires IsObject(obj, fs) && ValueOf(fs, hit) == None
    ensures Avoids(Tokens(obj), |obj|, hit)
  {
    ObjectFound(fs, hit);
  }

  lemma ReadValueIs(text: string, start: nat, end: nat, obj: seq<Lexeme>, fs: seq<Field>, key: string, raw: string,
                    size: nat)
    requires At(text, start, end, obj) && end <= |text| && IsText(text) && size > 0 && IsWord(key) && IsObject(obj, fs)
    requires ValueOf(fs, Answering(key)) == Some(raw)
    ensures ReadValue(text, start, end, key, size) == Fitting(Unescaped(raw), size)
  {
    var n := 1 + FieldIndex(fs, Answering(key));
    FieldLexemes(obj, fs, key, n, raw);
    ReadFieldOfKey(text, start, end, obj, key, n, raw, size);
  }

  lemma ReadsNothing(text: string, start: nat, end: nat, obj: seq<Lexeme>, fs: seq<Field>, key: string, size: nat)
    requires At(text, start, end, obj) && end <= |text| && IsText(text) && size > 0 && IsWord(key) && IsObject(obj, fs)
    requires ValueOf(fs, Answering(key)) == None
    ensures ReadValue(text, start, end, key, size) == None
  {
    NoFieldLexeme(obj, fs, Answering(key));
    SearchFails(text, start, end, obj, key);
  }

  /**
   * Reading a key inside an object gives the text of the first field that answers, whatever the strings around it
   * hold.
   */
  lemma ReadTextIs(text: string, start: nat, end: nat, obj: seq<Lexeme>, fs: seq<Field>, key: string, size: nat)
    requires At(text, start, end, obj) && end <= |text| && IsText(text) && size > 0 && IsWord(key)
    requires FieldsOk(fs) && IsObject(obj, fs)
    ensures ReadText(text, start, end, key, size) == FieldText(fs, Answering(key), size)
  {
    ValueIsText(fs, Answering(key));
    var value := ValueOf(fs, Answering(key));
    if value.Some? {
      ReadValueIs(text, start, end, obj, fs, key, value.value, size);
    } else {
      ReadsNothing(text, start, end, obj, fs, key, size);
    }
  }

  /** When nothing else in the object answers the key, that is the text JSON gives it. */
  lemma ReadTextIsExact(text: string, start: nat, end: nat, obj: seq<Lexeme>, fs: seq<Field>, key: string, size: nat)
    requires At(text, start, end, obj) && end <= |text| && IsText(text) && size > 0 && IsWord(key)
    requires FieldsOk(fs) && IsObject(obj, fs) && OnlyItself(fs, key)
    ensures ReadText(text, start, end, key, size) == FieldText(fs, Exactly(key), size)
  {
    ReadTextIs(text, start, end, obj, fs, key, size);
    AnsweringIsExact(fs, key);
  }

  lemma InfoInIs(text: string, start: nat, end: nat, obj: seq<Lexeme>, fs: seq<Field>, code: nat)
    requires At(text, start, end, obj) && end <= |text| && IsText(text)
    requires FieldsOk(fs) && IsObject(obj, fs) && ThreeKeysClear(fs)
    ensures InfoIn(text, start, end, code) == ExpectedIn(fs, code)
  {
    ReadTextIsExact(text, start, end, obj, fs, "name", NAME_SIZE);
    ReadTextIsExact(text, start, end, obj, fs, "description", TEXT_SIZE);
    ReadTextIsExact(text, start, end, obj, fs, "solution", TEXT_SIZE);
  }

  // ---- Finding the object ----

  /** The lexemes behind an object's opening brace. */
  predicate IsObjectTail(ls: seq<Lexeme>, fs: seq<Field>) {
    Follows(Tokens(ls), 0, FieldsTokens(fs) + [Mark('}')])
  }

  lemma ObjectTailTokens(ls: seq<Lexeme>, fs: seq<Field>)
    requires IsObjectTail(ls, fs)
    ensures var m := |FieldsTokens(fs)|;
            && m < |ls| && ls[m].token == Mark('}')
            && Tokens(ls[..m]) == FieldsTokens(fs)
            && forall i :: 0 <= i < m ==> !IsBrace(ls[i].token)
  {
    var m, ts := |FieldsTokens(fs)|, Tokens(ls);
    assert ts[0..] == ts;
    forall i | 0 <= i <= m ensures ts[i] == (FieldsTokens(fs) + [Mark('}')])[i] {
      assert ts[i] == ts[..m + 1][i];
    }
    NoBraces(fs);
    assert ts[m] == ls[m].token;
    forall i | 0 <= i < m ensures ls[i].token == FieldsTokens(fs)[i] {
      assert ts[i] == ls[i].token;
    }
  }

  /** The scan for the object's end stops at its own closing brace. */
  lemma ObjectIs(text: string, b: nat, end: nat, ls: seq<Lexeme>, fs: seq<Field>) returns (e: nat, obj: seq<Lexeme>)
    requires At(text, b + 1, end, ls) && b < end <= |text| && text[b] == '{' && IsObjectTail(ls, fs)
    ensures ObjectEnd(text, b, end, 0, false) == Some(e)
    ensures At(text, b, e, obj) && IsObject(obj, fs)
  {
    ObjectTailTokens(ls, fs);
    var m := |FieldsTokens(fs)|;
    e := b + 1 + Offset(ls, m) + ls[m].blanks;
    ObjectEnds(text, b, end, ls, m, e);
    PrefixAt(text, b + 1, end, ls, m);
    obj := WithBrace(text, b, e, ls[..m], fs);
  }

  lemma ObjectEnds(text: string, b: nat, end: nat, ls: seq<Lexeme>, m: nat, e: nat)
    requires At(text, b + 1, end, ls) && b < end <= |text| && text[b] == '{' && m < |ls| && ls[m].token == Mark('}')
    requires (forall i :: 0 <= i < m ==> !IsBrace(ls[i].token)) && e == b + 1 + Offset(ls, m) + ls[m].blanks
    ensures ObjectEnd(text, b, end, 0, false) == Some(e)
  {
    EndIs(text, b + 1, end, ls, m);
    BraceOpens(text, b, end);
  }

  lemma BraceOpens(text: string, b: nat, end: nat)
    requires b < end <= |text| && text[b] == '{'
    ensures ObjectEnd(text, b, end, 0, false) == ObjectEnd(text, b + 1, end, 1, false)
  {
  }

  lemma WithBrace(text: string, b: nat, e: nat, inner: seq<Lexeme>, fs: seq<Field>) returns (obj: seq<Lexeme>)
    requires b < |text| && text[b] == '{' && At(text, b + 1, e, inner) && Tokens(inner) == FieldsTokens(fs)
    ensures At(text, b, e, obj) && IsObject(obj, fs)
  {
    obj := [Lexeme(0, Mark('{'))] + inner;
    assert obj[1..] == inner;
    assert Tokens(obj) == [Mark('{')] + Tokens(inner);
  }

  /** From an object's opening brace the three texts are read. */
  lemma InfoAtBrace(text: string, from: nat, b: nat, end: nat, ls: seq<Lexeme>, fs: seq<Field>, code: nat)
    requires FirstBrace(text, from) == Some(b) && b < end <= |text| && At(text, b + 1, end, ls)
    requires IsText(text) && FieldsOk(fs) && ThreeKeysClear(fs) && IsObjectTail(ls, fs)
    ensures InfoAfter(text, from, end, code) == ExpectedIn(fs, code)
  {
    var e, obj := ObjectIs(text, b, end, ls, fs);
    InfoInIs(text, b, e, obj, fs, code);
    InfoAfterIs(text, from, b, end, e, code);
  }

  lemma InfoAfterIs(text: string, from: nat, b: nat, end: nat, e: nat, code: nat)
    requires FirstBrace(text, from) == Some(b) && b < end <= |text| && IsText(text)
    requires ObjectEnd(text, b, end, 0, false) == Some(e) && e <= end
    ensures InfoAfter(text, from, end, code) == InfoIn(text, b, e, code)
  {
  }

  // ---- The first opening brace ----

  lemma {:induction false} FirstBraceIs(text: string, p: nat, b: nat)
    requires p <= b < |text| && text[b] == '{' && forall j :: p <= j < b ==> text[j] != '{'
    ensures FirstBrace(text, p) == Some(b)
    decreases b - p
  {
    if p < b {
      FirstBraceIs(text, p + 1, b);
    }
  }

  predicate NoOpenBrace(t: Token) {
    match t case Mark(c) => c != '{' case Str(raw) => '{' !in raw
  }

  lemma NoBraceInLexeme(text: string, pos: nat, l: Lexeme)
    requires LexemeAt(text, pos, l) && NoOpenBrace(l.token)
    ensures forall j :: pos <= j < pos + Length(l) && j < |text| ==> text[j] != '{'
  {
    var open := pos + l.blanks;
    forall j | pos <= j < pos + Length(l) && j < |text| ensures text[j] != '{' {
      if j > open && l.token.Str? && j <= open + |l.token.raw| {
        assert text[j] == l.token.raw[j - open - 1];
        assert l.token.raw[j - open - 1] in l.token.raw;
      }
    }
  }

  /** No brace opens within the first `n` lexemes. */
  lemma {:induction false} NoBraceBefore(text: string, pos: nat, end: nat, ls: seq<Lexeme>, n: nat)
    requires At(text, pos, end, ls) && n <= |ls| && forall i :: 0 <= i < n ==> NoOpenBrace(ls[i].token)
    ensures forall j :: pos <= j < pos + Offset(ls, n) && j < |text| ==> text[j] != '{'
    decreases n
  {
    if n > 0 {
      NoBraceInLexeme(text, pos, ls[0]);
      NoBraceBefore(text, pos + Length(ls[0]), end, ls[1..], n - 1);
    }
  }

  /** The first opening brace is that of lexeme `n`. */
  lemma BraceLexeme(text: string, pos: nat, end: nat, ls: seq<Lexeme>, n: nat) returns (b: nat)
    requires At(text, pos, end, ls) && n < |ls| && ls[n].token == Mark('{')
    requires forall i :: 0 <= i < n ==> NoOpenBrace(ls[i].token)
    ensures pos <= b < end <= |text| && text[b] == '{' && (forall j :: pos <= j < b ==> text[j] != '{')
    ensures At(text, b + 1, end, ls[n + 1..])
  {
    var rest := ls[n..];
    NoBraceBefore(text, pos, end, ls, n);
    AtOffset(text, pos, end, ls, n);
    AtBounds(text, pos + Offset(ls, n), end, rest);
    b := pos + Offset(ls, n) + rest[0].blanks;
    assert rest[1..] == ls[n + 1..];
  }

  /** Behind a colon and tokens without an opening brace comes an object: its texts are the result. */
  lemma InfoBehindColon(text: string, colon: nat, end: nat, ls: seq<Lexeme>, n: nat, fs: seq<Field>, code: nat)
    requires At(text, colon + 1, end, ls) && colon < |text| && text[colon] == ':' && IsText(text)
    requires n < |ls| && ls[n].token == Mark('{') && forall i :: 0 <= i < n ==> NoOpenBrace(ls[i].token)
    requires FieldsOk(fs) && ThreeKeysClear(fs) && IsObjectTail(ls[n + 1..], fs)
    ensures end <= |text| && InfoAfter(text, colon, end, code) == ExpectedIn(fs, code)
  {
    var b := BraceLexeme(text, colon + 1, end, ls, n);
    FirstBraceIs(text, colon, b);
    InfoAtBrace(text, colon, b, end, ls[n + 1..], fs, code);
  }

  // ---- The lookup ----

  lemma DecimalIsWord(n: nat)
    ensures IsWord(Versions.Decimal(n))
  {
    var d := Versions.Decimal(n);
    assert forall i :: 0 <= i < |d| ==> Versions.IsDigit(d[i]);
  }

  lemma TokensOfPart(ls: seq<Lexeme>, n: nat, head: seq<Token>, tail: seq<Token>)
    requires Follows(Tokens(ls), n, head + tail)
    ensures n + |head| + |tail| <= |ls| && forall i :: 0 <= i < |head| ==> ls[n + i].token == head[i]
    ensures Follows(Tokens(ls[n + |head|..]), 0, tail)
  {
    var ts := Tokens(ls)[n..][..|head + tail|];
    forall i | 0 <= i < |head| ensures ls[n + i].token == head[i] {
      assert ts[i] == (head + tail)[i];
    }
    assert Tokens(ls[n + |head|..])[0..][..|tail|] == ts[|head|..] == tail;
  }

  lemma EntryLexemes(ls: seq<Lexeme>, n: nat, key: string, fs: seq<Field>)
    requires HoldsEntry(Tokens(ls), n, Answering(key), fs)
    ensures n + 3 < |ls| && IsKeyLexeme(ls, n, key)
            && ls[n + 2..][0].token == Mark('{') && IsObjectTail(ls[n + 2..][1..], fs)
  {
    var head := [Mark(':'), Mark('{')];
    HitLexeme(ls, n, key);
    TokensOfPart(ls, n + 1, head, FieldsTokens(fs) + [Mark('}')]);
    assert ls[n + 1 + 1].token == head[1];
    assert ls[n + 2..][1..] == ls[n + 3..];
  }

  lemma FoundIsExpected(text: string, end: nat, ls: seq<Lexeme>, n: nat, key: string, fs: seq<Field>, code: nat)
    requires IsText(text) && end <= |text| && At(text, 0, end, ls) && FieldsOk(fs) && ThreeKeysClear(fs)
    requires IsWord(key) && Avoids(Tokens(ls), n, Answering(key)) && HoldsEntry(Tokens(ls), n, Answering(key), fs)
    ensures InfoAt(text, end, Quoted(key), code) == ExpectedIn(fs, code)
  {
    EntryLexemes(ls, n, key, fs);
    var colon := ColonOfHit(text, end, ls, n, key);
    InfoBehindColon(text, colon, end, ls[n + 2..], 0, fs, code);
  }

  lemma ColonOfHit(text: string, end: nat, ls: seq<Lexeme>, n: nat, key: string) returns (colon: nat)
    requires At(text, 0, end, ls) && end <= |text| && IsWord(key)
    requires Avoids(Tokens(ls), n, Answering(key)) && IsKeyLexeme(ls, n, key)
    ensures KeyColon(text, 0, end, Quoted(key)) == Some(colon)
    ensures colon < |text| && text[colon] == ':' && At(text, colon + 1, end, ls[n + 2..])
            && colon + 1 == Offset(ls, n + 2)
  {
    CleanLexemes(text, 0, end, ls, key, n);
    var j;
    j, colon := SearchFinds(text, 0, end, ls, key, n);
    FoundIsReturned(text, 0, end, key, j, colon);
  }

  lemma LookupFinds(text: string, end: nat, ls: seq<Lexeme>, es: seq<Entry>, key: string, fs: seq<Field>, code: nat)
    requires IsText(text) && end <= |text| && At(text, 0, end, ls) && Tokens(ls) == Registry(es)
    requires IsWord(key) && Unambiguous(es, Answering(key)) && FieldsOf(es, Answering(key)) == Some(fs)
    requires FieldsOk(fs) && ThreeKeysClear(fs)
    ensures InfoAt(text, end, Quoted(key), code) == ExpectedIn(fs, code)
  {
    var n := EntryIsAt(Tokens(ls), es, Answering(key), fs);
    FoundIsExpected(text, end, ls, n, key, fs, code);
  }

  lemma EntryIsAt(ts: seq<Token>, es: seq<Entry>, hit: string -> bool, fs: seq<Field>) returns (n: nat)
    requires ts == Registry(es) && Unambiguous(es, hit) && FieldsOf(es, hit) == Some(fs)
    ensures n <= |ts| && Avoids(ts, n, hit) && HoldsEntry(ts, n, hit, fs)
  {
    RegistryFound(es, hit);
    n := 1 + EntryIndex(es, hit);
  }

  lemma LookupMisses(text: string, end: nat, ls: seq<Lexeme>, es: seq<Entry>, key: string, code: nat)
    requires IsText(text) && end <= |text| && At(text, 0, end, ls) && Tokens(ls) == Registry(es)
    requires IsWord(key) && Unambiguous(es, Answering(key)) && FieldsOf(es, Answering(key)) == None
    ensures InfoAt(text, end, Quoted(key), code) == Unknown(code)
  {
    RegistryFound(es, Answering(key));
    SearchFails(text, 0, end, ls, key);
  }

  /**
   * For every registry in every layout and every code that is clear in it, the lookup gives exactly what the registry
   * holds.
   */
  lemma LookupIsExpected(text: string, end: nat, ls: seq<Lexeme>, es: seq<Entry>, code: nat)
    requires IsText(text) && end <= |text| && At(text, 0, end, ls)
    requires EntriesOk(es) && Clear(es, code) && Tokens(ls) == Registry(es) && code > 0
    ensures LookedUp(text, end, code) == Expected(es, code)
  {
    var key := Versions.Decimal(code);
    AnsweringEntryIsExact(es, key);
    DecimalIsWord(code);
    var found := FieldsOf(es, Answering(key));
    if found.Some? {
      var i := FieldsOfMember(es, Answering(key));
      assert EntryOk(es[i]) && ThreeKeysClear(es[i].fields);
      LookupFinds(text, end, ls, es, key, found.value, code);
    } else {
      LookupMisses(text, end, ls, es, key, code);
    }
  }
}
