// Registries written as JSON text (RFC 8259), and reading their records back through the lookup.

module RegistryText {
  import opened CStrings
  import opened UpnpJson
  import opened JsonLexemes
  import opened RegistryTokens
  import opened UpnpRegistry
  import AsciiSafe
  import Versions

  // ---- Writing a registry ----

  /** How a character is written inside a JSON string. */
  function EscapedChar(c: char): string {
    match c
    case '"' => "\\\""
    case '\\' => "\\\\"
    case '\n' => "\\n"
    case '\r' => "\\r"
    case '\t' => "\\t"
    case _ => [c]
  }

  function Escaped(v: string): string {
    if v == [] then [] else EscapedChar(v[0]) + Escaped(v[1..])
  }

  /** Unescaping undoes escaping. */
  lemma {:induction false} EscapedReadsBack(v: string)
    requires IsText(v)
    ensures RawOk(Escaped(v)) && IsText(Escaped(v)) && Unescaped(Escaped(v)) == v
  {
    if v != [] {
      var first, rest := EscapedChar(v[0]), Escaped(v[1..]);
      EscapedReadsBack(v[1..]);
      assert (first + rest)[|first|..] == rest;
      assert Unescaped(first + rest) == [v[0]] + Unescaped(rest);
    }
  }

  predicate IsAscii(t: string) { forall i :: 0 <= i < |t| ==> '\0' < t[i] < 0x80 as char }

  lemma {:induction false} AsciiStays(t: string, i: nat)
    requires IsAscii(t) && i <= |t|
    ensures AsciiSafe.Transliterated(t, i) == t[i..]
    decreases |t| - i
  {
    if i < |t| {
      AsciiStays(t, i + 1);
    }
  }

  /** A code with its three texts. */
  datatype Record = Record(code: nat, name: string, description: string, solution: string)

  function RecordEntry(r: Record): Entry {
    Entry(Versions.Decimal(r.code), [Field("name", Escaped(r.name)), Field("description", Escaped(r.description)),
                                     Field("solution", Escaped(r.solution))])
  }

  function RecordEntries(rs: seq<Record>): seq<Entry> {
    seq(|rs|, i requires 0 <= i < |rs| => RecordEntry(rs[i]))
  }

  /** ASCII texts that leave room for a NUL in the result's buffers. */
  predicate RecordOk(r: Record) {
    && IsAscii(r.name) && |r.name| < 64
    && IsAscii(r.description) && |r.description| < 256
    && IsAscii(r.solution) && |r.solution| < 256
  }

  predicate RecordsOk(rs: seq<Record>) {
    && (forall i :: 0 <= i < |rs| ==> RecordOk(rs[i]))
    && (forall i, j :: 0 <= i < j < |rs| ==> rs[i].code != rs[j].code)
  }

  lemma {:induction false} WordIsRaw(s: string)
    requires forall i :: 0 <= i < |s| ==> IsWordChar(s[i])
    ensures RawOk(s) && IsText(s)
  {
    if s != [] {
      WordIsRaw(s[1..]);
    }
  }

  /** A word that does not begin with a digit. */
  predicate IsName(key: string) { IsWord(key) && !Versions.IsDigit(key[0]) }

  lemma KeysAreNames()
    ensures IsName("name") && IsName("description") && IsName("solution")
  {
  }

  lemma WordsAnswer(a: string, b: string)
    requires IsWord(a)
    ensures Answers(a, b) <==> a == b
  {
    PlainAnswers(a, b);
  }

  lemma NameAnswersNoCode(key: string, code: nat)
    requires IsName(key)
    ensures !Answers(key, Versions.Decimal(code))
  {
    WordsAnswer(key, Versions.Decimal(code));
    assert Versions.IsDigit(Versions.Decimal(code)[0]);
  }

  lemma WrittenFieldOk(key: string, v: string)
    requires IsName(key) && IsAscii(v)
    ensures FieldOk(Field(key, Escaped(v)))
  {
    WordIsRaw(key);
    EscapedReadsBack(v);
  }

  lemma ThreeFieldsOk(a: Field, b: Field, c: Field)
    requires FieldOk(a) && FieldOk(b) && FieldOk(c)
    ensures FieldsOk([a, b, c])
  {
  }

  lemma RecordFieldsOk(r: Record)
    requires RecordOk(r)
    ensures FieldsOk(RecordEntry(r).fields)
  {
    KeysAreNames();
    WrittenFieldOk("name", r.name);
    WrittenFieldOk("description", r.description);
    WrittenFieldOk("solution", r.solution);
    ThreeFieldsOk(Field("name", Escaped(r.name)), Field("description", Escaped(r.description)),
                  Field("solution", Escaped(r.solution)));
  }

  lemma WrittenFieldText(fs: seq<Field>, key: string, v: string, size: nat)
    requires FieldsOk(fs) && IsAscii(v) && |v| < size && ValueOf(fs, Exactly(key)) == Some(Escaped(v))
    ensures FieldText(fs, Exactly(key), size) == Some(v)
  {
    EscapedReadsBack(v);
    AsciiStays(v, 0);
    assert v[0..] == v;
  }

  lemma ThreeValues(fs: seq<Field>)
    requires |fs| == 3 && fs[0].key != fs[1].key && fs[0].key != fs[2].key && fs[1].key != fs[2].key
    ensures forall i :: 0 <= i < 3 ==> ValueOf(fs, Exactly(fs[i].key)) == Some(fs[i].raw)
  {
    var rest := fs[1..];
    assert rest[0] == fs[1] && rest[1..][0] == fs[2];
    assert ValueOf(rest[1..], Exactly(fs[2].key)) == Some(fs[2].raw);
  }

  // ---- No record is mistaken for another ----

  lemma NamesClear(fs: seq<Field>, key: string)
    requires forall i :: 0 <= i < |fs| ==> IsName(fs[i].key)
    ensures OnlyItself(fs, key)
  {
    forall i | 0 <= i < |fs| && Answers(fs[i].key, key) ensures fs[i].key == key {
      WordsAnswer(fs[i].key, key);
    }
  }

  lemma NamesHitNoCode(fs: seq<Field>, code: nat)
    requires forall i :: 0 <= i < |fs| ==> IsName(fs[i].key)
    ensures NoneHits(fs, Answering(Versions.Decimal(code)))
  {
    forall i | 0 <= i < |fs| ensures !Answers(fs[i].key, Versions.Decimal(code)) {
      NameAnswersNoCode(fs[i].key, code);
    }
  }

  lemma RecordNames(r: Record)
    ensures forall i :: 0 <= i < 3 ==> IsName(RecordEntry(r).fields[i].key)
  {
    KeysAreNames();
    var fs := RecordEntry(r).fields;
    assert fs[0].key == "name" && fs[1].key == "description" && fs[2].key == "solution";
  }

  lemma {:induction false} NamesUnambiguous(es: seq<Entry>, code: nat)
    requires forall i, j :: 0 <= i < |es| && 0 <= j < |es[i].fields| ==> IsName(es[i].fields[j].key)
    ensures Unambiguous(es, Answering(Versions.Decimal(code)))
  {
    if es != [] {
      NamesHitNoCode(es[0].fields, code);
      NamesUnambiguous(es[1..], code);
    }
  }

  lemma RecordsClear(rs: seq<Record>, code: nat)
    ensures Clear(RecordEntries(rs), code)
  {
    var es := RecordEntries(rs);
    forall i, j | 0 <= i < |es| && 0 <= j < |es[i].fields| ensures IsName(es[i].fields[j].key) {
      RecordNames(rs[i]);
    }
    NamesUnambiguous(es, code);
    forall i | 0 <= i < |es| ensures ThreeKeysClear(es[i].fields) {
      NamesClear(es[i].fields, "name");
      NamesClear(es[i].fields, "description");
      NamesClear(es[i].fields, "solution");
    }
    forall i | 0 <= i < |es| && Answers(es[i].key, Versions.Decimal(code)) ensures es[i].key == Versions.Decimal(code) {
      DecimalIsWord(rs[i].code);
      WordsAnswer(es[i].key, Versions.Decimal(code));
    }
  }

  lemma RecordValues(r: Record)
    ensures var fs := RecordEntry(r).fields;
            && ValueOf(fs, Exactly("name")) == Some(Escaped(r.name))
            && ValueOf(fs, Exactly("description")) == Some(Escaped(r.description))
            && ValueOf(fs, Exactly("solution")) == Some(Escaped(r.solution))
  {
    var fs := RecordEntry(r).fields;
    assert |"name"| == 4 && |"description"| == 11 && |"solution"| == 8;
    ThreeValues(fs);
    assert fs[0].key == "name" && fs[1].key == "description" && fs[2].key == "solution";
  }

  lemma RecordReadsBack(r: Record)
    requires RecordOk(r)
    ensures FieldsOk(RecordEntry(r).fields)
    ensures ExpectedIn(RecordEntry(r).fields, r.code) == Info(r.code, true, r.name, r.description, r.solution)
  {
    var fs := RecordEntry(r).fields;
    RecordFieldsOk(r);
    RecordValues(r);
    WrittenFieldText(fs, "name", r.name, NAME_SIZE);
    WrittenFieldText(fs, "description", r.description, TEXT_SIZE);
    WrittenFieldText(fs, "solution", r.solution, TEXT_SIZE);
  }

  lemma DecimalsDiffer(a: nat, b: nat)
    ensures Versions.Decimal(a) == Versions.Decimal(b) <==> a == b
  {
    Versions.DecimalReadsBack(a);
    Versions.DecimalReadsBack(b);
  }

  lemma {:induction false} FieldsOfRecord(rs: seq<Record>, code: nat, i: nat)
    requires i < |rs| && rs[i].code == code && forall j :: 0 <= j < i ==> rs[j].code != code
    ensures FieldsOf(RecordEntries(rs), Exactly(Versions.Decimal(code))) == Some(RecordEntry(rs[i]).fields)
    decreases i
  {
    DecimalsDiffer(rs[0].code, code);
    assert RecordEntries(rs)[1..] == RecordEntries(rs[1..]);
    if i > 0 {
      FieldsOfRecord(rs[1..], code, i - 1);
    }
  }

  lemma {:induction false} NoRecord(rs: seq<Record>, code: nat)
    requires forall j :: 0 <= j < |rs| ==> rs[j].code != code
    ensures FieldsOf(RecordEntries(rs), Exactly(Versions.Decimal(code))) == None
  {
    if rs != [] {
      DecimalsDiffer(rs[0].code, code);
      assert RecordEntries(rs)[1..] == RecordEntries(rs[1..]);
      NoRecord(rs[1..], code);
    }
  }

  // ---- Laying out the text ----

  predicate Blank(s: string) { forall i :: 0 <= i < |s| ==> IsWhitespace(s[i]) }

  predicate Blanks(blanks: seq<string>) { forall i :: 0 <= i < |blanks| ==> Blank(blanks[i]) }

  predicate TokenOk(t: Token) {
    match t case Mark(c) => IsMark(c) case Str(raw) => RawOk(raw) && IsText(raw)
  }

  predicate TokensOk(ts: seq<Token>) { forall i :: 0 <= i < |ts| ==> TokenOk(ts[i]) }

  function Body(t: Token): string {
    match t case Mark(c) => [c] case Str(raw) => Quoted(raw)
  }

  /** The tokens as text, with those blanks before each. */
  function Laid(ts: seq<Token>, blanks: seq<string>): string
    requires |blanks| == |ts|
  {
    if ts == [] then [] else blanks[0] + (Body(ts[0]) + Laid(ts[1..], blanks[1..]))
  }

  function LexemesOf(ts: seq<Token>, blanks: seq<string>): (r: seq<Lexeme>)
    requires |blanks| == |ts|
    ensures |r| == |ts| && Tokens(r) == ts
  {
    seq(|ts|, i requires 0 <= i < |ts| => Lexeme(|blanks[i]|, ts[i]))
  }

  predicate Holds(text: string, pos: nat, part: string) {
    pos + |part| <= |text| && text[pos..pos + |part|] == part
  }

  lemma HoldsSplit(text: string, pos: nat, a: string, b: string)
    requires Holds(text, pos, a + b)
    ensures Holds(text, pos, a) && Holds(text, pos + |a|, b)
    ensures forall j :: pos <= j < pos + |a| ==> text[j] == a[j - pos]
  {
    var s := text[pos..pos + |a + b|];
    assert text[pos..pos + |a|] == s[..|a|] == a;
    assert text[pos + |a|..pos + |a| + |b|] == s[|a|..] == b;
    assert forall j :: pos <= j < pos + |a| ==> text[j] == text[pos..pos + |a|][j - pos];
  }

  lemma BlanksHeld(text: string, pos: nat, blanks: string, rest: string)
    requires Holds(text, pos, blanks + rest) && Blank(blanks)
    ensures BlanksAt(text, pos, pos + |blanks|) && Holds(text, pos + |blanks|, rest)
  {
    HoldsSplit(text, pos, blanks, rest);
  }

  lemma TokenHeld(text: string, pos: nat, t: Token, rest: string)
    requires Holds(text, pos, Body(t) + rest) && TokenOk(t)
    ensures TokenAt(text, pos, t) && Holds(text, pos + Size(t), rest)
  {
    HoldsSplit(text, pos, Body(t), rest);
    if t.Str? {
      assert Body(t)[1 + |t.raw|] == '"';
      assert text[pos + 1 + |t.raw|] == '"';
    }
  }

  lemma {:induction false} LaidIsAt(text: string, pos: nat, end: nat, ts: seq<Token>, blanks: seq<string>,
                                    trail: string)
    requires |blanks| == |ts| && Blanks(blanks) && Blank(trail) && TokensOk(ts)
    requires Holds(text, pos, Laid(ts, blanks) + trail) && end == pos + |Laid(ts, blanks) + trail|
    ensures At(text, pos, end, LexemesOf(ts, blanks))
    decreases ts
  {
    if ts == [] {
      TrailHeld(text, pos, trail);
    } else {
      LayoutTail(ts, blanks);
      var rest := Laid(ts[1..], blanks[1..]) + trail;
      FirstLaid(text, pos, ts, blanks, trail, rest);
      LaidIsAt(text, pos + |blanks[0]| + Size(ts[0]), end, ts[1..], blanks[1..], trail);
      LaidCons(text, pos, end, ts, blanks);
    }
  }

  lemma TrailHeld(text: string, pos: nat, trail: string)
    requires Holds(text, pos, [] + trail) && Blank(trail)
    ensures BlanksAt(text, pos, pos + |trail|)
  {
    assert [] + trail == trail + [];
    BlanksHeld(text, pos, trail, []);
  }

  lemma LayoutTail(ts: seq<Token>, blanks: seq<string>)
    requires |blanks| == |ts| && ts != [] && Blanks(blanks) && TokensOk(ts)
    ensures Blank(blanks[0]) && TokenOk(ts[0]) && Blanks(blanks[1..]) && TokensOk(ts[1..])
  {
  }

  lemma LaidCons(text: string, pos: nat, end: nat, ts: seq<Token>, blanks: seq<string>)
    requires |blanks| == |ts| && ts != [] && LexemeAt(text, pos, Lexeme(|blanks[0]|, ts[0]))
    requires At(text, pos + |blanks[0]| + Size(ts[0]), end, LexemesOf(ts[1..], blanks[1..]))
    ensures At(text, pos, end, LexemesOf(ts, blanks))
  {
    LexemesSplit(ts, blanks);
  }

  lemma LexemesSplit(ts: seq<Token>, blanks: seq<string>)
    requires |blanks| == |ts| && ts != []
    ensures LexemesOf(ts, blanks)[0] == Lexeme(|blanks[0]|, ts[0])
    ensures LexemesOf(ts, blanks)[1..] == LexemesOf(ts[1..], blanks[1..])
  {
  }

  lemma LaidSplit(ts: seq<Token>, blanks: seq<string>, trail: string)
    requires |blanks| == |ts| && ts != []
    ensures Laid(ts, blanks) + trail == blanks[0] + (Body(ts[0]) + (Laid(ts[1..], blanks[1..]) + trail))
  {
  }

  lemma LexemeHeld(text: string, pos: nat, blanks: string, t: Token, rest: string)
    requires Holds(text, pos, blanks + (Body(t) + rest)) && Blank(blanks) && TokenOk(t)
    ensures LexemeAt(text, pos, Lexeme(|blanks|, t)) && Holds(text, pos + |blanks| + Size(t), rest)
  {
    BlanksHeld(text, pos, blanks, Body(t) + rest);
    TokenHeld(text, pos + |blanks|, t, rest);
  }

  lemma FirstLaid(text: string, pos: nat, ts: seq<Token>, blanks: seq<string>, trail: string, rest: string)
    requires |blanks| == |ts| && ts != [] && Blank(blanks[0]) && TokenOk(ts[0])
    requires rest == Laid(ts[1..], blanks[1..]) + trail && Holds(text, pos, Laid(ts, blanks) + trail)
    ensures LexemeAt(text, pos, Lexeme(|blanks[0]|, ts[0]))
    ensures Holds(text, pos + |blanks[0]| + Size(ts[0]), rest)
    ensures |Laid(ts, blanks) + trail| == |blanks[0]| + Size(ts[0]) + |rest|
  {
    LaidSplit(ts, blanks, trail);
    LexemeHeld(text, pos, blanks[0], ts[0], rest);
  }

  lemma {:induction false} LaidIsText(ts: seq<Token>, blanks: seq<string>)
    requires |blanks| == |ts| && Blanks(blanks) && TokensOk(ts)
    ensures IsText(Laid(ts, blanks))
  {
    if ts != [] {
      assert Blank(blanks[0]) && TokenOk(ts[0]);
      LaidIsText(ts[1..], blanks[1..]);
    }
  }

  lemma {:induction false} FieldsTokensOk(fs: seq<Field>)
    requires FieldsOk(fs)
    ensures TokensOk(FieldsTokens(fs))
  {
    if fs != [] {
      assert FieldOk(fs[0]);
      FieldsTokensOk(fs[1..]);
      assert TokensOk(FirstField(fs));
    }
  }

  lemma {:induction false} EntriesTokensOk(es: seq<Entry>)
    requires EntriesOk(es)
    ensures TokensOk(EntriesTokens(es))
  {
    if es != [] {
      assert EntryOk(es[0]);
      FieldsTokensOk(es[0].fields);
      EntriesTokensOk(es[1..]);
      assert TokensOk(EntryTokens(es[0]));
      assert TokensOk(FirstEntry(es));
    }
  }

  /** A registry as JSON text, with any blanks before each token and at the end. */
  function Json(es: seq<Entry>, blanks: seq<string>, trail: string): string
    requires |blanks| == |Registry(es)|
  {
    Laid(Registry(es), blanks) + trail
  }

  lemma RegistryTokensOk(es: seq<Entry>)
    requires EntriesOk(es)
    ensures TokensOk(Registry(es))
  {
    EntriesTokensOk(es);
  }

  /** The text consists of the registry's tokens, whatever stands behind it. */
  lemma JsonIsAt(es: seq<Entry>, blanks: seq<string>, trail: string, after: string) returns (ls: seq<Lexeme>)
    requires EntriesOk(es) && IsText(after)
    requires |blanks| == |Registry(es)| && Blanks(blanks) && Blank(trail)
    ensures var json := Json(es, blanks, trail);
            IsText(json + after) && At(json + after, 0, |json|, ls) && Tokens(ls) == Registry(es)
  {
    var ts, json := Registry(es), Json(es, blanks, trail);
    RegistryTokensOk(es);
    LaidIsText(ts, blanks);
    assert Holds(json + after, 0, json);
    LaidIsAt(json + after, 0, |json|, ts, blanks, trail);
    ls := LexemesOf(ts, blanks);
  }

  /**
   * Any registry, in any layout, with anything behind it in memory: for a code that is clear in it, the lookup gives
   * what it holds.
   */
  lemma RegistryAnswers(es: seq<Entry>, blanks: seq<string>, trail: string, after: string, code: nat)
    requires EntriesOk(es) && Clear(es, code) && code > 0 && IsText(after)
    requires |blanks| == |Registry(es)| && Blanks(blanks) && Blank(trail)
    ensures IsText(Json(es, blanks, trail) + after)
    ensures LookedUp(Json(es, blanks, trail) + after, |Json(es, blanks, trail)|, code) == Expected(es, code)
  {
    var ls := JsonIsAt(es, blanks, trail, after);
    LookupIsExpected(Json(es, blanks, trail) + after, |Json(es, blanks, trail)|, ls, es, code);
  }

  lemma RecordEntriesOk(rs: seq<Record>)
    requires RecordsOk(rs)
    ensures EntriesOk(RecordEntries(rs))
  {
    forall i | 0 <= i < |rs| ensures EntryOk(RecordEntries(rs)[i]) {
      RecordFieldsOk(rs[i]);
      DecimalIsWord(rs[i].code);
      WordIsRaw(Versions.Decimal(rs[i].code));
    }
  }

  lemma ExpectedRecord(rs: seq<Record>, i: nat)
    requires RecordsOk(rs) && EntriesOk(RecordEntries(rs)) && i < |rs|
    ensures Expected(RecordEntries(rs), rs[i].code)
              == Info(rs[i].code, true, rs[i].name, rs[i].description, rs[i].solution)
  {
    FieldsOfRecord(rs, rs[i].code, i);
    RecordReadsBack(rs[i]);
  }

  /** Printing records and looking a code up gives exactly its record, or "unknown" when there is none. */
  lemma PrintedRecordsReadBack(rs: seq<Record>, blanks: seq<string>, trail: string, after: string, code: nat)
    requires RecordsOk(rs) && code > 0 && IsText(after)
    requires |blanks| == |Registry(RecordEntries(rs))| && Blanks(blanks) && Blank(trail)
    ensures IsText(Json(RecordEntries(rs), blanks, trail) + after)
    ensures var json := Json(RecordEntries(rs), blanks, trail);
            && (forall i :: 0 <= i < |rs| && rs[i].code == code ==>
                  LookedUp(json + after, |json|, code)
                    == Info(code, true, rs[i].name, rs[i].description, rs[i].solution))
            && ((forall i :: 0 <= i < |rs| ==> rs[i].code != code)
                ==> LookedUp(json + after, |json|, code) == Unknown(code))
  {
    RecordEntriesOk(rs);
    RecordsClear(rs, code);
    RegistryAnswers(RecordEntries(rs), blanks, trail, after, code);
    forall i | 0 <= i < |rs| && rs[i].code == code
      ensures Expected(RecordEntries(rs), code) == Info(code, true, rs[i].name, rs[i].description, rs[i].solution) {
      ExpectedRecord(rs, i);
    }
    if forall i :: 0 <= i < |rs| ==> rs[i].code != code {
      NoRecord(rs, code);
    }
  }
}
