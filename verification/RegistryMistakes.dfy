// A registry for which source/upnp_error_codes.c, lines 182-215, takes a field for a code.

module RegistryMistakes {
  import opened CStrings
  import opened UpnpJson
  import opened JsonLexemes
  import opened RegistryTokens
  import opened UpnpRegistry
  import opened RegistryText
  import Versions

  // ---- When the lookup stops at the right key ----

  lemma {:induction false} OffsetGrows(ls: seq<Lexeme>, m: nat, n: nat)
    requires m < n <= |ls|
    ensures Offset(ls, m) < Offset(ls, n)
    decreases n
  {
    OffsetMore(ls, n - 1);
    if m < n - 1 {
      OffsetGrows(ls, m, n - 1);
    }
  }

  /** The search for the key stops at the colon behind lexeme `n`. */
  predicate StopsBehind(text: string, end: nat, ls: seq<Lexeme>, key: string, n: nat)
    requires end <= |text| && n + 2 <= |ls|
  {
    var colon := KeyColon(text, 0, end, Quoted(key));
    colon.Some? && colon.value + 1 == Offset(ls, n + 2)
  }

  /**
   * The search for a key that an entry answers stops behind that entry's key if and only if no field in front of it
   * answers too.
   */
  lemma StopsAtEntryIff(text: string, end: nat, ls: seq<Lexeme>, es: seq<Entry>, key: string) returns (n: nat)
    requires end <= |text| && At(text, 0, end, ls) && Tokens(ls) == Registry(es) && IsWord(key)
    requires FieldsOf(es, Answering(key)).Some?
    ensures n == 1 + EntryIndex(es, Answering(key)) && n + 2 <= |ls|
    ensures StopsBehind(text, end, ls, key, n) <==> Unambiguous(es, Answering(key))
  {
    var first;
    n, first := FirstKeyHit(Tokens(ls), es, Answering(key));
    StopsBehindFirst(text, end, ls, key, first, n);
  }

  lemma StopsBehindFirst(text: string, end: nat, ls: seq<Lexeme>, key: string, first: nat, n: nat)
    requires end <= |text| && At(text, 0, end, ls) && IsWord(key) && first <= n && IsHit(Tokens(ls), n, Answering(key))
    requires IsHit(Tokens(ls), first, Answering(key)) && Avoids(Tokens(ls), first, Answering(key))
    ensures n + 2 <= |ls| && (StopsBehind(text, end, ls, key, n) <==> first == n)
  {
    StopsBehindHit(text, end, ls, key, first);
    StopsOnce(text, end, ls, key, first, n);
  }

  lemma StopsBehindHit(text: string, end: nat, ls: seq<Lexeme>, key: string, n: nat)
    requires end <= |text| && At(text, 0, end, ls) && IsWord(key)
    requires IsHit(Tokens(ls), n, Answering(key)) && Avoids(Tokens(ls), n, Answering(key))
    ensures n + 2 <= |ls| && StopsBehind(text, end, ls, key, n)
  {
    HitLexeme(ls, n, key);
    var colon := ColonOfHit(text, end, ls, n, key);
  }

  lemma StopsOnce(text: string, end: nat, ls: seq<Lexeme>, key: string, m: nat, n: nat)
    requires end <= |text| && m <= n && n + 2 <= |ls| && StopsBehind(text, end, ls, key, m)
    ensures StopsBehind(text, end, ls, key, n) <==> m == n
  {
    if m < n {
      OffsetGrows(ls, m + 2, n + 2);
    }
  }

  // ---- A family of registries where it does not ----

  /** A field whose key answers the code, in front of another entry. */
  function Ambiguous(first: string, f: Field, second: Entry, more: seq<Entry>): seq<Entry> {
    [Entry(first, [f]), second] + more
  }

  function TokensBefore(first: string, f: Field, second: Entry): seq<Token> {
    [Mark('{'), Str(first), Mark(':'), Mark('{'), Str(f.key), Mark(':'), Str(f.raw), Mark('}'), Mark(','),
     Str(second.key), Mark(':'), Mark('{')]
  }

  lemma FirstEntryTokens(first: string, f: Field, second: Entry, more: seq<Entry>)
    ensures FirstEntry(Ambiguous(first, f, second, more))
              == [Str(first), Mark(':'), Mark('{'), Str(f.key), Mark(':'), Str(f.raw), Mark('}'), Mark(',')]
  {
    assert [f][1..] == [];
    assert FieldsTokens([f]) == [Str(f.key), Mark(':'), Str(f.raw)];
  }

  lemma SecondEntryTokens(rest: seq<Entry>, second: Entry) returns (tail: seq<Token>)
    requires rest != [] && rest[0] == second
    ensures EntriesTokens(rest) + [Mark('}')]
              == [Str(second.key), Mark(':'), Mark('{')] + (FieldsTokens(second.fields) + [Mark('}')]) + tail
  {
    var sep := if |rest| == 1 then [] else [Mark(',')];
    tail := sep + (EntriesTokens(rest[1..]) + [Mark('}')]);
    EntriesSplit(rest, [Mark('}')]);
    Regroup([Str(second.key), Mark(':'), Mark('{')] + (FieldsTokens(second.fields) + [Mark('}')]), sep,
            EntriesTokens(rest[1..]) + [Mark('}')]);
  }

  lemma InFront<T>(a: seq<T>, b: seq<T>, c: seq<T>, d: seq<T>, e: seq<T>)
    ensures a + (b + (c + d + e)) == a + b + c + (d + e)
  {
  }

  lemma SplitAt<T>(ts: seq<T>, before: seq<T>, body: seq<T>, tail: seq<T>)
    requires ts == before + (body + tail)
    ensures ts[..|before|] == before && |before| + |body| <= |ts| && ts[|before|..][..|body|] == body
  {
    assert ts[|before|..] == body + tail;
  }

  /** The first twelve tokens, and the object that follows. */
  lemma AmbiguousTokens(ts: seq<Token>, first: string, f: Field, second: Entry, more: seq<Entry>)
    requires ts == Registry(Ambiguous(first, f, second, more))
    ensures |ts| > 12 && ts[..12] == TokensBefore(first, f, second)
    ensures Follows(ts, 12, FieldsTokens(second.fields) + [Mark('}')])
  {
    var es := Ambiguous(first, f, second, more);
    assert es[1..][0] == second;
    var tail := SecondEntryTokens(es[1..], second);
    FirstEntryTokens(first, f, second, more);
    EntriesSplit(es, [Mark('}')]);
    var before, body := TokensBefore(first, f, second), FieldsTokens(second.fields) + [Mark('}')];
    InFront([Mark('{')], FirstEntry(es), [Str(second.key), Mark(':'), Mark('{')], body, tail);
    assert before == [Mark('{')] + FirstEntry(es) + [Str(second.key), Mark(':'), Mark('{')];
    SplitAt(ts, before, body, tail);
  }

  lemma AmbiguousLexemes(ls: seq<Lexeme>, first: string, f: Field, second: Entry, more: seq<Entry>)
    requires Tokens(ls) == Registry(Ambiguous(first, f, second, more))
    ensures |ls| > 12 && Tokens(ls)[..12] == TokensBefore(first, f, second)
    ensures forall i :: 0 <= i < 12 ==> ls[i].token == TokensBefore(first, f, second)[i]
    ensures IsObjectTail(ls[12..], second.fields)
  {
    var ts, body := Tokens(ls), FieldsTokens(second.fields) + [Mark('}')];
    AmbiguousTokens(ts, first, f, second, more);
    forall i | 0 <= i < 12 ensures ls[i].token == TokensBefore(first, f, second)[i] {
      assert ts[..12][i] == ts[i] == ls[i].token;
    }
    assert Tokens(ls[12..])[0..][..|body|] == ts[12..][..|body|];
  }

  lemma FieldIsHit(ls: seq<Lexeme>, first: string, f: Field, second: Entry, key: string)
    requires |ls| > 12 && Tokens(ls)[..12] == TokensBefore(first, f, second)
    requires Answers(f.key, key) && !Answers(first, key)
    ensures IsKeyLexeme(ls, 4, key) && Avoids(Tokens(ls), 4, Answering(key))
  {
    FieldTokenIsHit(Tokens(ls), first, f, second, Answering(key));
    HitLexeme(ls, 4, key);
  }

  lemma FieldTokenIsHit(ts: seq<Token>, first: string, f: Field, second: Entry, hit: string -> bool)
    requires |ts| > 12 && ts[..12] == TokensBefore(first, f, second) && hit(f.key) && !hit(first)
    ensures IsHit(ts, 4, hit) && Avoids(ts, 4, hit)
  {
    var before := TokensBefore(first, f, second);
    assert forall i :: 0 <= i < 6 ==> ts[i] == ts[..12][i] == before[i];
  }

  lemma NoBraceBehindField(ls: seq<Lexeme>, first: string, f: Field, second: Entry)
    requires |ls| > 12 && forall i :: 0 <= i < 12 ==> ls[i].token == TokensBefore(first, f, second)[i]
    requires '{' !in f.raw && '{' !in second.key
    ensures ls[6..][5].token == Mark('{') && forall i :: 0 <= i < 5 ==> NoOpenBrace(ls[6..][i].token)
  {
    assert ls[6].token == Str(f.raw) && ls[7].token == Mark('}') && ls[8].token == Mark(',');
    assert ls[9].token == Str(second.key) && ls[10].token == Mark(':') && ls[11].token == Mark('{');
  }

  /** The lookup stops at the field and reads the object of the next entry instead. */
  lemma FieldTakenForCode(text: string, end: nat, ls: seq<Lexeme>, first: string, f: Field, second: Entry,
                          more: seq<Entry>, code: nat)
    requires IsText(text) && end <= |text| && At(text, 0, end, ls) && code > 0
    requires Tokens(ls) == Registry(Ambiguous(first, f, second, more)) && FieldsOk(second.fields)
             && ThreeKeysClear(second.fields)
    requires Answers(f.key, Versions.Decimal(code)) && !Answers(first, Versions.Decimal(code))
    requires '{' !in f.raw && '{' !in second.key
    ensures LookedUp(text, end, code) == ExpectedIn(second.fields, code)
  {
    DecimalIsWord(code);
    FieldTakenForKey(text, end, ls, first, f, second, more, Versions.Decimal(code), code);
  }

  lemma FieldTakenForKey(text: string, end: nat, ls: seq<Lexeme>, first: string, f: Field, second: Entry,
                         more: seq<Entry>,
                         key: string, code: nat)
    requires IsText(text) && end <= |text| && At(text, 0, end, ls) && IsWord(key)
    requires Tokens(ls) == Registry(Ambiguous(first, f, second, more)) && FieldsOk(second.fields)
             && ThreeKeysClear(second.fields)
    requires Answers(f.key, key) && !Answers(first, key) && '{' !in f.raw && '{' !in second.key
    ensures InfoAt(text, end, Quoted(key), code) == ExpectedIn(second.fields, code)
  {
    AmbiguousLexemes(ls, first, f, second, more);
    FieldIsHit(ls, first, f, second, key);
    NoBraceBehindField(ls, first, f, second);
    assert ls[6..][6..] == ls[12..];
    HitLeadsToObject(text, end, ls, second.fields, key, code);
  }

  lemma HitLeadsToObject(text: string, end: nat, ls: seq<Lexeme>, fs: seq<Field>, key: string, code: nat)
    requires IsText(text) && end <= |text| && At(text, 0, end, ls) && IsWord(key) && |ls| > 12
    requires IsKeyLexeme(ls, 4, key) && Avoids(Tokens(ls), 4, Answering(key))
    requires ls[6..][5].token == Mark('{') && forall i :: 0 <= i < 5 ==> NoOpenBrace(ls[6..][i].token)
    requires IsObjectTail(ls[6..][6..], fs) && FieldsOk(fs) && ThreeKeysClear(fs)
    ensures InfoAt(text, end, Quoted(key), code) == ExpectedIn(fs, code)
  {
    var colon := ColonOfHit(text, end, ls, 4, key);
    InfoBehindColon(text, colon, end, ls[6..], 5, fs, code);
  }

  const ALPHA := Record(402, "a", "a", "a")
  const BETA := Record(501, "b", "b", "b")

  /** Code 401 has a field "501"; codes 402 and 501 have their texts. */
  const MISLEADING: seq<Entry> := Ambiguous(Versions.Decimal(401), Field(Versions.Decimal(501), "x"),
                                            RecordEntry(ALPHA), [RecordEntry(BETA)])

  lemma MisleadingOk()
    ensures EntriesOk(MISLEADING) && FieldsOk(RecordEntry(ALPHA).fields) && FieldsOk(RecordEntry(BETA).fields)
  {
    RecordEntriesOk([ALPHA, BETA]);
    assert RecordEntries([ALPHA, BETA])[0] == RecordEntry(ALPHA)
           && RecordEntries([ALPHA, BETA])[1] == RecordEntry(BETA);
    assert EntryOk(RecordEntry(ALPHA)) && EntryOk(RecordEntry(BETA));
    DecimalIsWord(401);
    DecimalIsWord(501);
    WordIsRaw(Versions.Decimal(401));
    WordIsRaw(Versions.Decimal(501));
    assert RawOk("x");
    assert EntryOk(Entry(Versions.Decimal(401), [Field(Versions.Decimal(501), "x")]));
  }

  lemma MisleadingHolds()
    requires EntriesOk(MISLEADING)
    ensures Expected(MISLEADING, 501) == Info(501, true, "b", "b", "b")
  {
    var hit := Exactly(Versions.Decimal(501));
    DecimalsDiffer(401, 501);
    DecimalsDiffer(402, 501);
    assert MISLEADING[1..][1..][0] == RecordEntry(BETA) && MISLEADING[1..][0] == RecordEntry(ALPHA);
    assert FieldsOf(MISLEADING[1..][1..], hit) == Some(RecordEntry(BETA).fields);
    assert FieldsOf(MISLEADING, hit) == FieldsOf(MISLEADING[1..], hit) == FieldsOf(MISLEADING[1..][1..], hit);
    RecordReadsBack(BETA);
  }

  /**
   * In every layout of that registry, looking up 501 gives the texts of 402, though the registry holds others for it.
   */
  lemma WrongTextsFor501(blanks: seq<string>, trail: string, after: string)
    requires IsText(after) && |blanks| == |Registry(MISLEADING)| && Blanks(blanks) && Blank(trail)
    ensures EntriesOk(MISLEADING) && IsText(Json(MISLEADING, blanks, trail) + after)
    ensures var json := Json(MISLEADING, blanks, trail);
            LookedUp(json + after, |json|, 501) == Info(501, true, "a", "a", "a") != Expected(MISLEADING, 501)
  {
    MisleadingOk();
    MisleadingHolds();
    var ls := JsonIsAt(MISLEADING, blanks, trail, after);
    MisleadingLookup(Json(MISLEADING, blanks, trail) + after, |Json(MISLEADING, blanks, trail)|, ls);
  }

  lemma MisleadingLookup(text: string, end: nat, ls: seq<Lexeme>)
    requires IsText(text) && end <= |text| && At(text, 0, end, ls) && Tokens(ls) == Registry(MISLEADING)
    ensures LookedUp(text, end, 501) == Info(501, true, "a", "a", "a")
  {
    MisleadingOk();
    MisleadingKeys();
    FieldTakenForCode(text, end, ls, Versions.Decimal(401), Field(Versions.Decimal(501), "x"), RecordEntry(ALPHA),
                      [RecordEntry(BETA)], 501);
    AlphaTexts();
  }

  lemma AlphaTexts()
    ensures FieldsOk(RecordEntry(ALPHA).fields)
    ensures ExpectedIn(RecordEntry(ALPHA).fields, 501) == Info(501, true, "a", "a", "a")
  {
    assert RecordEntry(ALPHA).fields == RecordEntry(Record(501, "a", "a", "a")).fields;
    RecordReadsBack(Record(501, "a", "a", "a"));
  }

  lemma MisleadingKeys()
    ensures Answers(Versions.Decimal(501), Versions.Decimal(501))
            && !Answers(Versions.Decimal(401), Versions.Decimal(501))
    ensures '{' !in RecordEntry(ALPHA).key && ThreeKeysClear(RecordEntry(ALPHA).fields)
  {
    SelfAnswers(Versions.Decimal(501));
    DecimalIsWord(401);
    WordsAnswer(Versions.Decimal(401), Versions.Decimal(501));
    DecimalsDiffer(401, 501);
    DecimalIsWord(402);
    RecordNames(ALPHA);
    NamesClear(RecordEntry(ALPHA).fields, "name");
    NamesClear(RecordEntry(ALPHA).fields, "description");
    NamesClear(RecordEntry(ALPHA).fields, "solution");
  }
}
