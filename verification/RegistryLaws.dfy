// source/upnp_error_codes.c: blanks, escapes, buffer sizes and fixed texts of the registry lookup, written out.

module RegistryLaws {
  import opened CStrings
  import opened UpnpJson
  import opened JsonLexemes
  import opened RegistryTokens
  import opened UpnpRegistry
  import Versions

  // ---- Blanks ----

  /** The scan passes over the whitespace of RFC 8259, section 2, and over nothing else. */
  lemma ScanSkipsWhitespace(text: string, p: nat, end: nat)
    requires p < end <= |text|
    ensures text[p] == ' ' || text[p] == '\t' || text[p] == '\n' || text[p] == '\r' ==>
              SkipBlanks(text, p, end) == SkipBlanks(text, p + 1, end)
    ensures text[p] !in " \t\n\r" ==> SkipBlanks(text, p, end) == p
  {
    var blanks := " \t\n\r";
    assert blanks[0] == ' ' && blanks[1] == '\t' && blanks[2] == '\n' && blanks[3] == '\r';
  }

  // ---- Escapes ----

  /** `\n`, `\r` and `\t` are the control characters; any other escaped character is itself. */
  lemma EscapesAre(c: char, rest: string)
    ensures Unescaped("\\n" + rest) == "\n" + Unescaped(rest)
    ensures Unescaped("\\r" + rest) == "\r" + Unescaped(rest)
    ensures Unescaped("\\t" + rest) == "\t" + Unescaped(rest)
    ensures c !in "nrt" ==> Unescaped("\\" + [c] + rest) == [c] + Unescaped(rest)
  {
    OneEscape('n', rest);
    OneEscape('r', rest);
    OneEscape('t', rest);
    OneEscape(c, rest);
    assert "\\n" == "\\" + ['n'] && "\\r" == "\\" + ['r'] && "\\t" == "\\" + ['t'];
    var letters := "nrt";
    assert letters[0] == 'n' && letters[1] == 'r' && letters[2] == 't';
  }

  lemma OneEscape(c: char, rest: string)
    ensures Unescaped("\\" + [c] + rest) == [Unescape(c)] + Unescaped(rest)
  {
    var raw := "\\" + [c] + rest;
    assert raw[0] == '\\' && raw[1] == c && raw[2..] == rest;
  }

  /** Any other character stands for itself. */
  lemma PlainCharacterIs(c: char, rest: string)
    requires c != '\\'
    ensures Unescaped([c] + rest) == [c] + Unescaped(rest)
  {
    assert ([c] + rest)[1..] == rest;
  }

  // ---- Results ----

  /** A code that is not positive is answered without looking at the registry. */
  lemma NoCodeIsAnswered(text: string, end: nat, code: int)
    requires end <= |text| && IsText(text) && code <= 0
    ensures LookedUp(text, end, code)
              == Info(code, false, "No UPnP error code", "The router did not return a UPnP SOAP error code.",
                      "Check the router connection and UPnP status.")
  {
  }

  /** A code that nothing in the registry answers. */
  lemma UnknownIsAnswered(es: seq<Entry>, code: nat)
    requires EntriesOk(es) && FieldsOf(es, Exactly(Versions.Decimal(code))) == None
    ensures Expected(es, code)
              == Info(code, false, "Unknown UPnP error",
                      "The router returned a UPnP error code that is not yet in the registry.",
                      "Check the router documentation or add this code to upnp_error_codes.json.")
  {
  }

  /** A field is there with at most so many characters. */
  predicate HasText(fs: seq<Field>, key: string, most: nat) {
    ValueOf(fs, Exactly(key)).Some? && |Unescaped(ValueOf(fs, Exactly(key)).value)| <= most
  }

  lemma TextShownIff(fs: seq<Field>, key: string, most: nat)
    requires FieldsOk(fs)
    ensures FieldText(fs, Exactly(key), most + 1).Some? <==> HasText(fs, key, most)
  {
  }

  lemma InfoKnownIff(name: Option<string>, description: Option<string>, solution: Option<string>, code: nat)
    ensures InfoOf(name, description, solution, code).known <==> name.Some? && description.Some? && solution.Some?
  {
  }

  lemma NotKnownIsUnknown(name: Option<string>, description: Option<string>, solution: Option<string>, code: nat)
    requires !InfoOf(name, description, solution, code).known
    ensures InfoOf(name, description, solution, code) == Unknown(code)
  {
  }

  /**
   * An object is shown if and only if it has all three texts and they leave room for a NUL: 63, 255 and 255
   * characters.
   */
  lemma ShownIff(fs: seq<Field>, code: nat)
    requires FieldsOk(fs)
    ensures ExpectedIn(fs, code).known <==>
              HasText(fs, "name", 63) && HasText(fs, "description", 255) && HasText(fs, "solution", 255)
    ensures !ExpectedIn(fs, code).known ==> ExpectedIn(fs, code) == Unknown(code)
  {
    TextShownIff(fs, "name", 63);
    TextShownIff(fs, "description", 255);
    TextShownIff(fs, "solution", 255);
    var name, description := FieldText(fs, Exactly("name"), 64), FieldText(fs, Exactly("description"), 256);
    var solution := FieldText(fs, Exactly("solution"), 256);
    InfoKnownIff(name, description, solution, code);
    if !ExpectedIn(fs, code).known {
      NotKnownIsUnknown(name, description, solution, code);
    }
  }
}
